/**
 * `generateG85`: from the in-memory wafer map back to text. `Emit` is the
 * element tree the generator writes (which attributes, which rows, in which
 * order); `Render` is the exact text it writes for that tree. No value is
 * escaped, so the text is well-formed XML only when the values are (`Safe`);
 * `ReadBack` is what an XML parser makes of such text.
 */
module G85Generate {
  import opened Common
  import opened JsText
  import opened Dom
  import opened G85Model

  /** An attribute as written: name and value text. */
  type Attr = (string, string)

  /** The element tree `generateG85` writes, child by child. */
  datatype Emitted = Emitted(
    mapAttrs: seq<Attr>,
    deviceAttrs: seq<Attr>,
    refDevice: Option<seq<Attr>>,
    bins: seq<seq<Attr>>,
    rows: seq<string>)

  /** `parseInt(mapData.header.Rows)` used as a loop bound. */
  function RowCount(h: Header): nat
  {
    LoopBound(ParseInt(Text(HeaderValue(h, "Rows"))))
  }

  /** `parseInt(mapData.header.Columns)` used as a loop bound. */
  function ColumnCount(h: Header): nat
  {
    LoopBound(ParseInt(Text(HeaderValue(h, "Columns"))))
  }

  /** `mapData.dies.get(`${x},${y}`) || 'FF'`: a missing (or empty) code is filled with "FF". */
  function Cell(dies: map<Coord, string>, x: nat, y: nat): (c: string)
    ensures (x, y) !in dies ==> c == FillCode
    ensures (x, y) in dies && dies[(x, y)] != "" ==> c == dies[(x, y)]
  {
    if (x, y) in dies && dies[(x, y)] != "" then dies[(x, y)] else FillCode
  }

  /** The payload of row y: the cells of columns 0 .. cols-1 concatenated. */
  function RowPayload(dies: map<Coord, string>, cols: nat, y: nat): string
    decreases cols
  {
    if cols == 0 then "" else RowPayload(dies, cols - 1, y) + Cell(dies, cols - 1, y)
  }

  /** When every cell of the row is two characters long, the payload is exactly 2·cols long. */
  lemma {:induction false} RowPayloadLength(dies: map<Coord, string>, cols: nat, y: nat)
    requires forall x :: 0 <= x < cols ==> |Cell(dies, x, y)| == 2
    ensures |RowPayload(dies, cols, y)| == 2 * cols
    decreases cols
  {
    if cols > 0 {
      RowPayloadLength(dies, cols - 1, y);
    }
  }

  /** The header entries whose value is neither null nor undefined, in header order. */
  function DeviceAttrs(h: Header): (r: seq<Attr>)
    ensures forall a :: a in r <==> (a.0, Some(a.1)) in h
    ensures |r| <= |h|
    decreases |h|
  {
    if |h| == 0 then []
    else
      var rest := DeviceAttrs(h[1..]);
      assert forall e :: e in h <==> e == h[0] || e in h[1..];
      match h[0].1
      case Some(v) => [(h[0].0, v)] + rest
      case None => rest
  }

  /** A Bin element: the code as interpolated, "" for a falsy quality or description, "0" for a falsy count. */
  function EmitBin(b: BinDef): seq<Attr>
  {
    [("BinCode", Text(b.binCode)),
     ("BinQuality", OrElse(b.binQuality, "")),
     ("BinDescription", OrElse(b.binDescription, "")),
     ("BinCount", OrElse(b.binCount, "0"))]
  }

  function EmitBins(bins: seq<BinDef>): (r: seq<seq<Attr>>)
    ensures |r| == |bins|
    ensures forall i :: 0 <= i < |r| ==> r[i] == EmitBin(bins[i])
  {
    seq(|bins|, i requires 0 <= i < |bins| => EmitBin(bins[i]))
  }

  /** The payloads of rows 0 .. rows-1. */
  function EmitRows(dies: map<Coord, string>, rows: nat, cols: nat): (r: seq<string>)
    ensures |r| == rows
    ensures forall y :: 0 <= y < rows ==> r[y] == RowPayload(dies, cols, y)
  {
    seq(rows, y requires 0 <= y < rows => RowPayload(dies, cols, y))
  }

  function EmitMapAttrs(a: MapAttributes): seq<Attr>
  {
    [("SubstrateNumber", OrElse(a.substrateNumber, "")),
     ("SubstrateType", OrElse(a.substrateType, "")),
     ("SubstrateId", OrElse(a.substrateId, "")),
     ("FormatRevision", OrElse(a.formatRevision, "1.0"))]
  }

  function EmitRefDevice(r: RefDevice): seq<Attr>
  {
    [("ReferenceDeviceX", Text(r.referenceDeviceX)), ("ReferenceDeviceY", Text(r.referenceDeviceY))]
  }

  /** The tree `generateG85` writes, child by child in document order. */
  function Emit(m: MapData): Emitted
  {
    var refDevice := if m.referenceDevice.Some? then Some(EmitRefDevice(m.referenceDevice.value)) else None;
    Emitted(EmitMapAttrs(m.mapAttributes), DeviceAttrs(m.header), refDevice, EmitBins(m.bins),
            EmitRows(m.dies, RowCount(m.header), ColumnCount(m.header)))
  }

  // ---------------------------------------------------------------------------
  // The text

  const XmlDeclaration: string := "<?xml version=\"1.0\" encoding=\"UTF-8\"?>\n"

  /** `name="value"`, with nothing escaped. */
  function AttrText(a: Attr): string
  {
    a.0 + "=\"" + a.1 + "\""
  }

  /** Attributes each followed by one space, as the Device, ReferenceDevice and Bin lines write them. */
  function AttrsText(attrs: seq<Attr>): string
    decreases |attrs|
  {
    if |attrs| == 0 then "" else AttrText(attrs[0]) + " " + AttrsText(attrs[1..])
  }

  /** Attributes separated by single spaces, as the Map start tag writes them. */
  function SpacedAttrs(attrs: seq<Attr>): string
    decreases |attrs|
  {
    if |attrs| == 0 then ""
    else if |attrs| == 1 then AttrText(attrs[0])
    else AttrText(attrs[0]) + " " + SpacedAttrs(attrs[1..])
  }

  /** An empty element on a line of its own, indented by two spaces. */
  function EmptyElementLine(tag: string, attrs: seq<Attr>): string
  {
    "  <" + tag + " " + AttrsText(attrs) + "/>\n"
  }

  function RowLine(payload: string): string
  {
    "  <Row><![CDATA[" + payload + "]]></Row>\n"
  }

  function BinLines(bins: seq<seq<Attr>>): string
    decreases |bins|
  {
    if |bins| == 0 then "" else EmptyElementLine("Bin", bins[0]) + BinLines(bins[1..])
  }

  function RowLines(rows: seq<string>): string
    decreases |rows|
  {
    if |rows| == 0 then "" else RowLine(rows[0]) + RowLines(rows[1..])
  }

  /** The exact text written for a tree. */
  function Render(e: Emitted): string
  {
    XmlDeclaration
    + "<Map " + SpacedAttrs(e.mapAttrs) + ">\n"
    + EmptyElementLine("Device", e.deviceAttrs)
    + (match e.refDevice
       case None => ""
       case Some(r) => EmptyElementLine("ReferenceDevice", r))
    + BinLines(e.bins)
    + RowLines(e.rows)
    + "</Map>"
  }

  /** `generateG85`. It never throws: a NaN or negative Rows or Columns just gives no rows or empty rows. */
  function GenerateG85(m: MapData): string
  {
    Render(Emit(m))
  }

  // ---------------------------------------------------------------------------
  // Reading the text back

  /** A character an attribute value may hold and keep when the text is parsed: no quote, `<`, `&` or control character. */
  predicate SafeValueChar(c: char)
  {
    ' ' <= c && c != '"' && c != '<' && c != '&' && c != '\U{FFFE}' && c != '\U{FFFF}'
  }

  /** A character a CDATA section keeps unchanged: no control character but tab and line feed. */
  predicate SafePayloadChar(c: char)
  {
    (' ' <= c || c == '\t' || c == '\n') && c != '\U{FFFE}' && c != '\U{FFFF}'
  }

  /** The G85 attribute names, all plain XML names; a parsed map makes the generator write no others. */
  const AttributeNames: set<string> :=
    (set i | 0 <= i < |HeaderKeys| :: HeaderKeys[i])
    + {"SubstrateNumber", "SubstrateType", "SubstrateId", "FormatRevision",
       "ReferenceDeviceX", "ReferenceDeviceY", "BinCode", "BinQuality", "BinDescription", "BinCount"}

  predicate SafeAttrs(attrs: seq<Attr>)
  {
    && (forall i :: 0 <= i < |attrs| ==> attrs[i].0 in AttributeNames)
    && (forall i :: 0 <= i < |attrs| ==> forall j :: 0 <= j < |attrs[i].1| ==> SafeValueChar(attrs[i].1[j]))
    && (forall i, j :: 0 <= i < j < |attrs| ==> attrs[i].0 != attrs[j].0)
  }

  predicate SafePayload(p: string)
  {
    && (forall j :: 0 <= j < |p| ==> SafePayloadChar(p[j]))
    && (forall j :: 0 <= j < |p| - 2 ==> !(p[j] == ']' && p[j + 1] == ']' && p[j + 2] == '>'))
  }

  predicate SafeBins(bins: seq<seq<Attr>>)
    decreases |bins|
  {
    |bins| == 0 || (SafeAttrs(bins[0]) && SafeBins(bins[1..]))
  }

  predicate SafeRows(rows: seq<string>)
    decreases |rows|
  {
    |rows| == 0 || (SafePayload(rows[0]) && SafeRows(rows[1..]))
  }

  /** The written text is well-formed XML that a parser reads back as the tree it was written from. */
  predicate Safe(e: Emitted)
  {
    && SafeAttrs(e.mapAttrs)
    && SafeAttrs(e.deviceAttrs)
    && (e.refDevice.Some? ==> SafeAttrs(e.refDevice.value))
    && SafeBins(e.bins)
    && SafeRows(e.rows)
  }

  /** A value the generator can write unescaped: null (written as a default or as "null") or text of safe characters. */
  predicate SafeValue(v: Option<string>)
  {
    v.Some? ==> forall j :: 0 <= j < |v.value| ==> SafeValueChar(v.value[j])
  }

  /** A die code that keeps its row's CDATA section intact: no control character and no `]`. */
  predicate SafeCode(c: string)
  {
    forall j :: 0 <= j < |c| ==> SafePayloadChar(c[j]) && c[j] != ']'
  }

  /** Every attribute value and die code of the map can be written without escaping. */
  predicate Writable(m: MapData)
  {
    && SafeValue(m.mapAttributes.substrateNumber) && SafeValue(m.mapAttributes.substrateType)
    && SafeValue(m.mapAttributes.substrateId) && SafeValue(m.mapAttributes.formatRevision)
    && (forall i :: 0 <= i < |m.header| ==> SafeValue(m.header[i].1))
    && (m.referenceDevice.Some? ==>
          SafeValue(m.referenceDevice.value.referenceDeviceX) && SafeValue(m.referenceDevice.value.referenceDeviceY))
    && (forall i :: 0 <= i < |m.bins| ==>
          && SafeValue(m.bins[i].binCode) && SafeValue(m.bins[i].binQuality)
          && SafeValue(m.bins[i].binDescription) && SafeValue(m.bins[i].binCount))
    && (forall k :: k in m.dies ==> SafeCode(m.dies[k]))
  }

  /** The attribute map of an element written with these attributes. */
  function AttrMap(attrs: seq<Attr>): map<string, string>
    decreases |attrs|
  {
    if |attrs| == 0 then map[]
    else AttrMap(attrs[..|attrs| - 1])[attrs[|attrs| - 1].0 := attrs[|attrs| - 1].1]
  }

  /** In an element written with distinct attribute names, each attribute reads back as written, and no other. */
  lemma {:induction false} AttrMapLookup(attrs: seq<Attr>, name: string)
    requires forall i, j :: 0 <= i < j < |attrs| ==> attrs[i].0 != attrs[j].0
    ensures name in AttrMap(attrs) <==> exists i :: 0 <= i < |attrs| && attrs[i].0 == name
    ensures forall i :: 0 <= i < |attrs| && attrs[i].0 == name ==> AttrMap(attrs)[name] == attrs[i].1
    decreases |attrs|
  {
    if |attrs| > 0 {
      var init := attrs[..|attrs| - 1];
      AttrMapLookup(init, name);
      assert forall i :: 0 <= i < |init| ==> init[i] == attrs[i];
    }
  }

  /**
   * What an XML parser yields for `Render(e)`: no parser error, a root `Map`
   * with the substrate attributes, one Device, the ReferenceDevice if written,
   * the Bins in order, and each Row's CDATA text as its text content.
   */
  function ReadBack(e: Emitted): ParsedDoc
    requires Safe(e)
  {
    ParsedDoc(
      false,
      Some(Element("Map", AttrMap(e.mapAttrs))),
      [Element("Device", AttrMap(e.deviceAttrs))],
      match e.refDevice
      case None => []
      case Some(r) => [Element("ReferenceDevice", AttrMap(r))],
      seq(|e.bins|, i requires 0 <= i < |e.bins| => Element("Bin", AttrMap(e.bins[i]))),
      e.rows)
  }
}
