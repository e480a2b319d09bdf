/**
 * `parseG85`: from a parsed document to the in-memory wafer map. Attributes are
 * copied as raw strings (the empty string when absent, as the XML library
 * answers); each Row's text is cut into
 * two-character codes, the last one shorter when the text has odd length; the
 * reserved codes are filed in the defects map as they are met.
 */
module G85Parse {
  import opened Common
  import opened Dom
  import opened G85Model

  /** The error `parseG85` throws when the document has no root element. */
  const ParseFailure: string := "Failed to parse G85 file: " + NullRead("getAttribute")

  /** The number of codes a row text of this length holds: one per started pair of characters. */
  function TokenCount(text: string): nat
  {
    (|text| + 1) / 2
  }

  /** `text.substring(2x, 2x + 2)`: the code of die x, one character long at the end of an odd row. */
  function Token(text: string, x: nat): string
    requires x < TokenCount(text)
  {
    text[2 * x .. Min(2 * x + 2, |text|)]
  }

  /** The two maps the decoding loop fills together. */
  datatype DieGrid = DieGrid(dies: map<Coord, string>, defects: map<Coord, Defect>)

  const EmptyGrid := DieGrid(map[], map[])

  /** One step of the loop body: `dies.set(coord, code)`, then `defects.set` for a reserved code. */
  function Record(g: DieGrid, k: Coord, code: string): DieGrid
  {
    DieGrid(
      g.dies[k := code],
      match DefectFor(code)
      case Some(d) => g.defects[k := d]
      case None => g.defects)
  }

  /** The inner loop over one row's text, from character offset `i` on, stepping by two. */
  function DecodeRowFrom(text: string, y: nat, i: nat, g: DieGrid): DieGrid
    decreases |text| - i
  {
    if i >= |text| then g
    else DecodeRowFrom(text, y, i + 2, Record(g, (i / 2, y), text[i .. Min(i + 2, |text|)]))
  }

  /** Filing a code at a position not yet in the map adds that one die and keeps the defects map classified. */
  lemma RecordClassified(g: DieGrid, k: Coord, code: string)
    requires Classified(g.dies, g.defects)
    requires k !in g.dies
    ensures Record(g, k, code).dies == g.dies[k := code]
    ensures Classified(Record(g, k, code).dies, Record(g, k, code).defects)
  {
  }

  /**
   * `r` is `g` with the dies `lo .. TokenCount(text) - 1` of row y added, die x
   * holding `Token(text, x)`, and everything already in `g` kept.
   */
  ghost predicate AddsRow(g: DieGrid, r: DieGrid, text: string, y: nat, lo: nat)
  {
    && (forall k :: k in r.dies <==> k in g.dies || (k.1 == y && lo <= k.0 < TokenCount(text)))
    && (forall k :: k in g.dies ==> k in r.dies && r.dies[k] == g.dies[k])
    && (forall k :: k in r.dies && k !in g.dies ==> k.1 == y && lo <= k.0 < TokenCount(text) && r.dies[k] == Token(text, k.0))
  }

  /** Adding die x first and then the dies after it is adding the dies from x on. */
  lemma AddsRowStep(g: DieGrid, g': DieGrid, r: DieGrid, text: string, y: nat, x: nat)
    requires x < TokenCount(text) && (x, y) !in g.dies
    requires g'.dies == g.dies[(x, y) := Token(text, x)]
    requires AddsRow(g', r, text, y, x + 1)
    ensures AddsRow(g, r, text, y, x)
  {
  }

  /**
   * The inner loop, from an even offset `i` of row `y`, adds exactly the dies
   * `i/2 .. TokenCount(text) - 1` of that row with their codes, keeps every
   * die already present, and keeps the defects map classified, provided no die
   * of row y at or beyond `i/2` was there before.
   */
  lemma {:induction false} DecodeRowFromSpec(text: string, y: nat, i: nat, g: DieGrid)
    requires i % 2 == 0
    requires Classified(g.dies, g.defects)
    requires forall k :: k in g.dies && k.1 == y ==> k.0 < i / 2
    ensures Classified(DecodeRowFrom(text, y, i, g).dies, DecodeRowFrom(text, y, i, g).defects)
    ensures AddsRow(g, DecodeRowFrom(text, y, i, g), text, y, i / 2)
    decreases |text| - i
  {
    if i < |text| {
      var x := i / 2;
      var k := (x, y);
      assert 2 * x == i;
      var code := text[i .. Min(i + 2, |text|)];
      assert x < TokenCount(text);
      assert code == Token(text, x) by { assert 2 * x + 2 == i + 2; }
      var g' := Record(g, k, code);
      RecordClassified(g, k, code);
      assert DecodeRowFrom(text, y, i, g) == DecodeRowFrom(text, y, i + 2, g');
      assert (i + 2) / 2 == x + 1;
      assert forall k' :: k' in g'.dies && k'.1 == y ==> k'.0 < x + 1;
      DecodeRowFromSpec(text, y, i + 2, g');
      AddsRowStep(g, g', DecodeRowFrom(text, y, i, g), text, y, x);
    }
  }

  /**
   * The outer loop over all Row texts. Row y of text length L yields exactly the
   * dies (x, y) for x < ceil(L/2), die x holding `Token(text, x)`; nothing is
   * padded, nothing fails, and the defects map is the reserved part of the result.
   */
  function DecodeRows(rows: seq<string>): (g: DieGrid)
    ensures Classified(g.dies, g.defects)
    ensures forall k :: k in g.dies <==> k.1 < |rows| && k.0 < TokenCount(rows[k.1])
    ensures forall k :: k in g.dies ==> g.dies[k] == Token(rows[k.1], k.0)
    decreases |rows|
  {
    if |rows| == 0 then EmptyGrid
    else
      var y := |rows| - 1;
      var prev := DecodeRows(rows[..y]);
      DecodeRowFromSpec(rows[y], y, 0, prev);
      DecodeRowFrom(rows[y], y, 0, prev)
  }

  /** `getAttribute` as a value of the map: always a string, never null. */
  function Attribute(e: Element, name: string): Option<string>
  {
    Some(GetAttribute(e, name))
  }

  /** The header object: empty without a Device element, else every known attribute, "" when absent. */
  function ParseHeader(device: Option<Element>): Header
  {
    match device
    case None => []
    case Some(e) => seq(|HeaderKeys|, i requires 0 <= i < |HeaderKeys| => (HeaderKeys[i], Attribute(e, HeaderKeys[i])))
  }

  function ParseBin(e: Element): BinDef
  {
    BinDef(Attribute(e, "BinCode"), Attribute(e, "BinQuality"),
           Attribute(e, "BinDescription"), Attribute(e, "BinCount"))
  }

  function ParseRefDevice(e: Element): RefDevice
  {
    RefDevice(Attribute(e, "ReferenceDeviceX"), Attribute(e, "ReferenceDeviceY"))
  }

  function ParseMapAttributes(root: Element): MapAttributes
  {
    MapAttributes(Attribute(root, "SubstrateNumber"), Attribute(root, "SubstrateType"),
                  Attribute(root, "SubstrateId"), Attribute(root, "FormatRevision"))
  }

  /**
   * `parseG85`. It fails only when there is no root element to read attributes
   * from; a parser error, a wrong root tag, a missing Device or no Row at all
   * still decode, with empty strings and empty collections.
   */
  function ParseG85(d: ParsedDoc): (r: Result<MapData>)
    ensures r.Failure? <==> d.root.None?
    ensures r.Failure? ==> r.error == ParseFailure
    ensures r.Success? ==>
      var m := r.value;
      && m.mapAttributes == MapAttributes(
           Some(GetAttribute(d.root.value, "SubstrateNumber")), Some(GetAttribute(d.root.value, "SubstrateType")),
           Some(GetAttribute(d.root.value, "SubstrateId")), Some(GetAttribute(d.root.value, "FormatRevision")))
      && (|d.devices| == 0 ==> m.header == [])
      && (|d.devices| > 0 ==>
            && |m.header| == |HeaderKeys|
            && forall i :: 0 <= i < |HeaderKeys| ==> m.header[i] == (HeaderKeys[i], Some(GetAttribute(d.devices[0], HeaderKeys[i]))))
      && (|d.devices| > 0 ==> forall key :: key in HeaderKeys ==> HeaderValue(m.header, key) == Some(GetAttribute(d.devices[0], key)))
      && (|d.referenceDevices| == 0 ==> m.referenceDevice.None?)
      && (|d.referenceDevices| > 0 ==> m.referenceDevice == Some(RefDevice(
            Some(GetAttribute(d.referenceDevices[0], "ReferenceDeviceX")),
            Some(GetAttribute(d.referenceDevices[0], "ReferenceDeviceY")))))
      && |m.bins| == |d.bins|
      && (forall i :: 0 <= i < |m.bins| ==> m.bins[i] == BinDef(
            Some(GetAttribute(d.bins[i], "BinCode")), Some(GetAttribute(d.bins[i], "BinQuality")),
            Some(GetAttribute(d.bins[i], "BinDescription")), Some(GetAttribute(d.bins[i], "BinCount"))))
      && Classified(m.dies, m.defects)
      && (forall k :: k in m.dies <==> k.1 < |d.rows| && k.0 < TokenCount(d.rows[k.1]))
      && (forall k :: k in m.dies ==> m.dies[k] == Token(d.rows[k.1], k.0))
  {
    match d.root
    case None => Failure(ParseFailure)
    case Some(root) =>
      var device := First(d.devices);
      var grid := DecodeRows(d.rows);
      HeaderLookup(device);
      Success(MapData(
        ParseHeader(device),
        grid.dies,
        grid.defects,
        seq(|d.bins|, i requires 0 <= i < |d.bins| => ParseBin(d.bins[i])),
        if |d.referenceDevices| == 0 then None else Some(ParseRefDevice(d.referenceDevices[0])),
        ParseMapAttributes(root)))
  }

  /** Looking a known attribute up in a parsed header gives the Device element's attribute. */
  lemma HeaderLookup(device: Option<Element>)
    ensures device.Some? ==> forall key :: key in HeaderKeys ==> HeaderValue(ParseHeader(device), key) == Some(GetAttribute(device.value, key))
  {
    if device.Some? {
      forall key | key in HeaderKeys
        ensures HeaderValue(ParseHeader(device), key) == Some(GetAttribute(device.value, key))
      {
        var i :| 0 <= i < |HeaderKeys| && HeaderKeys[i] == key;
        HeaderValueAt(ParseHeader(device), i);
      }
    }
  }

  /** In a header whose keys are distinct, looking up the i-th key finds the i-th value. */
  lemma {:induction false} HeaderValueAt(h: Header, i: nat)
    requires i < |h|
    requires forall a, b :: 0 <= a < b < |h| ==> h[a].0 != h[b].0
    ensures HeaderValue(h, h[i].0) == h[i].1
    decreases i
  {
    if i > 0 {
      assert h[0].0 != h[i].0;
      HeaderValueAt(h[1..], i - 1);
    }
  }
}
