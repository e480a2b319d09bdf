/**
 * How `parseG85` and `generateG85` undo each other. The row decoder and the
 * row builder are inverse on the Rows × Columns rectangle; dies outside it are
 * dropped and holes come back as "FF". Attribute defaults (`""`, `"1.0"`,
 * `"0"`, the text "null") are written in place of nulls, and a header null is
 * not written at all and so reads back as "" (the XML library's answer for a
 * missing attribute). A second generation therefore writes exactly the text of
 * the first when the header had no null, and a map with no nulls, no holes and
 * two-character codes comes back unchanged.
 */
module G85RoundTrip {
  import opened Common
  import opened JsText
  import opened Dom
  import opened G85Model
  import opened G85Parse
  import opened G85Generate

  /** Every cell of row y below `cols` is a two-character code. */
  ghost predicate RowOfCodes(dies: map<Coord, string>, cols: nat, y: nat)
  {
    forall x :: 0 <= x < cols ==> |Cell(dies, x, y)| == 2
  }

  /** Every cell of the rows × cols rectangle is a two-character code (present codes of length 2; holes become "FF"). */
  ghost predicate RectangleOfCodes(dies: map<Coord, string>, rows: nat, cols: nat)
  {
    forall y :: 0 <= y < rows ==> RowOfCodes(dies, cols, y)
  }

  /** The header shapes `parseG85` produces: empty, or every known attribute in the parser's order. */
  ghost predicate ParsedHeaderShape(h: Header)
  {
    h == [] || (|h| == |HeaderKeys| && forall i :: 0 <= i < |h| ==> h[i].0 == HeaderKeys[i])
  }

  lemma HeaderKeysDistinct()
    ensures forall a, b :: 0 <= a < b < |HeaderKeys| ==> HeaderKeys[a] != HeaderKeys[b]
  {
  }

  /** Every header `parseG85` returns has the parsed shape, and holds no null. */
  lemma ParsedHeaderHasShape(d: ParsedDoc)
    requires d.root.Some?
    ensures ParsedHeaderShape(ParseG85(d).value.header)
    ensures forall i :: 0 <= i < |ParseG85(d).value.header| ==> ParseG85(d).value.header[i].1.Some?
  {
  }

  /** A header that lists every known attribute with a value, as `parseG85` builds it from a Device element. */
  ghost predicate HeaderComplete(h: Header)
  {
    h != [] && forall i :: 0 <= i < |h| ==> h[i].1.Some?
  }

  /** Every known attribute, null: what a map without a Device element is written like. */
  function NullHeader(): Header
  {
    seq(|HeaderKeys|, i requires 0 <= i < |HeaderKeys| => (HeaderKeys[i], None))
  }

  /** The header with every null replaced by the empty string. */
  function BlankNulls(h: Header): (r: Header)
    ensures |r| == |h|
  {
    seq(|h|, i requires 0 <= i < |h| => (h[i].0, if h[i].1.Some? then h[i].1 else Some("")))
  }

  /**
   * The header `parseG85` reads from the Device element written for `h`. A null
   * is not written, and a missing attribute reads as ""; a map with no header
   * at all gets a Device element with no attributes, which reads as every known
   * attribute "".
   */
  function RereadHeader(h: Header): Header
  {
    BlankNulls(if h == [] then NullHeader() else h)
  }

  // ---------------------------------------------------------------------------
  // Rows

  /** Appending a two-character code to a text of n whole codes keeps those codes and adds it as code n. */
  lemma TokensOfAppend(prev: string, c: string, n: nat)
    requires |prev| == 2 * n && |c| == 2
    ensures TokenCount(prev + c) == n + 1
    ensures forall x :: 0 <= x < n ==> Token(prev + c, x) == Token(prev, x)
    ensures Token(prev + c, n) == c
  {
    var p := prev + c;
    forall x | 0 <= x < n ensures Token(p, x) == Token(prev, x) {
      assert Token(p, x) == p[2 * x .. 2 * x + 2];
      assert Token(prev, x) == prev[2 * x .. 2 * x + 2];
    }
    assert p[2 * n .. 2 * n + 2] == c;
  }

  /** A text holding the codes of cells 0 .. n-1, followed by cell n, holds the codes of cells 0 .. n. */
  lemma RowAppend(dies: map<Coord, string>, prev: string, n: nat, y: nat)
    requires |prev| == 2 * n && TokenCount(prev) == n && |Cell(dies, n, y)| == 2
    requires forall x :: 0 <= x < n ==> Token(prev, x) == Cell(dies, x, y)
    ensures TokenCount(prev + Cell(dies, n, y)) == n + 1
    ensures forall x :: 0 <= x <= n ==> Token(prev + Cell(dies, n, y), x) == Cell(dies, x, y)
  {
    var c := Cell(dies, n, y);
    TokensOfAppend(prev, c, n);
    forall x | 0 <= x <= n ensures Token(prev + c, x) == Cell(dies, x, y) {
      if x < n {
        assert Token(prev + c, x) == Token(prev, x);
      }
    }
  }

  /**
   * Row-level round trip: the payload built for row y, cut back into codes,
   * gives exactly `cols` codes, code x being the die at (x, y) or "FF".
   */
  lemma {:induction false} RowRoundTrip(dies: map<Coord, string>, cols: nat, y: nat)
    requires RowOfCodes(dies, cols, y)
    ensures |RowPayload(dies, cols, y)| == 2 * cols
    ensures TokenCount(RowPayload(dies, cols, y)) == cols
    ensures forall x :: 0 <= x < cols ==> Token(RowPayload(dies, cols, y), x) == Cell(dies, x, y)
    decreases cols
  {
    if cols > 0 {
      var prev := RowPayload(dies, cols - 1, y);
      var c := Cell(dies, cols - 1, y);
      assert RowOfCodes(dies, cols - 1, y);
      RowRoundTrip(dies, cols - 1, y);
      assert RowPayload(dies, cols, y) == prev + c;
      RowAppend(dies, prev, cols - 1, y);
    }
  }

  /** Decoding all generated rows gives the rectangle, each position holding its code or "FF". */
  lemma DecodeGeneratedRows(dies: map<Coord, string>, rows: nat, cols: nat)
    requires RectangleOfCodes(dies, rows, cols)
    ensures var g := DecodeRows(EmitRows(dies, rows, cols));
      && (forall k :: k in g.dies <==> k.0 < cols && k.1 < rows)
      && (forall k :: k in g.dies ==> g.dies[k] == Cell(dies, k.0, k.1))
  {
    var payloads := EmitRows(dies, rows, cols);
    forall y | 0 <= y < rows
      ensures TokenCount(payloads[y]) == cols
      ensures forall x :: 0 <= x < cols ==> Token(payloads[y], x) == Cell(dies, x, y)
    {
      RowRoundTrip(dies, cols, y);
    }
  }

  /** Row builders that see the same cells build the same payload. */
  lemma {:induction false} RowPayloadSameCells(d1: map<Coord, string>, d2: map<Coord, string>, cols: nat, y: nat)
    requires forall x :: 0 <= x < cols ==> Cell(d1, x, y) == Cell(d2, x, y)
    ensures RowPayload(d1, cols, y) == RowPayload(d2, cols, y)
    decreases cols
  {
    if cols > 0 {
      RowPayloadSameCells(d1, d2, cols - 1, y);
    }
  }

  // ---------------------------------------------------------------------------
  // Attributes

  /** `(v || d) || d == v || d`: writing a default a second time changes nothing. */
  lemma OrElseStable(v: Option<string>, d: string)
    ensures OrElse(Some(OrElse(v, d)), d) == OrElse(v, d)
  {
  }

  /** A non-null header entry reads back from the written Device element as its value. */
  lemma DeviceEntryPresent(h: Header, i: nat, v: string)
    requires i < |h| && h[i].1 == Some(v)
    requires SafeAttrs(DeviceAttrs(h))
    ensures GetAttribute(Element("Device", AttrMap(DeviceAttrs(h))), h[i].0) == v
  {
    var attrs := DeviceAttrs(h);
    var key := h[i].0;
    AttrMapLookup(attrs, key);
    assert (key, v) in attrs by { assert h[i] == (key, Some(v)); }
    var j :| 0 <= j < |attrs| && attrs[j] == (key, v);
  }

  /** A null entry of a header with distinct keys is absent from the written Device element, so it reads back as "". */
  lemma DeviceEntryAbsent(h: Header, i: nat)
    requires i < |h| && h[i].1.None?
    requires forall a, b :: 0 <= a < b < |h| ==> h[a].0 != h[b].0
    requires SafeAttrs(DeviceAttrs(h))
    ensures GetAttribute(Element("Device", AttrMap(DeviceAttrs(h))), h[i].0) == ""
  {
    var attrs := DeviceAttrs(h);
    var key := h[i].0;
    AttrMapLookup(attrs, key);
    forall j | 0 <= j < |attrs| ensures attrs[j].0 != key {
      assert attrs[j] in attrs;
      var k :| 0 <= k < |h| && h[k] == (attrs[j].0, Some(attrs[j].1));
      assert k != i;
    }
  }

  /** The Device element written for a header of the parsed shape reads back as `RereadHeader` says. */
  lemma HeaderRoundTrip(h: Header)
    requires ParsedHeaderShape(h)
    requires SafeAttrs(DeviceAttrs(h))
    ensures ParseHeader(Some(Element("Device", AttrMap(DeviceAttrs(h))))) == RereadHeader(h)
  {
    var attrs := DeviceAttrs(h);
    var h2 := ParseHeader(Some(Element("Device", AttrMap(attrs))));
    var h1 := if h == [] then NullHeader() else h;
    var r := RereadHeader(h);
    assert r == BlankNulls(h1);
    if h == [] {
      assert attrs == [];
      forall i | 0 <= i < |HeaderKeys| ensures h2[i] == r[i] {
        assert h1[i] == (HeaderKeys[i], None);
      }
    } else {
      ParsedHeaderKeys(h);
      forall i | 0 <= i < |h|
        ensures h2[i] == r[i]
      {
        if h[i].1.Some? {
          DeviceEntryPresent(h, i, h[i].1.value);
        } else {
          DeviceEntryAbsent(h, i);
        }
        assert h[i].0 == HeaderKeys[i];
      }
    }
  }

  /** A bin's written Bin element reads back as the four attribute texts the generator wrote. */
  lemma BinRoundTrip(b: BinDef)
    ensures ParseBin(Element("Bin", AttrMap(EmitBin(b))))
         == BinDef(Some(Text(b.binCode)), Some(OrElse(b.binQuality, "")),
                   Some(OrElse(b.binDescription, "")), Some(OrElse(b.binCount, "0")))
  {
    var attrs := EmitBin(b);
    var e := Element("Bin", AttrMap(attrs));
    AttrMapLookup(attrs, "BinCode");
    assert GetAttribute(e, "BinCode") == attrs[0].1;
    AttrMapLookup(attrs, "BinQuality");
    assert GetAttribute(e, "BinQuality") == attrs[1].1;
    AttrMapLookup(attrs, "BinDescription");
    assert GetAttribute(e, "BinDescription") == attrs[2].1;
    AttrMapLookup(attrs, "BinCount");
    assert GetAttribute(e, "BinCount") == attrs[3].1;
  }

  /** A header whose entries are all null has no value for any key. */
  lemma {:induction false} HeaderValueOfNulls(h: Header, key: string)
    requires forall i :: 0 <= i < |h| ==> h[i].1 == None
    ensures HeaderValue(h, key) == None
    decreases |h|
  {
    if |h| > 0 {
      HeaderValueOfNulls(h[1..], key);
    }
  }

  /** Two defects maps that both classify the same dies are the same map. */
  lemma ClassifiedUnique(dies: map<Coord, string>, d1: map<Coord, Defect>, d2: map<Coord, Defect>)
    requires Classified(dies, d1) && Classified(dies, d2)
    ensures d1 == d2
  {
    assert d1.Keys == d2.Keys;
  }

  // ---------------------------------------------------------------------------
  // Text that needs no escaping

  /** The defaults and the interpolation of null are themselves safe text. */
  lemma SafeDefaults(v: Option<string>)
    requires SafeValue(v)
    ensures SafeValue(Some(OrElse(v, ""))) && SafeValue(Some(OrElse(v, "0"))) && SafeValue(Some(OrElse(v, "1.0")))
    ensures SafeValue(Some(Text(v)))
  {
    assert SafeValue(Some("0")) by { assert "0"[0] == '0'; }
    assert SafeValue(Some("1.0")) by { assert "1.0"[0] == '1' && "1.0"[1] == '.' && "1.0"[2] == '0'; }
    assert SafeValue(Some("null")) by { assert "null"[0] == 'n' && "null"[1] == 'u' && "null"[2] == 'l' && "null"[3] == 'l'; }
  }

  /** The Device element written for a header with distinct keys has distinct attribute names. */
  lemma {:induction false} DeviceAttrsDistinct(h: Header)
    requires forall a, b :: 0 <= a < b < |h| ==> h[a].0 != h[b].0
    ensures forall i, j :: 0 <= i < j < |DeviceAttrs(h)| ==> DeviceAttrs(h)[i].0 != DeviceAttrs(h)[j].0
    decreases |h|
  {
    if |h| > 0 {
      var tail := h[1..];
      assert forall a, b :: 0 <= a < b < |tail| ==> tail[a].0 != tail[b].0 by {
        forall a, b | 0 <= a < b < |tail| ensures tail[a].0 != tail[b].0 {
          assert tail[a] == h[a + 1] && tail[b] == h[b + 1];
        }
      }
      DeviceAttrsDistinct(tail);
      var rest := DeviceAttrs(tail);
      forall j | 0 <= j < |rest| ensures rest[j].0 != h[0].0 {
        assert rest[j] in rest;
        var k :| 0 <= k < |tail| && tail[k] == (rest[j].0, Some(rest[j].1));
        assert h[k + 1] == tail[k];
      }
    }
  }

  /** The Device element written for a header with distinct known keys and safe values is safe. */
  lemma {:induction false} DeviceAttrsSafeOf(h: Header)
    requires forall a, b :: 0 <= a < b < |h| ==> h[a].0 != h[b].0
    requires forall i :: 0 <= i < |h| ==> h[i].0 in AttributeNames
    requires forall i :: 0 <= i < |h| ==> SafeValue(h[i].1)
    ensures SafeAttrs(DeviceAttrs(h))
    decreases |h|
  {
    if |h| > 0 {
      var tail := h[1..];
      assert forall a, b :: 0 <= a < b < |tail| ==> tail[a].0 != tail[b].0 by {
        forall a, b | 0 <= a < b < |tail| ensures tail[a].0 != tail[b].0 {
          assert tail[a] == h[a + 1] && tail[b] == h[b + 1];
        }
      }
      forall i | 0 <= i < |tail| ensures tail[i].0 in AttributeNames && SafeValue(tail[i].1) {
        assert tail[i] == h[i + 1];
      }
      DeviceAttrsSafeOf(tail);
      DeviceAttrsDistinct(h);
      var rest := DeviceAttrs(tail);
      if h[0].1.Some? {
        var r := [(h[0].0, h[0].1.value)] + rest;
        assert DeviceAttrs(h) == r;
        forall i | 0 <= i < |r|
          ensures r[i].0 in AttributeNames
          ensures forall j :: 0 <= j < |r[i].1| ==> SafeValueChar(r[i].1[j])
        {
          if i > 0 {
            assert r[i] == rest[i - 1];
          }
        }
      }
    }
  }

  lemma HeaderKeysKnown()
    ensures forall i :: 0 <= i < |HeaderKeys| ==> HeaderKeys[i] in AttributeNames
  {
    forall i | 0 <= i < |HeaderKeys| ensures HeaderKeys[i] in AttributeNames {
      assert HeaderKeys[i] in (set j | 0 <= j < |HeaderKeys| :: HeaderKeys[j]);
    }
  }

  /** A header of the parsed shape has distinct keys, all of them G85 attribute names. */
  lemma ParsedHeaderKeys(h: Header)
    requires ParsedHeaderShape(h)
    ensures forall a, b :: 0 <= a < b < |h| ==> h[a].0 != h[b].0
    ensures forall i :: 0 <= i < |h| ==> h[i].0 in AttributeNames
  {
    if h != [] {
      HeaderKeysDistinct();
      HeaderKeysKnown();
      forall a, b | 0 <= a < b < |h| ensures h[a].0 != h[b].0 {
        assert h[a].0 == HeaderKeys[a] && h[b].0 == HeaderKeys[b];
      }
      forall i | 0 <= i < |h| ensures h[i].0 in AttributeNames {
        assert h[i].0 == HeaderKeys[i];
      }
    }
  }

  lemma {:induction false} SafeBinsOf(bins: seq<seq<Attr>>)
    requires forall i :: 0 <= i < |bins| ==> SafeAttrs(bins[i])
    ensures SafeBins(bins)
    decreases |bins|
  {
    if |bins| > 0 {
      SafeBinsOf(bins[1..]);
    }
  }

  lemma {:induction false} SafeRowsOf(rows: seq<string>)
    requires forall i :: 0 <= i < |rows| ==> SafePayload(rows[i])
    ensures SafeRows(rows)
    decreases |rows|
  {
    if |rows| > 0 {
      SafeRowsOf(rows[1..]);
    }
  }

  /** A row built from safe codes holds no control character and no `]`, so no `]]>` either. */
  lemma {:induction false} RowPayloadSafe(dies: map<Coord, string>, cols: nat, y: nat)
    requires forall k :: k in dies ==> SafeCode(dies[k])
    ensures SafeCode(RowPayload(dies, cols, y))
    ensures SafePayload(RowPayload(dies, cols, y))
    decreases cols
  {
    if cols > 0 {
      RowPayloadSafe(dies, cols - 1, y);
      var prev := RowPayload(dies, cols - 1, y);
      var c := Cell(dies, cols - 1, y);
      assert SafeCode(c) by {
        if (cols - 1, y) !in dies || dies[(cols - 1, y)] == "" {
          assert c == "FF" && c[0] == 'F' && c[1] == 'F';
        }
      }
      var p := prev + c;
      forall j | 0 <= j < |p| ensures SafePayloadChar(p[j]) && p[j] != ']' {
        if j < |prev| { assert p[j] == prev[j]; } else { assert p[j] == c[j - |prev|]; }
      }
    }
  }

  lemma MapAttrsSafe(a: MapAttributes)
    requires SafeValue(a.substrateNumber) && SafeValue(a.substrateType)
    requires SafeValue(a.substrateId) && SafeValue(a.formatRevision)
    ensures SafeAttrs(EmitMapAttrs(a))
  {
    SafeDefaults(a.substrateNumber);
    SafeDefaults(a.substrateType);
    SafeDefaults(a.substrateId);
    SafeDefaults(a.formatRevision);
  }

  lemma RefDeviceSafe(r: RefDevice)
    requires SafeValue(r.referenceDeviceX) && SafeValue(r.referenceDeviceY)
    ensures SafeAttrs(EmitRefDevice(r))
  {
    SafeDefaults(r.referenceDeviceX);
    SafeDefaults(r.referenceDeviceY);
  }

  lemma BinSafe(b: BinDef)
    requires SafeValue(b.binCode) && SafeValue(b.binQuality) && SafeValue(b.binDescription) && SafeValue(b.binCount)
    ensures SafeAttrs(EmitBin(b))
  {
    SafeDefaults(b.binCode);
    SafeDefaults(b.binQuality);
    SafeDefaults(b.binDescription);
    SafeDefaults(b.binCount);
  }

  /**
   * A map of the parsed header shape whose values and codes are all safe is
   * written as text an XML parser reads back without loss: every element's
   * attribute names are distinct XML names and every value and row is intact.
   */
  lemma WritableIsSafe(m: MapData)
    requires ParsedHeaderShape(m.header) && Writable(m)
    ensures Safe(Emit(m))
  {
    var e := Emit(m);
    MapAttrsSafe(m.mapAttributes);
    assert SafeAttrs(DeviceAttrs(m.header)) by {
      ParsedHeaderKeys(m.header);
      DeviceAttrsSafeOf(m.header);
    }
    if m.referenceDevice.Some? {
      RefDeviceSafe(m.referenceDevice.value);
    }
    forall i | 0 <= i < |e.bins| ensures SafeAttrs(e.bins[i]) {
      BinSafe(m.bins[i]);
    }
    SafeBinsOf(e.bins);
    forall y | 0 <= y < |e.rows| ensures SafePayload(e.rows[y]) {
      RowPayloadSafe(m.dies, ColumnCount(m.header), y);
    }
    SafeRowsOf(e.rows);
  }

  /** When every code is two characters long, every cell of any rectangle is. */
  lemma TwoCharRectangle(dies: map<Coord, string>, rows: nat, cols: nat)
    requires forall k :: k in dies ==> |dies[k]| == 2
    ensures RectangleOfCodes(dies, rows, cols)
  {
    forall y | 0 <= y < rows ensures RowOfCodes(dies, cols, y) {
      forall x | 0 <= x < cols ensures |Cell(dies, x, y)| == 2 {
        if (x, y) in dies {
          assert |dies[(x, y)]| == 2;
        }
      }
    }
  }

  // ---------------------------------------------------------------------------
  // The whole document

  /** The wafer map `parseG85` makes of the document an XML parser reads from the text written for `e`. */
  ghost function Reread(e: Emitted): MapData
    requires Safe(e)
  {
    ParseG85(ReadBack(e)).value
  }

  /** `parseG85` of a document with a root, as the record it builds. */
  lemma ParseParts(d: ParsedDoc)
    requires d.root.Some?
    ensures ParseG85(d) == Success(MapData(
      ParseHeader(First(d.devices)),
      DecodeRows(d.rows).dies,
      DecodeRows(d.rows).defects,
      seq(|d.bins|, i requires 0 <= i < |d.bins| => ParseBin(d.bins[i])),
      if |d.referenceDevices| == 0 then None else Some(ParseRefDevice(d.referenceDevices[0])),
      ParseMapAttributes(d.root.value)))
  {
  }

  /** The read-back wafer map, component by component. */
  lemma RereadParts(e: Emitted)
    requires Safe(e)
    ensures var m2 := Reread(e);
      && m2.header == ParseHeader(Some(Element("Device", AttrMap(e.deviceAttrs))))
      && m2.mapAttributes == ParseMapAttributes(Element("Map", AttrMap(e.mapAttrs)))
      && m2.referenceDevice == (if e.refDevice.Some? then Some(ParseRefDevice(Element("ReferenceDevice", AttrMap(e.refDevice.value)))) else None)
      && |m2.bins| == |e.bins|
      && (forall i :: 0 <= i < |e.bins| ==> m2.bins[i] == ParseBin(Element("Bin", AttrMap(e.bins[i]))))
      && m2.dies == DecodeRows(e.rows).dies
      && m2.defects == DecodeRows(e.rows).defects
  {
    ParseParts(ReadBack(e));
  }

  /** `parseInt` reads "" as it reads the text "null": as NaN. */
  lemma ParseIntOfBlank()
    ensures ParseInt("") == None && ParseInt(Text(None)) == None
  {
    ParseIntOfNull();
  }

  /** Looking a key up after reading nulls as "" gives the same value, or "" where there was a null. */
  lemma {:induction false} BlankNullsLookup(h: Header, key: string)
    ensures HeaderValue(h, key).Some? ==> HeaderValue(BlankNulls(h), key) == HeaderValue(h, key)
    ensures HeaderValue(h, key).None? ==> HeaderValue(BlankNulls(h), key) in {None, Some("")}
    decreases |h|
  {
    if |h| > 0 && h[0].0 != key {
      assert BlankNulls(h)[1..] == BlankNulls(h[1..]);
      BlankNullsLookup(h[1..], key);
    }
  }

  /** Reading a null as "" changes no number `parseInt` makes of a header value. */
  lemma BlankNullsParse(h: Header, key: string)
    ensures ParseInt(Text(HeaderValue(BlankNulls(h), key))) == ParseInt(Text(HeaderValue(h, key)))
  {
    BlankNullsLookup(h, key);
    ParseIntOfBlank();
  }

  /** The header read back gives the same Rows and Columns loop bounds as the header written. */
  lemma RereadHeaderCounts(h: Header)
    ensures RowCount(RereadHeader(h)) == RowCount(h)
    ensures ColumnCount(RereadHeader(h)) == ColumnCount(h)
  {
    var h1 := if h == [] then NullHeader() else h;
    BlankNullsParse(h1, "Rows");
    BlankNullsParse(h1, "Columns");
    if h == [] {
      HeaderValueOfNulls(NullHeader(), "Rows");
      HeaderValueOfNulls(NullHeader(), "Columns");
    }
  }

  /** A header with a value for every known attribute reads back as itself. */
  lemma CompleteHeaderRereads(h: Header)
    requires HeaderComplete(h)
    ensures RereadHeader(h) == h
  {
    assert BlankNulls(h) == h;
  }

  /** The header reads back as `RereadHeader` says, with the same Rows and Columns counts. */
  lemma RoundTripHeader(h: Header, e: Emitted)
    requires ParsedHeaderShape(h)
    requires Safe(e) && e.deviceAttrs == DeviceAttrs(h)
    ensures Reread(e).header == RereadHeader(h)
    ensures RowCount(Reread(e).header) == RowCount(h) && ColumnCount(Reread(e).header) == ColumnCount(h)
  {
    RereadParts(e);
    HeaderRoundTrip(h);
    RereadHeaderCounts(h);
  }

  /** The substrate attributes read back as written: null becomes "", and a falsy FormatRevision "1.0". */
  lemma RoundTripSubstrate(a: MapAttributes, e: Emitted)
    requires Safe(e) && e.mapAttrs == EmitMapAttrs(a)
    ensures Reread(e).mapAttributes == MapAttributes(
           Some(OrElse(a.substrateNumber, "")), Some(OrElse(a.substrateType, "")),
           Some(OrElse(a.substrateId, "")), Some(OrElse(a.formatRevision, "1.0")))
  {
    RereadParts(e);
    var rootAttrs := EmitMapAttrs(a);
    var root := Element("Map", AttrMap(rootAttrs));
    AttrMapLookup(rootAttrs, "SubstrateNumber");
    assert GetAttribute(root, "SubstrateNumber") == rootAttrs[0].1;
    AttrMapLookup(rootAttrs, "SubstrateType");
    assert GetAttribute(root, "SubstrateType") == rootAttrs[1].1;
    AttrMapLookup(rootAttrs, "SubstrateId");
    assert GetAttribute(root, "SubstrateId") == rootAttrs[2].1;
    AttrMapLookup(rootAttrs, "FormatRevision");
    assert GetAttribute(root, "FormatRevision") == rootAttrs[3].1;
  }

  /** The reference device reads back when it was there, each null coordinate as the text "null". */
  lemma RoundTripReference(r: Option<RefDevice>, e: Emitted)
    requires Safe(e)
    requires e.refDevice == if r.Some? then Some(EmitRefDevice(r.value)) else None
    ensures r.None? ==> Reread(e).referenceDevice.None?
    ensures r.Some? ==> Reread(e).referenceDevice == Some(RefDevice(
      Some(Text(r.value.referenceDeviceX)), Some(Text(r.value.referenceDeviceY))))
  {
    RereadParts(e);
    if r.Some? {
      var refAttrs := EmitRefDevice(r.value);
      AttrMapLookup(refAttrs, "ReferenceDeviceX");
      AttrMapLookup(refAttrs, "ReferenceDeviceY");
      assert refAttrs[0].0 == "ReferenceDeviceX" && refAttrs[1].0 == "ReferenceDeviceY";
    }
  }

  /** The bin list reads back in the same order, each Bin with the four texts the generator wrote. */
  lemma RoundTripBins(bins: seq<BinDef>, e: Emitted)
    requires Safe(e) && e.bins == EmitBins(bins)
    ensures |Reread(e).bins| == |bins|
    ensures forall i :: 0 <= i < |bins| ==> Reread(e).bins[i] == BinDef(
      Some(Text(bins[i].binCode)), Some(OrElse(bins[i].binQuality, "")),
      Some(OrElse(bins[i].binDescription, "")), Some(OrElse(bins[i].binCount, "0")))
  {
    RereadParts(e);
    forall i | 0 <= i < |bins|
      ensures Reread(e).bins[i] == BinDef(
        Some(Text(bins[i].binCode)), Some(OrElse(bins[i].binQuality, "")),
        Some(OrElse(bins[i].binDescription, "")), Some(OrElse(bins[i].binCount, "0")))
    {
      BinRoundTrip(bins[i]);
    }
  }

  /** The dies read back: the rows × cols rectangle, holes as "FF", with the defects map classifying them. */
  lemma RoundTripDies(dies: map<Coord, string>, rows: nat, cols: nat, e: Emitted)
    requires Safe(e) && e.rows == EmitRows(dies, rows, cols)
    requires RectangleOfCodes(dies, rows, cols)
    ensures forall k :: k in Reread(e).dies <==> k.0 < cols && k.1 < rows
    ensures forall k :: k in Reread(e).dies ==> Reread(e).dies[k] == Cell(dies, k.0, k.1)
    ensures Classified(Reread(e).dies, Reread(e).defects)
  {
    RereadParts(e);
    DecodeGeneratedRows(dies, rows, cols);
  }

  /**
   * What reading back a generated map gives, field by field: the header with
   * every null read as "" (every known attribute "" when there was no header),
   * so the header itself when it had no null, and the same Rows and Columns
   * counts either way; the substrate
   * attributes with their written defaults; the reference device with null
   * coordinates read as the text "null"; the bin list in the same order with
   * the written defaults; and exactly the Rows × Columns rectangle of dies,
   * holes reading as "FF", with the defects map classifying them.
   */
  ghost predicate ReadsBackAs(m: MapData, m2: MapData)
  {
    && m2.header == RereadHeader(m.header)
    && (HeaderComplete(m.header) ==> m2.header == m.header)
    && RowCount(m2.header) == RowCount(m.header) && ColumnCount(m2.header) == ColumnCount(m.header)
    && m2.mapAttributes == MapAttributes(
         Some(OrElse(m.mapAttributes.substrateNumber, "")),
         Some(OrElse(m.mapAttributes.substrateType, "")),
         Some(OrElse(m.mapAttributes.substrateId, "")),
         Some(OrElse(m.mapAttributes.formatRevision, "1.0")))
    && (m.referenceDevice.None? ==> m2.referenceDevice.None?)
    && (m.referenceDevice.Some? ==> m2.referenceDevice == Some(RefDevice(
         Some(Text(m.referenceDevice.value.referenceDeviceX)),
         Some(Text(m.referenceDevice.value.referenceDeviceY)))))
    && |m2.bins| == |m.bins|
    && (forall i :: 0 <= i < |m.bins| ==> m2.bins[i] == BinDef(
         Some(Text(m.bins[i].binCode)), Some(OrElse(m.bins[i].binQuality, "")),
         Some(OrElse(m.bins[i].binDescription, "")), Some(OrElse(m.bins[i].binCount, "0"))))
    && (forall k :: k in m2.dies <==> k.0 < ColumnCount(m.header) && k.1 < RowCount(m.header))
    && (forall k :: k in m2.dies ==> m2.dies[k] == Cell(m.dies, k.0, k.1))
    && Classified(m2.dies, m2.defects)
  }

  /**
   * Round trip through the text, for a map whose written tree needs no
   * escaping and whose Rows × Columns rectangle holds two-character codes:
   * the text parses, and reads back as described by `ReadsBackAs`.
   */
  lemma SafeRoundTrip(m: MapData)
    requires ParsedHeaderShape(m.header)
    requires Safe(Emit(m))
    requires RectangleOfCodes(m.dies, RowCount(m.header), ColumnCount(m.header))
    ensures ParseG85(ReadBack(Emit(m))).Success?
    ensures ReadsBackAs(m, Reread(Emit(m)))
  {
    var e := Emit(m);
    RoundTripHeader(m.header, e);
    if HeaderComplete(m.header) {
      CompleteHeaderRereads(m.header);
    }
    RoundTripSubstrate(m.mapAttributes, e);
    RoundTripReference(m.referenceDevice, e);
    RoundTripBins(m.bins, e);
    RoundTripDies(m.dies, RowCount(m.header), ColumnCount(m.header), e);
  }

  /**
   * Round trip through the text for a map as the parser produces it: a
   * parsed-shape header, values and codes that need no escaping, and
   * two-character codes. What `generateG85` writes for it is well-formed and
   * reads back as described by `ReadsBackAs`.
   */
  lemma RoundTrip(m: MapData)
    requires ParsedHeaderShape(m.header)
    requires Writable(m)
    requires forall k :: k in m.dies ==> |m.dies[k]| == 2
    ensures Safe(Emit(m))
    ensures ParseG85(ReadBack(Emit(m))).Success?
    ensures ReadsBackAs(m, Reread(Emit(m)))
  {
    WritableIsSafe(m);
    TwoCharRectangle(m.dies, RowCount(m.header), ColumnCount(m.header));
    SafeRoundTrip(m);
  }

  // ---------------------------------------------------------------------------
  // Generating again

  /** A header whose every value is null writes no Device attribute. */
  lemma {:induction false} DeviceAttrsOfNulls(h: Header)
    requires forall i :: 0 <= i < |h| ==> h[i].1 == None
    ensures DeviceAttrs(h) == []
    decreases |h|
  {
    if |h| > 0 {
      DeviceAttrsOfNulls(h[1..]);
    }
  }

  /** The substrate attributes read back are written again as the same attributes. */
  lemma StableMapAttrs(a: MapAttributes, a2: MapAttributes)
    requires a2 == MapAttributes(
           Some(OrElse(a.substrateNumber, "")), Some(OrElse(a.substrateType, "")),
           Some(OrElse(a.substrateId, "")), Some(OrElse(a.formatRevision, "1.0")))
    ensures EmitMapAttrs(a2) == EmitMapAttrs(a)
  {
    OrElseStable(a.substrateNumber, "");
    OrElseStable(a.substrateType, "");
    OrElseStable(a.substrateId, "");
    OrElseStable(a.formatRevision, "1.0");
  }

  /** The bins read back are written again as the same Bin elements. */
  lemma StableBins(bins: seq<BinDef>, bins2: seq<BinDef>)
    requires |bins2| == |bins|
    requires forall i :: 0 <= i < |bins| ==> bins2[i] == BinDef(
      Some(Text(bins[i].binCode)), Some(OrElse(bins[i].binQuality, "")),
      Some(OrElse(bins[i].binDescription, "")), Some(OrElse(bins[i].binCount, "0")))
    ensures EmitBins(bins2) == EmitBins(bins)
  {
    forall i | 0 <= i < |bins| ensures EmitBin(bins2[i]) == EmitBin(bins[i]) {
      OrElseStable(bins[i].binQuality, "");
      OrElseStable(bins[i].binDescription, "");
      OrElseStable(bins[i].binCount, "0");
    }
  }

  /** The reference device read back is written again as the same element. */
  lemma StableReference(r: Option<RefDevice>, r2: Option<RefDevice>)
    requires r.None? ==> r2.None?
    requires r.Some? ==> r2 == Some(RefDevice(Some(Text(r.value.referenceDeviceX)), Some(Text(r.value.referenceDeviceY))))
    ensures (if r2.Some? then Some(EmitRefDevice(r2.value)) else None)
         == (if r.Some? then Some(EmitRefDevice(r.value)) else None)
  {
  }

  /** A header writes one Device attribute per entry exactly when none of its values is null. */
  lemma {:induction false} DeviceAttrsCount(h: Header)
    ensures |DeviceAttrs(h)| == |h| <==> forall i :: 0 <= i < |h| ==> h[i].1.Some?
    decreases |h|
  {
    if |h| > 0 {
      var tail := h[1..];
      DeviceAttrsCount(tail);
      assert forall i :: 0 <= i < |tail| ==> tail[i] == h[i + 1];
      if (forall i :: 0 <= i < |tail| ==> tail[i].1.Some?) && h[0].1.Some? {
        forall i | 0 <= i < |h| ensures h[i].1.Some? {
          if i > 0 { assert h[i] == tail[i - 1]; }
        }
      }
    }
  }

  /** The header read back writes the same Device attributes exactly when the header had a value for every known attribute. */
  lemma StableHeader(h: Header)
    requires ParsedHeaderShape(h)
    ensures DeviceAttrs(RereadHeader(h)) == DeviceAttrs(h) <==> HeaderComplete(h)
  {
    var r := RereadHeader(h);
    if HeaderComplete(h) {
      CompleteHeaderRereads(h);
    } else {
      assert |r| == |HeaderKeys|;
      DeviceAttrsCount(r);
      DeviceAttrsCount(h);
      if h != [] {
        var i :| 0 <= i < |h| && h[i].1.None?;
      }
    }
  }

  /** The rectangle read back writes the same rows. */
  lemma StableRows(dies: map<Coord, string>, dies2: map<Coord, string>, rows: nat, cols: nat)
    requires RectangleOfCodes(dies, rows, cols)
    requires forall k :: k in dies2 <==> k.0 < cols && k.1 < rows
    requires forall k :: k in dies2 ==> dies2[k] == Cell(dies, k.0, k.1)
    ensures EmitRows(dies2, rows, cols) == EmitRows(dies, rows, cols)
  {
    forall y | 0 <= y < rows ensures RowPayload(dies2, cols, y) == RowPayload(dies, cols, y) {
      assert RowOfCodes(dies, cols, y);
      forall x | 0 <= x < cols ensures Cell(dies2, x, y) == Cell(dies, x, y) {
        assert (x, y) in dies2;
        assert |Cell(dies, x, y)| == 2;
      }
      RowPayloadSameCells(dies2, dies, cols, y);
    }
  }

  /** Two maps whose parts other than the header are written alike are written alike but for the Device attributes. */
  lemma EmitFromParts(m: MapData, m2: MapData)
    requires EmitMapAttrs(m2.mapAttributes) == EmitMapAttrs(m.mapAttributes)
    requires (if m2.referenceDevice.Some? then Some(EmitRefDevice(m2.referenceDevice.value)) else None)
          == (if m.referenceDevice.Some? then Some(EmitRefDevice(m.referenceDevice.value)) else None)
    requires EmitBins(m2.bins) == EmitBins(m.bins)
    requires RowCount(m2.header) == RowCount(m.header) && ColumnCount(m2.header) == ColumnCount(m.header)
    requires EmitRows(m2.dies, RowCount(m.header), ColumnCount(m.header)) == EmitRows(m.dies, RowCount(m.header), ColumnCount(m.header))
    ensures Emit(m2) == Emit(m).(deviceAttrs := DeviceAttrs(m2.header))
  {
  }

  /**
   * Generating from what was read back writes the element tree of the first
   * generation but for the Device attributes, which now list every known
   * attribute with its null read as "". It is exactly the first tree, and so
   * exactly the first text, when the header had a value for every known
   * attribute. The defaults written for other nulls read back as themselves,
   * and the rectangle reads back with the cells it was written with.
   */
  lemma SafeGenerateIsStable(m: MapData)
    requires ParsedHeaderShape(m.header)
    requires Safe(Emit(m))
    requires RectangleOfCodes(m.dies, RowCount(m.header), ColumnCount(m.header))
    ensures Emit(Reread(Emit(m))) == Emit(m).(deviceAttrs := DeviceAttrs(RereadHeader(m.header)))
    ensures Emit(Reread(Emit(m))) == Emit(m) <==> HeaderComplete(m.header)
    ensures HeaderComplete(m.header) ==> GenerateG85(Reread(Emit(m))) == GenerateG85(m)
  {
    var e := Emit(m);
    var m2 := Reread(e);
    var rows, cols := RowCount(m.header), ColumnCount(m.header);
    RoundTripHeader(m.header, e);
    RoundTripSubstrate(m.mapAttributes, e);
    RoundTripReference(m.referenceDevice, e);
    RoundTripBins(m.bins, e);
    RoundTripDies(m.dies, rows, cols, e);
    StableHeader(m.header);
    StableMapAttrs(m.mapAttributes, m2.mapAttributes);
    StableReference(m.referenceDevice, m2.referenceDevice);
    StableBins(m.bins, m2.bins);
    StableRows(m.dies, m2.dies, rows, cols);
    EmitFromParts(m, m2);
  }

  /**
   * For every map with writable values and two-character codes, generating from
   * what was read back changes at most the Device attributes, and changes
   * nothing, not even the text, exactly when the header had no null.
   */
  lemma GenerateIsStable(m: MapData)
    requires ParsedHeaderShape(m.header)
    requires Writable(m)
    requires forall k :: k in m.dies ==> |m.dies[k]| == 2
    ensures Safe(Emit(m))
    ensures Emit(Reread(Emit(m))) == Emit(m).(deviceAttrs := DeviceAttrs(RereadHeader(m.header)))
    ensures Emit(Reread(Emit(m))) == Emit(m) <==> HeaderComplete(m.header)
    ensures HeaderComplete(m.header) ==> GenerateG85(Reread(Emit(m))) == GenerateG85(m)
  {
    WritableIsSafe(m);
    TwoCharRectangle(m.dies, RowCount(m.header), ColumnCount(m.header));
    SafeGenerateIsStable(m);
  }

  // ---------------------------------------------------------------------------
  // Exact round trip

  /**
   * A wafer map with nothing for generation to fill in: a parsed-shape header
   * with a value for every known attribute, every attribute present (FormatRevision and BinCount
   * non-empty, since empty ones are written as their defaults), dies exactly on
   * the Rows × Columns rectangle with two-character codes, and the defects map
   * classifying them.
   */
  ghost predicate Canonical(m: MapData)
  {
    var rows, cols := RowCount(m.header), ColumnCount(m.header);
    && ParsedHeaderShape(m.header) && HeaderComplete(m.header)
    && m.mapAttributes.substrateNumber.Some? && m.mapAttributes.substrateType.Some?
    && m.mapAttributes.substrateId.Some?
    && m.mapAttributes.formatRevision.Some? && m.mapAttributes.formatRevision.value != ""
    && (m.referenceDevice.Some? ==>
          m.referenceDevice.value.referenceDeviceX.Some? && m.referenceDevice.value.referenceDeviceY.Some?)
    && (forall i :: 0 <= i < |m.bins| ==>
          && m.bins[i].binCode.Some? && m.bins[i].binQuality.Some? && m.bins[i].binDescription.Some?
          && m.bins[i].binCount.Some? && m.bins[i].binCount.value != "")
    && (forall k :: k in m.dies <==> k.0 < cols && k.1 < rows)
    && (forall k :: k in m.dies ==> |m.dies[k]| == 2)
    && Classified(m.dies, m.defects)
  }

  /** Present substrate attributes, with a non-empty FormatRevision, read back as themselves. */
  lemma ExactMapAttrs(a: MapAttributes)
    requires a.substrateNumber.Some? && a.substrateType.Some? && a.substrateId.Some?
    requires a.formatRevision.Some? && a.formatRevision.value != ""
    ensures MapAttributes(
           Some(OrElse(a.substrateNumber, "")), Some(OrElse(a.substrateType, "")),
           Some(OrElse(a.substrateId, "")), Some(OrElse(a.formatRevision, "1.0"))) == a
  {
  }

  /** Bins with every attribute present, and a non-empty count, read back as themselves. */
  lemma ExactBins(bins: seq<BinDef>, bins2: seq<BinDef>)
    requires forall i :: 0 <= i < |bins| ==>
          && bins[i].binCode.Some? && bins[i].binQuality.Some? && bins[i].binDescription.Some?
          && bins[i].binCount.Some? && bins[i].binCount.value != ""
    requires |bins2| == |bins|
    requires forall i :: 0 <= i < |bins| ==> bins2[i] == BinDef(
      Some(Text(bins[i].binCode)), Some(OrElse(bins[i].binQuality, "")),
      Some(OrElse(bins[i].binDescription, "")), Some(OrElse(bins[i].binCount, "0")))
    ensures bins2 == bins
  {
    forall i | 0 <= i < |bins| ensures bins2[i] == bins[i] {
    }
  }

  /** Dies exactly on the rectangle, with two-character codes, read back as themselves. */
  lemma ExactDies(dies: map<Coord, string>, dies2: map<Coord, string>, rows: nat, cols: nat)
    requires forall k :: k in dies <==> k.0 < cols && k.1 < rows
    requires forall k :: k in dies ==> |dies[k]| == 2
    requires forall k :: k in dies2 <==> k.0 < cols && k.1 < rows
    requires forall k :: k in dies2 ==> dies2[k] == Cell(dies, k.0, k.1)
    ensures dies2 == dies
  {
    forall k | k in dies ensures dies2[k] == dies[k] {
      assert dies[k] != "";
    }
  }

  /** Dies exactly on the rectangle with two-character codes fill it with codes. */
  lemma CanonicalRectangle(dies: map<Coord, string>, rows: nat, cols: nat)
    requires forall k :: k in dies <==> k.0 < cols && k.1 < rows
    requires forall k :: k in dies ==> |dies[k]| == 2
    ensures RectangleOfCodes(dies, rows, cols)
  {
    forall y | 0 <= y < rows ensures RowOfCodes(dies, cols, y) {
      forall x | 0 <= x < cols ensures |Cell(dies, x, y)| == 2 {
        assert (x, y) in dies;
      }
    }
  }

  /** A canonical map whose written tree needs no escaping is read back exactly as it was. */
  lemma SafeExactRoundTrip(m: MapData)
    requires Canonical(m)
    requires Safe(Emit(m))
    ensures ParseG85(ReadBack(Emit(m))) == Success(m)
  {
    var rows, cols := RowCount(m.header), ColumnCount(m.header);
    var e := Emit(m);
    var m2 := Reread(e);
    CanonicalRectangle(m.dies, rows, cols);
    RoundTripHeader(m.header, e);
    CompleteHeaderRereads(m.header);
    RoundTripSubstrate(m.mapAttributes, e);
    RoundTripReference(m.referenceDevice, e);
    RoundTripBins(m.bins, e);
    RoundTripDies(m.dies, rows, cols, e);
    ExactMapAttrs(m.mapAttributes);
    ExactBins(m.bins, m2.bins);
    ExactDies(m.dies, m2.dies, rows, cols);
    ClassifiedUnique(m.dies, m2.defects, m.defects);
  }

  /** A canonical map whose values and codes need no escaping is written as well-formed text and read back exactly as it was. */
  lemma ExactRoundTrip(m: MapData)
    requires Canonical(m)
    requires Writable(m)
    ensures Safe(Emit(m))
    ensures ParseG85(ReadBack(Emit(m))) == Success(m)
  {
    WritableIsSafe(m);
    SafeExactRoundTrip(m);
  }

  // ---------------------------------------------------------------------------
  // Rows of odd length

  /** Cutting "ABC" into codes gives "AB" and a one-character "C". */
  lemma OddRowDecodes()
    ensures DecodeRows(["ABC"]).dies == map[(0, 0) := "AB", (1, 0) := "C"]
  {
    var g := DecodeRows(["ABC"]);
    assert TokenCount("ABC") == 2;
    assert Token("ABC", 0) == "AB" && Token("ABC", 1) == "C";
    assert g.dies.Keys == {(0, 0), (1, 0)};
  }

  /** Cutting "ABCFF" into codes gives "AB", "CF" and a one-character "F". */
  lemma PaddedRowDecodes()
    ensures DecodeRows(["ABCFF"]).dies == map[(0, 0) := "AB", (1, 0) := "CF", (2, 0) := "F"]
  {
    var g := DecodeRows(["ABCFF"]);
    assert TokenCount("ABCFF") == 3;
    assert Token("ABCFF", 0) == "AB" && Token("ABCFF", 1) == "CF" && Token("ABCFF", 2) == "F";
    assert g.dies.Keys == {(0, 0), (1, 0), (2, 0)};
  }

  /** The generator pads the odd row's third column, giving "ABCFF". */
  lemma OddRowPads(dies: map<Coord, string>)
    requires dies == map[(0, 0) := "AB", (1, 0) := "C"]
    ensures RowPayload(dies, 3, 0) == "ABCFF"
  {
    assert RowPayload(dies, 1, 0) == "AB";
    assert RowPayload(dies, 2, 0) == "ABC";
  }

  /** A writable map's dies read back as the decoding of the rows written for it. */
  lemma RereadRows(m: MapData)
    requires ParsedHeaderShape(m.header) && Writable(m)
    ensures Safe(Emit(m))
    ensures Reread(Emit(m)).dies == DecodeRows(Emit(m).rows).dies
  {
    WritableIsSafe(m);
    RereadParts(Emit(m));
  }

  /** With one row of three columns, the generator writes the odd row's dies as the single Row "ABCFF". */
  lemma OddRowEmits(m: MapData)
    requires m.dies == map[(0, 0) := "AB", (1, 0) := "C"]
    requires RowCount(m.header) == 1 && ColumnCount(m.header) == 3
    ensures Emit(m).rows == ["ABCFF"]
  {
    OddRowPads(m.dies);
  }

  /**
   * A Row of odd length does not survive parsing, generating and parsing again.
   * With Columns 3 and Rows 1, the row "ABC" parses to the dies "AB" and "C"
   * (OddRowDecodes); the generator writes them back side by side and pads the third column with
   * "FF", giving "ABCFF", which parses to "AB", "CF" and "F".
   */
  lemma OddRowNotRestored(m: MapData)
    requires m.dies == map[(0, 0) := "AB", (1, 0) := "C"]
    requires ParsedHeaderShape(m.header) && RowCount(m.header) == 1 && ColumnCount(m.header) == 3 && Writable(m)
    ensures Safe(Emit(m)) && Emit(m).rows == ["ABCFF"]
    ensures Reread(Emit(m)).dies == map[(0, 0) := "AB", (1, 0) := "CF", (2, 0) := "F"]
    ensures Reread(Emit(m)).dies != m.dies
  {
    RereadRows(m);
    OddRowEmits(m);
    PaddedRowDecodes();
  }
}
