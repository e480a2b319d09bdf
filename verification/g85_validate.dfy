/**
 * `validateG85`: the structural check the upload route runs before parsing. It
 * never throws; it reports the first problem found, in a fixed order: a parser
 * error, no root element at all (the TypeError its own code raises, caught and
 * reported by message), a root other than `Map`, no `Device`, no `Row`.
 */
module G85Validate {
  import opened Common
  import opened Dom
  import opened G85Model
  import opened G85Parse
  import opened G85Generate
  import opened G85RoundTrip

  /** `{ valid: true }` or `{ valid: false, error }`. */
  datatype Verdict = Valid | Invalid(error: string)

  const InvalidXml: string := "Invalid XML format"
  const WrongRoot: string := "Root element must be 'Map'"
  const MissingDevice: string := "Missing Device element"
  const NoRows: string := "No Row elements found"

  /** The error reported when there is no document element whose tag could be read. */
  const NoRoot: string := NullRead("tagName")

  /** The reported message names the first check that failed, and each check is only reached once the earlier ones passed. */
  function ValidateG85(d: ParsedDoc): (v: Verdict)
    ensures v == Invalid(InvalidXml) <==> d.parserError
    ensures v == Invalid(NoRoot) <==> !d.parserError && d.root.None?
    ensures v == Invalid(WrongRoot) <==> !d.parserError && d.root.Some? && d.root.value.tag != "Map"
    ensures v == Invalid(MissingDevice) <==>
      !d.parserError && d.root.Some? && d.root.value.tag == "Map" && |d.devices| == 0
    ensures v == Invalid(NoRows) <==>
      !d.parserError && d.root.Some? && d.root.value.tag == "Map" && |d.devices| > 0 && |d.rows| == 0
  {
    if d.parserError then Invalid(InvalidXml)
    else if d.root.None? then Invalid(NoRoot)
    else if d.root.value.tag != "Map" then Invalid(WrongRoot)
    else if |d.devices| == 0 then Invalid(MissingDevice)
    else if |d.rows| == 0 then Invalid(NoRows)
    else Valid
  }

  /** The shape a document must have to pass: parsed cleanly, a `Map` root, a Device and at least one Row. */
  predicate WellFormedMap(d: ParsedDoc)
  {
    !d.parserError && d.root.Some? && d.root.value.tag == "Map" && |d.devices| > 0 && |d.rows| > 0
  }

  /** A document passes exactly when it has that shape; every failure is one of the five messages. */
  lemma ValidIff(d: ParsedDoc)
    ensures ValidateG85(d).Valid? <==> WellFormedMap(d)
    ensures ValidateG85(d).Invalid? ==>
      ValidateG85(d).error in {InvalidXml, NoRoot, WrongRoot, MissingDevice, NoRows}
  {
  }

  /**
   * A document that passes also parses: `parseG85` returns a map whose header
   * holds every known Device attribute and whose grid has one die row per
   * non-empty Row text.
   */
  lemma ValidParses(d: ParsedDoc)
    requires ValidateG85(d).Valid?
    ensures ParseG85(d).Success?
    ensures |ParseG85(d).value.header| == |HeaderKeys| && ParsedHeaderShape(ParseG85(d).value.header)
    ensures forall y :: 0 <= y < |d.rows| && d.rows[y] != "" ==> (0, y) in ParseG85(d).value.dies
  {
    ParsedHeaderHasShape(d);
  }

  /**
   * The parser is more lenient than the check: a document with a parser error,
   * a foreign root, no Device and no Row is rejected by `validateG85` but still
   * decoded by `parseG85`, to a map with an empty header and no dies.
   */
  lemma ParseIsLenient()
    ensures var d := ParsedDoc(true, Some(Element("html", map[])), [], [], [], []);
      && ValidateG85(d) == Invalid(InvalidXml)
      && ParseG85(d).Success? && ParseG85(d).value.header == [] && ParseG85(d).value.dies == map[]
  {
  }

  /**
   * What `generateG85` writes passes the check exactly when it wrote at least
   * one Row, that is when the header's Rows parses to a positive number.
   */
  lemma GeneratedValidates(m: MapData)
    requires ParsedHeaderShape(m.header) && Writable(m)
    ensures Safe(Emit(m))
    ensures RowCount(m.header) > 0 ==> ValidateG85(ReadBack(Emit(m))) == Valid
    ensures RowCount(m.header) == 0 ==> ValidateG85(ReadBack(Emit(m))) == Invalid(NoRows)
  {
    WritableIsSafe(m);
  }
}
