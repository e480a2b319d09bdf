/**
 * What the XML library hands the codec, kept abstract: tokenising and tree
 * building are the library's business. A parsed document is reduced to the
 * queries the codec makes of it, each answered in document order.
 */
module Dom {
  import opened Common

  /** An element: its tag name and its attributes (names are unique within an element). */
  datatype Element = Element(tag: string, attrs: map<string, string>)

  datatype ParsedDoc = ParsedDoc(
    parserError: bool,                // getElementsByTagName("parsererror") is non-empty
    root: Option<Element>,            // documentElement, null when nothing could be built
    devices: seq<Element>,            // getElementsByTagName("Device")
    referenceDevices: seq<Element>,   // getElementsByTagName("ReferenceDevice")
    bins: seq<Element>,               // getElementsByTagName("Bin")
    rows: seq<string>)                // textContent of each getElementsByTagName("Row")

  /**
   * `e.getAttribute(name)` as the `xmldom` package answers it: the attribute's
   * text, and the empty string (never null) when the element has no such
   * attribute.
   */
  function GetAttribute(e: Element, name: string): (v: string)
    ensures name !in e.attrs ==> v == ""
  {
    if name in e.attrs then e.attrs[name] else ""
  }

  /** `list[0]`: undefined for an empty list. */
  function First(es: seq<Element>): Option<Element>
  {
    if |es| == 0 then None else Some(es[0])
  }

  /** The message of the TypeError raised by reading `property` of `null`. */
  function NullRead(property: string): string
  {
    "Cannot read properties of null (reading '" + property + "')"
  }
}
