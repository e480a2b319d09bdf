/**
 * The in-memory wafer map: the record the parser builds and the generator and
 * the statistics consume. Every attribute is kept as the raw string the
 * document held, the empty string when it was absent; nothing is converted to
 * a number on the way in. A null appears only in a map that did not come from
 * the parser: the generator accepts any map, so the values are optional.
 */
module G85Model {
  import opened Common

  /** The reserved bin codes: a defective die, the reference device, and the generator's fill for a missing die. */
  const DefectCode: string := "EF"
  const ReferenceCode: string := "FA"
  const FillCode: string := "FF"

  /** A die position: column x, row y, both counted from 0. */
  type Coord = (nat, nat)

  /** An entry of the defects map: the reserved code and a human-readable label. */
  datatype Defect = Defect(kind: string, additionalInfo: string)

  /** One `Bin` element: all four attributes as found, `BinCount` included. */
  datatype BinDef = BinDef(
    binCode: Option<string>,
    binQuality: Option<string>,
    binDescription: Option<string>,
    binCount: Option<string>)

  datatype RefDevice = RefDevice(referenceDeviceX: Option<string>, referenceDeviceY: Option<string>)

  /** The substrate attributes carried by the root `Map` element. */
  datatype MapAttributes = MapAttributes(
    substrateNumber: Option<string>,
    substrateType: Option<string>,
    substrateId: Option<string>,
    formatRevision: Option<string>)

  /** The device header as an ordered list of (attribute name, value) entries, in object-key order. */
  type Header = seq<(string, Option<string>)>

  /** The device attributes the parser reads, in the order it reads them. */
  const HeaderKeys: seq<string> := [
    "BinType", "SupplierName", "LotId", "DeviceSizeX", "DeviceSizeY", "NullBin",
    "ProductId", "Rows", "Columns", "MapType", "OriginLocation", "Orientation",
    "WaferSize", "CreateDate", "LastModified"]

  datatype MapData = MapData(
    header: Header,
    dies: map<Coord, string>,
    defects: map<Coord, Defect>,
    bins: seq<BinDef>,
    referenceDevice: Option<RefDevice>,
    mapAttributes: MapAttributes)

  /** `header[key]`: the value of the first entry named `key`; null when there is none or it is null. */
  function HeaderValue(h: Header, key: string): Option<string>
    decreases |h|
  {
    if |h| == 0 then None
    else if h[0].0 == key then h[0].1
    else HeaderValue(h[1..], key)
  }

  /** The defects entry a bin code earns: only the two reserved codes are classified. */
  function DefectFor(code: string): Option<Defect>
  {
    if code == DefectCode then Some(Defect(DefectCode, "Defect"))
    else if code == ReferenceCode then Some(Defect(ReferenceCode, "Reference Device"))
    else None
  }

  /**
   * The defects map is exactly the reserved-code part of the die map: its keys
   * are die positions whose code is "EF" or "FA", each with that code's entry.
   */
  ghost predicate Classified(dies: map<Coord, string>, defects: map<Coord, Defect>)
  {
    && (forall k :: k in defects ==> k in dies && DefectFor(dies[k]) == Some(defects[k]))
    && (forall k :: k in dies && DefectFor(dies[k]).Some? ==> k in defects)
  }
}
