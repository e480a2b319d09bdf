/**
 * The decision rules of the lot routes, with the database reduced to the
 * records read and written: which status an update accepts and what it
 * stamps, when a lot may go to FTP, which records an upload writes for a
 * wafer map, and the pagination arithmetic of the lot list.
 */
module Lots {
  import opened Common
  import opened Dom
  import opened G85Model
  import opened G85Parse
  import opened G85Validate
  import opened G85Stats
  import opened CoordKey

  // ---------------------------------------------------------------------------
  // Status updates

  /** A row of the lots table, reduced to the columns these rules read or write. */
  datatype Lot = Lot(
    id: nat,
    status: string,
    approvedBy: Option<nat>,
    approvedAt: Option<int>,
    filePath: string,
    originalFilename: string)

  /** A route's answer: success with a message, or an error status with a message. */
  datatype Reply = Ok(message: string) | Fail(status: nat, error: string)

  datatype Update = Update(reply: Reply, lots: map<nat, Lot>)

  const Statuses: seq<string> := ["pending", "approved", "rejected"]

  const InvalidStatus: string := "Invalid status"
  const LotNotFound: string := "Lot not found"

  /** Lot `id` with its status set, stamped with the approver and time exactly when approved, cleared otherwise. */
  function Stamp(lot: Lot, status: string, userId: nat, now: int): Lot
  {
    var approved := status == "approved";
    lot.(status := status,
         approvedBy := if approved then Some(userId) else None,
         approvedAt := if approved then Some(now) else None)
  }

  /**
   * `PUT /:id/status`. The status is checked before anything is written; an
   * unknown id writes nothing and is a 404; otherwise only lot `id` changes:
   * its status, and the approver and time, set exactly when it is approved.
   * `now` stands for the clock.
   */
  function UpdateLotStatus(lots: map<nat, Lot>, id: nat, status: Option<string>, userId: nat, now: int): (u: Update)
    ensures status.None? || status.value !in Statuses ==> u == Update(Fail(400, InvalidStatus), lots)
    ensures status.Some? && status.value in Statuses && id !in lots ==> u == Update(Fail(404, LotNotFound), lots)
    ensures u.reply.Ok? <==> status.Some? && status.value in Statuses && id in lots
    ensures u.reply.Ok? ==>
      && u.reply.message == "Lot " + status.value + " successfully"
      && u.lots.Keys == lots.Keys
      && u.lots[id].status == status.value
      && (u.lots[id].approvedBy.Some? <==> status.value == "approved")
      && (u.lots[id].approvedAt.Some? <==> status.value == "approved")
      && (status.value == "approved" ==> u.lots[id].approvedBy == Some(userId) && u.lots[id].approvedAt == Some(now))
      && u.lots[id].id == lots[id].id && u.lots[id].filePath == lots[id].filePath
      && u.lots[id].originalFilename == lots[id].originalFilename
      && (forall j :: j in lots && j != id ==> u.lots[j] == lots[j])
  {
    if status.None? || status.value !in Statuses then Update(Fail(400, InvalidStatus), lots)
    else if id !in lots then Update(Fail(404, LotNotFound), lots)
    else Update(Ok("Lot " + status.value + " successfully"), lots[id := Stamp(lots[id], status.value, userId, now)])
  }

  /**
   * Repeating an update, at any later time, changes nothing but the approval
   * time, which an approval stamps again; a repeated update to any other
   * status, or one at the same time, leaves the table as the first left it.
   */
  lemma UpdateIdempotent(lots: map<nat, Lot>, id: nat, status: Option<string>, userId: nat, now: int, now2: int)
    ensures var once := UpdateLotStatus(lots, id, status, userId, now).lots;
            var twice := UpdateLotStatus(once, id, status, userId, now2).lots;
      && twice.Keys == once.Keys
      && (forall j :: j in once ==> twice[j] == once[j].(approvedAt := twice[j].approvedAt))
      && (status == Some("approved") && id in lots ==> twice[id].approvedAt == Some(now2))
      && (status != Some("approved") || now2 == now ==> twice == once)
  {
  }

  /** A later update overrides an earlier one: only the last status and its stamping remain. */
  lemma LastUpdateWins(lots: map<nat, Lot>, id: nat, s1: string, s2: string, u1: nat, u2: nat, t1: int, t2: int)
    requires s1 in Statuses && s2 in Statuses
    ensures UpdateLotStatus(UpdateLotStatus(lots, id, Some(s1), u1, t1).lots, id, Some(s2), u2, t2).lots
         == UpdateLotStatus(lots, id, Some(s2), u2, t2).lots
  {
    if id in lots {
      assert Stamp(Stamp(lots[id], s1, u1, t1), s2, u2, t2) == Stamp(lots[id], s2, u2, t2);
      assert lots[id := Stamp(lots[id], s1, u1, t1)][id := Stamp(lots[id], s2, u2, t2)]
          == lots[id := Stamp(lots[id], s2, u2, t2)];
    }
  }

  // ---------------------------------------------------------------------------
  // The FTP guard

  datatype FtpDecision = Proceed(lot: Lot) | Refuse(status: nat, error: string)

  const NotApproved: string := "Only approved lots can be uploaded to FTP"
  const FileMissing: string := "Lot file not found"

  /**
   * The checks `POST /:id/upload-ftp` makes before handing the file to the FTP
   * service, first failure first. `fileExists` stands for the file system.
   */
  function FtpGuard(lots: map<nat, Lot>, id: nat, fileExists: string -> bool): (d: FtpDecision)
    ensures d.Proceed? <==> id in lots && lots[id].status == "approved" && fileExists(lots[id].filePath)
    ensures d.Proceed? ==> d.lot == lots[id]
    ensures id !in lots ==> d == Refuse(404, LotNotFound)
    ensures id in lots && lots[id].status != "approved" ==> d == Refuse(400, NotApproved)
    ensures id in lots && lots[id].status == "approved" && !fileExists(lots[id].filePath) ==> d == Refuse(404, FileMissing)
  {
    if id !in lots then Refuse(404, LotNotFound)
    else if lots[id].status != "approved" then Refuse(400, NotApproved)
    else if !fileExists(lots[id].filePath) then Refuse(404, FileMissing)
    else Proceed(lots[id])
  }

  /**
   * The two rules together: right after a successful approval the lot may go
   * to FTP exactly when its file exists; right after a successful update to
   * another status it is refused with 400.
   */
  lemma ApprovalOpensFtp(lots: map<nat, Lot>, id: nat, status: string, userId: nat, now: int, fileExists: string -> bool)
    requires UpdateLotStatus(lots, id, Some(status), userId, now).reply.Ok?
    ensures var after := UpdateLotStatus(lots, id, Some(status), userId, now).lots;
      && (status == "approved" ==> (FtpGuard(after, id, fileExists).Proceed? <==> fileExists(lots[id].filePath)))
      && (status != "approved" ==> FtpGuard(after, id, fileExists) == Refuse(400, NotApproved))
  {
  }

  // ---------------------------------------------------------------------------
  // The records an upload writes

  /** A row of the dies table. */
  datatype DieRecord = DieRecord(lotId: nat, x: nat, y: nat, binCode: string, isDefect: bool, defectType: Option<string>)

  /** A row of the bins table: the four attributes exactly as parsed. */
  datatype BinRecord = BinRecord(
    lotId: nat,
    binCode: Option<string>,
    binQuality: Option<string>,
    binDescription: Option<string>,
    binCount: Option<string>)

  /** The row of the lots table an upload inserts. */
  datatype LotRecord = LotRecord(
    filename: string,
    originalFilename: string,
    uploadedBy: nat,
    description: Option<string>,
    filePath: string,
    fileSize: nat,
    substrateNumber: Option<string>,
    substrateType: Option<string>,
    substrateId: Option<string>,
    lotId: Option<string>,
    productId: Option<string>,
    waferSize: Option<string>,
    rowsCount: Option<string>,
    columnsCount: Option<string>,
    totalDies: nat,
    defectCount: nat)

  /** The position a die record names. */
  function At(r: DieRecord): Coord
  {
    (r.x, r.y)
  }

  /**
   * What the record of the die at `k` with code `status` holds: that position
   * and code, flagged as a defect exactly when the code is classified as one
   * (a reference die is not), with type "defect" exactly when flagged.
   */
  predicate IsRecordOf(r: DieRecord, lotId: nat, k: Coord, status: string)
  {
    && At(r) == k && r.lotId == lotId && r.binCode == status
    && (r.isDefect <==> DefectFor(status) == Some(Defect(DefectCode, "Defect")))
    && r.defectType == (if r.isDefect then Some("defect") else None)
  }

  /**
   * The record written for the die filed under the key `"x,y"`, the position
   * split back out of the key.
   */
  function DieRecordFor(lotId: nat, x: nat, y: nat, status: string): (r: DieRecord)
    ensures IsRecordOf(r, lotId, (x, y), status)
  {
    KeyRoundTrip(x, y);
    var coords := ParseKey(Key(x, y)).value;
    var isDefect := status == DefectCode;
    DieRecord(lotId, coords.0, coords.1, status, isDefect, if isDefect then Some("defect") else None)
  }

  /** The number of records flagged as defects. */
  ghost function DefectRecords(records: seq<DieRecord>): nat
  {
    |set i | 0 <= i < |records| && records[i].isDefect|
  }

  lemma DefectRecordsAppend(records: seq<DieRecord>, r: DieRecord)
    ensures DefectRecords(records + [r]) == DefectRecords(records) + (if r.isDefect then 1 else 0)
  {
    var before := set i | 0 <= i < |records| && records[i].isDefect;
    var after := set i | 0 <= i < |records + [r]| && (records + [r])[i].isDefect;
    if r.isDefect {
      assert after == before + {|records|};
    } else {
      assert after == before;
    }
  }

  /** Each record is the record of a visited die. */
  ghost predicate RecordsMatch(lotId: nat, dies: map<Coord, string>, visited: set<Coord>, records: seq<DieRecord>)
  {
    forall i :: 0 <= i < |records| ==>
      At(records[i]) in visited && At(records[i]) in dies
      && IsRecordOf(records[i], lotId, At(records[i]), dies[At(records[i])])
  }

  /** Every visited die has a record. */
  ghost predicate RecordsCover(visited: set<Coord>, records: seq<DieRecord>)
  {
    forall k :: k in visited ==> exists i :: 0 <= i < |records| && At(records[i]) == k
  }

  /** No position has two records. */
  ghost predicate RecordsDistinct(records: seq<DieRecord>)
  {
    forall i, j :: 0 <= i < j < |records| ==> At(records[i]) != At(records[j])
  }

  /**
   * `records` are the die records written so far for the dies at `visited`:
   * one per position, each the record of its die, and as many flagged as
   * there are "EF" dies among them.
   */
  ghost predicate RecordsFor(lotId: nat, dies: map<Coord, string>, visited: set<Coord>, records: seq<DieRecord>)
  {
    && |records| == |visited|
    && RecordsMatch(lotId, dies, visited, records)
    && RecordsCover(visited, records)
    && RecordsDistinct(records)
    && DefectRecords(records) == |WithCode(dies, visited, DefectCode)|
  }

  lemma MatchStep(lotId: nat, dies: map<Coord, string>, visited: set<Coord>, records: seq<DieRecord>, k: Coord, r: DieRecord)
    requires RecordsMatch(lotId, dies, visited, records) && k in dies && IsRecordOf(r, lotId, k, dies[k])
    ensures RecordsMatch(lotId, dies, visited + {k}, records + [r])
  {
    var records' := records + [r];
    forall i | 0 <= i < |records'|
      ensures At(records'[i]) in visited + {k} && At(records'[i]) in dies
      ensures IsRecordOf(records'[i], lotId, At(records'[i]), dies[At(records'[i])])
    {
      if i < |records| {
        assert records'[i] == records[i];
      }
    }
  }

  lemma CoverStep(visited: set<Coord>, records: seq<DieRecord>, k: Coord, r: DieRecord)
    requires RecordsCover(visited, records) && At(r) == k
    ensures RecordsCover(visited + {k}, records + [r])
  {
    var records' := records + [r];
    forall j | j in visited + {k} ensures exists i :: 0 <= i < |records'| && At(records'[i]) == j {
      if j == k {
        assert At(records'[|records|]) == j;
      } else {
        var i :| 0 <= i < |records| && At(records[i]) == j;
        assert At(records'[i]) == j;
      }
    }
  }

  lemma DistinctStep(lotId: nat, dies: map<Coord, string>, visited: set<Coord>, records: seq<DieRecord>, r: DieRecord)
    requires RecordsDistinct(records) && RecordsMatch(lotId, dies, visited, records) && At(r) !in visited
    ensures RecordsDistinct(records + [r])
  {
  }

  /** Before any die is visited there are no records. */
  lemma RecordsForNone(lotId: nat, dies: map<Coord, string>)
    ensures RecordsFor(lotId, dies, {}, [])
  {
    assert WithCode(dies, {}, DefectCode) == {};
  }

  /** Writing the record of one more die keeps the records matched to the visited dies. */
  lemma RecordsForStep(lotId: nat, dies: map<Coord, string>, visited: set<Coord>, records: seq<DieRecord>, k: Coord, r: DieRecord)
    requires RecordsFor(lotId, dies, visited, records)
    requires k in dies && k !in visited && IsRecordOf(r, lotId, k, dies[k])
    ensures RecordsFor(lotId, dies, visited + {k}, records + [r])
  {
    DefectRecordsAppend(records, r);
    WithCodeStep(dies, visited, k, DefectCode);
    MatchStep(lotId, dies, visited, records, k, r);
    CoverStep(visited, records, k, r);
    DistinctStep(lotId, dies, visited, records, r);
  }

  /** A record that describes a die is the one record `DieRecordFor` writes for it. */
  lemma RecordOfUnique(r: DieRecord, lotId: nat, k: Coord, status: string)
    requires IsRecordOf(r, lotId, k, status)
    ensures r == DieRecordFor(lotId, k.0, k.1, status)
  {
    var w := DieRecordFor(lotId, k.0, k.1, status);
    assert r.isDefect == w.isDefect;
  }

  /** The distinct records of a list of die rows. */
  ghost function RecordSet(records: seq<DieRecord>): set<DieRecord>
  {
    set i | 0 <= i < |records| :: records[i]
  }

  /** The records `DieRecordFor` writes for the dies of a map, one per die. */
  ghost function ExpectedRecords(lotId: nat, dies: map<Coord, string>): set<DieRecord>
  {
    set k | k in dies.Keys :: DieRecordFor(lotId, k.0, k.1, dies[k])
  }

  lemma WrittenAreExpected(lotId: nat, dies: map<Coord, string>, records: seq<DieRecord>)
    requires RecordsFor(lotId, dies, dies.Keys, records)
    ensures RecordSet(records) <= ExpectedRecords(lotId, dies)
  {
    forall r | r in RecordSet(records) ensures r in ExpectedRecords(lotId, dies) {
      var i :| 0 <= i < |records| && records[i] == r;
      RecordOfUnique(r, lotId, At(r), dies[At(r)]);
    }
  }

  lemma ExpectedAreWritten(lotId: nat, dies: map<Coord, string>, records: seq<DieRecord>)
    requires RecordsFor(lotId, dies, dies.Keys, records)
    ensures ExpectedRecords(lotId, dies) <= RecordSet(records)
  {
    forall r | r in ExpectedRecords(lotId, dies) ensures r in RecordSet(records) {
      var k :| k in dies.Keys && r == DieRecordFor(lotId, k.0, k.1, dies[k]);
      var i :| 0 <= i < |records| && At(records[i]) == k;
      RecordOfUnique(records[i], lotId, k, dies[k]);
    }
  }

  /**
   * Records for every die are, in some order and each once, exactly the records
   * `DieRecordFor` writes for the dies, as many flagged as there are "EF" dies.
   */
  lemma RecordsForAll(lotId: nat, dies: map<Coord, string>, records: seq<DieRecord>)
    requires RecordsFor(lotId, dies, dies.Keys, records)
    ensures DiesStored(lotId, dies, records)
  {
    WrittenAreExpected(lotId, dies, records);
    ExpectedAreWritten(lotId, dies, records);
  }

  /**
   * The die records of an upload: the records for all its dies, that is (by
   * `RecordsForAll`) exactly one per die, each at its die's position with its
   * die's code, no position twice, and as many flagged as defects as there are
   * "EF" dies. The dies are taken in whatever order they come.
   */
  method DieRecords(lotId: nat, dies: map<Coord, string>) returns (records: seq<DieRecord>)
    ensures RecordsFor(lotId, dies, dies.Keys, records)
  {
    records := [];
    var remaining := dies.Keys;
    ghost var visited: set<Coord> := {};
    RecordsForNone(lotId, dies);
    while remaining != {}
      invariant remaining <= dies.Keys && visited == dies.Keys - remaining
      invariant RecordsFor(lotId, dies, visited, records)
      decreases |remaining|
    {
      var k :| k in remaining;
      var r := DieRecordFor(lotId, k.0, k.1, dies[k]);
      RecordsForStep(lotId, dies, visited, records, k, r);
      records := records + [r];
      remaining := remaining - {k};
      visited := visited + {k};
    }
    assert visited == dies.Keys;
  }

  /** The bin records of an upload: one per bin definition, in list order, attributes as parsed. */
  function BinRecords(lotId: nat, bins: seq<BinDef>): (r: seq<BinRecord>)
    ensures |r| == |bins|
    ensures forall i :: 0 <= i < |bins| ==>
      r[i] == BinRecord(lotId, bins[i].binCode, bins[i].binQuality, bins[i].binDescription, bins[i].binCount)
  {
    seq(|bins|, i requires 0 <= i < |bins| =>
      BinRecord(lotId, bins[i].binCode, bins[i].binQuality, bins[i].binDescription, bins[i].binCount))
  }

  /** For a map the parser built, a die record is flagged exactly when the defects map files its position as "EF". */
  lemma DefectFlagsMatchDefects(lotId: nat, m: MapData, k: Coord)
    requires Classified(m.dies, m.defects) && k in m.dies
    ensures DieRecordFor(lotId, k.0, k.1, m.dies[k]).isDefect <==> k in m.defects && m.defects[k].kind == DefectCode
  {
  }

  /** The file multer stored: its original name, where it was stored, and its size. */
  datatype UploadedFile = UploadedFile(originalName: string, path: string, size: nat, description: Option<string>)

  datatype UploadOutcome =
    | Created(id: nat, filename: string, statistics: Statistics, lot: LotRecord, dies: seq<DieRecord>, bins: seq<BinRecord>)
    | Rejected(status: nat, error: string)

  const NoFile: string := "No file uploaded"

  /**
   * What the upload route stores for a parsed map: the lot record carries the
   * statistics' totals and the header's values, there is one die record per
   * die, at its position and with its code, as many flagged as there are "EF"
   * dies, and one bin record per bin.
   */
  ghost predicate Stores(m: MapData, upload: UploadedFile, userId: nat, lotId: nat, r: UploadOutcome)
  {
    && r.Created?
    && r.id == lotId && r.filename == upload.originalName
    && Describes(m, r.statistics)
    && LotStored(m, upload, userId, r.lot)
    && DiesStored(lotId, m.dies, r.dies)
    && r.bins == BinRecords(lotId, m.bins)
  }

  /**
   * The lot row: who uploaded which file (its name twice, its description,
   * path and size), the substrate attributes and the header's LotId,
   * ProductId, WaferSize, Rows and Columns as parsed, and the map's totals.
   */
  ghost predicate LotStored(m: MapData, upload: UploadedFile, userId: nat, lot: LotRecord)
  {
    && lot.filename == upload.originalName && lot.originalFilename == upload.originalName
    && lot.uploadedBy == userId && lot.description == upload.description
    && lot.filePath == upload.path && lot.fileSize == upload.size
    && lot.substrateNumber == m.mapAttributes.substrateNumber
    && lot.substrateType == m.mapAttributes.substrateType
    && lot.substrateId == m.mapAttributes.substrateId
    && lot.lotId == HeaderValue(m.header, "LotId")
    && lot.productId == HeaderValue(m.header, "ProductId")
    && lot.waferSize == HeaderValue(m.header, "WaferSize")
    && lot.rowsCount == HeaderValue(m.header, "Rows")
    && lot.columnsCount == HeaderValue(m.header, "Columns")
    && lot.totalDies == |m.dies| && lot.defectCount == CodeCount(m.dies, DefectCode)
  }

  /**
   * The die rows: as many as there are dies, and, taken as a set, exactly the
   * records `DieRecordFor` writes for the dies (so each die's record once); as
   * many flagged as there are "EF" dies.
   */
  ghost predicate DiesStored(lotId: nat, dies: map<Coord, string>, records: seq<DieRecord>)
  {
    && |records| == |dies|
    && RecordSet(records) == ExpectedRecords(lotId, dies)
    && DefectRecords(records) == CodeCount(dies, DefectCode)
  }

  /** The inserts of an accepted upload: the lot row, its die rows and its bin rows. */
  method StoreMap(m: MapData, upload: UploadedFile, userId: nat, lotId: nat) returns (r: UploadOutcome)
    ensures Stores(m, upload, userId, lotId, r)
  {
    var statistics := GetStatistics(m);
    var lot := LotRecord(
      upload.originalName, upload.originalName, userId, upload.description, upload.path, upload.size,
      m.mapAttributes.substrateNumber, m.mapAttributes.substrateType, m.mapAttributes.substrateId,
      HeaderValue(m.header, "LotId"), HeaderValue(m.header, "ProductId"), HeaderValue(m.header, "WaferSize"),
      HeaderValue(m.header, "Rows"), HeaderValue(m.header, "Columns"),
      statistics.totalDies, statistics.defectCount);
    var dies := DieRecords(lotId, m.dies);
    RecordsForAll(lotId, m.dies, dies);
    var bins := BinRecords(lotId, m.bins);
    r := Created(lotId, upload.originalName, statistics, lot, dies, bins);
  }

  /**
   * `POST /`. `doc` is the file's content as the XML parser reads it, `lotId`
   * the id the database assigns to the new lot. Nothing is parsed or written
   * for a missing file or a file that fails validation; otherwise the map is
   * parsed and stored.
   */
  method UploadLot(file: Option<UploadedFile>, doc: ParsedDoc, userId: nat, lotId: nat) returns (r: UploadOutcome)
    ensures file.None? ==> r == Rejected(400, NoFile)
    ensures file.Some? && ValidateG85(doc).Invalid? ==> r == Rejected(400, ValidateG85(doc).error)
    ensures r.Created? <==> file.Some? && ValidateG85(doc).Valid?
    ensures r.Created? ==> ParseG85(doc).Success? && Stores(ParseG85(doc).value, file.value, userId, lotId, r)
  {
    if file.None? {
      return Rejected(400, NoFile);
    }
    var validation := ValidateG85(doc);
    if validation.Invalid? {
      return Rejected(400, validation.error);
    }
    ValidParses(doc);
    r := StoreMap(ParseG85(doc).value, file.value, userId, lotId);
  }

  // ---------------------------------------------------------------------------
  // Pagination

  /** `(page - 1) * limit`: the number of lots skipped before the page. */
  function Offset(page: int, limit: int): int
  {
    (page - 1) * limit
  }

  /**
   * `Math.ceil(total / limit)`: the number of pages, None where the division
   * gives no number (a zero limit, which JSON writes as null).
   */
  function Pages(total: nat, limit: int): (p: Option<int>)
    ensures limit == 0 <==> p.None?
    ensures limit > 0 ==> (p.value - 1) * limit < total <= p.value * limit
    ensures limit < 0 ==> p.value * limit <= total < (p.value - 1) * limit
  {
    if limit == 0 then None
    else if limit > 0 then Some((total + limit - 1) / limit)
    else Some(-(total / -limit))
  }

  /**
   * With a positive limit the pages tile the list: lot i (counted from 0) is on
   * page i / limit + 1, which is between 1 and the page count, and that page's
   * window starts at or before i and ends after it.
   */
  lemma PagesCoverTotal(total: nat, limit: nat, i: nat)
    requires limit > 0 && i < total
    ensures var page := i / limit + 1;
      && 1 <= page <= Pages(total, limit).value
      && Offset(page, limit) <= i < Offset(page, limit) + limit
  {
    var page := i / limit + 1;
    var p := Pages(total, limit).value;
    assert (page - 1) * limit <= i < page * limit;
    MulCancel(page - 1, p, limit);
  }

  /** Dividing both sides of `a·c < b·c` by a positive `c`. */
  lemma MulCancel(a: int, b: int, c: int)
    requires c > 0 && a * c < b * c
    ensures a < b
  {
    assert (b - a) * c == b * c - a * c;
  }
}
