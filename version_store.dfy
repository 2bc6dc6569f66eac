/** The server: the `app_versions` table as a map from id to row, the
    AUTOINCREMENT counter beside it, and the request handlers that read
    and change it. Timestamps (`datetime.now().isoformat()`) are
    parameters. */
module VersionStore {
  import opened Wrappers
  import opened StringOrder

  const AdminPassword := "admin123"

  /** The eleven user fields (`VersionBase`); the last seven may be NULL. */
  datatype VersionInput = VersionInput(
    version: string,
    osType: string,
    releaseType: string,
    status: string,
    description: Option<string>,
    progressSummary: Option<string>,
    qaDate: Option<string>,
    submissionDate: Option<string>,
    liveDate: Option<string>,
    releaseNotes: Option<string>,
    remarks: Option<string>)

  /** One row of `app_versions`, without its key. */
  datatype Row = Row(data: VersionInput, createdAt: string, updatedAt: string)

  /** The `Version` response model: a row with its id. */
  datatype Version = Version(id: int, data: VersionInput, createdAt: string, updatedAt: string)

  datatype HttpError = HttpError(status: int, detail: string)

  datatype AuthResponse = AuthResponse(success: bool, message: string)

  const NotFound := HttpError(404, "版本不存在")

  // ---------------------------------------------------------------------
  // Authentication
  // ---------------------------------------------------------------------

  /** `verify_password`. */
  function VerifyPassword(password: string): (ok: bool)
    ensures ok <==> password == AdminPassword
  {
    password == AdminPassword
  }

  /** `authenticate`: `success` is the password check, the message follows it. */
  function Authenticate(password: string): (r: AuthResponse)
    ensures r.success <==> password == AdminPassword
    ensures r.message == (if password == AdminPassword then "認證成功" else "密碼錯誤")
  {
    if VerifyPassword(password) then AuthResponse(true, "認證成功")
    else AuthResponse(false, "密碼錯誤")
  }

  // ---------------------------------------------------------------------
  // The filter clause and the order of listings
  // ---------------------------------------------------------------------

  /** The WHERE clause of `get_versions`: `ios` and `android` keep their own
      system and both-systems rows; no filter, an empty one, `all` or any
      other text keeps every row. */
  predicate Selects(osFilter: Option<string>, osType: string) {
    if osFilter.Some? && osFilter.value != "" && osFilter.value != "all" then
      if osFilter.value == "ios" then osType in {"iOS", "雙系統"}
      else if osFilter.value == "android" then osType in {"Android", "雙系統"}
      else true
    else true
  }

  lemma FilterClause(osFilter: Option<string>, osType: string)
    ensures osFilter == Some("ios") ==> (Selects(osFilter, osType) <==> osType == "iOS" || osType == "雙系統")
    ensures osFilter == Some("android") ==> (Selects(osFilter, osType) <==> osType == "Android" || osType == "雙系統")
    ensures osFilter != Some("ios") && osFilter != Some("android") ==> Selects(osFilter, osType)
  {
  }

  /** An ordered selection of ids: each selected row once, no other row,
      by version descending. */
  predicate IsOrderedSelection(ids: seq<int>, rows: map<int, Row>, osFilter: Option<string>) {
    (forall i :: 0 <= i < |ids| ==> ids[i] in rows && Selects(osFilter, rows[ids[i]].data.osType)) &&
    (forall i, j :: 0 <= i < j < |ids| ==> ids[i] != ids[j]) &&
    (forall id :: id in rows && Selects(osFilter, rows[id].data.osType) ==> id in ids) &&
    (forall i, j :: 0 <= i < j < |ids| ==> LexLe(rows[ids[j]].data.version, rows[ids[i]].data.version))
  }

  /** Where a new id goes in a descending list: before the first version not
      above it. */
  function InsertPos(ids: seq<int>, rows: map<int, Row>, v: string): (k: nat)
    requires forall i :: 0 <= i < |ids| ==> ids[i] in rows
    ensures k <= |ids|
    ensures forall i :: 0 <= i < k ==> !LexLe(rows[ids[i]].data.version, v)
    ensures k < |ids| ==> LexLe(rows[ids[k]].data.version, v)
    decreases |ids|
  {
    if ids == [] || LexLe(rows[ids[0]].data.version, v) then 0
    else 1 + InsertPos(ids[1..], rows, v)
  }

  /** `ids` with `id` placed at position `k`. */
  function InsertAt(ids: seq<int>, k: nat, id: int): (r: seq<int>)
    requires k <= |ids|
    ensures |r| == |ids| + 1 && r[k] == id
    ensures forall j :: 0 <= j < k ==> r[j] == ids[j]
    ensures forall j :: k < j < |r| ==> r[j] == ids[j - 1]
  {
    ids[..k] + [id] + ids[k..]
  }

  /** What the selection loop keeps: the rows seen so far (those outside
      `pending`) that the filter keeps, each once, by version descending. */
  predicate SelectedSoFar(ids: seq<int>, rows: map<int, Row>, osFilter: Option<string>, pending: set<int>) {
    (forall i :: 0 <= i < |ids| ==> ids[i] in rows && ids[i] !in pending && Selects(osFilter, rows[ids[i]].data.osType)) &&
    (forall i, j :: 0 <= i < j < |ids| ==> ids[i] != ids[j]) &&
    (forall id :: id in rows && id !in pending && Selects(osFilter, rows[id].data.osType) ==> id in ids) &&
    (forall i, j :: 0 <= i < j < |ids| ==> LexLe(rows[ids[j]].data.version, rows[ids[i]].data.version))
  }

  /** Inserting a selected row at InsertPos keeps the list ordered. */
  lemma InsertKeepsOrder(ids: seq<int>, rows: map<int, Row>, id: int)
    requires forall i :: 0 <= i < |ids| ==> ids[i] in rows
    requires id in rows
    requires forall i, j :: 0 <= i < j < |ids| ==> LexLe(rows[ids[j]].data.version, rows[ids[i]].data.version)
    ensures var r := InsertAt(ids, InsertPos(ids, rows, rows[id].data.version), id);
      forall i, j :: 0 <= i < j < |r| ==> LexLe(rows[r[j]].data.version, rows[r[i]].data.version)
  {
    var v := rows[id].data.version;
    var k := InsertPos(ids, rows, v);
    var r := InsertAt(ids, k, id);
    forall i, j | 0 <= i < j < |r| ensures LexLe(rows[r[j]].data.version, rows[r[i]].data.version) {
      var vi, vj := rows[r[i]].data.version, rows[r[j]].data.version;
      if j < k {
        assert r[i] == ids[i] && r[j] == ids[j];
      } else if j == k {
        assert r[i] == ids[i] && r[j] == id;
        LexLeTotal(vi, v);
      } else if i < k {
        assert r[i] == ids[i] && r[j] == ids[j - 1];
      } else if i == k {
        assert r[i] == id && r[j] == ids[j - 1];
        if j - 1 > k {
          LexLeTransitive(vj, rows[ids[k]].data.version, v);
        }
      } else {
        assert r[i] == ids[i - 1] && r[j] == ids[j - 1];
      }
    }
  }

  /** One step of the selection loop: a row the filter keeps is inserted in
      order, any other row is passed over. */
  lemma SelectStep(ids: seq<int>, rows: map<int, Row>, osFilter: Option<string>, pending: set<int>, id: int)
    requires SelectedSoFar(ids, rows, osFilter, pending)
    requires id in pending && id in rows
    ensures Selects(osFilter, rows[id].data.osType) ==>
      SelectedSoFar(InsertAt(ids, InsertPos(ids, rows, rows[id].data.version), id), rows, osFilter, pending - {id})
    ensures !Selects(osFilter, rows[id].data.osType) ==> SelectedSoFar(ids, rows, osFilter, pending - {id})
  {
    if Selects(osFilter, rows[id].data.osType) {
      var k := InsertPos(ids, rows, rows[id].data.version);
      InsertKeepsOrder(ids, rows, id);
      InsertKeepsMembers(ids, rows, osFilter, pending, id, k);
      InsertKeepsDistinct(ids, pending, id, k);
    }
  }

  lemma InsertKeepsMembers(ids: seq<int>, rows: map<int, Row>, osFilter: Option<string>, pending: set<int>, id: int, k: nat)
    requires SelectedSoFar(ids, rows, osFilter, pending)
    requires id in pending && id in rows && Selects(osFilter, rows[id].data.osType)
    requires k <= |ids|
    ensures var r := InsertAt(ids, k, id);
      (forall i :: 0 <= i < |r| ==> r[i] in rows && r[i] !in pending - {id} && Selects(osFilter, rows[r[i]].data.osType)) &&
      (forall x :: x in rows && x !in pending - {id} && Selects(osFilter, rows[x].data.osType) ==> x in r)
  {
    var r := InsertAt(ids, k, id);
    forall i | 0 <= i < |r|
      ensures r[i] in rows && r[i] !in pending - {id} && Selects(osFilter, rows[r[i]].data.osType)
    {
      if i != k {
        assert r[i] == ids[if i < k then i else i - 1];
      }
    }
    forall x | x in rows && x !in pending - {id} && Selects(osFilter, rows[x].data.osType)
      ensures x in r
    {
      if x != id {
        var i :| 0 <= i < |ids| && ids[i] == x;
        assert r[if i < k then i else i + 1] == x;
      }
    }
  }

  lemma InsertKeepsDistinct(ids: seq<int>, pending: set<int>, id: int, k: nat)
    requires forall i, j :: 0 <= i < j < |ids| ==> ids[i] != ids[j]
    requires forall i :: 0 <= i < |ids| ==> ids[i] !in pending
    requires id in pending && k <= |ids|
    ensures var r := InsertAt(ids, k, id);
      forall i, j :: 0 <= i < j < |r| ==> r[i] != r[j]
  {
    var r := InsertAt(ids, k, id);
    forall i, j | 0 <= i < j < |r| ensures r[i] != r[j] {
      if i != k && j != k {
        assert r[i] == ids[if i < k then i else i - 1];
        assert r[j] == ids[if j < k then j else j - 1];
      } else if i == k {
        assert r[j] == ids[j - 1];
      } else {
        assert r[i] == ids[i];
      }
    }
  }

  // ---------------------------------------------------------------------
  // The export table
  // ---------------------------------------------------------------------

  const ExportHeader: seq<string> := ["版號", "類型", "狀態", "作業系統", "更新功能描述",
    "測試時間", "送審時間", "完成上線時間", "送審文案", "現在進度說明", "其他備註"]

  /** The nullable columns, in the export's order. */
  function NullableColumns(d: VersionInput): seq<Option<string>> {
    [d.description, d.qaDate, d.submissionDate, d.liveDate,
     d.releaseNotes, d.progressSummary, d.remarks]
  }

  /** One export line: the columns in the SELECT's order, NULL as ''. */
  function ExportCells(d: VersionInput): (r: seq<string>)
    ensures |r| == |ExportHeader| == 11
    ensures r[0] == d.version && r[1] == d.releaseType && r[2] == d.status && r[3] == d.osType
    ensures forall i :: 0 <= i < 7 ==>
      (NullableColumns(d)[i].None? ==> r[4 + i] == "") &&
      (NullableColumns(d)[i].Some? ==> r[4 + i] == NullableColumns(d)[i].value)
  {
    [d.version, d.releaseType, d.status, d.osType, OrEmpty(d.description),
     OrEmpty(d.qaDate), OrEmpty(d.submissionDate), OrEmpty(d.liveDate),
     OrEmpty(d.releaseNotes), OrEmpty(d.progressSummary), OrEmpty(d.remarks)]
  }

  // ---------------------------------------------------------------------
  // Seed data
  // ---------------------------------------------------------------------

  const SampleData: seq<VersionInput> := [
    VersionInput("v2.2.0", "雙系統", "新增功能&功能修復", "確認要釋出的項目中",
      Some("新增AI推薦功能、修復支付流程bug、優化介面設計"), Some("正在進行需求確認，預計本週完成功能規格書"),
      Some(""), Some(""), Some(""), Some(""), Some("預計下個月開始開發")),
    VersionInput("v2.1.0", "雙系統", "新增功能", "開發中",
      Some("新增會員等級系統、優化購物車流程、修復登入問題"), Some("會員系統已完成80%，購物車優化進行中"),
      Some("2024-01-15"), Some("2024-01-20"), Some("2024-01-25"), Some("本次更新包含重要功能優化，提升用戶體驗"),
      Some("需要特別注意會員資料遷移")),
    VersionInput("v2.0.5", "iOS", "Bug修復", "完成上線",
      Some("修復iOS 17兼容性問題、解決閃退問題"), Some("已完成上線，監控中"),
      Some("2024-01-05"), Some("2024-01-08"), Some("2024-01-10"), Some("緊急修復版本，解決iOS 17兼容性問題"),
      Some("已完成上線，用戶反饋良好"))]

  class VersionTable {
    /** `app_versions`, keyed by id. */
    var rows: map<int, Row>
    /** The AUTOINCREMENT counter: the next id to hand out. */
    var nextId: int

    /** Ids are positive and below the counter, so a new id is never in use. */
    ghost predicate Valid()
      reads this
    {
      nextId >= 1 && forall id :: id in rows ==> 1 <= id < nextId
    }

    /** `CREATE TABLE IF NOT EXISTS` on a fresh database. */
    constructor ()
      ensures Valid() && rows == map[] && nextId == 1
    {
      rows := map[];
      nextId := 1;
    }

    /** `create_version`: one new row under an id not in use, with both
        timestamps `now`; every other row is untouched. */
    method CreateVersion(input: VersionInput, now: string) returns (created: Version)
      requires Valid()
      modifies this
      ensures Valid()
      ensures created.id !in old(rows)
      ensures created == Version(created.id, input, now, now)
      ensures rows == old(rows)[created.id := Row(input, now, now)]
      ensures nextId == old(nextId) + 1 && created.id == old(nextId)
    {
      var id := nextId;
      rows := rows[id := Row(input, now, now)];
      nextId := nextId + 1;
      created := Version(id, input, now, now);
    }

    /** `update_version`: 404 for an unknown id, with nothing changed;
        otherwise the eleven fields and `updated_at` are replaced, and the id
        and `created_at` are kept. */
    method UpdateVersion(id: int, input: VersionInput, now: string) returns (result: Result<Version, HttpError>)
      requires Valid()
      modifies this`rows
      ensures Valid()
      ensures id !in old(rows) ==> result == Err(NotFound) && rows == old(rows)
      ensures id in old(rows) ==>
        rows == old(rows)[id := Row(input, old(rows)[id].createdAt, now)] &&
        result == Ok(Version(id, input, old(rows)[id].createdAt, now))
    {
      if id !in rows {
        return Err(NotFound);
      }
      var created := rows[id].createdAt;
      rows := rows[id := Row(input, created, now)];
      result := Ok(Version(id, input, created, now));
    }

    /** `delete_version`: 404 for an unknown id, with nothing changed;
        otherwise exactly that row goes. */
    method DeleteVersion(id: int) returns (result: Result<string, HttpError>)
      requires Valid()
      modifies this`rows
      ensures Valid()
      ensures id !in old(rows) ==> result == Err(NotFound) && rows == old(rows)
      ensures id in old(rows) ==> rows == old(rows) - {id} && result == Ok("版本已成功刪除")
    {
      if id !in rows {
        return Err(NotFound);
      }
      rows := rows - {id};
      result := Ok("版本已成功刪除");
    }

    /** The SELECT of the listing and of the export: the ids of the rows
        the filter keeps, by version descending (ties in any order). */
    method SelectOrdered(osFilter: Option<string>) returns (ids: seq<int>)
      ensures IsOrderedSelection(ids, rows, osFilter)
    {
      ids := [];
      var pending := rows.Keys;
      while pending != {}
        invariant pending <= rows.Keys
        invariant SelectedSoFar(ids, rows, osFilter, pending)
        decreases pending
      {
        NonEmptyHasMember(pending);
        var id :| id in pending;
        SelectStep(ids, rows, osFilter, pending, id);
        if Selects(osFilter, rows[id].data.osType) {
          var k := InsertPos(ids, rows, rows[id].data.version);
          ids := InsertAt(ids, k, id);
        }
        pending := pending - {id};
      }
    }

    /** `get_versions`: the selected rows, converted one by one into the
        response model. */
    method GetVersions(osFilter: Option<string>) returns (versions: seq<Version>)
      ensures forall i :: 0 <= i < |versions| ==>
        versions[i].id in rows &&
        versions[i] == Version(versions[i].id, rows[versions[i].id].data,
                               rows[versions[i].id].createdAt, rows[versions[i].id].updatedAt) &&
        Selects(osFilter, versions[i].data.osType)
      ensures forall i, j :: 0 <= i < j < |versions| ==> versions[i].id != versions[j].id
      ensures forall id :: id in rows && Selects(osFilter, rows[id].data.osType) ==>
        exists i :: 0 <= i < |versions| && versions[i].id == id
      ensures forall i, j :: 0 <= i < j < |versions| ==> LexLe(versions[j].data.version, versions[i].data.version)
    {
      var ids := SelectOrdered(osFilter);
      versions := [];
      for i := 0 to |ids|
        invariant |versions| == i
        invariant forall j :: 0 <= j < i ==>
          versions[j] == Version(ids[j], rows[ids[j]].data, rows[ids[j]].createdAt, rows[ids[j]].updatedAt)
      {
        var row := rows[ids[i]];
        versions := versions + [Version(ids[i], row.data, row.createdAt, row.updatedAt)];
      }
      forall id | id in rows && Selects(osFilter, rows[id].data.osType)
        ensures exists i :: 0 <= i < |versions| && versions[i].id == id
      {
        var i :| 0 <= i < |ids| && ids[i] == id;
        assert versions[i].id == id;
      }
    }

    /** `export_versions`: the header, then one eleven-cell line per row of
        the table, by version descending. */
    method ExportVersions() returns (data: seq<seq<string>>, ghost order: seq<int>)
      ensures IsOrderedSelection(order, rows, None)
      ensures |order| == |rows|
      ensures |data| == |order| + 1 && data[0] == ExportHeader
      ensures forall i :: 0 <= i < |order| ==> data[i + 1] == ExportCells(rows[order[i]].data)
    {
      var ids := SelectOrdered(None);
      order := ids;
      data := [ExportHeader];
      for i := 0 to |ids|
        invariant |data| == i + 1 && data[0] == ExportHeader
        invariant forall j :: 0 <= j < i ==> data[j + 1] == ExportCells(rows[ids[j]].data)
      {
        data := data + [ExportCells(rows[ids[i]].data)];
      }
      SelectionCoversTable(ids, rows);
    }

    /** `init_database`: the three samples go into an empty table only; a
        table with rows is left as it is. The count is taken at every
        start, so a table emptied by deletions is seeded again. */
    method InitDatabase(now: string)
      requires Valid()
      modifies this
      ensures Valid()
      ensures |old(rows)| != 0 ==> rows == old(rows) && nextId == old(nextId)
      ensures |old(rows)| == 0 ==>
        nextId == old(nextId) + |SampleData| && Seeded(rows, old(nextId), |SampleData|, now)
      ensures |rows| != 0
    {
      if |rows| != 0 {
        return;
      }
      var first := nextId;
      NothingSeeded(rows, first, now);
      for i := 0 to |SampleData|
        invariant Valid()
        invariant nextId == first + i
        invariant Seeded(rows, first, i, now)
      {
        var before := rows;
        var _ := CreateVersion(SampleData[i], now);
        SeedStep(before, rows, first, i, now);
      }
      MemberMakesNonEmpty(rows, first);
    }
  }

  /** `m` holds exactly the first `n` samples, inserted from the id `first`
      on, with both timestamps `now`. */
  ghost predicate Seeded(m: map<int, Row>, first: int, n: nat, now: string) {
    n <= |SampleData| &&
    (forall id :: id in m <==> first <= id < first + n) &&
    (forall j :: 0 <= j < n ==> first + j in m && m[first + j] == Row(SampleData[j], now, now))
  }

  lemma NothingSeeded(m: map<int, Row>, first: int, now: string)
    requires |m| == 0
    ensures Seeded(m, first, 0, now)
  {
    forall id | id in m ensures false {
      MemberMakesNonEmpty(m, id);
    }
  }

  /** Inserting the next sample under the next id extends the seeding. */
  lemma SeedStep(before: map<int, Row>, after: map<int, Row>, first: int, i: nat, now: string)
    requires i < |SampleData| && Seeded(before, first, i, now)
    requires after == before[first + i := Row(SampleData[i], now, now)]
    ensures Seeded(after, first, i + 1, now)
  {
  }

  lemma MemberMakesNonEmpty(m: map<int, Row>, k: int)
    requires k in m
    ensures |m| != 0
  {
    assert k in m.Keys;
  }

  /** A set other than the empty one has a member to pick. */
  lemma NonEmptyHasMember(s: set<int>)
    ensures s != {} ==> exists x :: x in s
  {
    assert (forall y :: y !in s) ==> s == {} by {
      if forall y :: y !in s {
        assert forall y :: y in s <==> y in {};
      }
    }
  }

  /** A selection without a filter lists every row once. */
  lemma SelectionCoversTable(ids: seq<int>, rows: map<int, Row>)
    requires IsOrderedSelection(ids, rows, None)
    ensures |ids| == |rows|
  {
    var s := set i | 0 <= i < |ids| :: ids[i];
    forall id | id in rows.Keys ensures id in s {
      var i :| 0 <= i < |ids| && ids[i] == id;
    }
    assert s == rows.Keys;
    DistinctSize(ids);
  }

  lemma {:induction false} DistinctSize(ids: seq<int>)
    requires forall i, j :: 0 <= i < j < |ids| ==> ids[i] != ids[j]
    ensures |set i | 0 <= i < |ids| :: ids[i]| == |ids|
    decreases |ids|
  {
    if ids != [] {
      var rest := ids[..|ids| - 1];
      DistinctSize(rest);
      var s := set i | 0 <= i < |ids| :: ids[i];
      var t := set i | 0 <= i < |rest| :: rest[i];
      assert s == t + {ids[|ids| - 1]};
      assert ids[|ids| - 1] !in t;
    }
  }
}
