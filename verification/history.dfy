/** `getAccessHistory` and `exportAccessHistoryCSV`: the access log joined with
    user names, restricted by a date filter, newest first, paged or exported. */
module AccessHistory {
  import opened Wrappers
  import opened Store
  import Newest
  import Js
  import Fingerprints

  /** The date windows of the `filter` query parameter.  Whether a timestamp
      falls into one (CURDATE, YEARWEEK, MONTH) is the caller-supplied
      `inPeriod`; calendars are not part of this model. */
  datatype Period = Today | ThisWeek | ThisMonth

  /** 'today', 'week' and 'month' select a window; any other value none. */
  function PeriodOf(filter: string): (p: Option<Period>)
    ensures p == Some(Today) <==> filter == "today"
    ensures p == Some(ThisWeek) <==> filter == "week"
    ensures p == Some(ThisMonth) <==> filter == "month"
    ensures p.None? <==> filter !in {"today", "week", "month"}
  {
    if filter == "today" then Some(Today)
    else if filter == "week" then Some(ThisWeek)
    else if filter == "month" then Some(ThisMonth)
    else None
  }

  /** The `WHERE 1=1 ${dateCondition}` both queries share. */
  function Selected(log: seq<Entry>, filter: string, inPeriod: (Period, int) -> bool): (r: seq<Entry>)
    ensures forall e :: e in r <==> e in log && (PeriodOf(filter).Some? ==> inPeriod(PeriodOf(filter).value, e.createdAt))
    ensures PeriodOf(filter).None? ==> r == log
  {
    match PeriodOf(filter)
    case None => log
    case Some(p) => Filter(log, (e: Entry) => inPeriod(p, e.createdAt))
  }

  /** One row of the joined SELECT. */
  datatype HistoryRow = HistoryRow(id: nat, firstName: string, action: string, via: string, createdAt: int, status: Option<string>)

  /** `COALESCE(u.first_name, 'Unknown')` under `LEFT JOIN users u ON al.user_id = u.id`. */
  function NameOf(users: seq<User>, userId: Option<nat>): (name: string)
    ensures userId.None? ==> name == "Unknown"
    ensures userId.Some? && UserById(users, userId.value).None? ==> name == "Unknown"
    ensures userId.Some? && UserById(users, userId.value).Some? ==> name == UserById(users, userId.value).value.firstName
  {
    if userId.None? then "Unknown"
    else
      match UserById(users, userId.value)
      case None => "Unknown"
      case Some(u) => u.firstName
  }

  /** A scan the device logs shows up in the history under the first name of
      the user holding that finger, and as 'Unknown' when the id is negative or
      no user holds it. */
  lemma ScanShowsName(db: Db, n: int, status: Option<string>, now: int, u: User)
    requires Wf(db) && Unique(db.users)
    ensures var db' := Fingerprints.LogFingerprintEvent(db, Js.Int(n), status, now).db;
      var name := NameOf(db'.users, db'.log[|db.log|].userId);
      && (n >= 0 && u in db.users && u.fingerId == n ==> name == u.firstName)
      && (n < 0 || !HasFinger(db.users, n) ==> name == "Unknown")
  {
    var db' := Fingerprints.LogFingerprintEvent(db, Js.Int(n), status, now).db;
    var e := db'.log[|db.log|];
    assert db'.users == db.users;
    if e.userId.Some? {
      var w :| w in db.users && w.id == e.userId.value && w.fingerId == n;
      assert HasFinger(db.users, n) by {
        var i :| 0 <= i < |db.users| && db.users[i] == w;
      }
      if u in db.users && u.fingerId == n {
        SameFingerSameUser(db.users, u, w);
        UserByIdIsUser(db.users, db.nextUser, w);
      }
    }
  }

  /** Under unique finger ids, one finger id names one user. */
  lemma SameFingerSameUser(users: seq<User>, u: User, w: User)
    requires Unique(users) && u in users && w in users && u.fingerId == w.fingerId
    ensures u == w
  {
    var i :| 0 <= i < |users| && users[i] == u;
    var j :| 0 <= j < |users| && users[j] == w;
    assert !(i < j) && !(j < i);
  }

  /** Under increasing row ids, looking a stored user up by its id finds it. */
  lemma UserByIdIsUser(users: seq<User>, next: nat, w: User)
    requires UserIdsOrdered(users, next) && w in users
    ensures UserById(users, w.id) == Some(w)
  {
    var j :| 0 <= j < |users| && users[j] == w;
    var r := UserById(users, w.id);
    assert !(forall k :: 0 <= k < |users| ==> users[k].id != w.id) by {
      assert users[j].id == w.id;
    }
    var i :| 0 <= i < |users| && users[i] == r.value;
    assert !(i < j) && !(j < i);
  }

  function RowOf(users: seq<User>, e: Entry): HistoryRow {
    HistoryRow(e.id, NameOf(users, e.userId), e.action, e.via, e.createdAt, e.status)
  }

  function Rows(users: seq<User>, s: seq<Entry>): (r: seq<HistoryRow>)
    ensures |r| == |s|
    ensures forall i :: 0 <= i < |s| ==> r[i] == RowOf(users, s[i])
  {
    seq(|s|, i requires 0 <= i < |s| => RowOf(users, s[i]))
  }

  /** `Math.ceil(count / limit)` for a positive limit. */
  function CeilDiv(count: nat, limit: nat): (pages: nat)
    requires limit > 0
    ensures pages * limit >= count
    ensures pages > 0 ==> (pages - 1) * limit < count
  {
    (count + limit - 1) / limit
  }

  /** The query string after destructuring; absent fields are None.  The
      handler's defaults are page 1, limit 10, filter 'all'. */
  datatype HistoryQuery = HistoryQuery(page: Option<int>, limit: Option<int>, filter: Option<string>)

  datatype HistoryBody =
    | Page(data: seq<HistoryRow>, totalPages: Option<nat>, currentPage: int)
    | Failed(message: string)

  /** `(page - 1) * limit`. */
  function Offset(page: int, limit: int): int {
    (page - 1) * limit
  }

  /** The reply: a negative LIMIT or OFFSET is a MySQL syntax error (500);
      otherwise the newest-first page of the filtered log, its page count
      (`Infinity`/`NaN` for a zero limit serialise as null, here None), and the
      requested page echoed back.  Nothing is written. */
  function GetAccessHistory(db: Db, q: HistoryQuery, inPeriod: (Period, int) -> bool): (r: Reply<HistoryBody>)
    ensures r.db == db
    ensures r.status == 200 || r.status == 500
    ensures r.status == 500 <==> q.limit.GetOr(10) < 0 || Offset(q.page.GetOr(1), q.limit.GetOr(10)) < 0
    ensures r.status == 200 ==> r.body.Page? && r.body.currentPage == q.page.GetOr(1)
    ensures r.status == 200 ==> |r.body.data| <= q.limit.GetOr(10)
    ensures r.status == 200 && q.limit.GetOr(10) > 0 ==>
      var count := |Selected(db.log, q.filter.GetOr("all"), inPeriod)|;
      r.body.totalPages == Some(CeilDiv(count, q.limit.GetOr(10)))
    ensures r.status == 200 && q.limit.GetOr(10) == 0 ==> r.body.totalPages.None? && r.body.data == []
  {
    var page := q.page.GetOr(1);
    var limit := q.limit.GetOr(10);
    var filter := q.filter.GetOr("all");
    var offset := Offset(page, limit);
    if limit < 0 || offset < 0 then
      Reply(500, Failed("Failed to fetch access history"), db)
    else
      var selected := Selected(db.log, filter, inPeriod);
      var slice := Newest.Slice(Newest.Sort(selected), offset, limit);
      var total := if limit == 0 then None else Some(CeilDiv(|selected|, limit));
      Reply(200, Page(Rows(db.users, slice), total, page), db)
  }

  /** One CSV record; the timestamp formatting is left to the caller. */
  datatype CsvRecord = CsvRecord(id: nat, name: string, action: string, via: string, status: Option<string>, timestamp: int)

  function RecordOf(row: HistoryRow): CsvRecord {
    CsvRecord(row.id, row.firstName, row.action, row.via, row.status, row.createdAt)
  }

  /** The records `exportAccessHistoryCSV` writes after its header. */
  function ExportRecords(db: Db, filter: Option<string>, inPeriod: (Period, int) -> bool): (r: seq<CsvRecord>)
    ensures |r| == |Selected(db.log, filter.GetOr("all"), inPeriod)|
  {
    var rows := Rows(db.users, Newest.Sort(Selected(db.log, filter.GetOr("all"), inPeriod)));
    seq(|rows|, i requires 0 <= i < |rows| => RecordOf(rows[i]))
  }

  /** The export is newest first, and it is the selected entries, each
      exactly once, rendered under their user's names: some reordering of the
      selection yields the records one for one. */
  lemma ExportIsSelection(db: Db, filter: Option<string>, inPeriod: (Period, int) -> bool)
    ensures var r := ExportRecords(db, filter, inPeriod);
      && (forall i, j :: 0 <= i < j < |r| ==> r[i].timestamp >= r[j].timestamp)
      && exists order: seq<Entry> ::
           && multiset(order) == multiset(Selected(db.log, filter.GetOr("all"), inPeriod))
           && |order| == |r|
           && forall i :: 0 <= i < |r| ==> r[i] == RecordOf(RowOf(db.users, order[i]))
  {
    var selected := Selected(db.log, filter.GetOr("all"), inPeriod);
    var sorted := Newest.Sort(selected);
    var r := ExportRecords(db, filter, inPeriod);
    assert forall i :: 0 <= i < |r| ==> r[i] == RecordOf(RowOf(db.users, sorted[i]));
    assert multiset(sorted) == multiset(selected);
    forall i, j | 0 <= i < j < |r|
      ensures r[i].timestamp >= r[j].timestamp
    {
      assert r[i].timestamp == sorted[i].createdAt && r[j].timestamp == sorted[j].createdAt;
    }
  }

  /** `data` is the stretch of `all` that starts at `offset` and holds at
      most `limit` records: all of them that are left, up to the limit. */
  predicate StretchOf(data: seq<HistoryRow>, all: seq<CsvRecord>, offset: int, limit: nat) {
    && 0 <= offset
    && (offset <= |all| ==> |data| == Min(limit, |all| - offset))
    && (offset > |all| ==> data == [])
    && forall i :: 0 <= i < |data| ==> RecordOf(data[i]) == all[offset + i]
  }

  /** Every page the history endpoint serves is, record for record, the
      matching stretch of the export under the same filter. */
  lemma PageIsExportSlice(db: Db, page: int, limit: int, filter: Option<string>, inPeriod: (Period, int) -> bool)
    requires limit > 0 && page >= 1
    ensures
      var r := GetAccessHistory(db, HistoryQuery(Some(page), Some(limit), filter), inPeriod);
      && r.status == 200 && r.body.Page?
      && StretchOf(r.body.data, ExportRecords(db, filter, inPeriod), Offset(page, limit), limit)
  {
    var offset := Offset(page, limit);
    NonNegativeProduct(page - 1, limit);
    var sorted := Newest.Sort(Selected(db.log, filter.GetOr("all"), inPeriod));
    var slice := Newest.Slice(sorted, offset, limit);
    var r := GetAccessHistory(db, HistoryQuery(Some(page), Some(limit), filter), inPeriod);
    assert r.body.data == Rows(db.users, slice);
    var all := ExportRecords(db, filter, inPeriod);
    assert |all| == |sorted|;
    assert forall i :: 0 <= i < |all| ==> all[i] == RecordOf(RowOf(db.users, sorted[i]));
    SliceRecords(db.users, sorted, offset, limit, all);
  }

  /** The rows of a slice of the sorted selection are the matching stretch
      of the records of the whole of it. */
  lemma SliceRecords(users: seq<User>, sorted: seq<Entry>, offset: nat, limit: nat, all: seq<CsvRecord>)
    requires |all| == |sorted|
    requires forall i :: 0 <= i < |all| ==> all[i] == RecordOf(RowOf(users, sorted[i]))
    ensures StretchOf(Rows(users, Newest.Slice(sorted, offset, limit)), all, offset, limit)
  {
    var slice := Newest.Slice(sorted, offset, limit);
    var data := Rows(users, slice);
    forall i | 0 <= i < |data|
      ensures RecordOf(data[i]) == all[offset + i]
    {
      assert slice[i] == sorted[offset + i];
    }
  }

  lemma NonNegativeProduct(a: int, b: int)
    requires a >= 0 && b >= 0
    ensures a * b >= 0
  {
  }
}
