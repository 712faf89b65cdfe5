/** The History page: paging and filter state, the request it sends, and
    the CSV export of the rows on screen.  `format` stands for the browser's
    date rendering. */
module HistoryPage {
  import opened Wrappers
  import opened Store
  import Text
  import AccessHistory

  datatype Pager = Pager(rows: seq<AccessHistory.HistoryRow>, filter: string, page: int, totalPages: int)

  function Initial(): (p: Pager)
    ensures p.page == 1 && p.filter == "all" && p.rows == []
  {
    Pager([], "all", 1, 1)
  }

  /** The page number never drops below 1. */
  predicate PageOk(p: Pager) {
    p.page >= 1
  }

  const PageSize := 10

  /** The query `fetchHistory` sends: the current page and filter, ten rows. */
  function Request(p: Pager): (q: AccessHistory.HistoryQuery)
    ensures q.limit == Some(PageSize) && q.page == Some(p.page) && q.filter == Some(p.filter)
  {
    AccessHistory.HistoryQuery(Some(p.page), Some(PageSize), Some(p.filter))
  }

  /** Applying a reply; None when the request threw.  A null page count
      compares as 0. */
  function Receive(p: Pager, reply: Option<AccessHistory.HistoryBody>): (r: Pager)
    ensures r.page == p.page && r.filter == p.filter
    ensures reply.Some? && reply.value.Page? ==>
      r.rows == reply.value.data && r.totalPages == reply.value.totalPages.GetOr(0)
    ensures !(reply.Some? && reply.value.Page?) ==> r == p
  {
    match reply
    case Some(Page(data, total, _)) => p.(rows := data, totalPages := total.GetOr(0))
    case _ => p
  }

  /** `fetchHistory` against the server as it answers from `db`. */
  function FetchFrom(p: Pager, db: Db, inPeriod: (AccessHistory.Period, int) -> bool): (r: Pager)
    ensures PageOk(p) ==> |r.rows| <= PageSize
  {
    var g := AccessHistory.GetAccessHistory(db, Request(p), inPeriod);
    Receive(p, if g.status == 200 then Some(g.body) else None)
  }

  /** Every request the page can send is answered with a page of at most ten
      rows and the count of pages for its filter. */
  lemma PageRequestsSucceed(p: Pager, db: Db, inPeriod: (AccessHistory.Period, int) -> bool)
    requires PageOk(p)
    ensures var g := AccessHistory.GetAccessHistory(db, Request(p), inPeriod);
      && g.status == 200
      && g.body.totalPages == Some(AccessHistory.CeilDiv(|AccessHistory.Selected(db.log, p.filter, inPeriod)|, PageSize))
  {
    AccessHistory.NonNegativeProduct(p.page - 1, PageSize);
  }

  /** `nextPage`. */
  function NextPage(p: Pager): (r: Pager)
    ensures r == p.(page := r.page)
    ensures r.page == p.page + 1 <==> p.page < p.totalPages
    ensures r.page != p.page + 1 ==> r.page == p.page
  {
    if p.page < p.totalPages then p.(page := p.page + 1) else p
  }

  /** `prevPage`. */
  function PrevPage(p: Pager): (r: Pager)
    ensures r == p.(page := r.page)
    ensures r.page == p.page - 1 <==> p.page > 1
    ensures r.page != p.page - 1 ==> r.page == p.page
  {
    if p.page > 1 then p.(page := p.page - 1) else p
  }

  /** `handleFilterChange`. */
  function FilterChange(p: Pager, filter: string): (r: Pager)
    ensures r.filter == filter && r.page == 1 && r.rows == p.rows && r.totalPages == p.totalPages
  {
    p.(filter := filter, page := 1)
  }

  datatype Action = Next | Prev | Choose(filter: string) | Loaded(reply: Option<AccessHistory.HistoryBody>)

  function Step(p: Pager, a: Action): Pager {
    match a
    case Next => NextPage(p)
    case Prev => PrevPage(p)
    case Choose(f) => FilterChange(p, f)
    case Loaded(reply) => Receive(p, reply)
  }

  function Run(p: Pager, actions: seq<Action>): Pager
    decreases |actions|
  {
    if actions == [] then p else Run(Step(p, actions[0]), actions[1..])
  }

  /** Whatever the user clicks and whatever the server answers, a page
      number of at least 1 stays at least 1. */
  lemma {:induction false} PageNeverBelowOne(p: Pager, actions: seq<Action>)
    requires PageOk(p)
    ensures PageOk(Run(p, actions))
    decreases |actions|
  {
    if actions != [] {
      PageNeverBelowOne(Step(p, actions[0]), actions[1..]);
    }
  }

  /** One quoted CSV field; embedded quotes are not escaped. */
  function Quote(s: string): (q: string)
    ensures |q| == |s| + 2 && q[0] == '"' && q[|q| - 1] == '"' && q[1..|q| - 1] == s
  {
    "\"" + s + "\""
  }

  function Line(fields: seq<string>): string {
    Text.Join(seq(|fields|, i requires 0 <= i < |fields| => Quote(fields[i])), ',')
  }

  const Header := ["User", "Action", "Method", "Date & Time", "Status"]

  /** `${h.status}` of a nullable column. */
  function StatusText(status: Option<string>): string {
    match status
    case None => "null"
    case Some(s) => s
  }

  /** The five exported columns of one row; a blank name exports as 'Unknown'. */
  function Fields(h: AccessHistory.HistoryRow, format: int -> string): (f: seq<string>)
    ensures |f| == |Header|
    ensures f[0] == (if h.firstName == "" then "Unknown" else h.firstName)
    ensures f[1] == h.action && f[2] == h.via && f[3] == format(h.createdAt) && f[4] == StatusText(h.status)
  {
    [if h.firstName == "" then "Unknown" else h.firstName, h.action, h.via, format(h.createdAt), StatusText(h.status)]
  }

  function Lines(rows: seq<AccessHistory.HistoryRow>, format: int -> string): (ls: seq<string>)
    ensures |ls| == |rows| + 1 && ls[0] == Line(Header)
    ensures forall i :: 0 <= i < |rows| ==> ls[i + 1] == Line(Fields(rows[i], format))
  {
    [Line(Header)] + seq(|rows|, i requires 0 <= i < |rows| => Line(Fields(rows[i], format)))
  }

  /** `exportCSV`: header line, then one line per row on screen.  The file
      opens with the header line, and is nothing else when no row is shown. */
  function ExportCsv(p: Pager, format: int -> string): (csv: string)
    ensures Line(Header) <= csv
    ensures p.rows == [] ==> csv == Line(Header)
  {
    Text.Join(Lines(p.rows, format), '\n')
  }

  lemma {:induction false} JoinAvoids(xs: seq<string>, sep: char, c: char)
    requires c != sep
    requires forall i :: 0 <= i < |xs| ==> c !in xs[i]
    ensures c !in Text.Join(xs, sep)
  {
    if |xs| > 1 {
      JoinAvoids(xs[1..], sep, c);
    }
  }

  lemma LineAvoids(fields: seq<string>, c: char)
    requires c != ',' && c != '"'
    requires forall i :: 0 <= i < |fields| ==> c !in fields[i]
    ensures c !in Line(fields)
  {
    var quoted := seq(|fields|, i requires 0 <= i < |fields| => Quote(fields[i]));
    forall i | 0 <= i < |quoted|
      ensures c !in quoted[i]
    {
      assert quoted[i] == "\"" + fields[i] + "\"";
    }
    JoinAvoids(quoted, ',', c);
  }

  /** No exported field holds a line break. */
  predicate SingleLine(rows: seq<AccessHistory.HistoryRow>, format: int -> string) {
    forall i :: 0 <= i < |rows| ==>
      forall j :: 0 <= j < |Header| ==> '\n' !in Fields(rows[i], format)[j]
  }

  /** When no field holds a line break, the file splits into the header line
      followed by one line per row, in screen order. */
  lemma CsvLines(p: Pager, format: int -> string)
    requires SingleLine(p.rows, format)
    ensures var ls := Text.Split(ExportCsv(p, format), '\n');
      && |ls| == |p.rows| + 1
      && ls[0] == Line(Header)
      && forall i :: 0 <= i < |p.rows| ==> ls[i + 1] == Line(Fields(p.rows[i], format))
  {
    var ls := Lines(p.rows, format);
    forall i | 0 <= i < |ls|
      ensures '\n' !in ls[i]
    {
      if i == 0 {
        LineAvoids(Header, '\n');
      } else {
        assert ls[i] == Line(Fields(p.rows[i - 1], format));
        LineAvoids(Fields(p.rows[i - 1], format), '\n');
      }
    }
    Text.SplitJoin(ls, '\n');
  }
}
