/** `getWeeklyAccessStats`: the pivot of grouped `(day, method, status, count)`
    rows into one record per weekday, Monday to Sunday, with four counters. */
module Chart {
  import opened Wrappers
  import Text

  /** One row of the `GROUP BY day, method, status` query. */
  datatype GroupRow = GroupRow(day: string, via: string, status: string, count: int)

  /** `{ day, Physical_granted, Physical_denied, Remote_granted, Remote_denied }`. */
  datatype DayStats = DayStats(
    day: string,
    physicalGranted: int,
    physicalDenied: int,
    remoteGranted: int,
    remoteDenied: int)

  const WeekDays: seq<string> := ["Monday", "Tuesday", "Wednesday", "Thursday", "Friday", "Saturday", "Sunday"]

  /** The method names the chart looks for. */
  predicate Charted(via: string) {
    via == "Physical" || via == "Remote"
  }

  predicate Matches(r: GroupRow, day: string, via: string, status: string) {
    r.day == day && r.via == via && r.status == status
  }

  /** `rows.find(...)`, then `match ? match.count : 0`. */
  function Cell(rows: seq<GroupRow>, day: string, via: string, status: string): int {
    match First(rows, (r: GroupRow) => Matches(r, day, via, status))
    case Some(r) => r.count
    case None => 0
  }

  function DayRecord(rows: seq<GroupRow>, day: string): DayStats {
    DayStats(day,
             Cell(rows, day, "Physical", "granted"),
             Cell(rows, day, "Physical", "denied"),
             Cell(rows, day, "Remote", "granted"),
             Cell(rows, day, "Remote", "denied"))
  }

  /** The response body: seven records in week order, each cell read from the
      first row whose day, method and status equal the cell's, else 0. */
  function WeeklyStats(rows: seq<GroupRow>): (r: seq<DayStats>)
    ensures |r| == 7
    ensures forall i :: 0 <= i < 7 ==> r[i].day == WeekDays[i]
    ensures forall i :: 0 <= i < 7 ==> DaySpec(rows, r[i])
  {
    DaysMeetSpec(rows);
    seq(7, i requires 0 <= i < 7 => DayRecord(rows, WeekDays[i]))
  }

  /** The four cells of one record each meet `CellSpec`. */
  ghost predicate DaySpec(rows: seq<GroupRow>, d: DayStats) {
    && CellSpec(rows, d.day, "Physical", "granted", d.physicalGranted)
    && CellSpec(rows, d.day, "Physical", "denied", d.physicalDenied)
    && CellSpec(rows, d.day, "Remote", "granted", d.remoteGranted)
    && CellSpec(rows, d.day, "Remote", "denied", d.remoteDenied)
  }

  lemma DaysMeetSpec(rows: seq<GroupRow>)
    ensures forall day :: DaySpec(rows, DayRecord(rows, day))
  {
    forall day ensures DaySpec(rows, DayRecord(rows, day)) {
      CellMeetsSpec(rows, day, "Physical", "granted");
      CellMeetsSpec(rows, day, "Physical", "denied");
      CellMeetsSpec(rows, day, "Remote", "granted");
      CellMeetsSpec(rows, day, "Remote", "denied");
    }
  }

  lemma CellMeetsSpec(rows: seq<GroupRow>, day: string, via: string, status: string)
    ensures CellSpec(rows, day, via, status, Cell(rows, day, via, status))
  {
  }

  /** A cell's value, stated without `First`: the count of the earliest
      matching row, or 0 when no row matches. */
  ghost predicate CellSpec(rows: seq<GroupRow>, day: string, via: string, status: string, v: int) {
    || (exists i :: 0 <= i < |rows| && Matches(rows[i], day, via, status)
          && (forall j :: 0 <= j < i ==> !Matches(rows[j], day, via, status))
          && v == rows[i].count)
    || ((forall i :: 0 <= i < |rows| ==> !Matches(rows[i], day, via, status)) && v == 0)
  }

  /** Rows whose method is not 'Physical' or 'Remote' (such as 'PHYSICAL' or
      'REMOTE') change nothing in the result. */
  lemma {:induction false} UnchartedRowsIgnored(rows: seq<GroupRow>)
    ensures WeeklyStats(Filter(rows, (r: GroupRow) => Charted(r.via))) == WeeklyStats(rows)
  {
    var kept := Filter(rows, (r: GroupRow) => Charted(r.via));
    var a, b := WeeklyStats(kept), WeeklyStats(rows);
    forall i | 0 <= i < 7 ensures a[i] == b[i] {
      var d := WeekDays[i];
      CellOfCharted(rows, d, "Physical", "granted");
      CellOfCharted(rows, d, "Physical", "denied");
      CellOfCharted(rows, d, "Remote", "granted");
      CellOfCharted(rows, d, "Remote", "denied");
    }
  }

  /** A cell over a row followed by more rows: that row's count when it
      matches, else the cell over the rest. */
  lemma CellCons(r0: GroupRow, rest: seq<GroupRow>, day: string, via: string, status: string)
    ensures Cell([r0] + rest, day, via, status) == if Matches(r0, day, via, status) then r0.count else Cell(rest, day, via, status)
  {
    assert ([r0] + rest)[0] == r0;
    assert ([r0] + rest)[1..] == rest;
  }

  lemma {:induction false} CellOfCharted(rows: seq<GroupRow>, day: string, via: string, status: string)
    requires Charted(via)
    ensures Cell(Filter(rows, (r: GroupRow) => Charted(r.via)), day, via, status) == Cell(rows, day, via, status)
  {
    if |rows| > 0 {
      var keep := (r: GroupRow) => Charted(r.via);
      var r0, rest := rows[0], rows[1..];
      assert rows == [r0] + rest;
      CellOfCharted(rest, day, via, status);
      CellCons(r0, rest, day, via, status);
      if keep(r0) {
        assert Filter(rows, keep) == [r0] + Filter(rest, keep);
        CellCons(r0, Filter(rest, keep), day, via, status);
      } else {
        assert Filter(rows, keep) == Filter(rest, keep);
      }
    }
  }

  /** Non-negative counts give non-negative cells. */
  lemma CellsNonNegative(rows: seq<GroupRow>)
    requires forall i :: 0 <= i < |rows| ==> rows[i].count >= 0
    ensures forall d :: d in WeeklyStats(rows) ==>
      d.physicalGranted >= 0 && d.physicalDenied >= 0 && d.remoteGranted >= 0 && d.remoteDenied >= 0
  {
  }

  // ---------------------------------------------------------------------------
  // The comparison is case-sensitive, but the access log writes 'PHYSICAL'
  // for fingerprint scans and 'REMOTE' for servo commands, so those rows never
  // reach a cell.  Below: the discrepancy, and a case-insensitive pivot.

  /** A week of fingerprint scans, grouped as the log stores them, leaves both
      Physical columns at zero. */
  lemma PhysicalScansNeverCounted(rows: seq<GroupRow>)
    requires forall i :: 0 <= i < |rows| ==> rows[i].via == "PHYSICAL"
    ensures forall d :: d in WeeklyStats(rows) ==> d.physicalGranted == 0 && d.physicalDenied == 0
  {
    assert forall day, status :: Cell(rows, day, "Physical", status) == 0 by {
      forall day, status ensures Cell(rows, day, "Physical", status) == 0 {
        assert forall i :: 0 <= i < |rows| ==> !Matches(rows[i], day, "Physical", status);
      }
    }
  }

  predicate MatchesFolded(r: GroupRow, day: string, via: string, status: string) {
    r.day == day && Text.CiEqual(r.via, via) && r.status == status
  }

  function FoldedCell(rows: seq<GroupRow>, day: string, via: string, status: string): int {
    match First(rows, (r: GroupRow) => MatchesFolded(r, day, via, status))
    case Some(r) => r.count
    case None => 0
  }

  /** The pivot with the method compared case-insensitively, as the database
      itself groups it. */
  function WeeklyStatsFolded(rows: seq<GroupRow>): (r: seq<DayStats>)
    ensures |r| == 7
    ensures forall i :: 0 <= i < 7 ==> r[i].day == WeekDays[i]
  {
    seq(7, i requires 0 <= i < 7 => DayStats(WeekDays[i],
      FoldedCell(rows, WeekDays[i], "Physical", "granted"),
      FoldedCell(rows, WeekDays[i], "Physical", "denied"),
      FoldedCell(rows, WeekDays[i], "Remote", "granted"),
      FoldedCell(rows, WeekDays[i], "Remote", "denied")))
  }

  /** A Monday group of granted 'PHYSICAL' scans shows up in the corrected
      pivot, while the pivot as written reports 0 for it. */
  lemma FoldedCountsPhysicalScans(c: int)
    requires c != 0
    ensures WeeklyStatsFolded([GroupRow("Monday", "PHYSICAL", "granted", c)])[0].physicalGranted == c
    ensures WeeklyStats([GroupRow("Monday", "PHYSICAL", "granted", c)])[0].physicalGranted == 0
  {
    var row := GroupRow("Monday", "PHYSICAL", "granted", c);
    assert Text.CiEqual("PHYSICAL", "Physical");
    SingleRowCells(row, "Monday", "Physical", "granted");
    assert WeekDays[0] == "Monday";
    assert WeeklyStatsFolded([row])[0].physicalGranted == FoldedCell([row], "Monday", "Physical", "granted");
    assert WeeklyStats([row])[0].physicalGranted == Cell([row], "Monday", "Physical", "granted");
  }

  /** The cells of a single grouped row. */
  lemma SingleRowCells(row: GroupRow, day: string, via: string, status: string)
    ensures FoldedCell([row], day, via, status) == if MatchesFolded(row, day, via, status) then row.count else 0
    ensures Cell([row], day, via, status) == if Matches(row, day, via, status) then row.count else 0
  {
  }

  /** Servo commands, logged as 'REMOTE', likewise never reach the Remote
      columns. */
  lemma ServoCommandsNeverCounted(rows: seq<GroupRow>)
    requires forall i :: 0 <= i < |rows| ==> rows[i].via == "REMOTE"
    ensures forall d :: d in WeeklyStats(rows) ==> d.remoteGranted == 0 && d.remoteDenied == 0
  {
    assert forall day, status :: Cell(rows, day, "Remote", status) == 0 by {
      forall day, status ensures Cell(rows, day, "Remote", status) == 0 {
        assert forall i :: 0 <= i < |rows| ==> !Matches(rows[i], day, "Remote", status);
      }
    }
  }

  /** A Monday group of granted servo commands shows up in the corrected
      pivot, while the pivot as written reports 0 for it. */
  lemma FoldedCountsServoCommands(c: int)
    requires c != 0
    ensures WeeklyStatsFolded([GroupRow("Monday", "REMOTE", "granted", c)])[0].remoteGranted == c
    ensures WeeklyStats([GroupRow("Monday", "REMOTE", "granted", c)])[0].remoteGranted == 0
  {
    var row := GroupRow("Monday", "REMOTE", "granted", c);
    assert Text.CiEqual("REMOTE", "Remote");
    SingleRowCells(row, "Monday", "Remote", "granted");
    assert WeekDays[0] == "Monday";
    assert WeeklyStatsFolded([row])[0].remoteGranted == FoldedCell([row], "Monday", "Remote", "granted");
    assert WeeklyStats([row])[0].remoteGranted == Cell([row], "Monday", "Remote", "granted");
  }

  /** The spelling the pivot looks for, given to any spelling of the chart's
      two methods; any other name is left as it is. This renaming is the
      model's own: the database reports one stored spelling per group. */
  function Canonical(via: string): string {
    if Text.CiEqual(via, "Physical") then "Physical"
    else if Text.CiEqual(via, "Remote") then "Remote"
    else via
  }

  function Canon(rows: seq<GroupRow>): (r: seq<GroupRow>)
    ensures |r| == |rows|
    ensures forall i :: 0 <= i < |rows| ==> r[i] == rows[i].(via := Canonical(rows[i].via))
  {
    seq(|rows|, i requires 0 <= i < |rows| => rows[i].(via := Canonical(rows[i].via)))
  }

  /** One row matches a charted method case-insensitively exactly when its
      canonical name matches exactly. */
  lemma CanonicalMatch(r: GroupRow, day: string, via: string, status: string)
    requires via == "Physical" || via == "Remote"
    ensures MatchesFolded(r, day, via, status) == Matches(r.(via := Canonical(r.via)), day, via, status)
  {
  }

  /** A corrected cell is the written cell over canonical method names. */
  lemma FoldedCellIsCell(rows: seq<GroupRow>, day: string, via: string, status: string)
    requires via == "Physical" || via == "Remote"
    ensures FoldedCell(rows, day, via, status) == Cell(Canon(rows), day, via, status)
  {
    var c := Canon(rows);
    forall i | 0 <= i < |rows|
      ensures MatchesFolded(rows[i], day, via, status) == Matches(c[i], day, via, status)
    {
      CanonicalMatch(rows[i], day, via, status);
    }
    FirstIndexAgrees(rows, (r: GroupRow) => MatchesFolded(r, day, via, status),
                     c, (r: GroupRow) => Matches(r, day, via, status));
  }

  /** The corrected pivot is the written pivot applied after the methods are
      named as the database groups them: 'PHYSICAL', 'physical' and 'Physical'
      all count as 'Physical', and likewise for 'Remote'. */
  lemma FoldedIsCanonical(rows: seq<GroupRow>)
    ensures WeeklyStatsFolded(rows) == WeeklyStats(Canon(rows))
  {
    var a, b := WeeklyStatsFolded(rows), WeeklyStats(Canon(rows));
    forall i | 0 <= i < 7 ensures a[i] == b[i] {
      var d := WeekDays[i];
      FoldedCellIsCell(rows, d, "Physical", "granted");
      FoldedCellIsCell(rows, d, "Physical", "denied");
      FoldedCellIsCell(rows, d, "Remote", "granted");
      FoldedCellIsCell(rows, d, "Remote", "denied");
    }
  }
}
