/** Coverage intervals: the server's scan of them, and the client's painting of the week table. */
module Coverage {
  import opened Bytes

  datatype Interval = Interval(weekdayBegin: int, hourBegin: int, weekdayEnd: int, hourEnd: int)

  /** A cell of the week table: seven columns of 24 rows. */
  datatype Cell = Cell(weekday: int, hour: int)

  predicate InTable(c: Cell) {
    0 <= c.weekday < 7 && 0 <= c.hour < 24
  }

  predicate Valid(i: Interval) {
    InTable(Cell(i.weekdayBegin, i.hourBegin)) && InTable(Cell(i.weekdayEnd, i.hourEnd))
  }

  function HourOfWeek(c: Cell): int {
    c.weekday * 24 + c.hour
  }

  function Begin(i: Interval): int {
    HourOfWeek(Cell(i.weekdayBegin, i.hourBegin))
  }

  function End(i: Interval): int {
    HourOfWeek(Cell(i.weekdayEnd, i.hourEnd))
  }

  // ----- The server

  predicate ServerCovers(i: Interval, hour: int) {
    Begin(i) <= hour <= End(i)
  }

  /** The rows before k say no. */
  ghost predicate NoneBefore<Row(!new)>(rows: seq<Row>, check: Row -> Option<bool>, k: nat) {
    forall j :: 0 <= j < k && j < |rows| ==> check(rows[j]) == Some(false)
  }

  /** Scans the rows of a query and stops at the first one that passes the check, or whose check throws: None
      is the exception. */
  method CheckCoverageForStatement<Row(!new)>(rows: seq<Row>, check: Row -> Option<bool>)
      returns (covered: Option<bool>)
    ensures covered == Some(false) <==> NoneBefore(rows, check, |rows|)
    ensures covered == Some(true) <==>
      exists k :: 0 <= k < |rows| && check(rows[k]) == Some(true) && NoneBefore(rows, check, k)
    ensures covered == None <==> exists k :: 0 <= k < |rows| && check(rows[k]) == None && NoneBefore(rows, check, k)
  {
    var cursor := 0;
    while cursor < |rows|
      invariant cursor <= |rows| && NoneBefore(rows, check, cursor)
    {
      if check(rows[cursor]) != Some(false) {
        return check(rows[cursor]);
      }
      cursor := cursor + 1;
    }
    return Some(false);
  }

  predicate WeekdaysKnown(i: Interval) {
    0 <= i.weekdayBegin < 7 && 0 <= i.weekdayEnd < 7
  }

  /** The check of an interval; a weekday that greg_weekday does not know throws. */
  function CoversOrThrows(i: Interval, hour: int): Option<bool> {
    if WeekdaysKnown(i) then Some(ServerCovers(i, hour)) else None
  }

  function CoverageCheck(now: Cell): Interval -> Option<bool> {
    i => CoversOrThrows(i, HourOfWeek(now))
  }

  /** What the check of a row answers, in hours from the beginning of the week. */
  lemma CheckMeans(i: Interval, now: Cell)
    ensures CoverageCheck(now)(i) == None <==>
      i.weekdayBegin < 0 || i.weekdayBegin > 6 || i.weekdayEnd < 0 || i.weekdayEnd > 6
    ensures CoverageCheck(now)(i) == Some(true) ==>
      24 * i.weekdayBegin + i.hourBegin <= 24 * now.weekday + now.hour <= 24 * i.weekdayEnd + i.hourEnd
    ensures CoverageCheck(now)(i) == Some(false) ==>
      !(24 * i.weekdayBegin + i.hourBegin <= 24 * now.weekday + now.hour <= 24 * i.weekdayEnd + i.hourEnd)
  {
  }

  /** The first row that decides is row k, and it covers the hour. */
  ghost predicate FirstToCover(intervals: seq<Interval>, now: Cell, k: nat) {
    && k < |intervals| && CoverageCheck(now)(intervals[k]) == Some(true)
    && NoneBefore(intervals, CoverageCheck(now), k)
  }

  /** The first row that decides is row k, and it has a weekday that is none. */
  ghost predicate FirstToThrow(intervals: seq<Interval>, now: Cell, k: nat) {
    && k < |intervals| && CoverageCheck(now)(intervals[k]) == None
    && NoneBefore(intervals, CoverageCheck(now), k)
  }

  function IsOne(value: string): Option<bool> {
    Some(value == "1")
  }

  lemma NoOne(values: seq<string>)
    ensures NoneBefore(values, IsOne, |values|) <==> "1" !in values
  {
    forall k | 0 <= k < |values| ensures IsOne(values[k]) == Some(false) <==> values[k] != "1" {
    }
  }

  method AlwaysOn(alwaysOn: seq<string>) returns (covered: Option<bool>)
    ensures covered == Some("1" in alwaysOn)
  {
    covered := CheckCoverageForStatement(alwaysOn, IsOne);
    NoOne(alwaysOn);
    assert covered != None;
    if covered.value {
      assert covered == Some(true);
    } else {
      assert covered == Some(false);
    }
  }

  /** now is the local time as a cell of the week. */
  method CheckIfInCoverage(alwaysOn: seq<string>, intervals: seq<Interval>, now: Cell) returns (covered: Option<bool>)
    ensures covered == Some(true) <==> "1" in alwaysOn || exists k: nat :: FirstToCover(intervals, now, k)
    ensures covered == None <==> "1" !in alwaysOn && exists k: nat :: FirstToThrow(intervals, now, k)
  {
    covered := AlwaysOn(alwaysOn);
    if covered == Some(false) {
      covered := CheckCoverageForStatement(intervals, CoverageCheck(now));
      if covered == Some(true) {
        ghost var k :| 0 <= k < |intervals| && CoverageCheck(now)(intervals[k]) == Some(true) &&
          NoneBefore(intervals, CoverageCheck(now), k);
        assert FirstToCover(intervals, now, k);
      } else if covered == None {
        ghost var k :| 0 <= k < |intervals| && CoverageCheck(now)(intervals[k]) == None &&
          NoneBefore(intervals, CoverageCheck(now), k);
        assert FirstToThrow(intervals, now, k);
      }
    }
  }

  lemma FirstCovering(intervals: seq<Interval>, now: Cell, k: nat) returns (first: nat)
    requires forall j :: 0 <= j < |intervals| ==> WeekdaysKnown(intervals[j])
    requires k < |intervals| && ServerCovers(intervals[k], HourOfWeek(now))
    ensures FirstToCover(intervals, now, first)
  {
    first := 0;
    while !ServerCovers(intervals[first], HourOfWeek(now))
      invariant first <= k && NoneBefore(intervals, CoverageCheck(now), first)
      decreases k - first
    {
      first := first + 1;
    }
  }

  /** When every row has weekdays of the week the check answers whether some interval covers the hour. */
  lemma KnownWeekdaysCovered(intervals: seq<Interval>, now: Cell)
    requires forall k :: 0 <= k < |intervals| ==> WeekdaysKnown(intervals[k])
    ensures (exists k: nat :: FirstToCover(intervals, now, k)) <==>
            exists k :: 0 <= k < |intervals| && ServerCovers(intervals[k], HourOfWeek(now))
    ensures !exists k: nat :: FirstToThrow(intervals, now, k)
  {
    if k :| 0 <= k < |intervals| && ServerCovers(intervals[k], HourOfWeek(now)) {
      var first := FirstCovering(intervals, now, k);
    }
    if k: nat :| FirstToCover(intervals, now, k) {
      assert ServerCovers(intervals[k], HourOfWeek(now));
    }
  }

  // ----- The client

  /** Hours from one hour of the week forward to another, round the week if need be. */
  function Ahead(from: int, to: int): int {
    if to >= from then to - from else to - from + 168
  }

  /** The hours met on the way from begin to end. */
  ghost predicate Cyclic(i: Interval, hour: int) {
    Ahead(Begin(i), hour) <= Ahead(Begin(i), End(i))
  }

  function NextCell(c: Cell): Cell {
    if c.hour + 1 < 24 then Cell(c.weekday, c.hour + 1)
    else if c.weekday + 1 < 7 then Cell(c.weekday + 1, 0)
    else Cell(0, 0)
  }

  function HourAfter(hour: int): int {
    if hour == 167 then 0 else hour + 1
  }

  lemma NextCellCyclic(c: Cell)
    requires InTable(c)
    ensures InTable(NextCell(c)) && HourOfWeek(NextCell(c)) == HourAfter(HourOfWeek(c))
  {
  }

  lemma SameHourSameCell(c: Cell, d: Cell)
    requires InTable(c) && InTable(d) && HourOfWeek(c) == HourOfWeek(d)
    ensures c == d
  {
  }

  lemma OneHourLess(begin: int, end: int, hour: int)
    requires 0 <= begin < 168 && 0 <= end < 168 && 0 <= hour < 168 && begin != end
    ensures var next := HourAfter(begin);
      && Ahead(next, end) == Ahead(begin, end) - 1
      && (Ahead(begin, hour) <= Ahead(begin, end) <==> hour == begin || Ahead(next, hour) <= Ahead(next, end))
  {
  }

  function From(here: Cell, i: Interval): Interval {
    Interval(here.weekday, here.hour, i.weekdayEnd, i.hourEnd)
  }

  /** The cells of the table within an interval, as the client sees it. */
  ghost function Cells(i: Interval): (cells: set<Cell>)
    ensures forall c :: c in cells <==> InTable(c) && Cyclic(i, HourOfWeek(c))
  {
    set w, h | 0 <= w < 7 && 0 <= h < 24 && Cyclic(i, HourOfWeek(Cell(w, h))) :: Cell(w, h)
  }

  /** An interval and the one that begins an hour later. */
  lemma BeginningLater(i: Interval, later: Interval, hour: int)
    requires 0 <= Begin(i) < 168 && 0 <= End(i) < 168 && 0 <= hour < 168
    requires Begin(i) != End(i) && End(later) == End(i) && Begin(later) == HourAfter(Begin(i))
    ensures Cyclic(i, hour) <==> hour == Begin(i) || Cyclic(later, hour)
  {
    OneHourLess(Begin(i), End(i), hour);
  }

  lemma HourInWeek(c: Cell)
    requires InTable(c)
    ensures 0 <= HourOfWeek(c) < 168
  {
  }

  lemma SameHourIff(c: Cell, d: Cell)
    requires InTable(c) && InTable(d)
    ensures HourOfWeek(c) == HourOfWeek(d) <==> c == d
  {
    if HourOfWeek(c) == HourOfWeek(d) {
      SameHourSameCell(c, d);
    }
  }

  lemma NextCellCloser(i: Interval, here: Cell)
    requires Valid(i) && InTable(here) && HourOfWeek(here) != End(i)
    ensures Ahead(HourOfWeek(NextCell(here)), End(i)) == Ahead(HourOfWeek(here), End(i)) - 1
  {
    NextCellCyclic(here);
    HourInWeek(here);
    HourInWeek(Cell(i.weekdayEnd, i.hourEnd));
    OneHourLess(HourOfWeek(here), End(i), 0);
  }

  lemma HoursFrom(i: Interval, here: Cell)
    requires Valid(i) && InTable(here)
    ensures Begin(From(here, i)) == HourOfWeek(here) && End(From(here, i)) == End(i)
    ensures 0 <= Begin(From(here, i)) < 168 && 0 <= End(i) < 168
  {
  }

  lemma FirstHour(i: Interval, here: Cell, hour: int)
    requires Valid(i) && InTable(here) && 0 <= hour < 168 && HourOfWeek(here) != End(i)
    ensures Cyclic(From(here, i), hour) <==> hour == HourOfWeek(here) || Cyclic(From(NextCell(here), i), hour)
  {
    NextCellCyclic(here);
    HoursFrom(i, here);
    HoursFrom(i, NextCell(here));
    BeginningLater(From(here, i), From(NextCell(here), i), hour);
  }

  lemma FirstCellAt(i: Interval, here: Cell, c: Cell)
    requires Valid(i) && InTable(here) && InTable(c) && HourOfWeek(here) != End(i)
    ensures Cyclic(From(here, i), HourOfWeek(c)) <==> c == here || Cyclic(From(NextCell(here), i), HourOfWeek(c))
  {
    HourInWeek(c);
    FirstHour(i, here, HourOfWeek(c));
    SameHourIff(c, here);
  }

  lemma NotYetAtEnd(i: Interval, here: Cell)
    requires Valid(i) && InTable(here) && here != Cell(i.weekdayEnd, i.hourEnd)
    ensures HourOfWeek(here) != End(i)
  {
    if HourOfWeek(here) == End(i) {
      SameHourSameCell(here, Cell(i.weekdayEnd, i.hourEnd));
    }
  }

  /** An interval that does not end here is this cell and the interval from the next one. */
  lemma FirstCell(i: Interval, here: Cell)
    requires Valid(i) && InTable(here) && here != Cell(i.weekdayEnd, i.hourEnd)
    ensures InTable(NextCell(here))
    ensures Cells(From(here, i)) == {here} + Cells(From(NextCell(here), i))
    ensures Ahead(HourOfWeek(NextCell(here)), End(i)) == Ahead(HourOfWeek(here), End(i)) - 1
  {
    NextCellCyclic(here);
    NotYetAtEnd(i, here);
    NextCellCloser(i, here);
    var all, rest := Cells(From(here, i)), Cells(From(NextCell(here), i));
    forall c ensures c in all <==> c in {here} + rest {
      if InTable(c) {
        FirstCellAt(i, here, c);
      }
    }
  }

  lemma LastCell(i: Interval)
    requires Valid(i) && Begin(i) == End(i)
    ensures Cells(i) == {Cell(i.weekdayEnd, i.hourEnd)}
  {
    forall c | InTable(c) && HourOfWeek(c) == End(i) ensures c == Cell(i.weekdayEnd, i.hourEnd) {
      SameHourSameCell(c, Cell(i.weekdayEnd, i.hourEnd));
    }
  }

  /** The cells met from here to the end cell, one step at a time. */
  ghost function Walk(i: Interval, here: Cell): set<Cell>
    requires Valid(i) && InTable(here)
    decreases Ahead(HourOfWeek(here), End(i))
  {
    if here == Cell(i.weekdayEnd, i.hourEnd) then
      {here}
    else
      FirstCell(i, here);
      {here} + Walk(i, NextCell(here))
  }

  lemma {:induction false} WalkIsCells(i: Interval, here: Cell)
    requires Valid(i) && InTable(here)
    ensures Walk(i, here) == Cells(From(here, i))
    decreases Ahead(HourOfWeek(here), End(i))
  {
    if here == Cell(i.weekdayEnd, i.hourEnd) {
      LastCell(From(here, i));
    } else {
      FirstCell(i, here);
      WalkIsCells(i, NextCell(here));
    }
  }

  ghost function Steps(i: Interval, here: Cell): nat
    requires Valid(i) && InTable(here)
    decreases Ahead(HourOfWeek(here), End(i))
  {
    if here == Cell(i.weekdayEnd, i.hourEnd) then
      0
    else
      FirstCell(i, here);
      1 + Steps(i, NextCell(here))
  }

  /** The loop takes as many steps as there are hours from its first cell forward to its last. */
  lemma {:induction false} StepsAreHours(i: Interval, here: Cell)
    requires Valid(i) && InTable(here)
    ensures Steps(i, here) == Ahead(HourOfWeek(here), End(i)) < 168
    decreases Ahead(HourOfWeek(here), End(i))
  {
    if here != Cell(i.weekdayEnd, i.hourEnd) {
      FirstCell(i, here);
      StepsAreHours(i, NextCell(here));
      HourInWeek(here);
      HourInWeek(Cell(i.weekdayEnd, i.hourEnd));
    }
  }

  lemma WalkOn(i: Interval, here: Cell, painted: set<Cell>)
    requires Valid(i) && InTable(here) && here != Cell(i.weekdayEnd, i.hourEnd)
    ensures InTable(NextCell(here)) && painted + {here} + Walk(i, NextCell(here)) == painted + Walk(i, here)
    ensures Steps(i, NextCell(here)) < Steps(i, here)
  {
    FirstCell(i, here);
  }

  /** The first cell is in the table and the last is not. */
  predicate Endless(i: Interval) {
    InTable(Cell(i.weekdayBegin, i.hourBegin)) && !InTable(Cell(i.weekdayEnd, i.hourEnd))
  }

  function CellAfter(c: Cell, steps: nat): Cell {
    if steps == 0 then c else NextCell(CellAfter(c, steps - 1))
  }

  /** The loop never gets to the end of such an interval: it goes round the table for ever. */
  lemma {:induction false} EndlessNeverEnds(i: Interval, steps: nat)
    requires Endless(i)
    ensures InTable(CellAfter(Cell(i.weekdayBegin, i.hourBegin), steps))
    ensures CellAfter(Cell(i.weekdayBegin, i.hourBegin), steps) != Cell(i.weekdayEnd, i.hourEnd)
  {
    if steps > 0 {
      EndlessNeverEnds(i, steps - 1);
      NextCellCyclic(CellAfter(Cell(i.weekdayBegin, i.hourBegin), steps - 1));
    }
  }

  /** Steps from cell to cell, round the week if need be, until the end cell is reached; a cell that is not in
      the table is an exception. */
  method WriteCoverageInTable(i: Interval) returns (painted: set<Cell>, threw: bool)
    requires !Endless(i)
    ensures threw <==> !Valid(i)
    ensures painted == if threw then {} else Cells(i)
  {
    var wWeekday := i.weekdayBegin;
    var wHour := i.hourBegin;
    painted := {};
    while !(wWeekday == i.weekdayEnd && wHour == i.hourEnd)
      invariant Valid(i) ==> InTable(Cell(wWeekday, wHour))
      invariant Valid(i) ==> painted + Walk(i, Cell(wWeekday, wHour)) == Walk(i, Cell(i.weekdayBegin, i.hourBegin))
      invariant !Valid(i) ==> !InTable(Cell(wWeekday, wHour)) && painted == {}
      decreases if Valid(i) then Steps(i, Cell(wWeekday, wHour)) else 0
    {
      ghost var here := Cell(wWeekday, wHour);
      if !InTable(Cell(wWeekday, wHour)) {
        return painted, true;
      }
      WalkOn(i, here, painted);
      painted := painted + {Cell(wWeekday, wHour)};
      wHour := wHour + 1;
      if wHour >= 24 {
        wHour := 0;
        wWeekday := wWeekday + 1;
        if wWeekday >= 7 {
          wWeekday := 0;
        }
      }
      assert Cell(wWeekday, wHour) == NextCell(here);
    }
    if !InTable(Cell(wWeekday, wHour)) {
      return painted, true;
    }
    painted := painted + {Cell(wWeekday, wHour)};
    WalkIsCells(i, Cell(i.weekdayBegin, i.hourBegin));
    threw := false;
  }

  // ----- Client against server

  /** The server covers some hour of a valid interval, and then exactly the hours painted, if and only if
      the interval does not wrap round the end of the week. */
  lemma PaintedIsCoveredIff(i: Interval)
    requires Valid(i)
    ensures (forall c | InTable(c) :: c in Cells(i) <==> ServerCovers(i, HourOfWeek(c))) <==> Begin(i) <= End(i)
    ensures Begin(i) > End(i) ==> forall hour :: !ServerCovers(i, hour)
  {
    if Begin(i) > End(i) {
      var c := Cell(i.weekdayBegin, i.hourBegin);
      assert InTable(c) && c in Cells(i) && !ServerCovers(i, HourOfWeek(c));
    }
  }

  ghost function PaintedBy(intervals: seq<Interval>): set<Cell> {
    set k, c | 0 <= k < |intervals| && c in Cells(intervals[k]) :: c
  }

  ghost predicate ServerCoversAny(intervals: seq<Interval>, c: Cell) {
    exists k :: 0 <= k < |intervals| && ServerCovers(intervals[k], HourOfWeek(c))
  }

  /** Every hour the server covers is painted. The two agree everywhere if and only if each interval that
      wraps round the week is painted over by hours the server covers anyway. */
  lemma AgreementIff(intervals: seq<Interval>)
    requires forall k :: 0 <= k < |intervals| ==> Valid(intervals[k])
    ensures forall c | InTable(c) && ServerCoversAny(intervals, c) :: c in PaintedBy(intervals)
    ensures (forall c | InTable(c) :: c in PaintedBy(intervals) <==> ServerCoversAny(intervals, c)) <==>
            (forall k, c | 0 <= k < |intervals| && Begin(intervals[k]) > End(intervals[k]) && c in Cells(intervals[k])
               :: ServerCoversAny(intervals, c))
  {
    forall c, k | InTable(c) && 0 <= k < |intervals| && ServerCovers(intervals[k], HourOfWeek(c))
      ensures c in Cells(intervals[k])
    {
    }
    forall c, k | 0 <= k < |intervals| && c in Cells(intervals[k]) && Begin(intervals[k]) <= End(intervals[k])
      ensures ServerCovers(intervals[k], HourOfWeek(c))
    {
    }
  }
}
