/** The status message: printed by sendStatus on the server, split and shown by parseMessage in the
    browser. */
module StatusMessage {
  import opened Bytes
  import opened Text
  import opened LightControl
  import opened Coverage

  function Flag(b: bool): string {
    if b then "1" else "0"
  }

  function IntervalText(i: Interval): string {
    var begin := ToString(i.weekdayBegin) + "," + ToString(i.hourBegin);
    var end := ToString(i.weekdayEnd) + "," + ToString(i.hourEnd);
    begin + ";" + end
  }

  function Flags(s: Status): seq<string> {
    [Flag(s.door), Flag(s.light), Flag(s.lightOverride), Flag(s.coverageAlwaysOn)]
  }

  function Texts(intervals: seq<Interval>): (r: seq<string>)
    ensures |r| == |intervals| && forall i :: 0 <= i < |r| ==> r[i] == IntervalText(intervals[i])
  {
    seq(|intervals|, i requires 0 <= i < |intervals| => IntervalText(intervals[i]))
  }

  /** The fields of a status message: four flags, then the intervals. */
  function Fields(s: Status, intervals: seq<Interval>): (r: seq<string>)
    ensures |r| == 4 + |intervals|
  {
    Flags(s) + Texts(intervals)
  }

  lemma FourFlags(s: Status)
    ensures Join(Fields(s, []), '|') ==
            "" + Flag(s.door) + "|" + Flag(s.light) + "|" + Flag(s.lightOverride) + "|" + Flag(s.coverageAlwaysOn)
  {
    var a, b, c, d := Flag(s.door), Flag(s.light), Flag(s.lightOverride), Flag(s.coverageAlwaysOn);
    JoinSnoc([a], b, '|');
    JoinSnoc([a, b], c, '|');
    JoinSnoc([a, b, c], d, '|');
    assert [a] + [b] == [a, b] && [a, b] + [c] == [a, b, c] && [a, b, c] + [d] == Flags(s);
    assert Texts([]) == [] && Fields(s, []) == Flags(s);
    assert Join([a], '|') == a && "" + a == a;
  }

  lemma FieldsGrow(s: Status, intervals: seq<Interval>, k: nat)
    requires k < |intervals|
    ensures Fields(s, intervals[..k + 1]) == Fields(s, intervals[..k]) + [IntervalText(intervals[k])]
  {
    assert Texts(intervals[..k + 1]) == Texts(intervals[..k]) + [IntervalText(intervals[k])];
    Associative(Flags(s), Texts(intervals[..k]), [IntervalText(intervals[k])]);
  }

  lemma FieldsSnoc(s: Status, intervals: seq<Interval>, k: nat)
    requires k < |intervals|
    ensures Join(Fields(s, intervals[..k + 1]), '|') ==
            Join(Fields(s, intervals[..k]), '|') + "|" + IntervalText(intervals[k])
  {
    FieldsGrow(s, intervals, k);
    JoinSnoc(Fields(s, intervals[..k]), IntervalText(intervals[k]), '|');
  }

  method SendStatus(s: Status, intervals: seq<Interval>) returns (wMessage: string)
    ensures wMessage == Join(Fields(s, intervals), '|')
  {
    wMessage := "";
    wMessage := wMessage + Flag(s.door);
    wMessage := wMessage + "|";
    wMessage := wMessage + Flag(s.light);
    wMessage := wMessage + "|";
    wMessage := wMessage + Flag(s.lightOverride);
    wMessage := wMessage + "|";
    wMessage := wMessage + Flag(s.coverageAlwaysOn);
    FourFlags(s);
    assert intervals[..0] == [];
    for k := 0 to |intervals|
      invariant wMessage == Join(Fields(s, intervals[..k]), '|')
    {
      FieldsSnoc(s, intervals, k);
      var i := intervals[k];
      ghost var before := wMessage;
      wMessage := wMessage + "|";
      wMessage := wMessage + (ToString(i.weekdayBegin) + "," + ToString(i.hourBegin) + ";");
      wMessage := wMessage + (ToString(i.weekdayEnd) + "," + ToString(i.hourEnd));
      Associative(before + "|", ToString(i.weekdayBegin) + "," + ToString(i.hourBegin) + ";",
              ToString(i.weekdayEnd) + "," + ToString(i.hourEnd));
    }
    assert intervals[..|intervals|] == intervals;
  }

  lemma ExampleTexts()
    ensures IntervalText(Interval(1, 8, 3, 17)) == "1,8;3,17" && IntervalText(Interval(0, 0, 0, 23)) == "0,0;0,23"
  {
    assert Digits(17) == Digits(1) + "7" && Digits(23) == Digits(2) + "3";
  }

  lemma TwoTexts(s: Status, first: Interval, second: Interval)
    ensures Join(Fields(s, [first, second]), '|') ==
            Join(Fields(s, []), '|') + "|" + IntervalText(first) + "|" + IntervalText(second)
  {
    var both := [first, second];
    assert both[..0] == [] && both[..1] == [first] && both[..2] == both;
    FieldsSnoc(s, both, 0);
    FieldsSnoc(s, both, 1);
  }

  /** Each flag has its place: door, light, override, coverage. */
  lemma FlagPlaces(s: Status)
    ensures Join(Fields(s, []), '|') ==
            (if s.door then "1" else "0") + "|" + (if s.light then "1" else "0") + "|" +
            (if s.lightOverride then "1" else "0") + "|" + (if s.coverageAlwaysOn then "1" else "0")
  {
    FourFlags(s);
    assert "" + Flag(s.door) == Flag(s.door);
  }

  /** The message of a door open, a light on and two intervals: Monday from eight to Wednesday at five in the
      afternoon, and all Sunday. */
  method MessageExample() returns (message: string)
    ensures message == "1" + "|" + "1" + "|" + "0" + "|" + "0" + "|" + "1,8;3,17" + "|" + "0,0;0,23"
  {
    var first, second := Interval(1, 8, 3, 17), Interval(0, 0, 0, 23);
    message := SendStatus(Status(true, true, false, false), [first, second]);
    TwoTexts(Status(true, true, false, false), first, second);
    FlagPlaces(Status(true, true, false, false));
    ExampleTexts();
  }

  // ----- Reading it back

  /** What a part that parses to no number stands for: like NaN it is no weekday and no hour. */
  const NAN := -1

  function NumberAt(parts: seq<string>, k: nat): int {
    if k < |parts| then ParseInt(parts[k]).GetOr(NAN) else NAN
  }

  /** A field as the browser reads it; None is the exception for a field without a second half. */
  function ParseInterval(field: string): Option<Interval> {
    var halves := Split(field, ';');
    if |halves| < 2 then None
    else
      var begin, end := Split(halves[0], ','), Split(halves[1], ',');
      Some(Interval(NumberAt(begin, 0), NumberAt(begin, 1), NumberAt(end, 0), NumberAt(end, 1)))
  }

  lemma NumberText(n: int)
    ensures ParseInt(ToString(n)) == Some(n)
    ensures ',' !in ToString(n) && ';' !in ToString(n) && '|' !in ToString(n)
  {
    ParseToString(n);
    ToStringChars(n, ',');
    ToStringChars(n, ';');
    ToStringChars(n, '|');
  }

  /** Half of an interval: two numbers with a comma, free of the other separators. */
  lemma HalfParses(weekday: int, hour: int, half: string)
    requires half == ToString(weekday) + "," + ToString(hour)
    ensures NumberAt(Split(half, ','), 0) == weekday && NumberAt(Split(half, ','), 1) == hour
    ensures ';' !in half && '|' !in half
  {
    NumberText(weekday);
    NumberText(hour);
    SplitPrefix(ToString(weekday), ToString(hour), ',');
    SplitPrefix(ToString(hour), [], ',');
  }

  lemma HalvesSplit(begin: string, end: string, field: string)
    requires field == begin + ";" + end && ';' !in begin && ';' !in end && '|' !in begin && '|' !in end
    ensures Split(field, ';') == [begin, end] && '|' !in field
  {
    SplitPrefix(begin, end, ';');
    SplitPrefix(end, [], ';');
  }

  lemma IntervalTextParses(i: Interval)
    ensures ParseInterval(IntervalText(i)) == Some(i) && '|' !in IntervalText(i)
  {
    var begin := ToString(i.weekdayBegin) + "," + ToString(i.hourBegin);
    var end := ToString(i.weekdayEnd) + "," + ToString(i.hourEnd);
    HalfParses(i.weekdayBegin, i.hourBegin, begin);
    HalfParses(i.weekdayEnd, i.hourEnd, end);
    HalvesSplit(begin, end, IntervalText(i));
  }

  lemma FieldIs(s: Status, intervals: seq<Interval>, k: nat)
    requires k < |intervals|
    ensures Fields(s, intervals)[4 + k] == IntervalText(intervals[k])
  {
  }

  lemma NoBars(s: Status, intervals: seq<Interval>, j: nat)
    requires j < 4 + |intervals|
    ensures '|' !in Fields(s, intervals)[j]
    ensures j >= 4 ==> ParseInterval(Fields(s, intervals)[j]) == Some(intervals[j - 4])
  {
    if j >= 4 {
      IntervalTextParses(intervals[j - 4]);
      FieldIs(s, intervals, j - 4);
    } else {
      assert Fields(s, intervals)[j] == Flags(s)[j];
    }
  }

  /** Splitting the message gives back the fields, and field 4 + k is interval k. */
  lemma FieldsSurvive(s: Status, intervals: seq<Interval>)
    ensures Split(Join(Fields(s, intervals), '|'), '|') == Fields(s, intervals)
    ensures forall k :: 0 <= k < |intervals| ==> ParseInterval(Fields(s, intervals)[4 + k]) == Some(intervals[k])
  {
    forall j | 0 <= j < 4 + |intervals| ensures '|' !in Fields(s, intervals)[j] {
      NoBars(s, intervals, j);
    }
    forall k | 0 <= k < |intervals| ensures ParseInterval(Fields(s, intervals)[4 + k]) == Some(intervals[k]) {
      NoBars(s, intervals, 4 + k);
    }
    SplitJoin(Fields(s, intervals), '|');
  }

  /** What the page shows: the four flags and the cells switched on, and whether an exception stopped it. */
  datatype View = View(status: Status, painted: set<Cell>, threw: bool)

  function FlagAt(fields: seq<string>, k: nat): bool {
    k < |fields| && fields[k] == "1"
  }

  /** The fields the page's loop visits, starting at index 6. */
  function Visited(fields: seq<string>): seq<string> {
    if |fields| <= 6 then [] else fields[6..]
  }

  function ParseAll(fields: seq<string>, parse: string -> Option<Interval>): (r: seq<Option<Interval>>)
    ensures |r| == |fields|
  {
    seq(|fields|, k requires 0 <= k < |fields| => parse(fields[k]))
  }

  predicate Readable(field: Option<Interval>) {
    field.Some? && Valid(field.value)
  }

  /** The fields the page gets to before the first that makes it throw. */
  function Handled(parsed: seq<Option<Interval>>): (r: seq<Interval>)
    ensures |r| <= |parsed| && forall k :: 0 <= k < |r| ==> parsed[k] == Some(r[k]) && Valid(r[k])
    ensures |r| < |parsed| ==> !Readable(parsed[|r|])
  {
    if parsed == [] || !Readable(parsed[0]) then [] else [parsed[0].value] + Handled(parsed[1..])
  }

  /** The page gets through: the field it stops at, if any, is not one it would go on painting for ever. */
  predicate Ends(parsed: seq<Option<Interval>>) {
    var n := |Handled(parsed)|;
    n < |parsed| && parsed[n].Some? ==> !Endless(parsed[n].value)
  }

  function FlagsOf(fields: seq<string>): Status {
    Status(FlagAt(fields, 0), FlagAt(fields, 1), FlagAt(fields, 2), FlagAt(fields, 3))
  }

  lemma VisitedAt(fields: seq<string>, parse: string -> Option<Interval>, i: nat)
    requires 6 <= i < |fields|
    ensures i - 6 < |Visited(fields)| && ParseAll(Visited(fields), parse)[i - 6] == parse(fields[i])
  {
    var visited := fields[6..];
    assert Visited(fields) == visited && visited[i - 6] == fields[i];
    assert ParseAll(visited, parse)[i - 6] == parse(visited[i - 6]);
  }

  /** The cells of a list of intervals, switched on one interval after the other. */
  ghost function CellsOf(intervals: seq<Interval>): set<Cell> {
    if intervals == [] then {} else CellsOf(intervals[..|intervals| - 1]) + Cells(intervals[|intervals| - 1])
  }

  lemma CellsOfNext(intervals: seq<Interval>, k: nat)
    requires k < |intervals|
    ensures CellsOf(intervals[..k + 1]) == CellsOf(intervals[..k]) + Cells(intervals[k])
  {
    assert intervals[..k + 1][..k] == intervals[..k];
  }

  lemma PaintedSnoc(intervals: seq<Interval>, i: Interval)
    ensures PaintedBy(intervals + [i]) == PaintedBy(intervals) + Cells(i)
  {
    var all := intervals + [i];
    forall c | c in Cells(i) ensures c in PaintedBy(all) {
      assert all[|intervals|] == i;
    }
    forall c | c in PaintedBy(intervals) ensures c in PaintedBy(all) {
      var k :| 0 <= k < |intervals| && c in Cells(intervals[k]);
      assert all[k] == intervals[k];
    }
  }

  lemma InitAndLast<T>(s: seq<T>)
    requires s != []
    ensures s == s[..|s| - 1] + [s[|s| - 1]]
  {
  }

  lemma {:induction false} CellsOfPainted(intervals: seq<Interval>)
    ensures CellsOf(intervals) == PaintedBy(intervals)
  {
    if intervals != [] {
      var init, last := intervals[..|intervals| - 1], intervals[|intervals| - 1];
      CellsOfPainted(init);
      PaintedSnoc(init, last);
      InitAndLast(intervals);
    }
  }

  ghost predicate Painted(painted: set<Cell>, intervals: seq<Interval>) {
    painted == CellsOf(intervals)
  }

  lemma PaintedAll(painted: set<Cell>, intervals: seq<Interval>, k: nat)
    requires k == |intervals| && Painted(painted, intervals[..k])
    ensures Painted(painted, intervals)
  {
    assert intervals[..k] == intervals;
  }

  lemma PaintedNext(painted: set<Cell>, intervals: seq<Interval>, k: nat, cells: set<Cell>)
    requires k < |intervals| && Painted(painted, intervals[..k]) && cells == Cells(intervals[k])
    ensures Painted(painted + cells, intervals[..k + 1])
  {
    CellsOfNext(intervals, k);
  }

  /** The page handles the field for interval n: it is interval n of those painted, or the first it fails at. */
  predicate HandledAs(field: Option<Interval>, n: nat, handled: seq<Interval>) {
    && (field.Some? ==> !Endless(field.value))
    && (if n < |handled| then Readable(field) && handled[n] == field.value else !Readable(field))
  }

  ghost predicate HandledFrom6(fields: seq<string>, parse: string -> Option<Interval>, handled: seq<Interval>) {
    && (6 + |handled| <= |fields| || handled == [])
    && forall i :: 6 <= i < |fields| && i <= 6 + |handled| ==> HandledAs(parse(fields[i]), i - 6, handled)
  }

  lemma HandledAt(parsed: seq<Option<Interval>>, n: nat)
    requires Ends(parsed) && n < |parsed| && n <= |Handled(parsed)|
    ensures HandledAs(parsed[n], n, Handled(parsed))
  {
  }

  lemma FieldsHandled(fields: seq<string>, parse: string -> Option<Interval>)
    requires Ends(ParseAll(Visited(fields), parse))
    ensures HandledFrom6(fields, parse, Handled(ParseAll(Visited(fields), parse)))
  {
    var parsed := ParseAll(Visited(fields), parse);
    forall i | 6 <= i < |fields| && i <= 6 + |Handled(parsed)|
      ensures HandledAs(parse(fields[i]), i - 6, Handled(parsed))
    {
      VisitedAt(fields, parse, i);
      HandledAt(parsed, i - 6);
    }
  }

  /** One round of the loop: split, parse, paint. */
  method PaintField(field: string, parse: string -> Option<Interval>, ghost n: nat, ghost handled: seq<Interval>)
      returns (cells: set<Cell>, threw: bool)
    requires HandledAs(parse(field), n, handled)
    ensures threw <==> n >= |handled|
    ensures !threw ==> cells == Cells(handled[n])
  {
    var interval := parse(field);
    if interval.None? {
      return {}, true;
    }
    cells, threw := WriteCoverageInTable(interval.value);
  }

  /** The loop of parseMessage, given what parses a field. */
  method PaintFields(wSplit: seq<string>, parse: string -> Option<Interval>, ghost handled: seq<Interval>)
      returns (painted: set<Cell>, threw: bool)
    requires HandledFrom6(wSplit, parse, handled)
    ensures Painted(painted, handled) && (threw <==> 6 + |handled| < |wSplit|)
  {
    painted, threw := {}, false;
    var i := 6;
    while i < |wSplit|
      invariant 6 <= i <= 6 + |handled| && Painted(painted, handled[..i - 6])
    {
      var cells;
      cells, threw := PaintField(wSplit[i], parse, i - 6, handled);
      if threw {
        PaintedAll(painted, handled, i - 6);
        return painted, true;
      }
      PaintedNext(painted, handled, i - 6, cells);
      painted := painted + cells;
      i := i + 1;
    }
    PaintedAll(painted, handled, i - 6);
  }

  /** parseMessage: the flags, then the intervals in order up to the first field that makes it throw. */
  method ParseMessage(data: string) returns (view: View)
    requires Ends(ParseAll(Visited(Split(data, '|')), ParseInterval))
    ensures var fields := Split(data, '|'); var parsed := ParseAll(Visited(fields), ParseInterval);
      view == View(FlagsOf(fields), PaintedBy(Handled(parsed)), |Handled(parsed)| < |parsed|)
  {
    var wSplit := Split(data, '|');
    FieldsHandled(wSplit, ParseInterval);
    var painted, threw := PaintFields(wSplit, ParseInterval, Handled(ParseAll(Visited(wSplit), ParseInterval)));
    CellsOfPainted(Handled(ParseAll(Visited(wSplit), ParseInterval)));
    view := View(FlagsOf(wSplit), painted, threw);
  }

  function WithoutFirstTwo<T>(s: seq<T>): seq<T> {
    if |s| <= 2 then [] else s[2..]
  }

  function Somes<T>(s: seq<T>): (r: seq<Option<T>>)
    ensures |r| == |s| && forall k :: 0 <= k < |s| ==> r[k] == Some(s[k])
  {
    seq(|s|, k requires 0 <= k < |s| => Some(s[k]))
  }

  /** Of seven fields the page visits the last, and of three intervals the third is left. */
  lemma StartsAtSix(fields: seq<string>, intervals: seq<Interval>)
    requires |fields| == 7 && |intervals| == 3
    ensures Visited(fields) == [fields[6]] && WithoutFirstTwo(intervals) == [intervals[2]]
  {
  }

  /** What arrives in the browser: the flags, and the intervals without the first two. */
  lemma VisitedIntervals(s: Status, intervals: seq<Interval>)
    ensures var fields, kept := Split(Join(Fields(s, intervals), '|'), '|'), WithoutFirstTwo(intervals);
      && FlagsOf(fields) == s
      && ParseAll(Visited(fields), ParseInterval) == Somes(kept)
  {
    FieldsSurvive(s, intervals);
    var fields, kept := Fields(s, intervals), WithoutFirstTwo(intervals);
    forall k | 0 <= k < |kept| ensures ParseInterval(Visited(fields)[k]) == Some(kept[k]) {
      assert Visited(fields)[k] == fields[4 + (k + 2)];
    }
  }

  /** The intervals before the first that is not one of the week table. */
  function ValidFront(intervals: seq<Interval>): (r: seq<Interval>)
    ensures r <= intervals && (forall k :: 0 <= k < |r| ==> Valid(r[k]))
    ensures |r| < |intervals| ==> !Valid(intervals[|r|])
  {
    if intervals == [] || !Valid(intervals[0]) then [] else [intervals[0]] + ValidFront(intervals[1..])
  }

  lemma {:induction false} HandledSomes(intervals: seq<Interval>)
    ensures Handled(Somes(intervals)) == ValidFront(intervals)
  {
    if intervals != [] {
      HandledSomes(intervals[1..]);
      assert Somes(intervals)[1..] == Somes(intervals[1..]);
    }
  }

  /** From the server's status to the page: every flag arrives, and the cells switched on are those of the
      intervals after the second, up to the first that is not one of the week table. */
  method Display(s: Status, intervals: seq<Interval>) returns (view: View)
    requires var kept := WithoutFirstTwo(intervals); var n := |ValidFront(kept)|; n < |kept| ==> !Endless(kept[n])
    ensures var kept := WithoutFirstTwo(intervals);
      view == View(s, PaintedBy(ValidFront(kept)), |ValidFront(kept)| < |kept|)
  {
    var message := SendStatus(s, intervals);
    VisitedIntervals(s, intervals);
    HandledSomes(WithoutFirstTwo(intervals));
    view := ParseMessage(message);
  }

  /** The page visits every interval only when there is none. */
  lemma VisitsAllIff(intervals: seq<Interval>)
    ensures WithoutFirstTwo(intervals) == intervals <==> intervals == []
  {
    if intervals != [] {
      assert |WithoutFirstTwo(intervals)| < |intervals|;
    }
  }

  /** One interval, nine hours into Monday for an hour, and an empty table. */
  lemma OneIntervalLost()
    ensures var i := Interval(1, 8, 1, 9);
      Valid(i) && PaintedBy(WithoutFirstTwo([i])) == {} && Cell(1, 8) in PaintedBy([i])
  {
    var i := Interval(1, 8, 1, 9);
    assert [i][0] == i && Cell(1, 8) in Cells(i);
  }

  /** The table shows all the intervals exactly when the first two add no cell to the others. */
  lemma TableCompleteIff(intervals: seq<Interval>)
    ensures PaintedBy(WithoutFirstTwo(intervals)) == PaintedBy(intervals) <==>
            forall k :: 0 <= k < |intervals| && k < 2 ==> Cells(intervals[k]) <= PaintedBy(WithoutFirstTwo(intervals))
  {
    var kept := WithoutFirstTwo(intervals);
    forall c, k | 0 <= k < |intervals| && c in Cells(intervals[k]) ensures c in PaintedBy(intervals) {
    }
    forall c | c in PaintedBy(kept) ensures c in PaintedBy(intervals) {
      var k :| 0 <= k < |kept| && c in Cells(kept[k]);
      assert kept[k] == intervals[k + 2];
    }
    if forall k :: 0 <= k < |intervals| && k < 2 ==> Cells(intervals[k]) <= PaintedBy(kept) {
      forall c | c in PaintedBy(intervals) ensures c in PaintedBy(kept) {
        var k :| 0 <= k < |intervals| && c in Cells(intervals[k]);
        if k >= 2 {
          assert kept[k - 2] == intervals[k];
        }
      }
    }
  }
}
