/** The weekly schedule grid: ranges of hours per day, the cells they switch on, and the ranges read back. */
module Schedule {
  datatype Range = Range(days: seq<nat>, start: nat, end: nat)

  datatype Cell = Cell(day: nat, hour: nat)

  const HOURS := 24

  // ---- what ranges mean ---------------------------------------------------------------

  /** Starting and ending at the same hour is the whole day; ending before the start wraps at midnight. */
  predicate IncludesHour(r: Range, hour: nat) {
    if r.start == r.end then hour < HOURS
    else if r.start < r.end then r.start <= hour < r.end
    else r.start <= hour < HOURS || hour < r.end
  }

  /**
   * A range covers as many hours of the clock, from its start on and around midnight, as it takes to reach its
   * end, and all twenty-four when the end is the start.
   */
  lemma CoversClockwise(r: Range, hour: nat)
    requires r.start < 24 && r.end < 24
    ensures IncludesHour(r, hour) <==> hour < 24 && (hour + 24 - r.start) % 24 <= (r.end + 47 - r.start) % 24
  {
    if hour < 24 {
      Clockwise(hour + 24 - r.start);
      Clockwise(r.end + 47 - r.start);
    }
  }

  lemma Clockwise(n: nat)
    requires n < 72
    ensures n % 24 == if n < 24 then n else if n < 48 then n - 24 else n - 48
  {
  }

  predicate Covers(r: Range, c: Cell) { c.day in r.days && IncludesHour(r, c.hour) }

  ghost predicate Covered(ranges: seq<Range>, c: Cell) { exists i :: 0 <= i < |ranges| && Covers(ranges[i], c) }

  // ---- ranges to cells ----------------------------------------------------------------

  /** Adding to a set that remembers the order of first insertion. */
  function Add(cells: seq<Cell>, c: Cell): seq<Cell> { if c in cells then cells else cells + [c] }

  function AddHours(cells: seq<Cell>, day: nat, from: nat, end: nat): seq<Cell>
    decreases end - from
  {
    if from >= end then cells else AddHours(Add(cells, Cell(day, from)), day, from + 1, end)
  }

  function AddDay(cells: seq<Cell>, r: Range, day: nat): seq<Cell> {
    if r.start == r.end then AddHours(cells, day, 0, HOURS)
    else if r.start < r.end then AddHours(cells, day, r.start, r.end)
    else AddHours(AddHours(cells, day, r.start, HOURS), day, 0, r.end)
  }

  function AddDays(cells: seq<Cell>, r: Range, days: seq<nat>): seq<Cell>
    decreases |days|
  {
    if days == [] then cells else AddDays(AddDay(cells, r, days[0]), r, days[1..])
  }

  function AddRanges(cells: seq<Cell>, ranges: seq<Range>): seq<Cell>
    decreases |ranges|
  {
    if ranges == [] then cells else AddRanges(AddDays(cells, ranges[0], ranges[0].days), ranges[1..])
  }

  function CellsOf(ranges: seq<Range>): seq<Cell> { AddRanges([], ranges) }

  method FillHours(cells: seq<Cell>, day: nat, from: nat, end: nat) returns (r: seq<Cell>)
    ensures r == AddHours(cells, day, from, end)
  {
    r := cells;
    var h := from;
    while h < end
      invariant AddHours(r, day, h, end) == AddHours(cells, day, from, end)
    {
      r := Add(r, Cell(day, h));
      h := h + 1;
    }
  }

  method RangesToCells(ranges: seq<Range>) returns (cells: seq<Cell>)
    ensures cells == CellsOf(ranges)
  {
    cells := [];
    for i := 0 to |ranges|
      invariant AddRanges(cells, ranges[i..]) == CellsOf(ranges)
    {
      var r := ranges[i];
      ghost var before := cells;
      for j := 0 to |r.days|
        invariant AddDays(cells, r, r.days[j..]) == AddDays(before, r, r.days)
      {
        var day := r.days[j];
        assert r.days[j..][1..] == r.days[j + 1..];
        if r.start == r.end {
          cells := FillHours(cells, day, 0, HOURS);
        } else if r.start < r.end {
          cells := FillHours(cells, day, r.start, r.end);
        } else {
          cells := FillHours(cells, day, r.start, HOURS);
          cells := FillHours(cells, day, 0, r.end);
        }
      }
      assert ranges[i..][1..] == ranges[i + 1..];
    }
  }

  lemma {:induction false} HoursAdded(cells: seq<Cell>, day: nat, from: nat, end: nat, c: Cell)
    ensures c in AddHours(cells, day, from, end) <==> c in cells || (c.day == day && from <= c.hour < end)
    decreases end - from
  {
    if from < end { HoursAdded(Add(cells, Cell(day, from)), day, from + 1, end, c); }
  }

  lemma DayAdded(cells: seq<Cell>, r: Range, day: nat, c: Cell)
    ensures c in AddDay(cells, r, day) <==> c in cells || (c.day == day && IncludesHour(r, c.hour))
  {
    hide AddHours;
    if r.start == r.end {
      HoursAdded(cells, day, 0, HOURS, c);
    } else if r.start < r.end {
      HoursAdded(cells, day, r.start, r.end, c);
    } else {
      HoursAdded(cells, day, r.start, HOURS, c);
      HoursAdded(AddHours(cells, day, r.start, HOURS), day, 0, r.end, c);
    }
  }

  lemma {:induction false} DaysAdded(cells: seq<Cell>, r: Range, days: seq<nat>, c: Cell)
    ensures c in AddDays(cells, r, days) <==> c in cells || (c.day in days && IncludesHour(r, c.hour))
    decreases |days|
  {
    hide AddDay, IncludesHour;
    if days != [] {
      DayAdded(cells, r, days[0], c);
      DaysAdded(AddDay(cells, r, days[0]), r, days[1..], c);
      assert days == [days[0]] + days[1..];
    }
  }

  lemma {:induction false} RangesAdded(cells: seq<Cell>, ranges: seq<Range>, c: Cell)
    ensures c in AddRanges(cells, ranges) <==> c in cells || Covered(ranges, c)
    decreases |ranges|
  {
    hide AddDays, IncludesHour;
    if ranges != [] {
      var r, rest := ranges[0], ranges[1..];
      DaysAdded(cells, r, r.days, c);
      RangesAdded(AddDays(cells, r, r.days), rest, c);
      assert Covered(ranges, c) <==> Covers(r, c) || Covered(rest, c) by {
        assert forall i :: 0 <= i < |rest| ==> rest[i] == ranges[i + 1];
        if Covered(ranges, c) && !Covers(r, c) {
          var i :| 0 <= i < |ranges| && Covers(ranges[i], c);
          assert Covers(rest[i - 1], c);
        }
      }
    }
  }

  /** The cells are exactly those some range covers. */
  lemma CellsAreCovered(ranges: seq<Range>, c: Cell)
    ensures c in CellsOf(ranges) <==> Covered(ranges, c)
  {
    RangesAdded([], ranges, c);
  }

  // ---- cells to ranges ----------------------------------------------------------------

  /** The days in order of first appearance. */
  function DayOrder(cells: seq<Cell>): seq<nat> {
    if cells == [] then []
    else
      var days, day := DayOrder(cells[..|cells| - 1]), cells[|cells| - 1].day;
      if day in days then days else days + [day]
  }

  function HoursOn(cells: seq<Cell>, day: nat): seq<nat> {
    if cells == [] then []
    else
      var c := cells[|cells| - 1];
      HoursOn(cells[..|cells| - 1], day) + if c.day == day then [c.hour] else []
  }

  function InsertHour(h: nat, hours: seq<nat>): seq<nat> {
    if hours == [] || h <= hours[0] then [h] + hours else [hours[0]] + InsertHour(h, hours[1..])
  }

  function Sorted(hours: seq<nat>): seq<nat> {
    if hours == [] then [] else InsertHour(hours[0], Sorted(hours[1..]))
  }

  /** The ranges of a day whose open run is `start` to `prev` and whose later hours are `rest`. */
  function RunsFrom(day: nat, start: nat, prev: nat, rest: seq<nat>): seq<Range>
    decreases |rest|
  {
    if rest == [] then [Range([day], start, (prev + 1) % HOURS)]
    else if rest[0] == prev + 1 then RunsFrom(day, start, rest[0], rest[1..])
    else [Range([day], start, (prev + 1) % HOURS)] + RunsFrom(day, rest[0], rest[0], rest[1..])
  }

  function Runs(day: nat, hours: seq<nat>): seq<Range> {
    if hours == [] then [] else RunsFrom(day, hours[0], hours[0], hours[1..])
  }

  function RunsOfDays(cells: seq<Cell>, days: seq<nat>): seq<Range> {
    if days == [] then []
    else RunsOfDays(cells, days[..|days| - 1]) + Runs(days[|days| - 1], Sorted(HoursOn(cells, days[|days| - 1])))
  }

  function RangesOf(cells: seq<Cell>): seq<Range> { RunsOfDays(cells, DayOrder(cells)) }

  /** The hours of each day, in the order the cells come, and the days in order of first appearance. */
  method GroupByDay(cells: seq<Cell>) returns (days: seq<nat>, byDay: map<nat, seq<nat>>)
    ensures days == DayOrder(cells)
    ensures forall d :: d in days <==> d in byDay
    ensures forall d :: d in byDay ==> byDay[d] == HoursOn(cells, d)
  {
    days, byDay := [], map[];
    for i := 0 to |cells|
      invariant days == DayOrder(cells[..i])
      invariant forall d :: d in days <==> d in byDay
      invariant forall d :: (if d in byDay then byDay[d] else []) == HoursOn(cells[..i], d)
    {
      var c := cells[i];
      assert cells[..i + 1][..i] == cells[..i] && cells[..i + 1][i] == c;
      if c.day !in byDay {
        days := days + [c.day];
        byDay := byDay[c.day := []];
      }
      byDay := byDay[c.day := byDay[c.day] + [c.hour]];
    }
    assert cells[..|cells|] == cells;
  }

  /** Appends one range per contiguous block of a day's sorted hours. */
  method AppendRuns(before: seq<Range>, day: nat, hours: seq<nat>) returns (ranges: seq<Range>)
    requires hours != []
    ensures ranges == before + Runs(day, hours)
  {
    ranges := before;
    var start: nat, prev: nat := hours[0], hours[0];
    var i := 1;
    while i <= |hours|
      invariant 1 <= i <= |hours| + 1
      invariant i <= |hours| ==> ranges + RunsFrom(day, start, prev, hours[i..]) == before + Runs(day, hours)
      invariant i == |hours| + 1 ==> ranges == before + Runs(day, hours)
    {
      ghost var rest := hours[i..];
      if i < |hours| && hours[i] == prev + 1 {
        assert rest[1..] == hours[i + 1..];
        prev := hours[i];
      } else {
        var run := Range([day], start, (prev + 1) % HOURS);
        if i < |hours| {
          assert rest[1..] == hours[i + 1..];
          assert ranges + ([run] + RunsFrom(day, hours[i], hours[i], rest[1..]))
              == (ranges + [run]) + RunsFrom(day, hours[i], hours[i], rest[1..]);
          start, prev := hours[i], hours[i];
        }
        ranges := ranges + [run];
      }
      i := i + 1;
    }
  }

  /** One range per contiguous block of hours per day. */
  method CellsToRanges(cells: seq<Cell>) returns (ranges: seq<Range>)
    ensures ranges == RangesOf(cells)
  {
    hide Runs, Sorted, HoursOn, DayOrder, RunsOfDays;
    ranges := [];
    var days, byDay := GroupByDay(cells);
    assert RunsOfDays(cells, []) == [] by { NoDays(cells); }
    for k := 0 to |days|
      invariant ranges == RunsOfDays(cells, days[..k])
    {
      var day := days[k];
      SortedDay(cells, day);
      ranges := AppendRuns(ranges, day, Sorted(byDay[day]));
      OneMoreDay(cells, days, k);
    }
    assert days[..|days|] == days;
  }

  lemma NoDays(cells: seq<Cell>)
    ensures RunsOfDays(cells, []) == []
  {
  }

  lemma OneMoreDay(cells: seq<Cell>, days: seq<nat>, k: nat)
    requires k < |days|
    ensures RunsOfDays(cells, days[..k + 1])
         == RunsOfDays(cells, days[..k]) + Runs(days[k], Sorted(HoursOn(cells, days[k])))
  {
    hide Runs, Sorted, HoursOn;
    assert days[..k + 1][..k] == days[..k] && days[..k + 1][k] == days[k];
  }

  lemma SortedDay(cells: seq<Cell>, day: nat)
    requires day in DayOrder(cells)
    ensures Sorted(HoursOn(cells, day)) != []
  {
    hide Sorted, HoursOn, DayOrder;
    DayHasHours(cells, day);
    SortedMembers(HoursOn(cells, day), HoursOn(cells, day)[0]);
  }

  lemma {:induction false} DayHasHours(cells: seq<Cell>, day: nat)
    ensures day in DayOrder(cells) <==> HoursOn(cells, day) != []
  {
    if cells != [] { DayHasHours(cells[..|cells| - 1], day); }
  }

  lemma {:induction false} InsertHourMembers(h: nat, hours: seq<nat>, x: nat)
    ensures x in InsertHour(h, hours) <==> x == h || x in hours
  {
    if hours != [] && h > hours[0] {
      InsertHourMembers(h, hours[1..], x);
      assert hours == [hours[0]] + hours[1..];
    }
  }

  lemma {:induction false} SortedMembers(hours: seq<nat>, x: nat)
    ensures x in Sorted(hours) <==> x in hours
  {
    if hours != [] {
      SortedMembers(hours[1..], x);
      InsertHourMembers(hours[0], Sorted(hours[1..]), x);
      assert hours == [hours[0]] + hours[1..];
    }
  }

  // ---- the ranges are the maximal runs ------------------------------------------------

  ghost predicate Ascending(hours: seq<nat>) { forall i, j :: 0 <= i < j < |hours| ==> hours[i] < hours[j] }

  ghost predicate AllDifferent<T>(s: seq<T>) { forall i, j :: 0 <= i < j < |s| ==> s[i] != s[j] }

  ghost predicate IsGrid(cells: seq<Cell>) {
    AllDifferent(cells) && forall i :: 0 <= i < |cells| ==> cells[i].hour < HOURS
  }

  /** A block of hours of one day, all on, with the hours on both sides off (or past the day's end). */
  ghost predicate MaximalRun(r: Range, cells: seq<Cell>) {
    exists day: nat, last: nat :: IsRunTo(r, cells, day, last)
  }

  ghost predicate IsRunTo(r: Range, cells: seq<Cell>, day: nat, last: nat) {
    && r.start <= last < HOURS && r == Range([day], r.start, (last + 1) % HOURS)
    && (forall h: nat :: r.start <= h <= last ==> Cell(day, h) in cells)
    && (r.start > 0 ==> Cell(day, r.start - 1) !in cells)
    && Cell(day, last + 1) !in cells
  }

  lemma RunIncludes(start: nat, last: nat, day: nat, h: nat)
    requires start <= last < HOURS
    ensures IncludesHour(Range([day], start, (last + 1) % HOURS), h) <==> start <= h <= last
  {
  }

  lemma {:induction false} InsertAscends(h: nat, hours: seq<nat>)
    requires Ascending(hours) && h !in hours
    ensures Ascending(InsertHour(h, hours))
  {
    if hours != [] && h > hours[0] {
      InsertAscends(h, hours[1..]);
      var tail := InsertHour(h, hours[1..]);
      forall i | 0 <= i < |tail| ensures hours[0] < tail[i] {
        InsertHourMembers(h, hours[1..], tail[i]);
        assert tail[i] in tail;
      }
    }
  }

  lemma {:induction false} SortedAscends(hours: seq<nat>)
    requires AllDifferent(hours)
    ensures Ascending(Sorted(hours))
  {
    if hours != [] {
      SortedAscends(hours[1..]);
      SortedMembers(hours[1..], hours[0]);
      InsertAscends(hours[0], Sorted(hours[1..]));
    }
  }

  lemma {:induction false} HoursOnMembers(cells: seq<Cell>, day: nat, h: nat)
    ensures h in HoursOn(cells, day) <==> Cell(day, h) in cells
  {
    if cells != [] {
      var n := |cells| - 1;
      HoursOnMembers(cells[..n], day, h);
      assert cells == cells[..n] + [cells[n]];
    }
  }

  lemma {:induction false} HoursOnDistinct(cells: seq<Cell>, day: nat)
    requires IsGrid(cells)
    ensures AllDifferent(HoursOn(cells, day))
  {
    if cells != [] {
      var n := |cells| - 1;
      HoursOnDistinct(cells[..n], day);
      HoursOnMembers(cells[..n], day, cells[n].hour);
    }
  }

  lemma DayHours(cells: seq<Cell>, day: nat)
    requires IsGrid(cells)
    ensures var hours := Sorted(HoursOn(cells, day));
            Ascending(hours) && forall h: nat :: h in hours <==> Cell(day, h) in cells
  {
    HoursOnDistinct(cells, day);
    SortedAscends(HoursOn(cells, day));
    forall h: nat ensures h in Sorted(HoursOn(cells, day)) <==> Cell(day, h) in cells {
      SortedMembers(HoursOn(cells, day), h);
      HoursOnMembers(cells, day, h);
    }
  }

  /** The open run and the later hours are all the cells of the day from `start` on. */
  ghost predicate Remaining(cells: seq<Cell>, day: nat, start: nat, prev: nat, rest: seq<nat>) {
    && start <= prev < HOURS && Ascending(rest)
    && (forall i :: 0 <= i < |rest| ==> prev < rest[i] < HOURS)
    && (start > 0 ==> Cell(day, start - 1) !in cells)
    && (forall h: nat :: h >= start ==> (Cell(day, h) in cells <==> h <= prev || h in rest))
  }

  lemma NextHour(cells: seq<Cell>, day: nat, start: nat, prev: nat, rest: seq<nat>)
    requires Remaining(cells, day, start, prev, rest) && rest != []
    ensures if rest[0] == prev + 1 then Remaining(cells, day, start, rest[0], rest[1..])
            else Remaining(cells, day, rest[0], rest[0], rest[1..])
  {
    var first := rest[0];
    assert forall x :: x in rest <==> x == first || x in rest[1..];
    assert forall i :: 0 <= i < |rest| - 1 ==> rest[1..][i] == rest[i + 1];
    if first > prev + 1 {
      assert first - 1 !in rest;
    }
  }

  /** Maximal runs of one day, in order, none starting before `from`. */
  ghost predicate DayRuns(runs: seq<Range>, cells: seq<Cell>, day: nat, from: nat) {
    && (forall i :: 0 <= i < |runs| ==> MaximalRun(runs[i], cells) && runs[i].days == [day] && runs[i].start >= from)
    && (forall i, j :: 0 <= i < j < |runs| ==> runs[i].start < runs[j].start)
  }

  lemma ConsRun(first: Range, later: seq<Range>, cells: seq<Cell>, day: nat, next: nat)
    requires MaximalRun(first, cells) && first.days == [day] && first.start < next && DayRuns(later, cells, day, next)
    ensures DayRuns([first] + later, cells, day, first.start)
  {
    hide MaximalRun;
    var runs := [first] + later;
    assert forall i :: 0 < i < |runs| ==> runs[i] == later[i - 1];
  }

  lemma {:induction false} RunsAreMaximal(cells: seq<Cell>, day: nat, start: nat, prev: nat, rest: seq<nat>)
    requires Remaining(cells, day, start, prev, rest)
    ensures DayRuns(RunsFrom(day, start, prev, rest), cells, day, start)
    decreases |rest|
  {
    hide MaximalRun, Remaining, DayRuns;
    var first := Range([day], start, (prev + 1) % HOURS);
    if rest == [] {
      OpenRun(cells, day, start, prev, rest);
      NoRuns(cells, day, start + 1);
      ConsRun(first, [], cells, day, start + 1);
      assert [first] + [] == [first];
    } else {
      NextHour(cells, day, start, prev, rest);
      if rest[0] == prev + 1 {
        RunsAreMaximal(cells, day, start, rest[0], rest[1..]);
      } else {
        OpenRun(cells, day, start, prev, rest);
        LaterStart(cells, day, start, prev, rest);
        RunsAreMaximal(cells, day, rest[0], rest[0], rest[1..]);
        ConsRun(first, RunsFrom(day, rest[0], rest[0], rest[1..]), cells, day, rest[0]);
      }
    }
  }

  lemma NoRuns(cells: seq<Cell>, day: nat, from: nat)
    ensures DayRuns([], cells, day, from)
  {
  }

  lemma LaterStart(cells: seq<Cell>, day: nat, start: nat, prev: nat, rest: seq<nat>)
    requires Remaining(cells, day, start, prev, rest) && rest != []
    ensures rest[0] > start
  {
  }

  lemma OpenRun(cells: seq<Cell>, day: nat, start: nat, prev: nat, rest: seq<nat>)
    requires Remaining(cells, day, start, prev, rest) && (rest == [] || rest[0] != prev + 1)
    ensures MaximalRun(Range([day], start, (prev + 1) % HOURS), cells)
  {
    assert prev + 1 !in rest;
    assert IsRunTo(Range([day], start, (prev + 1) % HOURS), cells, day, prev);
  }

  lemma {:induction false} RunsCover(cells: seq<Cell>, day: nat, start: nat, prev: nat, rest: seq<nat>, c: Cell)
    requires Remaining(cells, day, start, prev, rest)
    ensures Covered(RunsFrom(day, start, prev, rest), c) <==> c.day == day && c.hour >= start && c in cells
    decreases |rest|
  {
    hide IncludesHour, Covered;
    var first := Range([day], start, (prev + 1) % HOURS);
    RunIncludes(start, prev, day, c.hour);
    OneRange(first, c);
    if rest != [] {
      NextHour(cells, day, start, prev, rest);
      if rest[0] == prev + 1 {
        RunsCover(cells, day, start, rest[0], rest[1..], c);
      } else {
        RunsCover(cells, day, rest[0], rest[0], rest[1..], c);
        CoveredJoin([first], RunsFrom(day, rest[0], rest[0], rest[1..]), c);
      }
    }
  }

  lemma OneRange(r: Range, c: Cell)
    ensures Covered([r], c) <==> Covers(r, c)
  {
    hide IncludesHour;
    if Covers(r, c) { assert Covers([r][0], c); }
  }

  lemma CoveredJoin(a: seq<Range>, b: seq<Range>, c: Cell)
    ensures Covered(a + b, c) <==> Covered(a, c) || Covered(b, c)
  {
    hide Covers;
    if Covered(a, c) {
      var i :| 0 <= i < |a| && Covers(a[i], c);
      assert Covers((a + b)[i], c);
    }
    if Covered(b, c) {
      var i :| 0 <= i < |b| && Covers(b[i], c);
      assert Covers((a + b)[|a| + i], c);
    }
  }

  // ---- the whole week -----------------------------------------------------------------

  lemma OpensDay(cells: seq<Cell>, day: nat)
    requires IsGrid(cells) && day in DayOrder(cells)
    ensures var hours := Sorted(HoursOn(cells, day));
            && hours != [] && Remaining(cells, day, hours[0], hours[0], hours[1..])
            && forall h: nat :: Cell(day, h) in cells ==> h >= hours[0]
  {
    hide Sorted, HoursOn, DayOrder;
    var hours := Sorted(HoursOn(cells, day));
    DayHasHours(cells, day);
    SortedMembers(HoursOn(cells, day), HoursOn(cells, day)[0]);
    DayHours(cells, day);
    forall i | 0 <= i < |hours| ensures hours[i] < HOURS {
      assert hours[i] in hours && Cell(day, hours[i]) in cells;
    }
    assert forall x :: x in hours <==> x == hours[0] || x in hours[1..];
    assert forall i :: 0 <= i < |hours| - 1 ==> hours[1..][i] == hours[i + 1];
    if hours[0] > 0 { assert hours[0] - 1 !in hours; }
  }

  lemma DayOfRanges(cells: seq<Cell>, day: nat, c: Cell)
    requires IsGrid(cells) && day in DayOrder(cells)
    ensures var runs := Runs(day, Sorted(HoursOn(cells, day)));
            DayRuns(runs, cells, day, 0) && (Covered(runs, c) <==> c.day == day && c in cells)
  {
    hide Sorted, HoursOn, DayOrder, Remaining, RunsFrom, Covered, MaximalRun;
    var hours := Sorted(HoursOn(cells, day));
    OpensDay(cells, day);
    RunsAreMaximal(cells, day, hours[0], hours[0], hours[1..]);
    RunsCover(cells, day, hours[0], hours[0], hours[1..], c);
  }

  ghost predicate WeekRuns(runs: seq<Range>, cells: seq<Cell>, days: seq<nat>) {
    && (forall i :: 0 <= i < |runs| ==> MaximalRun(runs[i], cells) && |runs[i].days| == 1 && runs[i].days[0] in days)
    && AllDifferent(runs)
  }

  lemma JoinDays(a: seq<Range>, b: seq<Range>, cells: seq<Cell>, days: seq<nat>, day: nat)
    requires WeekRuns(a, cells, days) && DayRuns(b, cells, day, 0) && day !in days
    ensures WeekRuns(a + b, cells, days + [day])
  {
    hide MaximalRun;
    var runs := a + b;
    forall i, j | 0 <= i < j < |runs| ensures runs[i] != runs[j] {
      if i < |a| <= j {
        assert runs[i].days[0] in days && runs[j].days == [day];
      }
    }
  }

  lemma {:induction false} WeekOfRanges(cells: seq<Cell>, days: seq<nat>, c: Cell)
    requires IsGrid(cells) && AllDifferent(days) && forall i :: 0 <= i < |days| ==> days[i] in DayOrder(cells)
    ensures WeekRuns(RunsOfDays(cells, days), cells, days)
    ensures Covered(RunsOfDays(cells, days), c) <==> c.day in days && c in cells
    decreases |days|
  {
    hide Runs, Sorted, HoursOn, Covered, IsGrid, DayRuns, WeekRuns, DayOrder;
    if days == [] {
      NoWeek(cells, c);
    } else {
      var n := |days| - 1;
      var day := days[n];
      assert days == days[..n] + [day];
      WeekOfRanges(cells, days[..n], c);
      DayOfRanges(cells, day, c);
      var runs := Runs(day, Sorted(HoursOn(cells, day)));
      JoinDays(RunsOfDays(cells, days[..n]), runs, cells, days[..n], day);
      CoveredJoin(RunsOfDays(cells, days[..n]), runs, c);
    }
  }

  lemma NoWeek(cells: seq<Cell>, c: Cell)
    ensures WeekRuns([], cells, []) && !Covered([], c)
  {
  }

  lemma {:induction false} DayOrderDistinct(cells: seq<Cell>)
    ensures AllDifferent(DayOrder(cells))
  {
    if cells != [] { DayOrderDistinct(cells[..|cells| - 1]); }
  }

  /** The ranges read back denote exactly the cells. */
  lemma RangesDenoteCells(cells: seq<Cell>, c: Cell)
    requires IsGrid(cells)
    ensures Covered(RangesOf(cells), c) <==> c in cells
  {
    hide RunsOfDays, HoursOn, Covered;
    DayOrderDistinct(cells);
    WeekOfRanges(cells, DayOrder(cells), c);
    if c in cells {
      HoursOnMembers(cells, c.day, c.hour);
      DayHasHours(cells, c.day);
    }
  }

  /** Two maximal runs that share a cell are the same. */
  lemma MaximalRunsMeet(r: Range, s: Range, cells: seq<Cell>, c: Cell)
    requires MaximalRun(r, cells) && MaximalRun(s, cells) && Covers(r, c) && Covers(s, c)
    ensures r == s
  {
    hide IncludesHour;
    var d: nat, p: nat :| IsRunTo(r, cells, d, p);
    var e: nat, q: nat :| IsRunTo(s, cells, e, q);
    RunIncludes(r.start, p, d, c.hour);
    RunIncludes(s.start, q, e, c.hour);
    assert d == e == c.day;
  }

  /** The ranges read back are the maximal runs of the grid: every one of them, each once, and nothing else. */
  lemma RangesAreMaximalRuns(cells: seq<Cell>, r: Range)
    requires IsGrid(cells)
    ensures r in RangesOf(cells) <==> MaximalRun(r, cells)
    ensures AllDifferent(RangesOf(cells))
  {
    hide RunsOfDays, IncludesHour, MaximalRun, IsGrid, DayOrder;
    var ranges := RangesOf(cells);
    DayOrderDistinct(cells);
    WeekOfRanges(cells, DayOrder(cells), Cell(0, 0));
    if MaximalRun(r, cells) {
      var c := FirstCell(r, cells);
      RangesDenoteCells(cells, c);
      var i :| 0 <= i < |ranges| && Covers(ranges[i], c);
      MaximalRunsMeet(r, ranges[i], cells, c);
    }
  }

  lemma FirstCell(r: Range, cells: seq<Cell>) returns (c: Cell)
    requires MaximalRun(r, cells)
    ensures c in cells && Covers(r, c)
  {
    var day: nat, last: nat :| IsRunTo(r, cells, day, last);
    RunIncludes(r.start, last, day, r.start);
    c := Cell(day, r.start);
  }

  // ---- round trips --------------------------------------------------------------------

  lemma {:induction false} HoursStayDistinct(cells: seq<Cell>, day: nat, from: nat, end: nat)
    requires AllDifferent(cells)
    ensures AllDifferent(AddHours(cells, day, from, end))
    decreases end - from
  {
    if from < end { HoursStayDistinct(Add(cells, Cell(day, from)), day, from + 1, end); }
  }

  lemma {:induction false} DaysStayDistinct(cells: seq<Cell>, r: Range, days: seq<nat>)
    requires AllDifferent(cells)
    ensures AllDifferent(AddDays(cells, r, days))
    decreases |days|
  {
    if days != [] {
      hide AddHours;
      HoursStayDistinct(cells, days[0], 0, HOURS);
      HoursStayDistinct(cells, days[0], r.start, r.end);
      HoursStayDistinct(cells, days[0], r.start, HOURS);
      HoursStayDistinct(AddHours(cells, days[0], r.start, HOURS), days[0], 0, r.end);
      DaysStayDistinct(AddDay(cells, r, days[0]), r, days[1..]);
    }
  }

  lemma {:induction false} RangesStayDistinct(cells: seq<Cell>, ranges: seq<Range>)
    requires AllDifferent(cells)
    ensures AllDifferent(AddRanges(cells, ranges))
    decreases |ranges|
  {
    if ranges != [] {
      DaysStayDistinct(cells, ranges[0], ranges[0].days);
      RangesStayDistinct(AddDays(cells, ranges[0], ranges[0].days), ranges[1..]);
    }
  }

  /** A range whose hours are all on the clock. */
  predicate OnClock(r: Range) { r.days == [] || r.start == r.end || r.end <= HOURS }

  lemma CellsDistinct(ranges: seq<Range>)
    ensures AllDifferent(CellsOf(ranges))
  {
    RangesStayDistinct([], ranges);
  }

  lemma CellsMakeGrid(ranges: seq<Range>)
    ensures IsGrid(CellsOf(ranges)) <==> forall i :: 0 <= i < |ranges| ==> OnClock(ranges[i])
  {
    hide CellsOf;
    var cells := CellsOf(ranges);
    CellsDistinct(ranges);
    if i :| 0 <= i < |ranges| && !OnClock(ranges[i]) {
      var r := ranges[i];
      var c := Cell(r.days[0], r.end - 1);
      assert Covers(r, c);
      CellsAreCovered(ranges, c);
      assert !IsGrid(cells);
    } else {
      forall c | c in cells ensures c.hour < HOURS {
        CellsAreCovered(ranges, c);
        var i :| 0 <= i < |ranges| && Covers(ranges[i], c);
        assert OnClock(ranges[i]);
      }
      assert forall i :: 0 <= i < |cells| ==> cells[i] in cells;
    }
  }

  /** Drawing the ranges read from a grid switches on exactly the grid's cells. */
  lemma CellsRoundTrip(cells: seq<Cell>, c: Cell)
    requires IsGrid(cells)
    ensures c in CellsOf(RangesOf(cells)) <==> c in cells
  {
    CellsAreCovered(RangesOf(cells), c);
    RangesDenoteCells(cells, c);
  }

  lemma {:induction false} RunsEndOnClock(day: nat, start: nat, prev: nat, rest: seq<nat>)
    ensures forall i :: 0 <= i < |RunsFrom(day, start, prev, rest)| ==> RunsFrom(day, start, prev, rest)[i].end < HOURS
    decreases |rest|
  {
    if rest != [] { RunsEndOnClock(day, if rest[0] == prev + 1 then start else rest[0], rest[0], rest[1..]); }
  }

  lemma {:induction false} WeekEndsOnClock(cells: seq<Cell>, days: seq<nat>)
    ensures forall i :: 0 <= i < |RunsOfDays(cells, days)| ==> RunsOfDays(cells, days)[i].end < HOURS
    decreases |days|
  {
    hide RunsFrom, Sorted, HoursOn;
    if days != [] {
      WeekEndsOnClock(cells, days[..|days| - 1]);
      var hours := Sorted(HoursOn(cells, days[|days| - 1]));
      if hours != [] { RunsEndOnClock(days[|days| - 1], hours[0], hours[0], hours[1..]); }
    }
  }

  /**
   * Reading back the cells a list of ranges switches on keeps every hour, wrapping and whole-day
   * ranges included, exactly when every range is on the clock.
   */
  lemma RangesRoundTripExactlyWhen(ranges: seq<Range>)
    ensures (forall c :: Covered(RangesOf(CellsOf(ranges)), c) <==> Covered(ranges, c)) <==>
            forall i :: 0 <= i < |ranges| ==> OnClock(ranges[i])
  {
    hide CellsOf, RangesOf;
    var out := RangesOf(CellsOf(ranges));
    CellsMakeGrid(ranges);
    if i :| 0 <= i < |ranges| && !OnClock(ranges[i]) {
      var c := Cell(ranges[i].days[0], ranges[i].end - 1);
      assert Covers(ranges[i], c) && Covered(ranges, c);
      NothingPastMidnight(CellsOf(ranges), c);
      assert !(Covered(out, c) <==> Covered(ranges, c));
    } else {
      forall c ensures Covered(out, c) <==> Covered(ranges, c) {
        CellsAreCovered(ranges, c);
        RangesDenoteCells(CellsOf(ranges), c);
      }
    }
  }

  lemma NothingPastMidnight(cells: seq<Cell>, c: Cell)
    requires c.hour >= HOURS
    ensures !Covered(RangesOf(cells), c)
  {
    WeekEndsOnClock(cells, DayOrder(cells));
  }

  /** Opening a schedule that was read from the grid and saving it again gives the same ranges. */
  lemma SavedAgain(cells: seq<Cell>, r: Range)
    requires IsGrid(cells)
    ensures r in RangesOf(CellsOf(RangesOf(cells))) <==> r in RangesOf(cells)
  {
    hide CellsOf, RangesOf, MaximalRun;
    var again := CellsOf(RangesOf(cells));
    forall c ensures c in again <==> c in cells { CellsRoundTrip(cells, c); }
    CellsDistinct(RangesOf(cells));
    forall i | 0 <= i < |again| ensures again[i].hour < HOURS { assert again[i] in cells; }
    RangesAreMaximalRuns(cells, r);
    RangesAreMaximalRuns(again, r);
    SameRuns(cells, again, r);
  }

  lemma SameRuns(cells: seq<Cell>, again: seq<Cell>, r: Range)
    requires forall c :: c in again <==> c in cells
    ensures MaximalRun(r, again) <==> MaximalRun(r, cells)
  {
    if MaximalRun(r, cells) {
      var day: nat, last: nat :| IsRunTo(r, cells, day, last);
      assert IsRunTo(r, again, day, last);
    }
    if MaximalRun(r, again) {
      var day: nat, last: nat :| IsRunTo(r, again, day, last);
      assert IsRunTo(r, cells, day, last);
    }
  }

  /** What the daemon's configuration check lets a range be. */
  predicate Validated(r: Range) { r.start <= 23 && r.end <= 23 && forall i :: 0 <= i < |r.days| ==> r.days[i] <= 6 }

  /** Every schedule the daemon accepts comes back from the grid with exactly its hours. */
  lemma ValidatedRangesRoundTrip(ranges: seq<Range>, c: Cell)
    requires forall i :: 0 <= i < |ranges| ==> Validated(ranges[i])
    ensures Covered(RangesOf(CellsOf(ranges)), c) <==> Covered(ranges, c)
  {
    hide CellsOf, RangesOf, Covered;
    assert forall i :: 0 <= i < |ranges| ==> OnClock(ranges[i]);
    RangesRoundTripExactlyWhen(ranges);
  }

  /** A range the daemon refuses, 20 to 26, switches on an hour that does not come back. */
  lemma PastMidnightIsLost()
    ensures var ranges, c := [Range([0], 20, 26)], Cell(0, 25);
            !Validated(ranges[0]) && c in CellsOf(ranges) && !Covered(RangesOf(CellsOf(ranges)), c)
  {
    hide CellsOf, RangesOf;
    var ranges, c := [Range([0], 20, 26)], Cell(0, 25);
    assert Covers(ranges[0], c);
    CellsAreCovered(ranges, c);
    NothingPastMidnight(CellsOf(ranges), c);
  }
}
