/**
 * The user profile calendar of the client: one year laid out as twelve months
 * of Monday-first weeks, with the user's registered days merged into the cells
 * (client/src/app/user-profile/user-profile.component.ts).
 */
module UserProfile {
  import opened Wrappers
  import opened Calendar
  import opened DateText
  import opened Models

  /** One calendar cell: the date it shows and the level registered for it, if any. */
  datatype Day = Day(level: Option<int>, date: Date)

  /** Seven slots, Monday first; `None` is a slot outside the month. */
  datatype Week = Week(days: seq<Option<Day>>)

  datatype Month = Month(name: string, weeks: seq<Week>)

  const MonthNames: seq<string> := [
    "Janvier", "Février", "Mars", "Avril", "Mai", "Juin",
    "Juillet", "Août", "Septembre", "Octobre", "Novembre", "Décembre"
  ]

  const EmptyWeek: Week := Week([None, None, None, None, None, None, None])

  /**
   * `isSameDate`: both absent, or both present with the same day, month and
   * year. On triples this is plain equality, hence reflexive and symmetric.
   */
  function IsSameDate(a: Option<Date>, b: Option<Date>): (r: bool)
    ensures r <==> a == b
  {
    if a.None? && b.None? then true
    else if a.None? || b.None? then false
    else if a.value.day != b.value.day then false
    else if a.value.month != b.value.month then false
    else a.value.year == b.value.year
  }

  // ---------------------------------------------------------------------------
  // Geometry of a month

  /** Column (Monday = 0) of the first day of month `m`. */
  function FirstColumn(y: int, m: int): (c: int)
    requires 1 <= m <= 12
    ensures 0 <= c < 7
  {
    MondayIndex(Date(y, m, 1))
  }

  /** Number of weeks the month spans. */
  function WeekCount(y: int, m: int): int
    requires 1 <= m <= 12
  {
    (FirstColumn(y, m) + DaysInMonth(y, m) - 1) / 7 + 1
  }

  /** Day of the month shown in week `w`, column `c` (outside 1..DaysInMonth for padding slots). */
  function DayAt(y: int, m: int, w: int, c: int): int
    requires 1 <= m <= 12
  {
    7 * w + c - FirstColumn(y, m) + 1
  }

  /** Week and column at which day `d` of the month is shown. */
  function SlotOf(y: int, m: int, d: int): (wc: (int, int))
    requires 1 <= m <= 12
  {
    ((FirstColumn(y, m) + d - 1) / 7, (FirstColumn(y, m) + d - 1) % 7)
  }

  /** A slot that should show day `d`: present with that date when `d` is in the month, empty otherwise. */
  predicate CellHolds(cell: Option<Day>, y: int, m: int, d: int)
    requires 1 <= m <= 12
  {
    if 1 <= d <= DaysInMonth(y, m) then cell.Some? && cell.value.date == Date(y, m, d)
    else cell.None?
  }

  /** The month is named, sized and laid out as the calendar dictates. */
  ghost predicate MonthLayout(y: int, m: int, mo: Month)
    requires 1 <= m <= 12
  {
    && mo.name == MonthNames[m - 1]
    && |mo.weeks| == WeekCount(y, m)
    && (forall w :: 0 <= w < |mo.weeks| ==> |mo.weeks[w].days| == 7)
    && (forall w, c :: 0 <= w < |mo.weeks| && 0 <= c < |mo.weeks[w].days| ==>
          CellHolds(mo.weeks[w].days[c], y, m, DayAt(y, m, w, c)))
  }

  // ---------------------------------------------------------------------------
  // Levels

  /** The level registered for date `d`: the first record with that date. */
  function LevelOf(days: seq<RegisteredDay>, d: Date): (r: Option<int>)
    ensures r.None? <==> forall k :: 0 <= k < |days| ==> days[k].date != d
    ensures r.Some? ==> exists k :: 0 <= k < |days| && days[k].date == d && days[k].level == r.value
  {
    if |days| == 0 then None
    else if days[0].date == d then Some(days[0].level)
    else LevelOf(days[1..], d)
  }

  /** A level shown in a cell was registered for that cell's date. */
  ghost predicate FromInput(days: seq<RegisteredDay>, cell: Option<Day>) {
    cell.Some? && cell.value.level.Some? ==>
      exists k :: 0 <= k < |days| && days[k].date == cell.value.date && days[k].level == cell.value.level.value
  }

  /** A cell shows exactly the level registered for its date, and none when there is none. */
  predicate Exact(days: seq<RegisteredDay>, cell: Option<Day>) {
    cell.Some? ==> cell.value.level == LevelOf(days, cell.value.date)
  }

  ghost predicate LevelsFromInput(days: seq<RegisteredDay>, mo: Month) {
    forall w, c :: 0 <= w < |mo.weeks| && 0 <= c < |mo.weeks[w].days| ==> FromInput(days, mo.weeks[w].days[c])
  }

  ghost predicate LevelsExact(days: seq<RegisteredDay>, mo: Month) {
    forall w, c :: 0 <= w < |mo.weeks| && 0 <= c < |mo.weeks[w].days| ==> Exact(days, mo.weeks[w].days[c])
  }

  /** Dates strictly increasing, as `order by date` over a (user, date)-unique table delivers them. */
  ghost predicate StrictlyAscending(days: seq<RegisteredDay>) {
    forall i, j :: 0 <= i < j < |days| ==> DateLess(days[i].date, days[j].date)
  }

  /** What `get_user_days` promises for `year`: strictly ascending valid dates of that year. */
  ghost predicate AscendingInYear(year: int, days: seq<RegisteredDay>) {
    && StrictlyAscending(days)
    && (forall k :: 0 <= k < |days| ==> ValidDate(days[k].date) && days[k].date.year == year)
  }

  /** The read pointer `r` separates the records dated before `d` from the others. */
  ghost predicate SplitAt(days: seq<RegisteredDay>, r: int, d: Date)
    requires 0 <= r <= |days|
  {
    && (forall k :: 0 <= k < r ==> DateLess(days[k].date, d))
    && (forall k :: r <= k < |days| ==> !DateLess(days[k].date, d))
  }

  /** With strictly ascending dates, a record's level is the level of its date. */
  lemma LevelOfUnique(days: seq<RegisteredDay>, k: int)
    requires StrictlyAscending(days)
    requires 0 <= k < |days|
    ensures LevelOf(days, days[k].date) == Some(days[k].level)
  {
    var r := LevelOf(days, days[k].date);
    assert forall i :: 0 <= i < |days| && i != k ==> days[i].date != days[k].date by {
      forall i | 0 <= i < |days| && i != k
        ensures days[i].date != days[k].date
      {
        if i < k {
          assert DateLess(days[i].date, days[k].date);
        } else {
          assert DateLess(days[k].date, days[i].date);
        }
      }
    }
  }

  /** The merge step when the record under the pointer is today's: take it and move on. */
  lemma AdvanceOnMatch(days: seq<RegisteredDay>, r: int, d: Date)
    requires StrictlyAscending(days)
    requires 0 <= r < |days| && days[r].date == d
    requires SplitAt(days, r, d)
    ensures SplitAt(days, r + 1, Date(d.year, d.month, d.day + 1))
    ensures LevelOf(days, d) == Some(days[r].level)
  {
    LevelOfUnique(days, r);
    forall k | r < k < |days|
      ensures !DateLess(days[k].date, Date(d.year, d.month, d.day + 1))
    {
      assert DateLess(days[r].date, days[k].date);
    }
  }

  /** The merge step when the record under the pointer is not today's: nothing is registered today. */
  lemma AdvanceOnMiss(days: seq<RegisteredDay>, r: int, d: Date)
    requires StrictlyAscending(days)
    requires 0 <= r <= |days| && (r < |days| ==> days[r].date != d)
    requires SplitAt(days, r, d)
    ensures SplitAt(days, r, Date(d.year, d.month, d.day + 1))
    ensures LevelOf(days, d) == None
  {
    forall k | r <= k < |days|
      ensures days[k].date != d && !DateLess(days[k].date, Date(d.year, d.month, d.day + 1))
    {
      if k > r {
        assert DateLess(days[r].date, days[k].date);
      }
    }
  }

  /** Past the last day of a month, the pointer splits at the first day of the next month. */
  lemma MonthBoundary(year: int, m: int, days: seq<RegisteredDay>, r: int)
    requires 1 <= m <= 12
    requires AscendingInYear(year, days)
    requires 0 <= r <= |days|
    requires SplitAt(days, r, Date(year, m, DaysInMonth(year, m) + 1))
    ensures SplitAt(days, r, Date(year, m + 1, 1))
  {
  }

  /** Past December every record of the year has been consumed. */
  lemma PointerAtEnd(year: int, days: seq<RegisteredDay>, r: int)
    requires AscendingInYear(year, days)
    requires 0 <= r <= |days|
    requires SplitAt(days, r, Date(year, 13, 1))
    ensures r == |days|
  {
    if r < |days| {
      assert DateLess(days[r].date, Date(year, 13, 1));
    }
  }

  // ---------------------------------------------------------------------------
  // Grid construction

  /**
   * Position arithmetic of one step of the inner loop: with `n` weeks covering
   * the first `j` days, day `j + 1` goes to column `(f + j) % 7` of the last
   * week, after opening a new one exactly when that column is Monday's and
   * `j` is not 0.
   */
  lemma WeekStep(f: int, j: int, n: int, weekDay: int)
    requires 0 <= f < 7 && 0 <= j
    requires weekDay == (f + j) % 7
    requires j == 0 ==> n == 1
    requires j > 0 ==> 7 * (n - 1) <= f + j - 1 < 7 * n
    ensures j != 0 && weekDay == 0 ==> 7 * n == f + j
    ensures var n' := if j != 0 && weekDay == 0 then n + 1 else n;
      7 * (n' - 1) + weekDay == f + j && 7 * (n' - 1) <= f + j < 7 * n'
  {
    var q := (f + j) / 7;
    assert f + j == 7 * q + weekDay;
  }

  /** The week count is the quotient that the loop's bounds pin down. */
  lemma WeekCountFromBounds(y: int, m: int, n: int)
    requires 1 <= m <= 12
    requires 7 * (n - 1) <= FirstColumn(y, m) + DaysInMonth(y, m) - 1 < 7 * n
    ensures n == WeekCount(y, m)
  {
    var x := FirstColumn(y, m) + DaysInMonth(y, m) - 1;
    assert x == 7 * (x / 7) + x % 7;
  }

  /** The weeks of month `m`: seven slots each, each slot showing the day the layout dictates. */
  ghost predicate WeeksLaidOut(days: seq<RegisteredDay>, y: int, m: int, weeks: seq<Week>)
    requires 1 <= m <= 12
  {
    && |weeks| == WeekCount(y, m)
    && (forall w :: 0 <= w < |weeks| ==> |weeks[w].days| == 7)
    && (forall w, c :: 0 <= w < |weeks| && 0 <= c < |weeks[w].days| ==>
          CellHolds(weeks[w].days[c], y, m, DayAt(y, m, w, c)) && FromInput(days, weeks[w].days[c]))
  }

  ghost predicate WeeksExact(days: seq<RegisteredDay>, weeks: seq<Week>) {
    forall w, c :: 0 <= w < |weeks| && 0 <= c < |weeks[w].days| ==> Exact(days, weeks[w].days[c])
  }

  /** A slot after `j` days of the month have been visited. */
  ghost predicate CellSoFar(days: seq<RegisteredDay>, aligned: bool, cell: Option<Day>, y: int, m: int, d: int, j: int)
    requires 1 <= m <= 12
  {
    && (if 1 <= d <= j then cell.Some? && cell.value.date == Date(y, m, d) else cell.None?)
    && FromInput(days, cell)
    && (aligned ==> Exact(days, cell))
  }

  /** The weeks built after `j` days of the month have been visited. */
  ghost predicate WeeksSoFar(days: seq<RegisteredDay>, aligned: bool, weeks: seq<Week>, y: int, m: int, j: int)
    requires 1 <= m <= 12
  {
    && (forall w :: 0 <= w < |weeks| ==> |weeks[w].days| == 7)
    && (forall w, c :: 0 <= w < |weeks| && 0 <= c < |weeks[w].days| ==>
          CellSoFar(days, aligned, weeks[w].days[c], y, m, DayAt(y, m, w, c), j))
  }

  /** Appending an empty week at a Monday keeps every slot of the new week empty. */
  lemma OpenWeek(days: seq<RegisteredDay>, aligned: bool, weeks: seq<Week>, y: int, m: int, j: int)
    requires 1 <= m <= 12 && 0 <= j
    requires WeeksSoFar(days, aligned, weeks, y, m, j)
    requires 7 * |weeks| == FirstColumn(y, m) + j
    ensures WeeksSoFar(days, aligned, weeks + [EmptyWeek], y, m, j)
  {
    var weeks' := weeks + [EmptyWeek];
    forall w, c | 0 <= w < |weeks'| && 0 <= c < |weeks'[w].days|
      ensures CellSoFar(days, aligned, weeks'[w].days[c], y, m, DayAt(y, m, w, c), j)
    {
      if w < |weeks| {
        assert weeks'[w] == weeks[w];
      }
    }
  }

  /** Filling the slot of day `j + 1` extends the visited part by one day. */
  lemma PlaceDay(days: seq<RegisteredDay>, aligned: bool, weeks: seq<Week>, y: int, m: int, j: int,
                 current: int, weekDay: int, cell: Option<Day>)
    requires 1 <= m <= 12 && 0 <= j
    requires WeeksSoFar(days, aligned, weeks, y, m, j)
    requires 0 <= current < |weeks| && 0 <= weekDay < 7
    requires DayAt(y, m, current, weekDay) == j + 1
    requires cell.Some? && cell.value.date == Date(y, m, j + 1)
    requires FromInput(days, cell) && (aligned ==> Exact(days, cell))
    ensures WeeksSoFar(days, aligned, weeks[current := Week(weeks[current].days[weekDay := cell])], y, m, j + 1)
  {
    var weeks' := weeks[current := Week(weeks[current].days[weekDay := cell])];
    forall w, c | 0 <= w < |weeks'| && 0 <= c < |weeks'[w].days|
      ensures CellSoFar(days, aligned, weeks'[w].days[c], y, m, DayAt(y, m, w, c), j + 1)
    {
      if w == current && c == weekDay {
      } else {
        assert weeks'[w].days[c] == weeks[w].days[c];
        assert DayAt(y, m, w, c) != j + 1;
      }
    }
  }

  /**
   * One iteration of the inner loop on the weeks: open a new week when day
   * `j + 1` is a Monday other than the 1st, then fill the day's slot in the
   * last week.
   */
  lemma VisitDay(days: seq<RegisteredDay>, aligned: bool, weeks: seq<Week>, grown: seq<Week>, y: int, m: int, j: int,
                 weekDay: int, cell: Option<Day>)
    requires 1 <= m <= 12 && 0 <= j
    requires WeeksSoFar(days, aligned, weeks, y, m, j)
    requires j == 0 ==> |weeks| == 1
    requires j > 0 ==> 7 * (|weeks| - 1) <= FirstColumn(y, m) + j - 1 < 7 * |weeks|
    requires weekDay == MondayIndex(Date(y, m, j + 1))
    requires grown == if j != 0 && weekDay == 0 then weeks + [EmptyWeek] else weeks
    requires cell.Some? && cell.value.date == Date(y, m, j + 1)
    requires FromInput(days, cell) && (aligned ==> Exact(days, cell))
    ensures |grown| > 0
    ensures WeeksSoFar(days, aligned, grown[|grown| - 1 := Week(grown[|grown| - 1].days[weekDay := cell])], y, m, j + 1)
    ensures 7 * (|grown| - 1) <= FirstColumn(y, m) + j < 7 * |grown|
  {
    var f := FirstColumn(y, m);
    ColumnOfDay(y, m, j + 1);
    WeekStep(f, j, |weeks|, weekDay);
    if j != 0 && weekDay == 0 {
      OpenWeek(days, aligned, weeks, y, m, j);
    }
    PlaceDay(days, aligned, grown, y, m, j, |grown| - 1, weekDay, cell);
  }

  /** Once every day of the month is visited, each slot holds what the layout dictates. */
  lemma FinishMonth(days: seq<RegisteredDay>, aligned: bool, weeks: seq<Week>, y: int, m: int)
    requires 1 <= m <= 12
    requires WeeksSoFar(days, aligned, weeks, y, m, DaysInMonth(y, m))
    requires |weeks| == WeekCount(y, m)
    ensures WeeksLaidOut(days, y, m, weeks)
    ensures aligned ==> WeeksExact(days, weeks)
  {
  }

  /**
   * Lines 119-131 for one date: when the record under the read pointer is
   * dated today, the cell takes its level and the pointer moves past it;
   * otherwise the cell shows no level and the pointer stays.
   */
  method ReadDay(days: seq<RegisteredDay>, readIndex: nat, date: Date, ghost aligned: bool) returns (cell: Option<Day>, next: nat)
    requires readIndex <= |days|
    requires aligned ==> StrictlyAscending(days) && SplitAt(days, readIndex, date)
    ensures next == readIndex || next == readIndex + 1
    ensures next <= |days|
    ensures cell.Some? && cell.value.date == date && FromInput(days, cell)
    ensures aligned ==> Exact(days, cell) && SplitAt(days, next, Date(date.year, date.month, date.day + 1))
  {
    if readIndex < |days| && IsSameDate(Some(date), Some(days[readIndex].date)) {
      cell := Some(Day(Some(days[readIndex].level), date));
      if aligned {
        AdvanceOnMatch(days, readIndex, date);
      }
      next := readIndex + 1;
    } else {
      cell := Some(Day(None, date));
      if aligned {
        AdvanceOnMiss(days, readIndex, date);
      }
      next := readIndex;
    }
  }

  /**
   * Lines 97-132 for one month `m`: visit its days in order, open a new week at
   * every Monday but the 1st, and fill the slot of the day's weekday, taking the
   * level of the record under the read pointer when its date is today's.
   */
  method LayOutMonth(year: int, m: int, days: seq<RegisteredDay>, start: nat) returns (weeks: seq<Week>, readIndex: nat)
    requires 1 <= m <= 12
    requires start <= |days|
    ensures start <= readIndex <= |days|
    ensures readIndex - start <= DaysInMonth(year, m)
    ensures WeeksLaidOut(days, year, m, weeks)
    ensures AscendingInYear(year, days) && SplitAt(days, start, Date(year, m, 1)) ==>
      SplitAt(days, readIndex, Date(year, m + 1, 1)) && WeeksExact(days, weeks)
  {
    var dayCount := DaysInMonth(year, m);
    weeks := [EmptyWeek];
    readIndex := start;
    ghost var f := FirstColumn(year, m);
    ghost var aligned := AscendingInYear(year, days) && SplitAt(days, start, Date(year, m, 1));
    for j := 0 to dayCount
      invariant start <= readIndex <= |days| && readIndex - start <= j
      invariant j == 0 ==> |weeks| == 1
      invariant j > 0 ==> 7 * (|weeks| - 1) <= f + j - 1 < 7 * |weeks|
      invariant WeeksSoFar(days, aligned, weeks, year, m, j)
      invariant aligned ==> SplitAt(days, readIndex, Date(year, m, j + 1))
    {
      var date := Date(year, m, j + 1);
      var weekDay := MondayIndex(date);
      var cell;
      cell, readIndex := ReadDay(days, readIndex, date, aligned);
      ghost var before := weeks;
      if j != 0 && weekDay == 0 {
        weeks := weeks + [EmptyWeek];
      }
      VisitDay(days, aligned, before, weeks, year, m, j, weekDay, cell);
      weeks := weeks[|weeks| - 1 := Week(weeks[|weeks| - 1].days[weekDay := cell])];
    }
    WeekCountFromBounds(year, m, |weeks|);
    FinishMonth(days, aligned, weeks, year, m);
    if aligned {
      MonthBoundary(year, m, days, readIndex);
    }
  }

  /** Month `k` (0-based) of the grid, once built. */
  ghost predicate MonthDone(year: int, days: seq<RegisteredDay>, ordered: bool, k: int, mo: Month)
    requires 0 <= k < 12
  {
    MonthLayout(year, k + 1, mo) && LevelsFromInput(days, mo) && (ordered ==> LevelsExact(days, mo))
  }

  /** The weeks `LayOutMonth` builds for month `k + 1`, under the month's name, complete month `k`. */
  lemma PackMonth(year: int, days: seq<RegisteredDay>, ordered: bool, k: int, weeks: seq<Week>)
    requires 0 <= k < 12
    requires WeeksLaidOut(days, year, k + 1, weeks)
    requires ordered ==> WeeksExact(days, weeks)
    ensures MonthDone(year, days, ordered, k, Month(MonthNames[k], weeks))
  {
  }

  /**
   * Lines 92-133: lay out the twelve months of `year`, threading one read
   * pointer through the registered days.
   */
  method BuildMonths(year: int, days: seq<RegisteredDay>) returns (months: seq<Month>, readIndex: nat)
    ensures |months| == 12
    ensures forall i :: 0 <= i < 12 ==> MonthLayout(year, i + 1, months[i])
    ensures forall i :: 0 <= i < 12 ==> LevelsFromInput(days, months[i])
    ensures readIndex <= |days| && readIndex <= DaysInYear(year)
    ensures AscendingInYear(year, days) ==>
      readIndex == |days| && forall i :: 0 <= i < 12 ==> LevelsExact(days, months[i])
  {
    var grid := new Month[12];
    readIndex := 0;
    ghost var ordered := AscendingInYear(year, days);
    for i := 0 to 12
      invariant readIndex <= |days| && readIndex <= DaysBeforeMonth(year, i + 1)
      invariant forall k :: 0 <= k < i ==> MonthDone(year, days, ordered, k, grid[k])
      invariant ordered ==> SplitAt(days, readIndex, Date(year, i + 1, 1))
    {
      var weeks, next := LayOutMonth(year, i + 1, days, readIndex);
      PackMonth(year, days, ordered, i, weeks);
      grid[i] := Month(MonthNames[i], weeks);
      readIndex := next;
    }
    MonthsFillYear(year);
    if ordered {
      PointerAtEnd(year, days, readIndex);
    }
    months := grid[..];
    GridComplete(year, days, ordered, months);
  }

  /** Twelve finished months give the grid's properties month by month. */
  lemma GridComplete(year: int, days: seq<RegisteredDay>, ordered: bool, months: seq<Month>)
    requires |months| == 12
    requires forall k :: 0 <= k < 12 ==> MonthDone(year, days, ordered, k, months[k])
    ensures forall i :: 0 <= i < 12 ==> MonthLayout(year, i + 1, months[i])
    ensures forall i :: 0 <= i < 12 ==> LevelsFromInput(days, months[i])
    ensures ordered ==> forall i :: 0 <= i < 12 ==> LevelsExact(days, months[i])
  {
  }

  // ---------------------------------------------------------------------------
  // Properties of a laid-out month

  /** Day `d` of the month is shown exactly once: at its slot, and nowhere else. */
  lemma DayPlacedOnce(y: int, m: int, mo: Month, d: int)
    requires 1 <= m <= 12
    requires MonthLayout(y, m, mo)
    requires 1 <= d <= DaysInMonth(y, m)
    ensures var (w, c) := SlotOf(y, m, d);
      && 0 <= w < |mo.weeks| && 0 <= c < 7
      && mo.weeks[w].days[c].Some? && mo.weeks[w].days[c].value.date == Date(y, m, d)
    ensures forall w, c ::
      (0 <= w < |mo.weeks| && 0 <= c < |mo.weeks[w].days| &&
       mo.weeks[w].days[c].Some? && mo.weeks[w].days[c].value.date == Date(y, m, d))
      ==> (w, c) == SlotOf(y, m, d)
  {
    var f := FirstColumn(y, m);
    var (w, c) := SlotOf(y, m, d);
    assert f + d - 1 == 7 * w + c;
    assert DayAt(y, m, w, c) == d;
    assert w < |mo.weeks| by {
      var n := DaysInMonth(y, m);
      assert f + n - 1 == 7 * ((f + n - 1) / 7) + (f + n - 1) % 7;
    }
    forall w', c' | 0 <= w' < |mo.weeks| && 0 <= c' < |mo.weeks[w'].days| &&
      mo.weeks[w'].days[c'].Some? && mo.weeks[w'].days[c'].value.date == Date(y, m, d)
      ensures (w', c') == SlotOf(y, m, d)
    {
      assert CellHolds(mo.weeks[w'].days[c'], y, m, DayAt(y, m, w', c'));
      assert DayAt(y, m, w', c') == d;
    }
  }

  /** The slot of day `d` is in the column of its weekday, Monday first. */
  lemma SlotIsWeekday(y: int, m: int, d: int)
    requires 1 <= m <= 12
    ensures SlotOf(y, m, d).1 == MondayIndex(Date(y, m, d))
  {
    ColumnOfDay(y, m, d);
  }

  /** Mondays among days 2..n of month `m`. */
  function MondaysAfterFirst(y: int, m: int, n: int): (count: nat)
    requires 1 <= m <= 12
    decreases n
  {
    if n <= 1 then 0
    else MondaysAfterFirst(y, m, n - 1) + (if MondayIndex(Date(y, m, n)) == 0 then 1 else 0)
  }

  lemma {:induction false} MondaysCountWeeks(y: int, m: int, n: int)
    requires 1 <= m <= 12 && 1 <= n
    ensures (FirstColumn(y, m) + n - 1) / 7 == MondaysAfterFirst(y, m, n)
  {
    var f := FirstColumn(y, m);
    if n > 1 {
      MondaysCountWeeks(y, m, n - 1);
      ColumnOfDay(y, m, n);
      var q := (f + n - 2) / 7;
      assert f + n - 2 == 7 * q + (f + n - 2) % 7;
      assert f + n - 1 == 7 * ((f + n - 1) / 7) + (f + n - 1) % 7;
    }
  }

  /** A month has one week, plus one more for every Monday after the 1st. */
  lemma WeeksAreMondays(y: int, m: int)
    requires 1 <= m <= 12
    ensures WeekCount(y, m) == 1 + MondaysAfterFirst(y, m, DaysInMonth(y, m))
  {
    MondaysCountWeeks(y, m, DaysInMonth(y, m));
  }

  /** Slots before the 1st in the first week and after the last day in the last week are empty. */
  lemma PaddingIsEmpty(y: int, m: int, mo: Month)
    requires 1 <= m <= 12
    requires MonthLayout(y, m, mo)
    ensures forall c :: 0 <= c < FirstColumn(y, m) ==> mo.weeks[0].days[c].None?
    ensures var last := SlotOf(y, m, DaysInMonth(y, m));
      last.0 == |mo.weeks| - 1 &&
      forall c :: last.1 < c < 7 ==> mo.weeks[last.0].days[c].None?
  {
    var f, n := FirstColumn(y, m), DaysInMonth(y, m);
    assert 0 < |mo.weeks|;
    forall c | 0 <= c < f ensures mo.weeks[0].days[c].None? {
      assert CellHolds(mo.weeks[0].days[c], y, m, DayAt(y, m, 0, c));
    }
    var (w, lc) := SlotOf(y, m, n);
    assert f + n - 1 == 7 * w + lc;
    forall c | lc < c < 7 ensures mo.weeks[w].days[c].None? {
      assert CellHolds(mo.weeks[w].days[c], y, m, DayAt(y, m, w, c));
    }
  }

  /**
   * For input in strictly ascending date order within the year, every
   * registered day's level is shown in the cell of its date.
   */
  lemma RegisteredDayShown(year: int, days: seq<RegisteredDay>, months: seq<Month>, k: int)
    requires |months| == 12
    requires forall i :: 0 <= i < 12 ==> MonthLayout(year, i + 1, months[i])
    requires forall i :: 0 <= i < 12 ==> LevelsExact(days, months[i])
    requires AscendingInYear(year, days)
    requires 0 <= k < |days|
    ensures var d := days[k].date;
      var (w, c) := SlotOf(year, d.month, d.day);
      && 0 <= w < |months[d.month - 1].weeks| && 0 <= c < |months[d.month - 1].weeks[w].days|
      && months[d.month - 1].weeks[w].days[c] == Some(Day(Some(days[k].level), d))
  {
    var d := days[k].date;
    assert ValidDate(d) && d.year == year;
    var mo := months[d.month - 1];
    assert MonthLayout(year, d.month, mo);
    assert LevelsExact(days, mo);
    DayPlacedOnce(year, d.month, mo, d.day);
    var (w, c) := SlotOf(year, d.month, d.day);
    LevelOfUnique(days, k);
    assert Exact(days, mo.weeks[w].days[c]);
  }

  /** Under the same input, a cell shows a level exactly when a day is registered for its date. */
  lemma UnregisteredDayEmpty(year: int, days: seq<RegisteredDay>, months: seq<Month>, i: int, w: int, c: int)
    requires |months| == 12
    requires forall i :: 0 <= i < 12 ==> LevelsExact(days, months[i])
    requires 0 <= i < 12 && 0 <= w < |months[i].weeks| && 0 <= c < |months[i].weeks[w].days|
    requires months[i].weeks[w].days[c].Some?
    ensures months[i].weeks[w].days[c].value.level.None? <==>
      forall k :: 0 <= k < |days| ==> days[k].date != months[i].weeks[w].days[c].value.date
  {
    assert Exact(days, months[i].weeks[w].days[c]);
  }

  // ---------------------------------------------------------------------------
  // The component

  /** `GET /user-days/:userId/:year`. */
  datatype UserDaysRequest = UserDaysRequest(userId: string, year: int)

  /** Body of the `POST /register-day` request. */
  datatype RegisterDayBody = RegisterDayBody(date: string, level: int, comment: Option<string>)

  /** The profile page: the months signal, the loading flag and the user shown. */
  class UserProfileComponent {
    var months: seq<Month>
    var loading: bool
    var userId: string

    /**
     * Lines 63-78: the signals start empty, and the route subscription takes
     * the user id and loads at once, so the page starts out loading.
     */
    constructor (userId: string)
      ensures months == [] && loading && this.userId == userId
    {
      months := [];
      this.userId := userId;
      loading := true;
    }

    /** Lines 85-90: raise the loading flag and request the user's days of `year`, the current year. */
    method Load(year: int) returns (request: UserDaysRequest)
      modifies this
      ensures loading && months == old(months) && userId == old(userId)
      ensures request == UserDaysRequest(userId, year)
    {
      loading := true;
      request := UserDaysRequest(userId, year);
    }

    /** Lines 90-137: on the response, lay the year out and lower the loading flag. */
    method OnUserDays(year: int, days: seq<RegisteredDay>)
      modifies this
      ensures !loading && userId == old(userId)
      ensures |months| == 12
      ensures forall i :: 0 <= i < 12 ==> MonthLayout(year, i + 1, months[i]) && LevelsFromInput(days, months[i])
      ensures AscendingInYear(year, days) ==> forall i :: 0 <= i < 12 ==> LevelsExact(days, months[i])
    {
      var built, _ := BuildMonths(year, days);
      months := built;
      loading := false;
    }

    /** Lines 140-153: raise the loading flag and post the day's new level with its date text. */
    method ChangeLevel(day: Day, level: int) returns (body: RegisterDayBody)
      modifies this
      ensures loading && months == old(months) && userId == old(userId)
      ensures body.level == level && body.comment == None
      ensures ValidDate(day.date) && MinYear <= day.date.year < 10000 ==> ParseDateString(body.date) == Some(day.date)
    {
      loading := true;
      body := RegisterDayBody(DateString(day.date), level, None);
      if ValidDate(day.date) && MinYear <= day.date.year < 10000 {
        DateStringRoundTrip(day.date);
      }
    }
  }
}
