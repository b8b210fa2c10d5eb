/** The period-bar layout of the month calendar: a Sunday-to-Saturday
    grid, the events that intersect it in priority order, one segment per
    event and week, and a first-fit track (out of six) for each segment in
    its week. */
module CalendarLayout {
  import opened Dates
  import opened Ordering
  import opened Selection
  import opened Results

  const MaxTracksPerWeek := 6

  /** One academic event; dates are local midnights, as day numbers. */
  datatype AcademicEvent = AcademicEvent(
    id: int, startDate: int, endDate: int, title: string, description: string, kind: string)

  /** The visible grid: its first Sunday, the instant it ends, and its
      days in rows of seven. */
  datatype MonthView = MonthView(calendarStart: int, calendarEnd: Instant, weeks: seq<seq<int>>)

  /** One bar piece: the part of an event that falls inside one week. */
  datatype Segment = Segment(event: AcademicEvent, week: int, startDay: int, duration: int)

  /** A segment with the track it is drawn on. */
  datatype EventLayout = EventLayout(
    event: AcademicEvent, track: int, startWeek: int, startDay: int, duration: int)

  // ------------------------------------------------------------------ grid

  /** `eachDayOfInterval` from midnight of `first` to a time on `last`. */
  function DaysBetween(first: int, last: int): (r: seq<int>)
    requires first <= last + 1
    ensures |r| == last - first + 1
    ensures forall i :: 0 <= i < |r| ==> r[i] == first + i
  {
    seq(last - first + 1, i => first + i)
  }

  /** The loop that cuts the day list into `slice(i, i + 7)` rows. */
  function Rows(days: seq<int>): (r: seq<seq<int>>)
    requires |days| % 7 == 0
    ensures |r| == |days| / 7
    ensures forall w :: 0 <= w < |r| ==> |r[w]| == 7
    ensures forall w, j :: 0 <= w < |r| && 0 <= j < 7 ==> r[w][j] == days[7 * w + j]
  {
    if |days| == 0 then []
    else
      var rest := Rows(days[7..]);
      var r := [days[..7]] + rest;
      assert forall w :: 1 <= w < |r| ==> r[w] == rest[w - 1];
      r
  }

  /** The grid shown for the month that runs from day `monthStart` to day
      `monthEnd`: from the Sunday on or before the first to the end of the
      Saturday on or after the last. */
  function BuildView(monthStart: int, monthEnd: int): MonthView
    requires monthStart <= monthEnd
  {
    var calendarStart := StartOfWeek(monthStart);
    var lastDay := LastDayOfWeek(monthEnd);
    var days := DaysBetween(calendarStart, lastDay);
    assert |days| == 7 * ((lastDay - calendarStart + 1) / 7) by {
      var q := (monthStart + 4) / 7;
      var p := (monthEnd + 4) / 7;
      assert calendarStart == 7 * q - 4;
      assert lastDay == 7 * p + 2;
    }
    MonthView(calendarStart, EndOf(lastDay), Rows(days))
  }

  /** The grid for the month containing `new Date(year, month - 1, day)`. */
  function MonthViewOf(year: int, month: int): MonthView
    requires 1 <= month <= 12
  {
    BuildView(DayNumber(year, month, 1), DayNumber(year, month, DaysInMonth(year, month)))
  }

  function LastDay(v: MonthView): int {
    v.calendarStart + 7 * |v.weeks| - 1
  }

  /** The shape every grid has: whole weeks of consecutive days from a
      Sunday, ending at the end of a Saturday. */
  predicate WellFormed(v: MonthView) {
    && |v.weeks| >= 1
    && Weekday(v.calendarStart) == 0
    && v.calendarEnd == EndOf(LastDay(v))
    && (forall w :: 0 <= w < |v.weeks| ==> |v.weeks[w]| == 7)
    && (forall w, j :: 0 <= w < |v.weeks| && 0 <= j < 7 ==> v.weeks[w][j] == v.calendarStart + 7 * w + j)
  }

  /** The grid starts on a Sunday, ends on a Saturday, covers the whole
      month, and every row is seven consecutive days. */
  lemma {:induction false} GridShape(monthStart: int, monthEnd: int)
    requires monthStart <= monthEnd
    ensures var v := BuildView(monthStart, monthEnd);
      && WellFormed(v)
      && v.calendarStart <= monthStart && monthEnd <= LastDay(v)
      && monthStart - v.calendarStart < 7 && LastDay(v) - monthEnd < 7
      && Weekday(LastDay(v)) == 6
      && (forall w, j :: 0 <= w < |v.weeks| && 0 <= j < 7 ==> Weekday(v.weeks[w][j]) == j)
  {
    var v := BuildView(monthStart, monthEnd);
    var lastDay := LastDayOfWeek(monthEnd);
    assert LastDay(v) == lastDay by {
      var q := (monthStart + 4) / 7;
      var p := (monthEnd + 4) / 7;
      assert v.calendarStart == 7 * q - 4;
      assert lastDay == 7 * p + 2;
    }
    forall w, j | 0 <= w < |v.weeks| && 0 <= j < 7 ensures Weekday(v.weeks[w][j]) == j {
      assert Weekday(v.calendarStart + 7 * w + j) == Weekday(v.calendarStart + 7 * w) + j by {
        WeekdayShift(v.calendarStart + 7 * w, j);
        WeekdayOfSunday(v.calendarStart, w);
      }
      WeekdayOfSunday(v.calendarStart, w);
    }
  }

  lemma WeekdayOfSunday(start: int, w: int)
    requires Weekday(start) == 0
    ensures Weekday(start + 7 * w) == 0
  {
    var q := (start + 4) / 7;
    assert start + 4 == 7 * q;
    assert start + 7 * w + 4 == 7 * (q + w);
  }

  /** A month of 28 to 31 days is shown in four to six rows. */
  lemma {:induction false} MonthRows(year: int, month: int)
    requires 1 <= month <= 12
    ensures 4 <= |MonthViewOf(year, month).weeks| <= 6
  {
    var first := DayNumber(year, month, 1);
    var last := DayNumber(year, month, DaysInMonth(year, month));
    GridShape(first, last);
  }

  // ------------------------------------------------------------- findIndex

  /** The row of the grid that holds day `d`. */
  function RowOf(v: MonthView, d: int): int {
    (d - v.calendarStart) / 7
  }

  /** `week[0] <= t && t <= week[6]`. Week rows hold midnights, so the
      Saturday row ends at midnight of Saturday. */
  predicate InRow(row: seq<int>, t: Instant)
    requires |row| == 7
  {
    NotAfter(At(row[0]), t) && NotAfter(t, At(row[6]))
  }

  /** `weeks.findIndex(week => InRow(week, t))`, searching from row `i`. */
  function FindWeek(weeks: seq<seq<int>>, t: Instant, i: nat): (r: int)
    requires forall w :: 0 <= w < |weeks| ==> |weeks[w]| == 7
    ensures r == -1 || i <= r < |weeks|
    ensures r >= 0 ==> InRow(weeks[r], t)
    ensures forall w :: i <= w < |weeks| && (r == -1 || w < r) ==> !InRow(weeks[w], t)
    decreases |weeks| - i
  {
    if i >= |weeks| then -1
    else if InRow(weeks[i], t) then i
    else FindWeek(weeks, t, i + 1)
  }

  /** In a grid, a midnight inside the grid lies in row (day - start) / 7
      and any other midnight in none; the end of any Saturday lies in no
      row, because rows end at Saturday's midnight. */
  lemma FindWeekInGrid(v: MonthView, t: Instant)
    requires WellFormed(v)
    ensures t.At? && v.calendarStart <= t.day <= LastDay(v) ==>
              FindWeek(v.weeks, t, 0) == RowOf(v, t.day)
    ensures t.At? && !(v.calendarStart <= t.day <= LastDay(v)) ==> FindWeek(v.weeks, t, 0) == -1
    ensures t.EndOf? && (t.day - v.calendarStart) % 7 == 6 ==> FindWeek(v.weeks, t, 0) == -1
  {
    var r := FindWeek(v.weeks, t, 0);
    if t.At? && v.calendarStart <= t.day <= LastDay(v) {
      var w := RowOf(v, t.day);
      assert InRow(v.weeks[w], t);
    }
    if r >= 0 {
      assert v.weeks[r][0] == v.calendarStart + 7 * r;
      assert v.weeks[r][6] == v.calendarStart + 7 * r + 6;
    }
  }

  // -------------------------------------------------------------- segments

  function Min(a: int, b: int): int {
    if a < b then a else b
  }

  /** The loop over rows `w..endWeek` for one event, clipped to
      `[eventStart, eventEnd]`. */
  function WeekSegments(e: AcademicEvent, weeks: seq<seq<int>>, eventStart: Instant, eventEnd: Instant,
                        w: int, endWeek: int): seq<Segment>
    requires forall k :: 0 <= k < |weeks| ==> |weeks[k]| == 7
    requires 0 <= w && endWeek < |weeks|
    decreases endWeek + 1 - w
  {
    if w > endWeek then []
    else
      var weekStart := At(weeks[w][0]);
      var weekEnd := At(weeks[w][6]);
      var segmentStart := if Before(weekStart, eventStart) then eventStart else weekStart;
      var segmentEnd := if Before(eventEnd, weekEnd) then eventEnd else weekEnd;
      var startDay := Weekday(segmentStart.day);
      var duration := DifferenceInDays(segmentEnd, segmentStart) + 1;
      [Segment(e, w, startDay, Min(duration, 7 - startDay))]
        + WeekSegments(e, weeks, eventStart, eventEnd, w + 1, endWeek)
  }

  /** The bar pieces of one event: its range is clipped to the grid, the
      rows holding the clipped start and end are looked up, and one piece
      is made for every row from the first to the last. */
  function EventSegments(e: AcademicEvent, v: MonthView, gridEnd: Instant): seq<Segment>
    requires forall k :: 0 <= k < |v.weeks| ==> |v.weeks[k]| == 7
  {
    var eventStart := if Before(At(e.startDate), At(v.calendarStart)) then At(v.calendarStart) else At(e.startDate);
    var eventEnd := if Before(gridEnd, At(e.endDate)) then gridEnd else At(e.endDate);
    var startWeekIndex := FindWeek(v.weeks, eventStart, 0);
    var endWeekIndex := FindWeek(v.weeks, eventEnd, 0);
    if startWeekIndex == -1 then []
    else WeekSegments(e, v.weeks, eventStart, eventEnd, startWeekIndex, endWeekIndex)
  }

  /** The pieces of all events, in processing order. */
  function Candidates(events: seq<AcademicEvent>, v: MonthView, gridEnd: Instant): seq<Segment>
    requires forall k :: 0 <= k < |v.weeks| ==> |v.weeks[k]| == 7
  {
    if |events| == 0 then []
    else EventSegments(events[0], v, gridEnd) + Candidates(events[1..], v, gridEnd)
  }

  function SumDurations(segs: seq<Segment>): int {
    if |segs| == 0 then 0 else segs[0].duration + SumDurations(segs[1..])
  }

  function Max(a: int, b: int): int {
    if a < b then b else a
  }

  /** A piece lies in its row: it starts at the event's first day in that
      row, lasts at least a day, and ends by Saturday. */
  predicate PieceInRow(s: Segment, e: AcademicEvent, v: MonthView, a: int) {
    && s.event == e && 0 <= s.week < |v.weeks|
    && 0 <= s.startDay && 1 <= s.duration && s.startDay + s.duration <= 7
    && v.calendarStart + 7 * s.week + s.startDay == Max(a, v.calendarStart + 7 * s.week)
  }

  /** The piece made for row `w` of an event clipped to the days `a..b`. */
  lemma PieceOfRow(e: AcademicEvent, v: MonthView, a: int, b: int, w: int, endWeek: int)
    requires WellFormed(v)
    requires 0 <= w <= endWeek < |v.weeks|
    requires a <= b && a <= v.calendarStart + 7 * w + 6 && v.calendarStart + 7 * w <= b
    ensures var wk0 := v.calendarStart + 7 * w;
      var first := Max(a, wk0);
      var last := Min(b, wk0 + 6);
      && WeekSegments(e, v.weeks, At(a), At(b), w, endWeek)[0] == Segment(e, w, first - wk0, last - first + 1)
      && PieceInRow(Segment(e, w, first - wk0, last - first + 1), e, v, a)
  {
    var cs := v.calendarStart;
    var wk0 := v.weeks[w][0];
    assert wk0 == cs + 7 * w && v.weeks[w][6] == cs + 7 * w + 6;
    var first := Max(a, wk0);
    WeekdayOfSunday(cs, w);
    WeekdayShift(wk0, first - wk0);
  }

  /** Every piece of an event whose clipped range is the days `a..b`
      inside the grid: one per row from row `w` to the row of `b`, each
      starting at the event's first day in that row and never running past
      Saturday; together they cover the days from row `w` on exactly. */
  lemma {:induction false} WeekSegmentsShape(e: AcademicEvent, v: MonthView, a: int, b: int, w: int, endWeek: int)
    requires WellFormed(v)
    requires 0 <= w && 0 <= endWeek < |v.weeks|
    requires v.calendarStart + 7 * endWeek <= b <= v.calendarStart + 7 * endWeek + 6
    requires a <= b && a <= v.calendarStart + 7 * w + 6
    ensures var r := WeekSegments(e, v.weeks, At(a), At(b), w, endWeek);
      && |r| == (if w <= endWeek then endWeek - w + 1 else 0)
      && (forall i :: 0 <= i < |r| ==> r[i].week == w + i && PieceInRow(r[i], e, v, a))
      && (w <= endWeek ==> SumDurations(r) == b - Max(a, v.calendarStart + 7 * w) + 1)
    decreases endWeek + 1 - w
  {
    var r := WeekSegments(e, v.weeks, At(a), At(b), w, endWeek);
    if w <= endWeek {
      PieceOfRow(e, v, a, b, w, endWeek);
      WeekSegmentsShape(e, v, a, b, w + 1, endWeek);
      var rest := WeekSegments(e, v.weeks, At(a), At(b), w + 1, endWeek);
      assert r == [r[0]] + rest;
      assert forall i :: 1 <= i < |r| ==> r[i] == rest[i - 1];
    }
  }

  /** A day of the grid lies in row `RowOf(v, day)`. */
  lemma RowOfDay(v: MonthView, d: int)
    requires WellFormed(v)
    requires v.calendarStart <= d <= LastDay(v)
    ensures var w := RowOf(v, d);
      0 <= w < |v.weeks| && v.calendarStart + 7 * w <= d <= v.calendarStart + 7 * w + 6
  {
  }

  /** When the clipped range `a..b` lies in the grid, the pieces of the event
      are those of the rows from the row of `a` to the row of `b`. */
  lemma EventSegmentsRows(e: AcademicEvent, v: MonthView, gridEnd: Instant)
    requires WellFormed(v)
    requires gridEnd == v.calendarEnd || gridEnd == At(LastDay(v))
    requires e.startDate <= e.endDate
    requires e.startDate <= LastDay(v) && v.calendarStart <= e.endDate
    requires gridEnd.At? || e.endDate <= LastDay(v)
    ensures var a := Max(e.startDate, v.calendarStart);
      var b := Min(e.endDate, LastDay(v));
      EventSegments(e, v, gridEnd)
        == WeekSegments(e, v.weeks, At(a), At(b), RowOf(v, a), RowOf(v, b))
  {
    var a := Max(e.startDate, v.calendarStart);
    var b := Min(e.endDate, LastDay(v));
    FindWeekInGrid(v, At(a));
    FindWeekInGrid(v, At(b));
  }

  /** A visible event is shown in every row its clipped range touches when
      the clip point is a midnight inside the grid: one piece per row, and
      the pieces together span the clipped days exactly. */
  lemma EventSegmentsCover(e: AcademicEvent, v: MonthView, gridEnd: Instant)
    requires WellFormed(v)
    requires gridEnd == v.calendarEnd || gridEnd == At(LastDay(v))
    requires e.startDate <= e.endDate
    requires e.startDate <= LastDay(v) && v.calendarStart <= e.endDate
    requires gridEnd.At? || e.endDate <= LastDay(v)
    ensures var a := Max(e.startDate, v.calendarStart);
      var b := Min(e.endDate, LastDay(v));
      var r := EventSegments(e, v, gridEnd);
      && |r| == RowOf(v, b) - RowOf(v, a) + 1
      && (forall i :: 0 <= i < |r| ==> PieceInRow(r[i], e, v, a))
      && SumDurations(r) == b - a + 1
  {
    var cs := v.calendarStart;
    var a := Max(e.startDate, cs);
    var b := Min(e.endDate, LastDay(v));
    EventSegmentsRows(e, v, gridEnd);
    RangeCover(e, v, a, b);
  }

  /** The days `a..b` of the grid give one piece per row they touch, and
      the pieces cover them exactly. */
  lemma RangeCover(e: AcademicEvent, v: MonthView, a: int, b: int)
    requires WellFormed(v)
    requires v.calendarStart <= a <= b <= LastDay(v)
    ensures var r := WeekSegments(e, v.weeks, At(a), At(b), RowOf(v, a), RowOf(v, b));
      && |r| == RowOf(v, b) - RowOf(v, a) + 1
      && (forall i :: 0 <= i < |r| ==> PieceInRow(r[i], e, v, a))
      && SumDurations(r) == b - a + 1
  {
    RowOfDay(v, a);
    RowOfDay(v, b);
    RowsCover(e, v, a, b, RowOf(v, a), RowOf(v, b));
  }

  /** The rows from the row `sw` of day `a` to the row `ew` of day `b`
      hold one piece each and cover the days `a..b` exactly. */
  lemma RowsCover(e: AcademicEvent, v: MonthView, a: int, b: int, sw: int, ew: int)
    requires WellFormed(v)
    requires 0 <= sw && 0 <= ew < |v.weeks| && a <= b
    requires v.calendarStart + 7 * sw <= a <= v.calendarStart + 7 * sw + 6
    requires v.calendarStart + 7 * ew <= b <= v.calendarStart + 7 * ew + 6
    ensures var r := WeekSegments(e, v.weeks, At(a), At(b), sw, ew);
      && |r| == ew - sw + 1
      && (forall i :: 0 <= i < |r| ==> PieceInRow(r[i], e, v, a))
      && SumDurations(r) == b - a + 1
  {
    WeekSegmentsShape(e, v, a, b, sw, ew);
  }

  /** As written, the grid ends at the end of its last Saturday, which no
      row contains: an event that continues past the grid gets no row for
      its clipped end, and none of its pieces is produced, in any row. */
  lemma ClippedEventVanishes(e: AcademicEvent, v: MonthView)
    requires WellFormed(v)
    requires e.endDate > LastDay(v)
    ensures EventSegments(e, v, v.calendarEnd) == []
  {
    var eventStart := if Before(At(e.startDate), At(v.calendarStart)) then At(v.calendarStart) else At(e.startDate);
    FindWeekInGrid(v, v.calendarEnd);
    var sw := FindWeek(v.weeks, eventStart, 0);
    if sw != -1 {
      assert WeekSegments(e, v.weeks, eventStart, v.calendarEnd, sw, -1) == [];
    }
  }

  // ---------------------------------------------------------------- tracks

  function UsedIn(used: map<int, set<int>>, w: int): set<int> {
    if w in used then used[w] else {}
  }

  /** The scan `while (t < MAX && used.includes(t)) t++` from track `t`. */
  function FirstFreeFrom(used: set<int>, t: int): (r: int)
    requires 0 <= t <= MaxTracksPerWeek
    ensures t <= r <= MaxTracksPerWeek
    ensures r < MaxTracksPerWeek ==> r !in used
    ensures forall k :: t <= k < r ==> k in used
    decreases MaxTracksPerWeek - t
  {
    if t < MaxTracksPerWeek && t in used then FirstFreeFrom(used, t + 1) else t
  }

  /** The lowest track not used yet, or `MaxTracksPerWeek` when all are. */
  function FirstFree(used: set<int>): int {
    FirstFreeFrom(used, 0)
  }

  /** The tracks `0..k-1`. */
  function Range(k: int): (r: set<int>)
    ensures forall t :: t in r <==> 0 <= t < k
    decreases k
  {
    if k <= 0 then {} else Range(k - 1) + {k - 1}
  }

  lemma FirstFreeOfRange(k: int)
    requires 0 <= k <= MaxTracksPerWeek
    ensures FirstFree(Range(k)) == k
  {
  }

  /** Gives each piece, in order, the first free track of its week, and
      drops it when the week has no free track left. */
  function Assign(cands: seq<Segment>, used: map<int, set<int>>): seq<EventLayout>
  {
    if |cands| == 0 then []
    else
      var c := cands[0];
      var t := FirstFree(UsedIn(used, c.week));
      if t >= MaxTracksPerWeek then Assign(cands[1..], used)
      else [EventLayout(c.event, t, c.week, c.startDay, c.duration)]
             + Assign(cands[1..], used[c.week := UsedIn(used, c.week) + {t}])
  }

  /** The laid-out pieces of week `w`, in output order. */
  function InWeek(r: seq<EventLayout>, w: int): seq<EventLayout> {
    if |r| == 0 then []
    else (if r[0].startWeek == w then [r[0]] else []) + InWeek(r[1..], w)
  }

  /** The candidate pieces of week `w`, in processing order. */
  function SegsIn(cands: seq<Segment>, w: int): seq<Segment> {
    if |cands| == 0 then []
    else (if cands[0].week == w then [cands[0]] else []) + SegsIn(cands[1..], w)
  }

  /** The reference first-fit placement of one week's pieces when tracks
      `0..k-1` are taken: the pieces in order on tracks `k, k+1, ...`, as
      many as there are tracks left, the rest dropped. */
  function PlaceFrom(segs: seq<Segment>, k: int): (r: seq<EventLayout>)
    requires 0 <= k
    ensures |r| == if k >= MaxTracksPerWeek then 0 else Min(|segs|, MaxTracksPerWeek - k)
    ensures forall i :: 0 <= i < |r| ==>
      r[i] == EventLayout(segs[i].event, k + i, segs[i].week, segs[i].startDay, segs[i].duration)
    decreases |segs|
  {
    if |segs| == 0 || k >= MaxTracksPerWeek then []
    else
      var s := segs[0];
      var rest := PlaceFrom(segs[1..], k + 1);
      var r := [EventLayout(s.event, k, s.week, s.startDay, s.duration)] + rest;
      assert forall i :: 1 <= i < |r| ==> r[i] == rest[i - 1];
      r
  }

  lemma RangeStep(k: int)
    requires 0 <= k
    ensures Range(k) + {k} == Range(k + 1)
  {
  }

  lemma InWeekCons(h: EventLayout, r: seq<EventLayout>, w: int)
    ensures InWeek([h] + r, w) == (if h.startWeek == w then [h] else []) + InWeek(r, w)
  {
    assert ([h] + r)[1..] == r;
  }

  lemma PlaceFromCons(c: Segment, segs: seq<Segment>, k: int)
    requires 0 <= k < MaxTracksPerWeek
    ensures PlaceFrom([c] + segs, k)
      == [EventLayout(c.event, k, c.week, c.startDay, c.duration)] + PlaceFrom(segs, k + 1)
  {
    assert ([c] + segs)[1..] == segs;
  }

  /** Within one week, the assignment is the reference placement: if tracks
      `0..k-1` of week `w` are taken, week `w`'s pieces go, in order, onto
      tracks `k, k+1, ...` until the six are used up, whatever happens in
      the other weeks. */
  lemma {:induction false} AssignInWeek(cands: seq<Segment>, used: map<int, set<int>>, w: int, k: int)
    requires 0 <= k <= MaxTracksPerWeek && UsedIn(used, w) == Range(k)
    ensures InWeek(Assign(cands, used), w) == PlaceFrom(SegsIn(cands, w), k)
    decreases |cands|
  {
    if |cands| > 0 {
      var c := cands[0];
      var rest := cands[1..];
      var t := FirstFree(UsedIn(used, c.week));
      assert SegsIn(cands, w) == (if c.week == w then [c] else []) + SegsIn(rest, w);
      if t >= MaxTracksPerWeek {
        assert Assign(cands, used) == Assign(rest, used);
        if c.week == w {
          FirstFreeOfRange(k);
        }
        AssignInWeek(rest, used, w, k);
      } else {
        var h := EventLayout(c.event, t, c.week, c.startDay, c.duration);
        var used' := used[c.week := UsedIn(used, c.week) + {t}];
        assert Assign(cands, used) == [h] + Assign(rest, used');
        InWeekCons(h, Assign(rest, used'), w);
        if c.week == w {
          FirstFreeOfRange(k);
          RangeStep(k);
          assert UsedIn(used', w) == Range(k + 1);
          AssignInWeek(rest, used', w, k + 1);
          PlaceFromCons(c, SegsIn(rest, w), k);
        } else {
          assert UsedIn(used', w) == UsedIn(used, w);
          AssignInWeek(rest, used', w, k);
        }
      }
    }
  }

  /** Every placed piece is a candidate piece on a track that was free in
      its week and lies in `0..MaxTracksPerWeek-1`. */
  lemma {:induction false} AssignFresh(cands: seq<Segment>, used: map<int, set<int>>)
    ensures forall x :: x in Assign(cands, used) ==>
      && 0 <= x.track < MaxTracksPerWeek
      && x.track !in UsedIn(used, x.startWeek)
      && Segment(x.event, x.startWeek, x.startDay, x.duration) in cands
    decreases |cands|
  {
    if |cands| > 0 {
      var c := cands[0];
      var t := FirstFree(UsedIn(used, c.week));
      if t >= MaxTracksPerWeek {
        AssignFresh(cands[1..], used);
      } else {
        var used' := used[c.week := UsedIn(used, c.week) + {t}];
        AssignFresh(cands[1..], used');
        forall x | x in Assign(cands[1..], used') ensures x.track !in UsedIn(used, x.startWeek) {
          assert UsedIn(used, x.startWeek) <= UsedIn(used', x.startWeek);
        }
      }
    }
  }

  /** No two pieces of the same week share a track. */
  predicate NoSharedTrack(r: seq<EventLayout>) {
    forall i, j :: 0 <= i < j < |r| && r[i].startWeek == r[j].startWeek ==> r[i].track != r[j].track
  }

  /** No two placed pieces of the same week share a track. */
  lemma {:induction false} AssignNoCollision(cands: seq<Segment>, used: map<int, set<int>>)
    ensures NoSharedTrack(Assign(cands, used))
    decreases |cands|
  {
    if |cands| > 0 {
      var c := cands[0];
      var t := FirstFree(UsedIn(used, c.week));
      if t >= MaxTracksPerWeek {
        AssignNoCollision(cands[1..], used);
      } else {
        var used' := used[c.week := UsedIn(used, c.week) + {t}];
        var h := EventLayout(c.event, t, c.week, c.startDay, c.duration);
        var tail := Assign(cands[1..], used');
        var r := [h] + tail;
        assert Assign(cands, used) == r;
        AssignNoCollision(cands[1..], used');
        AssignFresh(cands[1..], used');
        assert t in UsedIn(used', c.week);
        forall i, j | 0 <= i < j < |r| && r[i].startWeek == r[j].startWeek ensures r[i].track != r[j].track {
          assert r[j] == tail[j - 1];
          if i == 0 {
            assert tail[j - 1] in tail;
          } else {
            assert r[i] == tail[i - 1];
          }
        }
      }
    }
  }

  // ---------------------------------------------------------- layout steps

  /** `event.startDate <= calendarEnd && event.endDate >= calendarStart`. */
  predicate Visible(e: AcademicEvent, v: MonthView, gridEnd: Instant) {
    NotAfter(At(e.startDate), gridEnd) && NotAfter(At(v.calendarStart), At(e.endDate))
  }

  /** The comparator orders by start date, and on equal starts puts the
      later end first. */
  function SortKey(e: AcademicEvent): Key {
    Key(e.startDate, -e.endDate)
  }

  /** The layout for grid `v`, with `gridEnd` as the instant events are
      clipped to and tested against. */
  function LayoutWithEnd(v: MonthView, events: seq<AcademicEvent>, gridEnd: Instant): seq<EventLayout>
    requires forall k :: 0 <= k < |v.weeks| ==> |v.weeks[k]| == 7
  {
    Assign(Candidates(Prioritized(v, events, gridEnd), v, gridEnd), map[])
  }

  /** Whichever clip instant is used, an event is visible exactly when it
      meets the grid's days. */
  lemma VisibleIff(e: AcademicEvent, v: MonthView, gridEnd: Instant)
    requires WellFormed(v)
    requires gridEnd == v.calendarEnd || gridEnd == At(LastDay(v))
    ensures Visible(e, v, gridEnd) <==> e.startDate <= LastDay(v) && v.calendarStart <= e.endDate
  {
  }

  /** The processing order: events by start date, and on equal starts the
      longer one first. */
  lemma SortedOrder(r: seq<AcademicEvent>)
    requires SortedBy(r, SortKey)
    ensures forall i, j :: 0 <= i < j < |r| ==>
      r[i].startDate < r[j].startDate || (r[i].startDate == r[j].startDate && r[i].endDate >= r[j].endDate)
  {
    forall i, j | 0 <= i < j < |r|
      ensures r[i].startDate < r[j].startDate || (r[i].startDate == r[j].startDate && r[i].endDate >= r[j].endDate)
    {
      assert KeyLe(SortKey(r[i]), SortKey(r[j]));
    }
  }

  /** Every piece of an event's bars belongs to that event. */
  lemma {:induction false} WeekSegmentsEvent(e: AcademicEvent, weeks: seq<seq<int>>, eventStart: Instant, eventEnd: Instant,
                                              w: int, endWeek: int)
    requires forall k :: 0 <= k < |weeks| ==> |weeks[k]| == 7
    requires 0 <= w && endWeek < |weeks|
    ensures forall s :: s in WeekSegments(e, weeks, eventStart, eventEnd, w, endWeek) ==> s.event == e
    decreases endWeek + 1 - w
  {
    if w <= endWeek {
      WeekSegmentsEvent(e, weeks, eventStart, eventEnd, w + 1, endWeek);
    }
  }

  /** Every candidate piece comes from one of the events, and is one of that
      event's pieces. */
  lemma {:induction false} CandidatesFrom(events: seq<AcademicEvent>, v: MonthView, gridEnd: Instant)
    requires forall k :: 0 <= k < |v.weeks| ==> |v.weeks[k]| == 7
    ensures forall s :: s in Candidates(events, v, gridEnd) ==>
      s.event in events && s in EventSegments(s.event, v, gridEnd)
  {
    if |events| > 0 {
      var e := events[0];
      CandidatesFrom(events[1..], v, gridEnd);
      var eventStart := if Before(At(e.startDate), At(v.calendarStart)) then At(v.calendarStart) else At(e.startDate);
      var eventEnd := if Before(gridEnd, At(e.endDate)) then gridEnd else At(e.endDate);
      var sw := FindWeek(v.weeks, eventStart, 0);
      if sw != -1 {
        WeekSegmentsEvent(e, v.weeks, eventStart, eventEnd, sw, FindWeek(v.weeks, eventEnd, 0));
      }
    }
  }

  /** Tracks of the whole layout: every bar is on one of the six tracks, no
      two bars of a week share one, and in each week the bars are that
      week's pieces in processing order on tracks 0, 1, 2, ... with
      everything past the sixth dropped. */
  lemma LayoutTracks(v: MonthView, events: seq<AcademicEvent>, gridEnd: Instant)
    requires forall k :: 0 <= k < |v.weeks| ==> |v.weeks[k]| == 7
    ensures var r := LayoutWithEnd(v, events, gridEnd);
      && (forall x :: x in r ==> 0 <= x.track < MaxTracksPerWeek)
      && NoSharedTrack(r)
      && (forall w :: InWeek(r, w) == PlaceFrom(SegsIn(Candidates(Prioritized(v, events, gridEnd), v, gridEnd), w), 0))
  {
    var cands := Candidates(Prioritized(v, events, gridEnd), v, gridEnd);
    AssignFresh(cands, map[]);
    AssignNoCollision(cands, map[]);
    forall w ensures InWeek(Assign(cands, map[]), w) == PlaceFrom(SegsIn(cands, w), 0) {
      assert UsedIn(map[], w) == Range(0);
      AssignInWeek(cands, map[], w, 0);
    }
  }

  /** The geometry of one bar of grid `v` clipped at `gridEnd`: it lies in
      a row of the grid, starts at its event's first day in that row, lasts
      at least one day and stops by Saturday; clipped to the end of the last
      Saturday, its event ends inside the grid. */
  predicate BarInGrid(x: EventLayout, v: MonthView, gridEnd: Instant) {
    && x.event.startDate <= LastDay(v) && v.calendarStart <= x.event.endDate
    && 0 <= x.startWeek < |v.weeks|
    && 0 <= x.startDay && 1 <= x.duration && x.startDay + x.duration <= 7
    && v.calendarStart + 7 * x.startWeek + x.startDay == Max(x.event.startDate, v.calendarStart + 7 * x.startWeek)
    && (gridEnd == v.calendarEnd ==> x.event.endDate <= LastDay(v))
  }

  /** A piece of a visible, well-ordered event is a bar in the grid. */
  lemma PieceOfVisible(e: AcademicEvent, v: MonthView, gridEnd: Instant, s: Segment, track: int)
    requires WellFormed(v)
    requires gridEnd == v.calendarEnd || gridEnd == At(LastDay(v))
    requires e.startDate <= e.endDate && Visible(e, v, gridEnd)
    requires s in EventSegments(e, v, gridEnd)
    ensures BarInGrid(EventLayout(e, track, s.week, s.startDay, s.duration), v, gridEnd)
  {
    VisibleIff(e, v, gridEnd);
    if gridEnd == v.calendarEnd && e.endDate > LastDay(v) {
      ClippedEventVanishes(e, v);
      assert false;
    }
    EventSegmentsCover(e, v, gridEnd);
    var r := EventSegments(e, v, gridEnd);
    var k :| 0 <= k < |r| && r[k] == s;
    assert PieceInRow(r[k], e, v, Max(e.startDate, v.calendarStart));
  }

  /** The events the layout processes: the visible ones, in priority
      order. */
  function Prioritized(v: MonthView, events: seq<AcademicEvent>, gridEnd: Instant): (r: seq<AcademicEvent>)
    ensures forall e :: e in r <==> e in events && Visible(e, v, gridEnd)
    ensures SortedBy(r, SortKey)
    ensures forall k :: WithKey(r, SortKey, k) == WithKey(Filter(events, e => Visible(e, v, gridEnd)), SortKey, k)
  {
    var visible := Filter(events, e => Visible(e, v, gridEnd));
    var r := SortBy(visible, SortKey);
    assert forall e :: e in r <==> e in visible by {
      forall e ensures e in r <==> e in visible {
        assert e in r <==> e in multiset(r);
      }
    }
    r
  }

  /** Every bar of the layout belongs to one of the events and is a bar in
      the grid. Clipped to the end of the last Saturday, as written, only
      events that end inside the grid get any bar at all. */
  lemma LayoutPieces(v: MonthView, events: seq<AcademicEvent>, gridEnd: Instant)
    requires WellFormed(v)
    requires gridEnd == v.calendarEnd || gridEnd == At(LastDay(v))
    requires forall i :: 0 <= i < |events| ==> events[i].startDate <= events[i].endDate
    ensures forall x :: x in LayoutWithEnd(v, events, gridEnd) ==> x.event in events && BarInGrid(x, v, gridEnd)
  {
    var cands := Candidates(Prioritized(v, events, gridEnd), v, gridEnd);
    AssignFresh(cands, map[]);
    forall x | x in LayoutWithEnd(v, events, gridEnd)
      ensures x.event in events && BarInGrid(x, v, gridEnd)
    {
      CandidateInGrid(v, events, gridEnd, x);
    }
  }

  /** A candidate piece belongs to one of the events and is a bar in the
      grid, whatever track it is later given. */
  lemma CandidateInGrid(v: MonthView, events: seq<AcademicEvent>, gridEnd: Instant, x: EventLayout)
    requires WellFormed(v)
    requires gridEnd == v.calendarEnd || gridEnd == At(LastDay(v))
    requires forall i :: 0 <= i < |events| ==> events[i].startDate <= events[i].endDate
    requires Segment(x.event, x.startWeek, x.startDay, x.duration) in Candidates(Prioritized(v, events, gridEnd), v, gridEnd)
    ensures x.event in events && BarInGrid(x, v, gridEnd)
  {
    var s := Segment(x.event, x.startWeek, x.startDay, x.duration);
    var e := x.event;
    var sorted := Prioritized(v, events, gridEnd);
    assert e in sorted && s in EventSegments(e, v, gridEnd) by {
      CandidatesFrom(sorted, v, gridEnd);
    }
    assert e in events && Visible(e, v, gridEnd);
    assert e.startDate <= e.endDate by {
      var i :| 0 <= i < |events| && events[i] == e;
    }
    PieceOfVisible(e, v, gridEnd, s, x.track);
    assert x == EventLayout(e, x.track, s.week, s.startDay, s.duration);
  }

  /** The layout as the calendar computes it: clipped to `calendarEnd`, the
      end of the last Saturday. */
  function Layout(v: MonthView, events: seq<AcademicEvent>): seq<EventLayout>
    requires forall k :: 0 <= k < |v.weeks| ==> |v.weeks[k]| == 7
  {
    LayoutWithEnd(v, events, v.calendarEnd)
  }

  /** The evidently intended layout: clipped to midnight of the last
      Saturday, so that the row search finds the clipped end. */
  function LayoutClipped(v: MonthView, events: seq<AcademicEvent>): seq<EventLayout>
    requires forall k :: 0 <= k < |v.weeks| ==> |v.weeks[k]| == 7
  {
    LayoutWithEnd(v, events, At(LastDay(v)))
  }

  // ------------------------------------------------------- list and legend

  /** `getEventsForDate`: the events whose range contains day `d`, in
      their original order. */
  function EventsOn(events: seq<AcademicEvent>, d: int): (r: seq<AcademicEvent>)
    ensures forall e :: e in r <==> e in events && e.startDate <= d <= e.endDate
    ensures forall e :: multiset(r)[e] == if e.startDate <= d <= e.endDate then multiset(events)[e] else 0
    ensures Subsequence(r, events)
  {
    Filter(events, (e: AcademicEvent) => e.startDate <= d <= e.endDate)
  }

  /** The list under the calendar: nothing until a day is selected. */
  function SelectedEvents(events: seq<AcademicEvent>, selected: Option<int>): (r: seq<AcademicEvent>)
    ensures selected.None? ==> r == []
    ensures selected.Some? ==> r == EventsOn(events, selected.value)
    ensures selected.Some? ==> forall e :: e in r <==> e in events && e.startDate <= selected.value <= e.endDate
  {
    match selected
    case None => []
    case Some(d) => EventsOn(events, d)
  }

  /** An event listed for a day of the grid is one the layout processes. */
  lemma ListedIsVisible(events: seq<AcademicEvent>, v: MonthView, gridEnd: Instant, d: int)
    requires WellFormed(v)
    requires gridEnd == v.calendarEnd || gridEnd == At(LastDay(v))
    requires v.calendarStart <= d <= LastDay(v)
    ensures forall e :: e in EventsOn(events, d) ==> e in Prioritized(v, events, gridEnd)
  {
    forall e | e in EventsOn(events, d) ensures e in Prioritized(v, events, gridEnd) {
      VisibleIff(e, v, gridEnd);
    }
  }

  /** The event kinds the calendar knows. */
  const KnownKinds: seq<string> := ["exam", "holiday", "academic", "registration", "ceremony", "festival"]

  /** The label of `getEventTypeConfig`; unknown kinds are "기타". */
  function TypeLabel(kind: string): (r: string)
    ensures r == "기타" <==> kind !in KnownKinds
  {
    if kind == "exam" then "시험"
    else if kind == "holiday" then "휴일"
    else if kind == "academic" then "학사"
    else if kind == "registration" then "신청"
    else if kind == "ceremony" then "행사"
    else if kind == "festival" then "축제"
    else "기타"
  }

  /** The legend under the calendar, as (kind, label) pairs. */
  const Legend: seq<(string, string)> := [
    ("exam", "시험"), ("academic", "학사"), ("registration", "신청"),
    ("festival", "축제"), ("ceremony", "행사"), ("holiday", "휴일")]

  /** The legend names every known kind once, with the label its bars
      carry, and distinct kinds have distinct labels. */
  lemma LegendAgrees()
    ensures forall i :: 0 <= i < |Legend| ==> TypeLabel(Legend[i].0) == Legend[i].1
    ensures forall k :: k in KnownKinds <==> exists i :: 0 <= i < |Legend| && Legend[i].0 == k
    ensures forall k1, k2 :: k1 in KnownKinds && k2 in KnownKinds && k1 != k2 ==> TypeLabel(k1) != TypeLabel(k2)
  {
    forall k | k in KnownKinds ensures exists i :: 0 <= i < |Legend| && Legend[i].0 == k {
      if k == "exam" { assert Legend[0].0 == k; }
      else if k == "academic" { assert Legend[1].0 == k; }
      else if k == "registration" { assert Legend[2].0 == k; }
      else if k == "festival" { assert Legend[3].0 == k; }
      else if k == "ceremony" { assert Legend[4].0 == k; }
      else { assert Legend[5].0 == k; }
    }
  }

  // ---------------------------------------------------------- navigation

  /** The month shown, as a year and a month number 1..12. */
  datatype YearMonth = YearMonth(year: int, month: int)

  predicate ValidMonth(ym: YearMonth) {
    1 <= ym.month <= 12
  }

  /** `addMonths(currentDate, 1)`, as far as the grid sees it. */
  function NextMonth(ym: YearMonth): (r: YearMonth)
    requires ValidMonth(ym)
    ensures ValidMonth(r)
    ensures 12 * r.year + r.month == 12 * ym.year + ym.month + 1
  {
    if ym.month == 12 then YearMonth(ym.year + 1, 1) else YearMonth(ym.year, ym.month + 1)
  }

  /** `subMonths(currentDate, 1)`, as far as the grid sees it. */
  function PreviousMonth(ym: YearMonth): (r: YearMonth)
    requires ValidMonth(ym)
    ensures ValidMonth(r)
    ensures 12 * r.year + r.month == 12 * ym.year + ym.month - 1
  {
    if ym.month == 1 then YearMonth(ym.year - 1, 12) else YearMonth(ym.year, ym.month - 1)
  }

  /** Going forward a month and back again returns to the same month, and
      the other way round. */
  lemma NextPreviousInverse(ym: YearMonth)
    requires ValidMonth(ym)
    ensures PreviousMonth(NextMonth(ym)) == ym
    ensures NextMonth(PreviousMonth(ym)) == ym
  {
  }

  // ------------------------------------------------------------- example

  function JanA(): AcademicEvent {
    AcademicEvent(1, DayNumber(2025, 1, 6), DayNumber(2025, 2, 27), "1차 온라인 복학 신청", "", "academic")
  }

  function JanB(): AcademicEvent {
    AcademicEvent(2, DayNumber(2025, 1, 6), DayNumber(2025, 1, 10), "전과 및 재입학 신청", "", "academic")
  }

  /** January 1 2025 is day 20089 and February 1 2025 is day 20120. */
  lemma MonthBases2025()
    ensures MonthBase(2025, 1) == 20089 && MonthBase(2025, 2) == 20120
  {
    assert 2024 / 400 == 5 && 24 / 4 == 6 && 24 / 100 == 0;
    assert (1 + 9) % 12 == 10 && (153 * 10 + 2) / 5 == 306;
    assert (2 + 9) % 12 == 11 && (153 * 11 + 2) / 5 == 337;
  }

  lemma JanuaryDates()
    ensures JanA().startDate == 20094 && JanA().endDate == 20146
    ensures JanB().startDate == 20094 && JanB().endDate == 20098
  {
    MonthBases2025();
  }

  lemma JanuaryGrid()
    ensures var v := MonthViewOf(2025, 1);
      JanuaryShape(v) && LastDay(v) == 20120
  {
    MonthBases2025();
    assert DayNumber(2025, 1, 1) == 20089;
    assert DayNumber(2025, 1, 31) == 20119;
    GridShape(20089, 20119);
    var v := MonthViewOf(2025, 1);
    assert StartOfWeek(20089) == 20086;
  }

  /** The shape of the January 2025 grid: five rows from day 20086, the
      Sunday 29 December 2024. */
  predicate JanuaryShape(v: MonthView) {
    WellFormed(v) && v.calendarStart == 20086 && |v.weeks| == 5
  }

  /** Both events are visible and processed longer-first. */
  lemma JanuaryOrder(v: MonthView, gridEnd: Instant)
    requires JanuaryShape(v)
    requires gridEnd == v.calendarEnd || gridEnd == At(LastDay(v))
    ensures Prioritized(v, [JanA(), JanB()], gridEnd) == [JanA(), JanB()]
  {
    JanuaryDates();
    VisibleIff(JanA(), v, gridEnd);
    VisibleIff(JanB(), v, gridEnd);
    var s := [JanA(), JanB()];
    FilterAll(s, e => Visible(e, v, gridEnd));
    var r := Prioritized(v, s, gridEnd);
    assert SortedBy(s, SortKey);
    StableSortUnique(s, r, s, SortKey);
  }

  lemma JanuarySegmentsAsWritten(v: MonthView)
    requires JanuaryShape(v)
    ensures EventSegments(JanA(), v, v.calendarEnd) == []
    ensures EventSegments(JanB(), v, v.calendarEnd) == [Segment(JanB(), 1, 1, 5)]
  {
    JanuaryDates();
    ClippedEventVanishes(JanA(), v);
    JanuaryShort(v, v.calendarEnd);
  }

  /** The January 6-10 event has one piece, from Monday in row 1,
      whichever clip instant is used. */
  lemma JanuaryShort(v: MonthView, gridEnd: Instant)
    requires JanuaryShape(v)
    requires gridEnd == v.calendarEnd || gridEnd == At(LastDay(v))
    ensures EventSegments(JanB(), v, gridEnd) == [Segment(JanB(), 1, 1, 5)]
  {
    JanuaryDates();
    var b := JanB();
    EventSegmentsRows(b, v, gridEnd);
    PieceOfRow(b, v, 20094, 20098, 1, 1);
    assert WeekSegments(b, v.weeks, At(20094), At(20098), 2, 1) == [];
  }

  lemma JanuaryLongClipped(v: MonthView)
    requires JanuaryShape(v)
    ensures EventSegments(JanA(), v, At(LastDay(v)))
      == [Segment(JanA(), 1, 1, 6), Segment(JanA(), 2, 0, 7), Segment(JanA(), 3, 0, 7), Segment(JanA(), 4, 0, 7)]
  {
    JanuaryDates();
    EventSegmentsRows(JanA(), v, At(LastDay(v)));
    JanuaryRows(JanA(), v);
  }

  /** In the January grid the days 20094..20120 give a piece from Monday
      in row 1 and full rows 2 to 4. */
  lemma JanuaryRows(e: AcademicEvent, v: MonthView)
    requires JanuaryShape(v)
    ensures WeekSegments(e, v.weeks, At(20094), At(20120), 1, 4)
      == [Segment(e, 1, 1, 6), Segment(e, 2, 0, 7), Segment(e, 3, 0, 7), Segment(e, 4, 0, 7)]
  {
    var ws := v.weeks;
    var s4 := WeekSegments(e, ws, At(20094), At(20120), 4, 4);
    assert s4 == [Segment(e, 4, 0, 7)] by {
      PieceOfRow(e, v, 20094, 20120, 4, 4);
      assert WeekSegments(e, ws, At(20094), At(20120), 5, 4) == [];
    }
    var s3 := WeekSegments(e, ws, At(20094), At(20120), 3, 4);
    assert s3 == [Segment(e, 3, 0, 7)] + s4 by {
      PieceOfRow(e, v, 20094, 20120, 3, 4);
    }
    var s2 := WeekSegments(e, ws, At(20094), At(20120), 2, 4);
    assert s2 == [Segment(e, 2, 0, 7)] + s3 by {
      PieceOfRow(e, v, 20094, 20120, 2, 4);
    }
    PieceOfRow(e, v, 20094, 20120, 1, 4);
  }

  lemma CandidatesOfTwo(a: AcademicEvent, b: AcademicEvent, v: MonthView, gridEnd: Instant)
    requires forall k :: 0 <= k < |v.weeks| ==> |v.weeks[k]| == 7
    ensures Candidates([a, b], v, gridEnd) == EventSegments(a, v, gridEnd) + EventSegments(b, v, gridEnd)
  {
    assert [a, b][1..] == [b];
    assert Candidates([b], v, gridEnd) == EventSegments(b, v, gridEnd) + Candidates([], v, gridEnd);
  }

  lemma JanuaryAssignAsWritten()
    ensures Assign([Segment(JanB(), 1, 1, 5)], map[]) == [EventLayout(JanB(), 0, 1, 1, 5)]
  {
    assert FirstFree({}) == 0;
    assert UsedIn(map[], 1) == {};
  }

  lemma AssignPair(a: AcademicEvent, b: AcademicEvent)
    ensures Assign([Segment(a, 1, 1, 6), Segment(a, 2, 0, 7), Segment(a, 3, 0, 7), Segment(a, 4, 0, 7), Segment(b, 1, 1, 5)], map[])
      == [EventLayout(a, 0, 1, 1, 6), EventLayout(a, 0, 2, 0, 7), EventLayout(a, 0, 3, 0, 7),
          EventLayout(a, 0, 4, 0, 7), EventLayout(b, 1, 1, 1, 5)]
  {
    var c := [Segment(a, 1, 1, 6), Segment(a, 2, 0, 7), Segment(a, 3, 0, 7), Segment(a, 4, 0, 7), Segment(b, 1, 1, 5)];
    var u0: map<int, set<int>> := map[];
    var u1 := u0[1 := {0}];
    var u2 := u1[2 := {0}];
    var u3 := u2[3 := {0}];
    var u4 := u3[4 := {0}];
    assert FirstFree({}) == 0;
    assert FirstFree({0}) == 1;
    assert {} + {0} == {0};
    assert UsedIn(u4, 1) == {0};
    assert Assign(c[4..], u4) == [EventLayout(b, 1, 1, 1, 5)] by {
      assert c[4..][1..] == [];
    }
    assert Assign(c[3..], u3) == [EventLayout(a, 0, 4, 0, 7)] + Assign(c[4..], u4) by {
      assert UsedIn(u3, 4) == {};
      assert c[3..][1..] == c[4..];
    }
    assert Assign(c[2..], u2) == [EventLayout(a, 0, 3, 0, 7)] + Assign(c[3..], u3) by {
      assert UsedIn(u2, 3) == {};
      assert c[2..][1..] == c[3..];
    }
    assert Assign(c[1..], u1) == [EventLayout(a, 0, 2, 0, 7)] + Assign(c[2..], u2) by {
      assert UsedIn(u1, 2) == {};
      assert c[1..][1..] == c[2..];
    }
    assert Assign(c, u0) == [EventLayout(a, 0, 1, 1, 6)] + Assign(c[1..], u1) by {
      assert UsedIn(u0, 1) == {};
    }
  }

  lemma JanuaryAsWritten(v: MonthView)
    requires JanuaryShape(v)
    ensures Layout(v, [JanA(), JanB()]) == [EventLayout(JanB(), 0, 1, 1, 5)]
  {
    var sb := [Segment(JanB(), 1, 1, 5)];
    JanuaryOrder(v, v.calendarEnd);
    JanuarySegmentsAsWritten(v);
    LayoutOfTwo(v, JanA(), JanB(), v.calendarEnd, [], sb);
    assert [] + sb == sb;
    JanuaryAssignAsWritten();
  }

  lemma JanuaryClipped(v: MonthView)
    requires JanuaryShape(v)
    ensures var a, b := JanA(), JanB();
      LayoutClipped(v, [a, b])
      == [EventLayout(a, 0, 1, 1, 6), EventLayout(a, 0, 2, 0, 7), EventLayout(a, 0, 3, 0, 7),
          EventLayout(a, 0, 4, 0, 7), EventLayout(b, 1, 1, 1, 5)]
  {
    JanuaryOrder(v, At(LastDay(v)));
    JanuaryShort(v, At(LastDay(v)));
    JanuaryLongClipped(v);
    ClippedPair(v, JanA(), JanB(), At(LastDay(v)));
  }

  /** Two events processed in order, the first with pieces in rows 1 to 4
      and the second with one piece in row 1: the second goes to track 1. */
  lemma ClippedPair(v: MonthView, a: AcademicEvent, b: AcademicEvent, gridEnd: Instant)
    requires forall k :: 0 <= k < |v.weeks| ==> |v.weeks[k]| == 7
    requires Prioritized(v, [a, b], gridEnd) == [a, b]
    requires EventSegments(a, v, gridEnd)
      == [Segment(a, 1, 1, 6), Segment(a, 2, 0, 7), Segment(a, 3, 0, 7), Segment(a, 4, 0, 7)]
    requires EventSegments(b, v, gridEnd) == [Segment(b, 1, 1, 5)]
    ensures LayoutWithEnd(v, [a, b], gridEnd)
      == [EventLayout(a, 0, 1, 1, 6), EventLayout(a, 0, 2, 0, 7), EventLayout(a, 0, 3, 0, 7),
          EventLayout(a, 0, 4, 0, 7), EventLayout(b, 1, 1, 1, 5)]
  {
    var sa := [Segment(a, 1, 1, 6), Segment(a, 2, 0, 7), Segment(a, 3, 0, 7), Segment(a, 4, 0, 7)];
    var sb := [Segment(b, 1, 1, 5)];
    LayoutOfTwo(v, a, b, gridEnd, sa, sb);
    assert sa + sb == [Segment(a, 1, 1, 6), Segment(a, 2, 0, 7), Segment(a, 3, 0, 7), Segment(a, 4, 0, 7), Segment(b, 1, 1, 5)];
    AssignPair(a, b);
  }

  /** The layout of two events processed in the given order is the track
      assignment of their pieces, first event first. */
  lemma LayoutOfTwo(v: MonthView, a: AcademicEvent, b: AcademicEvent, gridEnd: Instant, sa: seq<Segment>, sb: seq<Segment>)
    requires forall k :: 0 <= k < |v.weeks| ==> |v.weeks[k]| == 7
    requires Prioritized(v, [a, b], gridEnd) == [a, b]
    requires EventSegments(a, v, gridEnd) == sa && EventSegments(b, v, gridEnd) == sb
    ensures LayoutWithEnd(v, [a, b], gridEnd) == Assign(sa + sb, map[])
  {
    CandidatesOfTwo(a, b, v, gridEnd);
  }

  /** January 2025 (grid Sunday 2024-12-29 to Saturday 2025-02-01, five
      rows) with the first two events of the academic calendar: the
      re-enrolment period from January 6 to February 27 runs past the grid
      and, as written, gets no bar at all; clipped at midnight of the last
      Saturday it gets one bar in each of rows 1 to 4, and the January 6-10
      event moves to track 1 under it. */
  lemma January2025()
    ensures var v := MonthViewOf(2025, 1);
      var a := JanA();
      var b := JanB();
      && Layout(v, [a, b]) == [EventLayout(b, 0, 1, 1, 5)]
      && LayoutClipped(v, [a, b])
         == [EventLayout(a, 0, 1, 1, 6), EventLayout(a, 0, 2, 0, 7), EventLayout(a, 0, 3, 0, 7),
             EventLayout(a, 0, 4, 0, 7), EventLayout(b, 1, 1, 1, 5)]
  {
    var v := MonthViewOf(2025, 1);
    JanuaryGrid();
    JanuaryAsWritten(v);
    JanuaryClipped(v);
  }
}
