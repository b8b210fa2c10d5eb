/** The day markings of the two academic-calendar screens.

    Both screens expand every academic event into one marking per day of
    its inclusive interval (`eachDayOfInterval`) and list the events whose
    interval contains the selected day (`isWithinInterval`). The
    multi-period screen stacks one coloured period per event on each day;
    the single-period screen lets the later event overwrite the earlier.
    Dates are day numbers after `startOfDay(parseISO(..))`; a date string
    that does not parse is `None`. */
module DayMarking {
  import opened Results
  import Selection

  /** `Colors.event`, the palette the multi-period screen cycles through. */
  const EventPalette: seq<string> := [
    "#FF6B6B", "#FFD166", "#06D6A0", "#118AB2", "#073B4C",
    "#EE6C4D", "#293241", "#98C1D9", "#3D5A80", "#E0FBFC"
  ]

  /** An academic event's parsed start and end days. */
  datatype Event = Event(start: Option<int>, end: Option<int>)

  /** `isWithinInterval(day, {start, end})` inside its `try`: false when a
      date does not parse or the interval is reversed (the library throws
      and the `catch` answers false). */
  predicate Covers(e: Event, d: int) {
    e.start.Some? && e.end.Some? && e.start.value <= d <= e.end.value
  }

  /** `eachDayOfInterval` accepts the interval: both dates parse and the
      start is not after the end; otherwise it throws a RangeError. */
  predicate Valid(e: Event) {
    e.start.Some? && e.end.Some? && e.start.value <= e.end.value
  }

  predicate AllValid(events: seq<Event>) {
    forall j :: 0 <= j < |events| ==> Valid(events[j])
  }

  /** `eventsForSelectedDate`: the events whose interval holds the day, in
      list order. */
  function EventsOn(events: seq<Event>, d: int): (r: seq<Event>)
    ensures forall e :: e in r <==> e in events && Covers(e, d)
    ensures forall e :: multiset(r)[e] == if Covers(e, d) then multiset(events)[e] else 0
    ensures Selection.Subsequence(r, events)
  {
    Selection.Filter(events, e => Covers(e, d))
  }

  // ------------------------------------------------------ multi-period

  /** One bar of a multi-period day; `startingDay`/`endingDay` false stand
      for the absent optional keys. */
  datatype Period = Period(color: string, textColor: string, startingDay: bool, endingDay: bool)

  /** The period event number `index` contributes to day `d`. */
  function PeriodOf(index: nat, e: Event, white: string, d: int): Period
    requires Valid(e)
  {
    Period(EventPalette[index % |EventPalette|], white, d == e.start.value, d == e.end.value)
  }

  /** A day's periods, or none when the day has no entry. */
  function Get<T>(m: map<int, seq<T>>, d: int): seq<T> {
    if d in m then m[d] else []
  }

  /** The `forEach` over the days from `day` to the end of the interval:
      each day's entry is created when missing and gains one period. */
  function PushDays(acc: map<int, seq<Period>>, index: nat, e: Event, white: string, day: int): (r: map<int, seq<Period>>)
    requires Valid(e)
    ensures forall d :: d in r <==> d in acc || day <= d <= e.end.value
    ensures forall d :: Get(r, d) == Get(acc, d) + (if day <= d <= e.end.value then [PeriodOf(index, e, white, d)] else [])
    decreases e.end.value - day
  {
    if day > e.end.value then acc
    else PushDays(acc[day := Get(acc, day) + [PeriodOf(index, e, white, day)]], index, e, white, day + 1)
  }

  /** The `reduce` over the events from number `i` on. */
  function MarkFrom(events: seq<Event>, white: string, i: nat, acc: map<int, seq<Period>>): map<int, seq<Period>>
    requires i <= |events| && AllValid(events)
    decreases |events| - i
  {
    if i == |events| then acc
    else MarkFrom(events, white, i + 1, PushDays(acc, i, events[i], white, events[i].start.value))
  }

  /** `markedDates` of the multi-period screen; `None` when
      `eachDayOfInterval` throws for one of the events. */
  function MultiMarked(events: seq<Event>, white: string): (r: Option<map<int, seq<Period>>>)
    ensures r.Some? <==> AllValid(events)
  {
    if AllValid(events) then Some(MarkFrom(events, white, 0, map[])) else None
  }

  /** Reference: the periods of day `d`, one for each event from number `i`
      on whose interval holds the day, in list order. */
  function PeriodsOn(events: seq<Event>, white: string, d: int, i: nat): seq<Period>
    requires i <= |events| && AllValid(events)
    decreases |events| - i
  {
    if i == |events| then []
    else (if Covers(events[i], d) then [PeriodOf(i, events[i], white, d)] else []) + PeriodsOn(events, white, d, i + 1)
  }

  lemma {:induction false} MarkFromSpec(events: seq<Event>, white: string, i: nat, acc: map<int, seq<Period>>, d: int)
    requires i <= |events| && AllValid(events)
    ensures MarkedAs(events, white, i, acc, d)
    decreases |events| - i, 1
  {
    if i == |events| {
      MarkDone(events, white, acc, d);
    } else {
      MarkFromNext(events, white, i, acc, d);
    }
  }

  lemma {:induction false} MarkFromNext(events: seq<Event>, white: string, i: nat, acc: map<int, seq<Period>>, d: int)
    requires i < |events| && AllValid(events)
    ensures MarkedAs(events, white, i, acc, d)
    decreases |events| - i, 0
  {
    var acc' := MarkStep(events, white, i, acc, d);
    MarkFromSpec(events, white, i + 1, acc', d);
    MarkLift(events, white, i, acc, acc', d);
  }

  /** After the events from number `i` on, day `d` has an entry when it had
      one or one of them covers it, and its entry gains their periods in
      order. */
  predicate MarkedAs(events: seq<Event>, white: string, i: nat, acc: map<int, seq<Period>>, d: int)
    requires i <= |events| && AllValid(events)
  {
    && (d in MarkFrom(events, white, i, acc) <==> d in acc || PeriodsOn(events, white, d, i) != [])
    && Get(MarkFrom(events, white, i, acc), d) == Get(acc, d) + PeriodsOn(events, white, d, i)
  }

  lemma MarkDone(events: seq<Event>, white: string, acc: map<int, seq<Period>>, d: int)
    requires AllValid(events)
    ensures MarkedAs(events, white, |events|, acc, d)
  {
    assert Get(acc, d) + [] == Get(acc, d);
  }

  /** One event of the `reduce`: the days it covers, and only they, gain
      its period. */
  lemma MarkStep(events: seq<Event>, white: string, i: nat, acc: map<int, seq<Period>>, d: int)
    returns (acc': map<int, seq<Period>>)
    requires i < |events| && AllValid(events)
    ensures MarkFrom(events, white, i, acc) == MarkFrom(events, white, i + 1, acc')
    ensures var p := PeriodsOn(events, white, d, i)[..|PeriodsOn(events, white, d, i)| - |PeriodsOn(events, white, d, i + 1)|];
            && |PeriodsOn(events, white, d, i + 1)| <= |PeriodsOn(events, white, d, i)|
            && PeriodsOn(events, white, d, i) == p + PeriodsOn(events, white, d, i + 1)
            && (d in acc' <==> d in acc || p != [])
            && Get(acc', d) == Get(acc, d) + p
  {
    var e := events[i];
    assert Valid(e);
    acc' := PushDays(acc, i, e, white, e.start.value);
    var p := if Covers(e, d) then [PeriodOf(i, e, white, d)] else [];
    var rest := PeriodsOn(events, white, d, i + 1);
    assert PeriodsOn(events, white, d, i) == p + rest;
    assert (p + rest)[..|p|] == p;
  }

  /** The step carries the statement from event `i + 1` back to event `i`. */
  lemma MarkLift(events: seq<Event>, white: string, i: nat, acc: map<int, seq<Period>>, acc': map<int, seq<Period>>, d: int)
    requires i < |events| && AllValid(events)
    requires MarkFrom(events, white, i, acc) == MarkFrom(events, white, i + 1, acc')
    requires var p := PeriodsOn(events, white, d, i)[..|PeriodsOn(events, white, d, i)| - |PeriodsOn(events, white, d, i + 1)|];
            && |PeriodsOn(events, white, d, i + 1)| <= |PeriodsOn(events, white, d, i)|
            && PeriodsOn(events, white, d, i) == p + PeriodsOn(events, white, d, i + 1)
            && (d in acc' <==> d in acc || p != [])
            && Get(acc', d) == Get(acc, d) + p
    requires MarkedAs(events, white, i + 1, acc', d)
    ensures MarkedAs(events, white, i, acc, d)
  {
    var all, rest := PeriodsOn(events, white, d, i), PeriodsOn(events, white, d, i + 1);
    var p := all[..|all| - |rest|];
    Assoc(Get(acc, d), p, rest);
  }

  lemma Assoc<T>(a: seq<T>, b: seq<T>, c: seq<T>)
    ensures a + b + c == a + (b + c)
  {
  }

  /** One period per listed event: the reference has as many periods as
      `eventsForSelectedDate` lists events for that day. */
  lemma {:induction false} PeriodsOnCount(events: seq<Event>, white: string, d: int, i: nat)
    requires i <= |events| && AllValid(events)
    ensures |PeriodsOn(events, white, d, i)| == |EventsOn(events[i..], d)|
    decreases |events| - i
  {
    if i < |events| {
      PeriodsOnCount(events, white, d, i + 1);
      assert events[i..][1..] == events[i + 1..];
    }
  }

  /** Every period of the reference comes from an event whose interval
      holds the day: its colour is that event's palette entry, its text is
      white, and it starts (ends) the bar exactly on the event's first
      (last) day. */
  lemma {:induction false} PeriodsOnFrom(events: seq<Event>, white: string, d: int, i: nat, k: int)
    requires i <= |events| && AllValid(events)
    requires 0 <= k < |PeriodsOn(events, white, d, i)|
    ensures exists j :: i <= j < |events| && Covers(events[j], d) && PeriodsOn(events, white, d, i)[k] == PeriodOf(j, events[j], white, d)
    decreases |events| - i
  {
    var rest := PeriodsOn(events, white, d, i + 1);
    if Covers(events[i], d) && k == 0 {
      assert PeriodsOn(events, white, d, i)[0] == PeriodOf(i, events[i], white, d);
    } else {
      var k' := if Covers(events[i], d) then k - 1 else k;
      assert PeriodsOn(events, white, d, i)[k] == rest[k'];
      PeriodsOnFrom(events, white, d, i + 1, k');
    }
  }

  /** The multi-period marking of a day is exactly the reference: the day
      has an entry iff some event covers it, and the entry holds one period
      per covering event, in list order. */
  lemma MultiMarkedDay(events: seq<Event>, white: string, d: int)
    requires AllValid(events)
    ensures d in MultiMarked(events, white).value <==> |EventsOn(events, d)| > 0
    ensures Get(MultiMarked(events, white).value, d) == PeriodsOn(events, white, d, 0)
    ensures |Get(MultiMarked(events, white).value, d)| == |EventsOn(events, d)|
  {
    MarkFromSpec(events, white, 0, map[], d);
    PeriodsOnCount(events, white, d, 0);
    assert events[0..] == events;
  }

  /** The entries the calendar receives: the periods plus the selection keys. */
  datatype MultiDay = MultiDay(periods: seq<Period>, selected: bool, disableTouchEvent: bool)

  /** The `markedDates` prop: every marked day, plus the selected day with
      its periods (or none) and the selection keys. */
  function MultiDisplay(marks: map<int, seq<Period>>, sel: int): (r: map<int, MultiDay>)
    ensures r.Keys == marks.Keys + {sel}
    ensures r[sel] == MultiDay(Get(marks, sel), true, true)
    ensures forall d :: d in marks && d != sel ==> r[d] == MultiDay(marks[d], false, false)
  {
    map d | d in marks.Keys + {sel} :: if d == sel then MultiDay(Get(marks, sel), true, true) else MultiDay(marks[d], false, false)
  }

  /** Selecting a day hides none of its periods. */
  lemma SelectedKeepsPeriods(events: seq<Event>, white: string, sel: int)
    requires AllValid(events)
    ensures MultiDisplay(MultiMarked(events, white).value, sel)[sel].periods == PeriodsOn(events, white, sel, 0)
    ensures |MultiDisplay(MultiMarked(events, white).value, sel)[sel].periods| == |EventsOn(events, sel)|
  {
    MultiMarkedDay(events, white, sel);
  }

  // ----------------------------------------------------- single-period

  /** A single-period day marking; `textColor` is absent on a selected day
      no event covers, and false flags stand for absent keys. */
  datatype Mark = Mark(color: string, textColor: Option<string>, startingDay: bool, endingDay: bool, selected: bool, disableTouchEvent: bool)

  /** The spread of a missing entry: no keys. */
  const Blank := Mark("", None, false, false, false, false)

  /** The marking an event leaves on a day of its interval. */
  function MarkOf(e: Event, primary: string, white: string, d: int): Mark
    requires Valid(e)
  {
    Mark(primary, Some(white), d == e.start.value, d == e.end.value, false, false)
  }

  /** The `forEach` of the single-period screen from `day` on: spread the
      existing entry, overwrite colour, text colour and both flags, and
      force both flags on a one-day interval. The forcing changes nothing:
      a one-day interval's only day is its start and its end. */
  function OverwriteDays(acc: map<int, Mark>, e: Event, primary: string, white: string, day: int): (r: map<int, Mark>)
    requires Valid(e) && e.start.value <= day
    ensures forall d :: d in r <==> d in acc || day <= d <= e.end.value
    ensures forall d :: d in acc && !(day <= d <= e.end.value) ==> r[d] == acc[d]
    ensures forall d :: day <= d <= e.end.value ==>
      r[d] == (if d in acc then acc[d] else Blank).(color := primary, textColor := Some(white), startingDay := d == e.start.value, endingDay := d == e.end.value)
    decreases e.end.value - day
  {
    if day > e.end.value then acc
    else
      var base := if day in acc then acc[day] else Blank;
      var m := base.(color := primary, textColor := Some(white), startingDay := day == e.start.value, endingDay := day == e.end.value);
      var m' := if e.end.value - e.start.value + 1 == 1 then m.(startingDay := true, endingDay := true) else m;
      assert m' == m;
      OverwriteDays(acc[day := m'], e, primary, white, day + 1)
  }

  function SingleFrom(events: seq<Event>, primary: string, white: string, i: nat, acc: map<int, Mark>): map<int, Mark>
    requires i <= |events| && AllValid(events)
    decreases |events| - i
  {
    if i == |events| then acc
    else SingleFrom(events, primary, white, i + 1, OverwriteDays(acc, events[i], primary, white, events[i].start.value))
  }

  /** `markedDates` of the single-period screen; `None` when
      `eachDayOfInterval` throws for one of the events. */
  function SingleMarked(events: seq<Event>, primary: string, white: string): (r: Option<map<int, Mark>>)
    ensures r.Some? <==> AllValid(events)
  {
    if AllValid(events) then Some(SingleFrom(events, primary, white, 0, map[])) else None
  }

  /** Reference: the last of the first `n` events whose interval holds `d`. */
  function LastCovering(events: seq<Event>, d: int, n: nat): (r: Option<nat>)
    requires n <= |events|
    ensures r.Some? ==> r.value < n && Covers(events[r.value], d)
    ensures r.Some? ==> forall j :: r.value < j < n ==> !Covers(events[j], d)
    ensures r.None? ==> forall j :: 0 <= j < n ==> !Covers(events[j], d)
  {
    if n == 0 then None
    else if Covers(events[n - 1], d) then Some(n - 1)
    else LastCovering(events, d, n - 1)
  }

  /** After the first `n` events, each day carries the marking of the last
      of them that covers it, and no other day has an entry. */
  ghost predicate SingleInv(events: seq<Event>, primary: string, white: string, acc: map<int, Mark>, n: nat)
    requires n <= |events| && AllValid(events)
  {
    forall d :: SingleAt(events, primary, white, acc, n, d)
  }

  /** The same for one day `d`. */
  ghost predicate SingleAt(events: seq<Event>, primary: string, white: string, acc: map<int, Mark>, n: nat, d: int)
    requires n <= |events| && AllValid(events)
  {
    && (d in acc <==> LastCovering(events, d, n).Some?)
    && (d in acc ==> acc[d] == MarkOf(events[LastCovering(events, d, n).value], primary, white, d))
  }

  lemma {:induction false} SingleFromSpec(events: seq<Event>, primary: string, white: string, i: nat, acc: map<int, Mark>)
    requires i <= |events| && AllValid(events)
    requires SingleInv(events, primary, white, acc, i)
    ensures SingleInv(events, primary, white, SingleFrom(events, primary, white, i, acc), |events|)
    decreases |events| - i
  {
    if i < |events| {
      var e := events[i];
      assert Valid(e);
      var acc' := OverwriteDays(acc, e, primary, white, e.start.value);
      SingleStep(events, primary, white, i, acc);
      SingleFromSpec(events, primary, white, i + 1, acc');
    }
  }

  /** One event of the loop: painting its days over the marking of the
      events before it gives the marking of the events up to it. */
  lemma SingleStep(events: seq<Event>, primary: string, white: string, i: nat, acc: map<int, Mark>)
    requires i < |events| && AllValid(events)
    requires SingleInv(events, primary, white, acc, i)
    ensures SingleInv(events, primary, white, OverwriteDays(acc, events[i], primary, white, events[i].start.value), i + 1)
  {
    var e := events[i];
    assert Valid(e);
    var acc' := OverwriteDays(acc, e, primary, white, e.start.value);
    var n := i + 1;
    forall d ensures SingleAt(events, primary, white, acc', n, d) {
      assert SingleAt(events, primary, white, acc, i, d);
      if Covers(e, d) {
        assert LastCovering(events, d, i + 1) == Some(i);
      } else {
        assert LastCovering(events, d, i + 1) == LastCovering(events, d, i);
      }
    }
  }

  /** The single-period marking of a day is the marking of the last event
      covering it, with `startingDay` true iff the day is that event's
      start and `endingDay` true iff it is its end; days no event covers
      have no entry. */
  lemma SingleMarkedDay(events: seq<Event>, primary: string, white: string, d: int)
    requires AllValid(events)
    ensures d in SingleMarked(events, primary, white).value <==> |EventsOn(events, d)| > 0
    ensures d in SingleMarked(events, primary, white).value ==>
      var j := LastCovering(events, d, |events|).value;
      SingleMarked(events, primary, white).value[d] == MarkOf(events[j], primary, white, d)
  {
    SingleFromSpec(events, primary, white, 0, map[]);
    var m := SingleMarked(events, primary, white).value;
    assert SingleAt(events, primary, white, m, |events|, d);
    if |EventsOn(events, d)| > 0 {
      var e := EventsOn(events, d)[0];
      assert e in events && Covers(e, d);
    }
    if LastCovering(events, d, |events|).Some? {
      assert events[LastCovering(events, d, |events|).value] in EventsOn(events, d);
    }
  }

  /** The `markedDates` prop of the single-period screen: the selected day
      keeps its marking's other keys, becomes selected and takes the
      secondary colour; every other day is unchanged. */
  function SingleDisplay(marks: map<int, Mark>, sel: int, secondary: string): (r: map<int, Mark>)
    ensures r.Keys == marks.Keys + {sel}
    ensures sel in marks ==> r[sel] == marks[sel].(color := secondary, selected := true, disableTouchEvent := true)
    ensures sel !in marks ==> r[sel] == Mark(secondary, None, false, false, true, true)
    ensures forall d :: d in marks && d != sel ==> r[d] == marks[d]
  {
    marks[sel := (if sel in marks then marks[sel] else Blank).(color := secondary, selected := true, disableTouchEvent := true)]
  }
}
