/** `getBotResponse`: the ordered keyword rules that pick what the bot
    answers, and `getLatestMenu`, which turns a list of meals into the
    reply text (with the morning/lunch/dinner grouping used for the
    dormitory). The fetches behind a notice or a menu are inputs. */
module ChatRouting {
  import opened Results
  import opened Text
  import opened Json
  import opened NoticeGateway
  import Selection

  /** What the bot does with a message: read a notice category, read the
      latest meals of a category under a caption (the `label` argument), or answer with fixed text. */
  datatype Route = Notice(category: string) | LatestMenu(category: string, caption: string) | Reply(text: string)

  const CourseText := "수강 신청은 학교 포털 사이트에서 가능합니다. 신청 기간은 2월 15일부터 2월 28일까지입니다."
  const ScholarshipText := "장학금 신청은 매 학기 시작 전 한 달 전부터 가능합니다. 자세한 내용은 학생지원과에 문의해주세요."
  const DormText := "기숙사 신청은 학교 홈페이지 기숙사 메뉴에서 확인하실 수 있습니다."
  const FallbackText := "안녕하세요! 학사, 장학, 일반 공지사항이나 학식 정보 등에 대해 물어보세요."

  /** `text.includes(k)` for some `k` of `keys`. */
  predicate AnyContains(text: string, keys: seq<string>)
    decreases |keys|
  {
    |keys| > 0 && (Contains(text, keys[0]) || AnyContains(text, keys[1..]))
  }

  lemma {:induction false} AnyContainsIff(text: string, keys: seq<string>)
    ensures AnyContains(text, keys) <==> exists i :: 0 <= i < |keys| && Contains(text, keys[i])
    decreases |keys|
  {
    if |keys| > 0 {
      AnyContainsIff(text, keys[1..]);
      if exists i :: 0 <= i < |keys| && Contains(text, keys[i]) {
        var i :| 0 <= i < |keys| && Contains(text, keys[i]);
        if i > 0 {
          assert keys[1..][i - 1] == keys[i];
        }
      }
      if exists i :: 0 <= i < |keys[1..]| && Contains(text, keys[1..][i]) {
        var i :| 0 <= i < |keys[1..]| && Contains(text, keys[1..][i]);
        assert keys[i + 1] == keys[1..][i];
      }
    }
  }

  // ---------------------------------------------------------- the cascade

  const StudentMealKeys: seq<string> := ["학생식단", "학생 학식", "학생 메뉴"]
  const StaffMealKeys: seq<string> := ["교직원식단", "교직원 학식", "교직원 메뉴"]
  const DormMealKeys: seq<string> := ["기숙사식단", "기숙사 학식", "기숙사 메뉴"]
  const AnyMealKeys: seq<string> := ["식단", "학식", "메뉴", "밥", "점심", "저녁"]

  /** The route `getBotResponse` takes, as its `if`/`else if` chain is
      written. */
  function RouteOf(text: string): Route {
    if Contains(text, "학사공지") then Notice("학사")
    else if Contains(text, "장학공지") || Contains(text, "장학금 공지") then Notice("장학")
    else if Contains(text, "일반공지") || Contains(text, "한경공지") then Notice("일반")
    else if Contains(text, "학사일정") then Notice("학사일정")
    else if Contains(text, "학생식단") || Contains(text, "학생 학식") || Contains(text, "학생 메뉴") then
      LatestMenu("학생식단", "학생식단")
    else if Contains(text, "교직원식단") || Contains(text, "교직원 학식") || Contains(text, "교직원 메뉴") then
      LatestMenu("교직원식단", "교직원식단")
    else if Contains(text, "기숙사식단") || Contains(text, "기숙사 학식") || Contains(text, "기숙사 메뉴") then
      LatestMenu("기숙사식단", "기숙사식단")
    else if || Contains(text, "식단") || Contains(text, "학식") || Contains(text, "메뉴")
            || Contains(text, "밥") || Contains(text, "점심") || Contains(text, "저녁") then
      LatestMenu("학생식단", "오늘의 식단")
    else if Contains(text, "수강 신청") then Reply(CourseText)
    else if Contains(text, "장학금") then Reply(ScholarshipText)
    else if Contains(text, "기숙사") then Reply(DormText)
    else Reply(FallbackText)
  }

  // ---------------------------------------------------------- rule table

  /** A rule fires when the message includes any of its keywords. */
  datatype Rule = Rule(keys: seq<string>, route: Route)

  predicate Fires(rule: Rule, text: string) {
    AnyContains(text, rule.keys)
  }

  /** The rules in the order they are tried. */
  const Rules: seq<Rule> := [
    Rule(["학사공지"], Notice("학사")),
    Rule(["장학공지", "장학금 공지"], Notice("장학")),
    Rule(["일반공지", "한경공지"], Notice("일반")),
    Rule(["학사일정"], Notice("학사일정")),
    Rule(StudentMealKeys, LatestMenu("학생식단", "학생식단")),
    Rule(StaffMealKeys, LatestMenu("교직원식단", "교직원식단")),
    Rule(DormMealKeys, LatestMenu("기숙사식단", "기숙사식단")),
    Rule(AnyMealKeys, LatestMenu("학생식단", "오늘의 식단")),
    Rule(["수강 신청"], Reply(CourseText)),
    Rule(["장학금"], Reply(ScholarshipText)),
    Rule(["기숙사"], Reply(DormText))
  ]

  /** The index of the first rule at or after `from` that fires. */
  function FirstFiring(rules: seq<Rule>, text: string, from: nat): (r: Option<nat>)
    requires from <= |rules|
    ensures r.Some? ==> from <= r.value < |rules| && Fires(rules[r.value], text)
    ensures forall j :: from <= j < |rules| && (r.None? || j < r.value) ==> !Fires(rules[j], text)
    decreases |rules| - from
  {
    if from == |rules| then None
    else if Fires(rules[from], text) then Some(from)
    else FirstFiring(rules, text, from + 1)
  }

  /** The first-match-wins reading of a rule table, with the greeting when
      no rule fires. */
  function Decide(rules: seq<Rule>, text: string): Route {
    match FirstFiring(rules, text, 0)
    case Some(i) => rules[i].route
    case None => Reply(FallbackText)
  }

  /** The written chain is the first-match-wins reading of the table. */
  lemma RouteOfTable(text: string)
    ensures RouteOf(text) == Decide(Rules, text)
  {
    KeysOf(text);
    var f := FirstFiring(Rules, text, 0);
    if f.Some? {
      var i := f.value;
      assert Fires(Rules[i], text);
      assert forall j :: 0 <= j < i ==> !Fires(Rules[j], text);
    } else {
      assert forall j :: 0 <= j < |Rules| ==> !Fires(Rules[j], text);
    }
  }

  /** Each rule fires exactly when one of its keywords is included. */
  lemma KeysOf(text: string)
    ensures Fires(Rules[0], text) <==> Contains(text, "학사공지")
    ensures Fires(Rules[1], text) <==> Contains(text, "장학공지") || Contains(text, "장학금 공지")
    ensures Fires(Rules[2], text) <==> Contains(text, "일반공지") || Contains(text, "한경공지")
    ensures Fires(Rules[3], text) <==> Contains(text, "학사일정")
    ensures Fires(Rules[4], text) <==> Contains(text, "학생식단") || Contains(text, "학생 학식") || Contains(text, "학생 메뉴")
    ensures Fires(Rules[5], text) <==> Contains(text, "교직원식단") || Contains(text, "교직원 학식") || Contains(text, "교직원 메뉴")
    ensures Fires(Rules[6], text) <==> Contains(text, "기숙사식단") || Contains(text, "기숙사 학식") || Contains(text, "기숙사 메뉴")
    ensures Fires(Rules[7], text) <==> (|| Contains(text, "식단") || Contains(text, "학식") || Contains(text, "메뉴")
                                        || Contains(text, "밥") || Contains(text, "점심") || Contains(text, "저녁"))
    ensures Fires(Rules[8], text) <==> Contains(text, "수강 신청")
    ensures Fires(Rules[9], text) <==> Contains(text, "장학금")
    ensures Fires(Rules[10], text) <==> Contains(text, "기숙사")
  {
    forall r | r in Rules ensures Fires(r, text) <==> exists i :: 0 <= i < |r.keys| && Contains(text, r.keys[i]) {
      AnyContainsIff(text, r.keys);
    }
  }

  /** A message that includes a notice keyword is answered with that
      notice, whatever else it includes; in particular the generic meal
      words only route to a menu when no notice rule and no specific
      meal rule fired before them. */
  lemma GenericMealRoute(text: string)
    ensures RouteOf(text) == LatestMenu("학생식단", "오늘의 식단") <==>
              (&& (forall j :: 0 <= j < 7 ==> !Fires(Rules[j], text))
               && AnyContains(text, AnyMealKeys))
  {
    RouteOfTable(text);
    var f := FirstFiring(Rules, text, 0);
    if f.Some? && f.value < 7 {
      assert Rules[f.value].route != LatestMenu("학생식단", "오늘의 식단");
    }
    if f.Some? && f.value > 7 {
      assert !Fires(Rules[7], text);
    }
  }

  /** The greeting is the answer exactly when no rule's keyword is
      included. */
  lemma FallbackIff(text: string)
    ensures RouteOf(text) == Reply(FallbackText) <==> forall j :: 0 <= j < |Rules| ==> !Fires(Rules[j], text)
  {
    RouteOfTable(text);
    var f := FirstFiring(Rules, text, 0);
    if f.Some? {
      assert Rules[f.value].route != Reply(FallbackText);
    }
  }

  /** "학생 학식" also includes the generic "학식", yet a message naming it
      (and no notice) gets the student menu, not the generic rule's
      "오늘의 식단" reply. */
  lemma SpecificBeforeGeneric(text: string)
    requires Contains(text, "학생 학식")
    requires forall j :: 0 <= j < 4 ==> !Fires(Rules[j], text)
    ensures Fires(Rules[7], text)
    ensures RouteOf(text) == LatestMenu("학생식단", "학생식단")
  {
    KeysOf(text);
    ContainsAt(text, "학생 학식");
    var i :| OccursAt(text, "학생 학식", i);
    assert text[i + 3..i + 5] == text[i..i + 5][3..5];
    assert OccursAt(text, "학식", i + 3);
    ContainsAt(text, "학식");
  }

  /** "장학금 공지" also includes the canned answer's "장학금", yet it
      routes to the scholarship notices. */
  lemma NoticeBeforeCanned(text: string)
    requires Contains(text, "장학금 공지") && !Contains(text, "학사공지")
    ensures Fires(Rules[9], text)
    ensures RouteOf(text) == Notice("장학")
  {
    KeysOf(text);
    ContainsAt(text, "장학금 공지");
    var i :| OccursAt(text, "장학금 공지", i);
    assert text[i..i + 3] == text[i..i + 6][..3];
    assert OccursAt(text, "장학금", i);
    ContainsAt(text, "장학금");
  }

  // ------------------------------------------------------ dormitory meals

  datatype Slot = Breakfast | Lunch | Dinner

  function SlotName(s: Slot): string {
    match s
    case Breakfast => "아침"
    case Lunch => "점심"
    case Dinner => "저녁"
  }

  /** The meal a line announces, if any: the breakfast markers are tested
      first, then lunch, then dinner. */
  function Marker(line: string): Option<Slot> {
    if Contains(line, "천원의 아침밥") || Contains(line, "08:00") then Some(Breakfast)
    else if Contains(line, "12:00") || Contains(line, "점심") then Some(Lunch)
    else if Contains(line, "17:00") || Contains(line, "저녁") then Some(Dinner)
    else None
  }

  /** The meal in force at line `i`: the one announced by the last marker
      line at or before it. */
  function SlotAt(lines: seq<string>, i: nat): Option<Slot>
    requires i < |lines|
  {
    if Marker(lines[i]).Some? then Marker(lines[i])
    else if i == 0 then None
    else SlotAt(lines, i - 1)
  }

  /** Reference grouping: the lines among the first `n` whose meal in
      force is `s`, in order. */
  function Section(lines: seq<string>, s: Slot, n: nat): seq<string>
    requires n <= |lines|
  {
    if n == 0 then []
    else Section(lines, s, n - 1) + (if SlotAt(lines, n - 1) == Some(s) then [lines[n - 1]] else [])
  }

  /** The `mealMap` of the source. */
  datatype Groups = Groups(breakfast: seq<string>, lunch: seq<string>, dinner: seq<string>) {
    function Get(s: Slot): seq<string> {
      match s
      case Breakfast => breakfast
      case Lunch => lunch
      case Dinner => dinner
    }

    function Push(s: Slot, line: string): (r: Groups)
      ensures r.Get(s) == Get(s) + [line]
      ensures forall t :: t != s ==> r.Get(t) == Get(t)
    {
      match s
      case Breakfast => this.(breakfast := breakfast + [line])
      case Lunch => this.(lunch := lunch + [line])
      case Dinner => this.(dinner := dinner + [line])
    }
  }

  /** The source's loop over a meal's lines from line `n` on, carrying
      `currentMeal`. */
  function GroupFrom(lines: seq<string>, n: nat, current: Option<Slot>, g: Groups): Groups
    requires n <= |lines|
    decreases |lines| - n
  {
    if n == |lines| then g
    else
      var c := if Marker(lines[n]).Some? then Marker(lines[n]) else current;
      GroupFrom(lines, n + 1, c, if c.Some? then g.Push(c.value, lines[n]) else g)
  }

  function Group(lines: seq<string>): Groups {
    GroupFrom(lines, 0, None, Groups([], [], []))
  }

  /** The loop files every line under the meal in force at it. */
  lemma GroupSections(lines: seq<string>, s: Slot)
    ensures Group(lines).Get(s) == Section(lines, s, |lines|)
  {
    GroupFromSections(lines, 0, None, Groups([], [], []));
    assert Filed(lines, Group(lines), |lines|);
  }

  /** The groups hold the sections of the first `n` lines. */
  predicate Filed(lines: seq<string>, g: Groups, n: nat)
    requires n <= |lines|
  {
    forall s :: g.Get(s) == Section(lines, s, n)
  }

  lemma {:induction false} GroupFromSections(lines: seq<string>, n: nat, current: Option<Slot>, g: Groups)
    requires n <= |lines|
    requires current == if n == 0 then None else SlotAt(lines, n - 1)
    requires Filed(lines, g, n)
    ensures Filed(lines, GroupFrom(lines, n, current, g), |lines|)
    decreases |lines| - n
  {
    if n < |lines| {
      var c := if Marker(lines[n]).Some? then Marker(lines[n]) else current;
      var g' := if c.Some? then g.Push(c.value, lines[n]) else g;
      assert GroupFrom(lines, n, current, g) == GroupFrom(lines, n + 1, c, g');
      GroupStep(lines, n, current, g, c, g');
      GroupFromSections(lines, n + 1, c, g');
    }
  }

  /** One pass of the loop: the meal in force moves to line `n`, and the
      groups become the sections of the first `n + 1` lines. */
  lemma GroupStep(lines: seq<string>, n: nat, current: Option<Slot>, g: Groups, c: Option<Slot>, g': Groups)
    requires n < |lines|
    requires current == if n == 0 then None else SlotAt(lines, n - 1)
    requires Filed(lines, g, n)
    requires c == if Marker(lines[n]).Some? then Marker(lines[n]) else current
    requires g' == if c.Some? then g.Push(c.value, lines[n]) else g
    ensures c == SlotAt(lines, n) && Filed(lines, g', n + 1)
  {
    assert c == SlotAt(lines, n);
    forall s ensures g'.Get(s) == Section(lines, s, n + 1) {
      assert Section(lines, s, n + 1) == Section(lines, s, n) + (if c == Some(s) then [lines[n]] else []);
    }
  }

  /** The number of leading lines before the first marker line. */
  function Unmarked(lines: seq<string>): (k: nat)
    ensures k <= |lines|
    ensures forall j :: 0 <= j < k ==> Marker(lines[j]).None?
    ensures k < |lines| ==> Marker(lines[k]).Some?
  {
    if |lines| == 0 || Marker(lines[0]).Some? then 0
    else
      var k := Unmarked(lines[1..]);
      assert forall j :: 1 <= j < k + 1 ==> lines[j] == lines[1..][j - 1];
      1 + k
  }

  /** A line has a meal in force exactly when some marker line comes at or
      before it. */
  lemma {:induction false} SlotAtSome(lines: seq<string>, i: nat)
    requires i < |lines|
    ensures SlotAt(lines, i).Some? <==> i >= Unmarked(lines)
  {
    if Marker(lines[i]).None? && i > 0 {
      SlotAtSome(lines, i - 1);
    }
  }

  /** Exactly the lines before the first marker are dropped: the three
      sections together hold every other line. */
  lemma {:induction false} SectionsDropLeading(lines: seq<string>, n: nat)
    requires n <= |lines|
    ensures |Section(lines, Breakfast, n)| + |Section(lines, Lunch, n)| + |Section(lines, Dinner, n)|
         == if n <= Unmarked(lines) then 0 else n - Unmarked(lines)
  {
    if n > 0 {
      SectionsDropLeading(lines, n - 1);
      SlotAtSome(lines, n - 1);
      SectionsStep(lines, n);
    }
  }

  /** Line `n - 1` joins one section exactly when a meal is in force there. */
  lemma SectionsStep(lines: seq<string>, n: nat)
    requires 0 < n <= |lines|
    ensures |Section(lines, Breakfast, n)| + |Section(lines, Lunch, n)| + |Section(lines, Dinner, n)|
         == |Section(lines, Breakfast, n - 1)| + |Section(lines, Lunch, n - 1)| + |Section(lines, Dinner, n - 1)|
            + (if SlotAt(lines, n - 1).Some? then 1 else 0)
  {
    var o := SlotAt(lines, n - 1);
    forall s ensures |Section(lines, s, n)| == |Section(lines, s, n - 1)| + (if o == Some(s) then 1 else 0) {
    }
    if o.Some? {
      match o.value
      case Breakfast =>
      case Lunch =>
      case Dinner =>
    }
  }

  /** `- ${line.trim()}\n` for each line. */
  function Bullets(lines: seq<string>): string {
    if |lines| == 0 then "" else "- " + Trim(lines[0]) + "\n" + Bullets(lines[1..])
  }

  /** One meal's section: the heading and its lines, or nothing when no
      line was filed under it. */
  function SectionText(s: Slot, lines: seq<string>): string {
    if |lines| == 0 then "" else "[" + SlotName(s) + "]\n" + Bullets(lines) + "\n"
  }

  /** The dormitory layout of one day's menu lines. */
  function DormBlock(menu: seq<string>): string {
    var g := Group(menu);
    SectionText(Breakfast, g.breakfast) + SectionText(Lunch, g.lunch) + SectionText(Dinner, g.dinner)
  }

  /** `item.menu.map(line => `- ${line}`)`. */
  function BulletLines(menu: seq<string>): (r: seq<string>)
    ensures |r| == |menu| && forall i :: 0 <= i < |menu| ==> r[i] == "- " + menu[i]
  {
    seq(|menu|, i requires 0 <= i < |menu| => "- " + menu[i])
  }

  /** `item.menu.map(line => `- ${line}`).join("\n") + "\n\n"`. */
  function PlainBlock(menu: seq<string>): (r: string)
    ensures |menu| >= 1 ==> StartsWith(r, "- " + menu[0])
  {
    var bullets := BulletLines(menu);
    JoinThenStartsWith(bullets, "\n");
    Join(bullets, "\n") + "\n\n"
  }

  lemma JoinThenStartsWith(parts: seq<string>, sep: string)
    ensures |parts| > 0 ==> StartsWith(Join(parts, sep) + "\n\n", parts[0])
  {
    if |parts| > 0 {
      JoinStartsWith(parts, sep);
      var j := Join(parts, sep);
      assert (j + "\n\n")[..|parts[0]|] == j[..|parts[0]|];
    }
  }

  /** Menu lines as `getMenuForCategory` returns them are already trimmed,
      so the dormitory layout's `trim` changes nothing. */
  lemma {:induction false} BulletsOfClean(lines: seq<string>)
    requires AllClean(lines)
    ensures Bullets(lines) == Concat(Selection.Map(lines, BulletOf))
  {
    if |lines| > 0 {
      BulletsStep(lines);
      BulletsOfClean(lines[1..]);
      var m := Selection.Map(lines, BulletOf);
      assert m == [BulletOf(lines[0])] + Selection.Map(lines[1..], BulletOf);
      assert m[1..] == Selection.Map(lines[1..], BulletOf);
    }
  }

  /** `- ${line}` and a newline. */
  function BulletOf(line: string): string {
    "- " + line + "\n"
  }

  /** The first clean line is shown as it is. */
  lemma BulletsStep(lines: seq<string>)
    requires |lines| > 0 && AllClean(lines)
    ensures Bullets(lines) == "- " + lines[0] + "\n" + Bullets(lines[1..])
    ensures AllClean(lines[1..])
  {
    CleanIsTrimmed(lines[0]);
    assert forall i :: 0 <= i < |lines[1..]| ==> lines[1..][i] == lines[i + 1];
  }

  /** The strings of `parts` one after another. */
  function Concat(parts: seq<string>): string {
    if |parts| == 0 then "" else parts[0] + Concat(parts[1..])
  }

  // -------------------------------------------------------- menu replies

  function MenuHeader(caption: string): string {
    caption + " 최근 식단 정보입니다:\n"
  }

  /** The date/time line that opens each meal. */
  function DayLine(m: Meal): string {
    "\n" + m.date + " (" + m.time + ")"
  }

  /** `\n${item.date} (${item.time})\n` and the meal's lines. */
  function MealBlock(category: string, m: Meal): string {
    DayLine(m) + MealLines(category, m)
  }

  function MealLines(category: string, m: Meal): string {
    "\n" + (if category == "기숙사식단" then DormBlock(m.menu) else PlainBlock(m.menu))
  }

  function MealBlocks(category: string, meals: seq<Meal>): string {
    if |meals| == 0 then "" else MealBlock(category, meals[0]) + MealBlocks(category, meals[1..])
  }

  /** `getLatestMenu(category, caption)` given what `getMenuForCategory`
      produced (its meals, or the error it threw). */
  function LatestMenuText(category: string, caption: string, menus: Result<seq<Meal>, string>): (r: string)
    ensures menus.Err? ==> r == caption + " 정보를 가져오는 데 오류가 발생했습니다."
    ensures menus.Ok? && |menus.value| == 0 ==> r == caption + " 식단 정보가 없습니다."
    ensures (menus.Ok? && |menus.value| > 0 && |caption| > 0 && !IsSpace(caption[0])) ==>
              StartsWith(r, MenuHeader(caption) + DayLine(menus.value[0]))
  {
    match menus
    case Err(_) => caption + " 정보를 가져오는 데 오류가 발생했습니다."
    case Ok(meals) =>
      if |meals| == 0 then caption + " 식단 정보가 없습니다."
      else
        if |caption| > 0 && !IsSpace(caption[0]) then
          MenuReplyStart(category, caption, meals);
          Trim(MenuHeader(caption) + MealBlocks(category, meals))
        else
          Trim(MenuHeader(caption) + MealBlocks(category, meals))
  }

  /** The reply opens with the header and the first meal's date and time. */
  lemma MenuReplyStart(category: string, caption: string, meals: seq<Meal>)
    requires |meals| > 0 && |caption| > 0 && !IsSpace(caption[0])
    ensures StartsWith(Trim(MenuHeader(caption) + MealBlocks(category, meals)),
                       MenuHeader(caption) + DayLine(meals[0]))
  {
    var m := meals[0];
    var h, d := MenuHeader(caption), DayLine(m);
    var y := MealLines(category, m);
    var rest := MealBlocks(category, meals[1..]);
    assert MealBlocks(category, meals) == (d + y) + rest;
    Regroup(h, d, y, rest);
    assert (h + d)[0] == caption[0];
    assert (h + d)[|h + d| - 1] == ')';
    TrimKeepsPrefix(h + d, y + rest);
  }

  lemma Regroup(h: string, d: string, y: string, rest: string)
    ensures h + ((d + y) + rest) == (h + d) + (y + rest)
  {
  }

  /** The meals' blocks follow one another: the blocks of two runs of
      meals are the blocks of the first run, then those of the second. */
  lemma {:induction false} MealBlocksAppend(category: string, a: seq<Meal>, b: seq<Meal>)
    ensures MealBlocks(category, a + b) == MealBlocks(category, a) + MealBlocks(category, b)
    decreases |a|
  {
    if |a| == 0 {
      assert a + b == b;
    } else {
      assert (a + b)[0] == a[0];
      assert (a + b)[1..] == a[1..] + b;
      MealBlocksAppend(category, a[1..], b);
    }
  }

  /** The date and time of a meal as its block shows them. */
  function DateTime(m: Meal): string {
    m.date + " (" + m.time + ")"
  }

  /** Outside the dormitory, a meal's block read line by line is an empty
      line, the date and time, one "- " line per menu line, and two empty
      lines. */
  lemma MealBlockLines(category: string, m: Meal)
    requires category != "기숙사식단"
    requires OneLine(m.date) && OneLine(m.time) && |m.menu| >= 1
    requires forall i :: 0 <= i < |m.menu| ==> OneLine(m.menu[i])
    ensures Split(MealBlock(category, m), '\n') == ["", DateTime(m)] + BulletLines(m.menu) + ["", ""]
  {
    MealBlockJoin(category, m);
    MealPartsOneLine(m);
    SplitJoin(MealParts(m), '\n');
  }

  /** The lines of a non-dormitory block. */
  function MealParts(m: Meal): seq<string> {
    ["", DateTime(m)] + BulletLines(m.menu) + ["", ""]
  }

  /** A non-dormitory block is its lines joined by newlines. */
  lemma MealBlockJoin(category: string, m: Meal)
    requires category != "기숙사식단" && |m.menu| >= 1
    ensures Join(MealParts(m), "\n") == MealBlock(category, m)
  {
    var dl, bl := DateTime(m), BulletLines(m.menu);
    JoinAround(dl, bl, "\n");
    assert DayLine(m) == "\n" + dl;
    assert MealBlock(category, m) == ("\n" + dl) + ("\n" + (Join(bl, "\n") + "\n\n"));
    Regroup4("\n" + dl, Join(bl, "\n"));
  }

  /** Joining a line, the middle lines and two empty lines. */
  lemma JoinAround(dl: string, bl: seq<string>, sep: string)
    requires |bl| >= 1
    ensures Join(["", dl] + bl + ["", ""], sep) == (sep + dl) + sep + (Join(bl, sep) + sep + sep)
  {
    JoinAppend(["", dl], bl + ["", ""], sep);
    JoinAppend(bl, ["", ""], sep);
    assert ["", dl] + bl + ["", ""] == ["", dl] + (bl + ["", ""]);
    assert sep + "" == sep;
    JoinAfterEmpty(dl, sep);
    JoinAfterEmpty("", sep);
  }

  lemma JoinAfterEmpty(b: string, sep: string)
    ensures Join(["", b], sep) == sep + b
  {
    assert ["", b][1..] == [b];
    assert "" + sep + b == sep + b;
  }

  lemma Regroup4(a: string, j: string)
    ensures a + "\n" + (j + "\n" + "\n") == a + ("\n" + (j + "\n\n"))
  {
  }

  /** No line of a block holds a newline when the date, time and menu
      lines hold none. */
  lemma MealPartsOneLine(m: Meal)
    requires OneLine(m.date) && OneLine(m.time)
    requires forall i :: 0 <= i < |m.menu| ==> OneLine(m.menu[i])
    ensures forall i :: 0 <= i < |MealParts(m)| ==> '\n' !in MealParts(m)[i]
  {
    var parts := MealParts(m);
    forall i | 0 <= i < |parts| ensures '\n' !in parts[i] {
      if 2 <= i < |parts| - 2 {
        assert parts[i] == "- " + m.menu[i - 2];
      }
    }
  }

  /** Outside the dormitory, and when the last meal's last line is a clean
      menu line, the reply is the header followed by every meal's block,
      with only the two blank lines that close the last block dropped by
      `trim`. */
  lemma PlainReply(category: string, caption: string, meals: seq<Meal>)
    requires category != "기숙사식단"
    requires |caption| > 0 && !IsSpace(caption[0])
    requires |meals| > 0
    requires var menu := meals[|meals| - 1].menu; |menu| >= 1 && CleanLine(menu[|menu| - 1])
    ensures LatestMenuText(category, caption, Ok(meals)) + "\n\n" == MenuHeader(caption) + MealBlocks(category, meals)
  {
    var y := BlocksBeforeBlank(category, caption, meals);
    TrimDropsSpaceTail(y, "\n\n");
  }

  /** The header and blocks are a text with no white space at either end,
      then two blank lines. */
  lemma BlocksBeforeBlank(category: string, caption: string, meals: seq<Meal>) returns (y: string)
    requires category != "기숙사식단"
    requires |caption| > 0 && !IsSpace(caption[0])
    requires |meals| > 0
    requires var menu := meals[|meals| - 1].menu; |menu| >= 1 && CleanLine(menu[|menu| - 1])
    ensures MenuHeader(caption) + MealBlocks(category, meals) == y + "\n\n"
    ensures |y| > 0 && !IsSpace(y[0]) && !IsSpace(y[|y| - 1])
  {
    var n := |meals| - 1;
    var last := meals[n];
    LastBlock(category, meals);
    var h, b, d := MenuHeader(caption), MealBlocks(category, meals[..n]), DayLine(last);
    var j := Join(BulletLines(last.menu), "\n");
    y := (h + b + d + "\n") + j;
    Reassociate(h, b, d, j);
    BulletsEndClean(last.menu);
    LastOfAppend(h + b + d + "\n", j);
    assert y[0] == h[0] == caption[0];
  }

  /** The bullets of a menu whose last line is clean end in that line's
      last character, which is not white space. */
  lemma BulletsEndClean(menu: seq<string>)
    requires |menu| >= 1 && CleanLine(menu[|menu| - 1])
    ensures var j := Join(BulletLines(menu), "\n"); |j| > 0 && !IsSpace(j[|j| - 1])
  {
    var bl := BulletLines(menu);
    var l := menu[|menu| - 1];
    assert bl[|bl| - 1] == "- " + l;
    LastOfAppend("- ", l);
    JoinEndsWith(bl, "\n");
  }

  /** Outside the dormitory, the blocks are those of all meals but the
      last, then the last one's date line, its bullets and two newlines. */
  lemma LastBlock(category: string, meals: seq<Meal>)
    requires category != "기숙사식단" && |meals| > 0
    ensures var n := |meals| - 1;
            MealBlocks(category, meals) == MealBlocks(category, meals[..n])
              + (DayLine(meals[n]) + ("\n" + (Join(BulletLines(meals[n].menu), "\n") + "\n\n")))
  {
    var n := |meals| - 1;
    var last := meals[n];
    assert meals == meals[..n] + [last];
    MealBlocksAppend(category, meals[..n], [last]);
    assert MealBlocks(category, [last]) == MealBlock(category, last) by {
      assert [last][1..] == [];
    }
  }

  lemma Reassociate(h: string, b: string, d: string, j: string)
    ensures h + (b + (d + ("\n" + (j + "\n\n")))) == ((h + b + d + "\n") + j) + "\n\n"
  {
  }

  lemma LastOfAppend(p: string, q: string)
    requires |q| > 0
    ensures (p + q)[|p + q| - 1] == q[|q| - 1]
  {
  }

  /** The bullets joined end with the last menu line's last character. */
  lemma JoinEndsWith(bullets: seq<string>, sep: string)
    requires |bullets| >= 1 && |bullets[|bullets| - 1]| > 0
    ensures var j := Join(bullets, sep); var l := bullets[|bullets| - 1]; |j| > 0 && j[|j| - 1] == l[|l| - 1]
  {
    JoinLast(bullets, sep);
    var pre := if |bullets| == 1 then "" else Join(bullets[..|bullets| - 1], sep) + sep;
    LastOfAppend(pre, bullets[|bullets| - 1]);
  }


  /** The reply to a message, given what the notice and meal fetches of
      each category produce and how a meal date is read as a time. */
  function BotResponse(text: string, noticeFetch: string -> Fetch, mealFetch: string -> Fetch,
                       parse: Value -> int): string
  {
    match RouteOf(text)
    case Notice(c) => NoticeText(c, noticeFetch(c))
    case LatestMenu(c, caption) => LatestMenuText(c, caption, MenuForCategory(mealFetch(c), parse))
    case Reply(t) => t
  }

  /** Rule `i` is the first of the table that fires. */
  predicate FirstRule(text: string, i: int) {
    0 <= i < |Rules| && Fires(Rules[i], text) && forall j :: 0 <= j < i ==> !Fires(Rules[j], text)
  }

  lemma FirstRuleRoute(text: string, i: int)
    requires FirstRule(text, i)
    ensures RouteOf(text) == Rules[i].route
  {
    RouteOfTable(text);
  }

  /** When a notice keyword comes first, the reply is that category's
      notice list (or its error text), whatever the meal fetches give. */
  lemma BotNotice(text: string, i: int, noticeFetch: string -> Fetch, mealFetch: string -> Fetch, parse: Value -> int)
    requires FirstRule(text, i) && i < 4
    ensures Rules[i].route.Notice?
    ensures var c := Rules[i].route.category;
            BotResponse(text, noticeFetch, mealFetch, parse) == NoticeText(c, noticeFetch(c))
  {
    FirstRuleRoute(text, i);
  }

  /** When a meal keyword comes first, the reply reads the rule's meal
      category: the error text when the menu cannot be had, and otherwise
      it opens with the header and the first meal's date line and is never
      the "no meals" text. Outside the dormitory it is the header and one
      block per meal. */
  lemma BotMenu(text: string, i: int, noticeFetch: string -> Fetch, mealFetch: string -> Fetch, parse: Value -> int)
    requires FirstRule(text, i) && 4 <= i < 8
    ensures Rules[i].route.LatestMenu?
    ensures var c, caption := Rules[i].route.category, Rules[i].route.caption;
            var menus := MenuForCategory(mealFetch(c), parse);
            var r := BotResponse(text, noticeFetch, mealFetch, parse);
            && (menus.Err? ==> r == caption + " 정보를 가져오는 데 오류가 발생했습니다.")
            && (menus.Ok? ==> StartsWith(r, MenuHeader(caption) + DayLine(menus.value[0])))
            && (menus.Ok? && c != "기숙사식단" ==> r + "\n\n" == MenuHeader(caption) + MealBlocks(c, menus.value))
  {
    FirstRuleRoute(text, i);
    var c, caption := Rules[i].route.category, Rules[i].route.caption;
    MenuReply(c, caption, mealFetch(c), parse);
  }

  /** The reply for one meal category and caption, given its fetch. */
  lemma MenuReply(c: string, caption: string, f: Fetch, parse: Value -> int)
    requires |caption| > 0 && !IsSpace(caption[0])
    ensures var menus := MenuForCategory(f, parse);
            var r := LatestMenuText(c, caption, menus);
            && (menus.Err? ==> r == caption + " 정보를 가져오는 데 오류가 발생했습니다.")
            && (menus.Ok? ==> StartsWith(r, MenuHeader(caption) + DayLine(menus.value[0])))
            && (menus.Ok? && c != "기숙사식단" ==> r + "\n\n" == MenuHeader(caption) + MealBlocks(c, menus.value))
  {
    var menus := MenuForCategory(f, parse);
    if menus.Ok? {
      LastMealClean(f, parse);
      if c != "기숙사식단" {
        PlainReply(c, caption, menus.value);
      }
    }
  }

  /** The last meal of a menu that could be had ends with a clean line. */
  lemma LastMealClean(f: Fetch, parse: Value -> int)
    requires MenuForCategory(f, parse).Ok?
    ensures var meals := MenuForCategory(f, parse).value;
            && |meals| > 0
            && var menu := meals[|meals| - 1].menu; |menu| >= 1 && CleanLine(menu[|menu| - 1])
  {
    var meals := MenuForCategory(f, parse).value;
    var n := |meals| - 1;
    var item := SelectMeals(f, parse).value[n];
    assert MealsOf(meals, SelectMeals(f, parse).value);
    assert meals[n] == MealOf(item);
    var menu := MealOf(item).menu;
    assert AllClean(menu);
    assert CleanLine(menu[|menu| - 1]);
  }

  /** In the dormitory a meal with no marker line shows only its date
      line, and `trim` then drops a single newline: the reply is not the
      header and blocks less two closing newlines, as it is elsewhere. */
  lemma DormTrimsLess(caption: string, m: Meal)
    requires |caption| > 0 && !IsSpace(caption[0])
    requires DormBlock(m.menu) == ""
    ensures var whole := MenuHeader(caption) + MealBlocks("기숙사식단", [m]);
            && LatestMenuText("기숙사식단", caption, Ok([m])) == whole[..|whole| - 1]
            && LatestMenuText("기숙사식단", caption, Ok([m])) + "\n\n" != whole
  {
    var p := MenuHeader(caption) + DayLine(m);
    DormWhole(caption, m);
    TrimDropsSpaceTail(p, "\n");
  }

  /** The dormitory text of such a meal: the header, its date line and
      one newline. */
  lemma DormWhole(caption: string, m: Meal)
    requires |caption| > 0 && !IsSpace(caption[0])
    requires DormBlock(m.menu) == ""
    ensures var p := MenuHeader(caption) + DayLine(m);
            && !IsSpace(p[0]) && !IsSpace(p[|p| - 1]) && AllSpace("\n")
            && MenuHeader(caption) + MealBlocks("기숙사식단", [m]) == p + "\n"
            && (p + "\n")[..|p|] == p
  {
    var p := MenuHeader(caption) + DayLine(m);
    assert MealBlocks("기숙사식단", [m]) == DayLine(m) + "\n";
    assert p[0] == caption[0];
    assert p[|p| - 1] == ')';
  }

  /** When a fixed-answer keyword comes first, the reply is that answer. */
  lemma BotCanned(text: string, i: int, noticeFetch: string -> Fetch, mealFetch: string -> Fetch, parse: Value -> int)
    requires FirstRule(text, i) && 8 <= i
    ensures Rules[i].route.Reply?
    ensures BotResponse(text, noticeFetch, mealFetch, parse) == Rules[i].route.text
  {
    FirstRuleRoute(text, i);
  }

  /** When no rule fires, the reply is the greeting. */
  lemma BotGreeting(text: string, noticeFetch: string -> Fetch, mealFetch: string -> Fetch, parse: Value -> int)
    requires forall j :: 0 <= j < |Rules| ==> !Fires(Rules[j], text)
    ensures BotResponse(text, noticeFetch, mealFetch, parse) == FallbackText
  {
    FallbackIff(text);
  }
}
