/** The JSON the notice proxy hands back, as far as the application looks
    at it: an array of items whose fields may be missing, `null`, or any
    primitive; and the JavaScript conversions the code applies to them. */
module Json {
  import opened Results
  import opened Text

  /** A field value. Numbers are integers here: fractions, `NaN` and
      `Infinity` have no counterpart. Objects and arrays are one opaque
      kind, rendered as an object is. */
  datatype Value = VNull | VStr(s: string) | VNum(n: int) | VBool(b: bool) | VObject

  /** An array element: `null`, some other primitive, or an object. */
  datatype Item = NullItem | Primitive | Record(fields: map<string, Value>)

  /** A parsed response body: not JSON at all, JSON that is not an array,
      or an array. */
  datatype Body = Malformed | NonArray | Array(items: seq<Item>)

  /** The outcome of a `fetch`: it threw, or it returned a status and a body. */
  datatype Fetch = NetworkError | Responded(ok: bool, status: int, body: Body)

  /** `item?.key`: `None` stands for `undefined`. */
  function Field(item: Item, key: string): (r: Option<Value>)
    ensures r.Some? <==> item.Record? && key in item.fields
  {
    match item
    case Record(fields) => if key in fields then Some(fields[key]) else None
    case _ => None
  }

  /** Neither `undefined` nor `null`: what `??` tests. */
  predicate Defined(o: Option<Value>) {
    o.Some? && !o.value.VNull?
  }

  /** JavaScript truthiness: what `||` and `? :` test. */
  predicate Truthy(o: Option<Value>) {
    match o
    case None => false
    case Some(v) =>
      match v
      case VNull => false
      case VStr(s) => |s| > 0
      case VNum(n) => n != 0
      case VBool(b) => b
      case VObject => true
  }

  lemma TruthyIsDefined(o: Option<Value>)
    ensures Truthy(o) ==> Defined(o)
  {
  }

  /** The text a value becomes inside a template literal; numbers of
      magnitude 10^21 or more stay in decimal here (see `Text.IntToString`). */
  function Render(v: Value): (r: string)
    ensures v.VStr? ==> r == v.s
  {
    match v
    case VNull => "null"
    case VStr(s) => s
    case VNum(n) => IntToString(n)
    case VBool(b) => if b then "true" else "false"
    case VObject => "[object Object]"
  }

  /** The first of `keys` whose field is neither `undefined` nor `null`:
      the meaning of `item?.k1 ?? item?.k2 ?? ...`. */
  function FirstDefined(item: Item, keys: seq<string>): (r: Option<Value>)
    ensures r.None? <==> forall i :: 0 <= i < |keys| ==> !Defined(Field(item, keys[i]))
    ensures r.Some? ==> exists i :: 0 <= i < |keys| && Field(item, keys[i]) == r
                                   && Defined(r)
                                   && forall j :: 0 <= j < i ==> !Defined(Field(item, keys[j]))
  {
    if |keys| == 0 then None
    else if Defined(Field(item, keys[0])) then
      var r := Field(item, keys[0]);
      assert 0 < |keys| && Field(item, keys[0]) == r;
      r
    else
      var r := FirstDefined(item, keys[1..]);
      assert forall i :: 1 <= i < |keys| ==> keys[1..][i - 1] == keys[i];
      if r.Some? then
        var i :| 0 <= i < |keys[1..]| && Field(item, keys[1..][i]) == r && Defined(r)
                 && forall j :: 0 <= j < i ==> !Defined(Field(item, keys[1..][j]));
        assert Field(item, keys[i + 1]) == r;
        r
      else r
  }

  lemma FirstDefinedCons(item: Item, k: string, rest: seq<string>)
    ensures FirstDefined(item, [k] + rest)
         == if Defined(Field(item, k)) then Field(item, k) else FirstDefined(item, rest)
  {
    assert ([k] + rest)[1..] == rest;
  }
}

/** `getNotice` and `getMenuForCategory`: turning the proxy's answer into
    the bot's notice text and into a list of meals. */
module NoticeGateway {
  import opened Results
  import opened Text
  import opened Json
  import opened Ordering
  import opened Selection

  // --------------------------------------------------------------- notices

  const ServerErrorText := "공지사항 서버 응답에 문제가 발생했습니다."
  const LoadErrorText := "공지사항을 불러오는 중 오류가 발생했습니다."

  function NotFoundText(category: string): string {
    category + " 공지를 찾을 수 없습니다."
  }

  function NoticeHeader(category: string): string {
    category + " 최신 3건입니다:\n\n"
  }

  /** The fields a notice's date is read from, in order of preference. */
  const DateKeys: seq<string> := ["noticeDate", "date", "regDate", "createdAt", "postedAt"]

  /** `item?.title ?? "제목 없음"`. */
  function TitleOf(item: Item): (r: string)
    ensures Defined(Field(item, "title")) ==> r == Render(Field(item, "title").value)
    ensures !Defined(Field(item, "title")) ==> r == "제목 없음"
  {
    var t := Field(item, "title");
    if Defined(t) then Render(t.value) else "제목 없음"
  }

  /** The chain `item?.noticeDate ?? item?.date ?? item?.regDate ??
      item?.createdAt ?? item?.postedAt ?? "날짜 없음"`, as written. */
  function DateOf(item: Item): string {
    var d0 := Field(item, "noticeDate");
    var d1 := Field(item, "date");
    var d2 := Field(item, "regDate");
    var d3 := Field(item, "createdAt");
    var d4 := Field(item, "postedAt");
    if Defined(d0) then Render(d0.value)
    else if Defined(d1) then Render(d1.value)
    else if Defined(d2) then Render(d2.value)
    else if Defined(d3) then Render(d3.value)
    else if Defined(d4) then Render(d4.value)
    else "날짜 없음"
  }

  /** The date shown is the first date field, in order of preference, that
      is neither missing nor `null`, and "날짜 없음" when there is none. */
  lemma DateOfFirstDefined(item: Item)
    ensures var f := FirstDefined(item, DateKeys);
      DateOf(item) == if f.Some? then Render(f.value) else "날짜 없음"
  {
    FirstDefinedCons(item, "noticeDate", ["date", "regDate", "createdAt", "postedAt"]);
    FirstDefinedCons(item, "date", ["regDate", "createdAt", "postedAt"]);
    FirstDefinedCons(item, "regDate", ["createdAt", "postedAt"]);
    FirstDefinedCons(item, "createdAt", ["postedAt"]);
    FirstDefinedCons(item, "postedAt", []);
  }

  /** `item?.url ? "\n" + item.url : ""`. */
  function UrlLine(item: Item): (r: string)
    ensures r == "" <==> !Truthy(Field(item, "url"))
  {
    var u := Field(item, "url");
    if Truthy(u) then "\n" + Render(u.value) else ""
  }

  /** One entry, numbered from `idx + 1`. */
  function NoticeEntry(idx: nat, item: Item): string {
    NatToString(idx + 1) + ". " + TitleOf(item) + " (" + DateOf(item) + ")" + UrlLine(item)
  }

  /** The entries for `items`, numbered from `from + 1`. */
  function NoticeEntries(items: seq<Item>, from: nat): (r: seq<string>)
    ensures |r| == |items|
    ensures forall i :: 0 <= i < |r| ==> r[i] == NoticeEntry(from + i, items[i])
  {
    seq(|items|, i requires 0 <= i < |items| => NoticeEntry(from + i, items[i]))
  }

  /** `getNotice(category)` given what the fetch produced. */
  function NoticeText(category: string, f: Fetch): (r: string)
    ensures f.NetworkError? ==> r == LoadErrorText
    ensures f.Responded? && !f.ok ==> r == ServerErrorText
    ensures f.Responded? && f.ok && f.body.Malformed? ==> r == LoadErrorText
    ensures f.Responded? && f.ok && (f.body.NonArray? || (f.body.Array? && |f.body.items| == 0)) ==>
              r == NotFoundText(category)
    ensures f.Responded? && f.ok && f.body.Array? && |f.body.items| > 0 ==>
              var shown := Take(f.body.items, 3);
              && 1 <= |shown| <= 3
              && r == NoticeHeader(category) + Join(NoticeEntries(shown, 0), "\n\n")
  {
    match f
    case NetworkError => LoadErrorText
    case Responded(ok, _, body) =>
      if !ok then ServerErrorText
      else
        match body
        case Malformed => LoadErrorText
        case NonArray => NotFoundText(category)
        case Array(items) =>
          if |items| == 0 then NotFoundText(category)
          else NoticeHeader(category) + Join(NoticeEntries(Take(items, 3), 0), "\n\n")
  }

  /** Only the first three items matter: two successful answers that agree
      on them give the same text. */
  lemma NoticeTextFirstThree(category: string, status1: int, status2: int, a: seq<Item>, b: seq<Item>)
    requires |a| >= 3 && |b| >= 3 && a[..3] == b[..3]
    ensures NoticeText(category, Responded(true, status1, Array(a)))
         == NoticeText(category, Responded(true, status2, Array(b)))
  {
    assert Take(a, 3) == Take(b, 3);
  }

  /** The text opens with the header and then the first item's entry,
      numbered 1. */
  lemma FirstEntry(category: string, status: int, items: seq<Item>)
    requires |items| > 0
    ensures StartsWith(NoticeText(category, Responded(true, status, Array(items))),
                       NoticeHeader(category) + NoticeEntry(0, items[0]))
  {
    var es := NoticeEntries(Take(items, 3), 0);
    assert es[0] == NoticeEntry(0, items[0]);
    JoinStartsWith(es, "\n\n");
    var h := NoticeHeader(category);
    var j := Join(es, "\n\n");
    assert NoticeText(category, Responded(true, status, Array(items))) == h + j;
    StartsWithAppend(h, j, es[0]);
  }

  /** The first entry is numbered 1. */
  lemma EntryOne(item: Item)
    ensures NoticeEntry(0, item) == "1. " + TitleOf(item) + " (" + DateOf(item) + ")" + UrlLine(item)
  {
    assert DigitChar(1) == '1';
    assert NatToString(1) + ". " == "1. ";
  }

  lemma StartsWithAppend(h: string, j: string, p: string)
    requires StartsWith(j, p)
    ensures StartsWith(h + j, h + p)
  {
    assert (h + j)[..|h| + |p|] == h + j[..|p|];
  }

  lemma JoinStartsWith(parts: seq<string>, sep: string)
    requires |parts| > 0
    ensures StartsWith(Join(parts, sep), parts[0])
  {
    if |parts| > 1 {
      assert Join(parts, sep) == parts[0] + (sep + Join(parts[1..], sep));
    }
  }

  // ----------------------------------------------------------------- meals

  const NoMenuSentinel := "등록된 식단내용이(가) 없습니다."

  /** One meal as `getMenuForCategory` returns it. */
  datatype Meal = Meal(date: string, time: string, menu: seq<string>)

  /** `item.menu?.trim()` throws for a menu that is neither missing,
      `null` nor a string; `item.id` throws for a `null` item. */
  predicate FilterThrows(item: Item) {
    item.NullItem? || (Defined(Field(item, "menu")) && !Field(item, "menu").value.VStr?)
  }

  /** The filter's test: a numeric id of at most 10 and a menu that is not
      blank and not the "nothing registered" sentinel. */
  predicate KeepMeal(item: Item) {
    && Field(item, "id").Some? && Field(item, "id").value.VNum? && Field(item, "id").value.n <= 10
    && Field(item, "menu").Some? && Field(item, "menu").value.VStr?
    && var m := Trim(Field(item, "menu").value.s); m != "" && m != NoMenuSentinel
  }

  /** The value sorted on: `mealDate ?? date ?? 0`. */
  function MealDateValue(item: Item): Value {
    var d0 := Field(item, "mealDate");
    var d1 := Field(item, "date");
    if Defined(d0) then d0.value else if Defined(d1) then d1.value else VNum(0)
  }

  /** The sort key: the time of `new Date(mealDate ?? date ?? 0)`, for a
      given reading `parse` of a value as a time. */
  function MealKey(parse: Value -> int): Item -> Key {
    (item: Item) => Key(parse(MealDateValue(item)), 0)
  }

  predicate OneLine(l: string) {
    '\n' !in l
  }

  /** A menu line as shown: not empty, no white space at either end, on
      one line. */
  predicate CleanLine(l: string) {
    |l| > 0 && !IsSpace(l[0]) && !IsSpace(l[|l| - 1]) && OneLine(l)
  }

  predicate AllClean(r: seq<string>) {
    forall i :: 0 <= i < |r| ==> CleanLine(r[i])
  }

  /** A clean line is its own trim. */
  lemma CleanIsTrimmed(l: string)
    requires CleanLine(l)
    ensures Trim(l) == l && Trim(l) != ""
  {
    TrimOfTrimmed(l);
  }

  /** Trimming a one-line text that is not blank gives a clean line. */
  lemma TrimClean(l: string)
    requires OneLine(l) && Trim(l) != ""
    ensures CleanLine(Trim(l))
  {
    TrimChars(l);
  }

  lemma AllCleanCons(t: string, rest: seq<string>)
    requires CleanLine(t) && AllClean(rest)
    ensures AllClean([t] + rest)
  {
    assert forall i :: 1 <= i < |[t] + rest| ==> ([t] + rest)[i] == rest[i - 1];
  }

  /** The trimmed, non-empty lines of a menu text: the pieces between
      newlines, each trimmed, with the empty ones dropped. */
  function MenuLines(menu: string): (r: seq<string>)
    ensures AllClean(r)
  {
    NonEmptyTrimmed(Split(menu, '\n'))
  }

  /** `menu.split("\n").map(line => line.trim()).filter(Boolean)`: the menu
      lines are the pieces between newlines, each trimmed, with the empty
      ones dropped, in order; each of them is a clean line. */
  lemma MenuLinesSplitTrimFilter(menu: string)
    ensures MenuLines(menu) == Filter(TrimAll(Split(menu, '\n')), NonBlank)
    ensures AllClean(MenuLines(menu))
  {
    NonEmptyTrimmedMapFilter(Split(menu, '\n'));
  }

  /** `lines.map(line => line.trim())`. */
  function TrimAll(lines: seq<string>): (r: seq<string>)
  {
    Map(lines, Trim)
  }

  /** `Boolean` on a string: it is not empty. */
  predicate NonBlank(t: string) {
    t != ""
  }

  /** `lines.map(line => line.trim()).filter(Boolean)`. */
  function NonEmptyTrimmed(lines: seq<string>): (r: seq<string>)
    requires forall i :: 0 <= i < |lines| ==> OneLine(lines[i])
    ensures AllClean(r)
    ensures |r| <= |lines|
  {
    if |lines| == 0 then []
    else
      var rest := NonEmptyTrimmed(lines[1..]);
      var t := Trim(lines[0]);
      if t == "" then rest
      else
        TrimClean(lines[0]);
        AllCleanCons(t, rest);
        [t] + rest
  }

  /** Menu lines that are already trimmed, non-empty and on one line each
      survive a round trip through a newline-joined menu text. */
  lemma MenuLinesJoin(lines: seq<string>)
    requires |lines| >= 1
    requires AllClean(lines)
    ensures MenuLines(Join(lines, "\n")) == lines
  {
    SplitJoin(lines, '\n');
    NonEmptyTrimmedFixed(lines);
  }

  /** The recursive trim-and-drop is the map followed by the filter. */
  lemma {:induction false} NonEmptyTrimmedMapFilter(lines: seq<string>)
    requires forall i :: 0 <= i < |lines| ==> OneLine(lines[i])
    ensures NonEmptyTrimmed(lines) == Filter(TrimAll(lines), NonBlank)
  {
    if |lines| > 0 {
      var rest := lines[1..];
      var h := Trim(lines[0]);
      NonEmptyTrimmedCons(lines);
      NonEmptyTrimmedMapFilter(rest);
      assert TrimAll(lines) == [h] + TrimAll(rest);
      FilterCons(h, TrimAll(rest), NonBlank);
    }
  }

  /** One step of the map and filter: the first line is kept when it is
      not blank after trimming. */
  lemma NonEmptyTrimmedCons(lines: seq<string>)
    requires |lines| > 0 && forall i :: 0 <= i < |lines| ==> OneLine(lines[i])
    ensures forall i :: 0 <= i < |lines[1..]| ==> OneLine(lines[1..][i])
    ensures NonEmptyTrimmed(lines)
         == (if Trim(lines[0]) == "" then [] else [Trim(lines[0])]) + NonEmptyTrimmed(lines[1..])
  {
    assert forall i :: 0 <= i < |lines[1..]| ==> lines[1..][i] == lines[i + 1];
  }

  /** Clean lines are kept as they are. */
  lemma NonEmptyTrimmedFixed(lines: seq<string>)
    requires AllClean(lines)
    ensures NonEmptyTrimmed(lines) == lines
  {
    NonEmptyTrimmedMapFilter(lines);
    assert TrimAll(lines) == lines by {
      forall i | 0 <= i < |lines| ensures TrimAll(lines)[i] == lines[i] {
        CleanIsTrimmed(lines[i]);
      }
    }
    FilterAll(lines, NonBlank);
  }

  /** `x.mealDate || x.date || "날짜 없음"` and the same for the time. */
  function Fallback2(item: Item, k1: string, k2: string, default: string): string {
    if Truthy(Field(item, k1)) then Render(Field(item, k1).value)
    else if Truthy(Field(item, k2)) then Render(Field(item, k2).value)
    else default
  }

  /** The meal built from a kept item: the first truthy of `mealDate` and
      `date`, else "날짜 없음"; the first truthy of `mealTime` and `time`,
      else "시간 없음"; and the menu's lines. */
  function MealOf(item: Item): (r: Meal)
    requires KeepMeal(item)
    ensures r.menu == MenuLines(Field(item, "menu").value.s)
    ensures |r.menu| >= 1
    ensures Truthy(Field(item, "mealDate")) ==> r.date == Render(Field(item, "mealDate").value)
    ensures !Truthy(Field(item, "mealDate")) && Truthy(Field(item, "date")) ==> r.date == Render(Field(item, "date").value)
    ensures !Truthy(Field(item, "mealDate")) && !Truthy(Field(item, "date")) ==> r.date == "날짜 없음"
    ensures Truthy(Field(item, "mealTime")) ==> r.time == Render(Field(item, "mealTime").value)
    ensures !Truthy(Field(item, "mealTime")) && Truthy(Field(item, "time")) ==> r.time == Render(Field(item, "time").value)
    ensures !Truthy(Field(item, "mealTime")) && !Truthy(Field(item, "time")) ==> r.time == "시간 없음"
  {
    var m := Field(item, "menu").value.s;
    MenuLinesNonEmpty(m);
    Meal(Fallback2(item, "mealDate", "date", "날짜 없음"),
         Fallback2(item, "mealTime", "time", "시간 없음"),
         MenuLines(m))
  }

  /** A menu that is not blank has at least one line. */
  lemma MenuLinesNonEmpty(m: string)
    requires Trim(m) != ""
    ensures |MenuLines(m)| >= 1
  {
    var pieces := Split(m, '\n');
    JoinSplit(m, '\n');
    var i := NonBlankPiece(pieces, m);
    MenuLinesSplitTrimFilter(m);
    var t := TrimAll(pieces);
    assert t[i] in t && NonBlank(t[i]);
    assert t[i] in Filter(t, NonBlank);
  }

  /** Some piece of a split is not blank when the whole is not. */
  lemma NonBlankPiece(pieces: seq<string>, m: string) returns (i: int)
    requires Join(pieces, "\n") == m && Trim(m) != ""
    ensures 0 <= i < |pieces| && Trim(pieces[i]) != ""
  {
    if forall k :: 0 <= k < |pieces| ==> AllSpace(pieces[k]) {
      JoinAllSpace(pieces);
      assert false;
    }
    var k :| 0 <= k < |pieces| && !AllSpace(pieces[k]);
    i := k;
  }

  lemma {:induction false} JoinAllSpace(pieces: seq<string>)
    requires forall k :: 0 <= k < |pieces| ==> AllSpace(pieces[k])
    ensures AllSpace(Join(pieces, "\n"))
  {
    if |pieces| > 1 {
      JoinAllSpace(pieces[1..]);
      var j := Join(pieces[1..], "\n");
      var s := pieces[0] + "\n" + j;
      assert forall c :: 0 <= c < |s| ==> IsSpace(s[c]) by {
        forall c | 0 <= c < |s| ensures IsSpace(s[c]) {
          if c < |pieces[0]| { assert s[c] == pieces[0][c]; }
          else if c > |pieces[0]| { assert s[c] == j[c - |pieces[0]| - 1]; }
        }
      }
    }
  }

  /** The kept items of an answer, oldest date first, ties in the
      answer's order. */
  function KeptInOrder(items: seq<Item>, parse: Value -> int): (r: seq<Item>)
    ensures KeptFrom(r, items)
    ensures SortedBy(r, MealKey(parse))
    ensures |r| == |Filter(items, KeepMeal)|
    ensures |r| == 0 <==> !SomeKept(items)
  {
    var kept := Filter(items, KeepMeal);
    var r := SortBy(kept, MealKey(parse));
    assert |r| == |kept| by { assert |multiset(r)| == |multiset(kept)|; }
    assert KeptFrom(r, items) by {
      forall i | 0 <= i < |r| ensures KeepMeal(r[i]) && r[i] in items {
        assert r[i] in multiset(r);
        assert r[i] in kept;
      }
    }
    if |r| == 0 then
      assert !SomeKept(items) by {
        assert |multiset(kept)| == 0;
        forall i | 0 <= i < |items| ensures !KeepMeal(items[i]) {
          assert items[i] !in kept;
        }
      }
      r
    else
      assert SomeKept(items) by {
        assert r[0] in multiset(r);
        assert r[0] in kept;
        var j :| 0 <= j < |items| && items[j] == r[0];
      }
      r
  }

  /** Every element of `r` is a kept item of `items`. */
  predicate KeptFrom(r: seq<Item>, items: seq<Item>) {
    forall i :: 0 <= i < |r| ==> KeepMeal(r[i]) && r[i] in items
  }

  lemma KeptFromPrefix(r: seq<Item>, items: seq<Item>, n: nat)
    requires KeptFrom(r, items) && n <= |r|
    ensures KeptFrom(r[..n], items)
  {
    assert forall i :: 0 <= i < n ==> r[..n][i] == r[i];
  }

  /** The sort only reorders the kept items, and among items with equal
      keys it keeps the answer's order. */
  lemma KeptInOrderStable(items: seq<Item>, parse: Value -> int, k: Key)
    ensures multiset(KeptInOrder(items, parse)) == multiset(Filter(items, KeepMeal))
    ensures WithKey(KeptInOrder(items, parse), MealKey(parse), k) == WithKey(Filter(items, KeepMeal), MealKey(parse), k)
  {
  }

  /** No item makes the filter throw. */
  predicate NoneThrows(items: seq<Item>) {
    forall i :: 0 <= i < |items| ==> !FilterThrows(items[i])
  }

  /** Some item passes the filter. */
  predicate SomeKept(items: seq<Item>) {
    exists i :: 0 <= i < |items| && KeepMeal(items[i])
  }

  /** How many items `slice(0, 10)` keeps of `n`. */
  function AtMostTen(n: nat): nat {
    if n < 10 then n else 10
  }

  /** What the chosen items satisfy: one to ten kept items of the answer,
      oldest date first, and exactly the first `min(10, kept)` of the
      stable sort of the kept items. */
  predicate ChosenFrom(r: seq<Item>, items: seq<Item>, parse: Value -> int) {
    && 1 <= |r| <= 10 && KeptFrom(r, items) && SortedBy(r, MealKey(parse))
    && var sorted := KeptInOrder(items, parse);
       |r| == AtMostTen(|sorted|) && r == sorted[..|r|]
  }

  /** The first ten of the sorted kept items are chosen. */
  lemma TakeChosen(items: seq<Item>, parse: Value -> int)
    requires SomeKept(items)
    ensures ChosenFrom(Take(KeptInOrder(items, parse), 10), items, parse)
  {
    TakeOfSorted(KeptInOrder(items, parse), items, parse);
  }

  /** The first ten of a non-empty sorted run of kept items. */
  lemma TakeOfSorted(sorted: seq<Item>, items: seq<Item>, parse: Value -> int)
    requires |sorted| >= 1 && KeptFrom(sorted, items) && SortedBy(sorted, MealKey(parse))
    ensures var t := Take(sorted, 10);
      && 1 <= |t| <= 10 && KeptFrom(t, items) && SortedBy(t, MealKey(parse))
      && |t| == AtMostTen(|sorted|) && t == sorted[..|t|]
  {
    var t := Take(sorted, 10);
    TakePrefix(sorted, 10);
    PrefixSorted(sorted, MealKey(parse), |t|);
    KeptFromPrefix(sorted, items, |t|);
  }

  /** The filter, sort and cut applied to a non-empty array. */
  function ChooseMeals(items: seq<Item>, parse: Value -> int): (r: Result<seq<Item>, string>)
    ensures r.Ok? <==> NoneThrows(items) && SomeKept(items)
    ensures r.Ok? ==> ChosenFrom(r.value, items, parse)
  {
    if !NoneThrows(items) then Err("TypeError")
    else
      var sorted := KeptInOrder(items, parse);
      if |sorted| == 0 then Err("유효한 식단 데이터가 없습니다.")
      else
        TakeChosen(items, parse);
        Ok(Take(sorted, 10))
  }

  /** The items `getMenuForCategory` turns into meals: the kept ones,
      oldest date first (ties in input order), at most ten; or the reason
      it throws. */
  function SelectMeals(f: Fetch, parse: Value -> int): (r: Result<seq<Item>, string>)
    ensures r.Ok? <==> (&& f.Responded? && f.ok && f.body.Array?
                        && NoneThrows(f.body.items) && SomeKept(f.body.items))
    ensures r.Ok? ==> ChosenFrom(r.value, f.body.items, parse)
  {
    match f
    case NetworkError => Err("fetch failed")
    case Responded(ok, _, body) =>
      if !ok then Err("식단 서버 응답 오류")
      else
        match body
        case Malformed => Err("invalid JSON")
        case NonArray => Err("식단 데이터가 없습니다.")
        case Array(items) =>
          if |items| == 0 then Err("식단 데이터가 없습니다.")
          else ChooseMeals(items, parse)
  }

  /** The meals are chosen stably: among kept items with equal date keys,
      those chosen are the earliest in the answer's order. */
  lemma SelectMealsStable(f: Fetch, parse: Value -> int, k: Key)
    requires SelectMeals(f, parse).Ok?
    ensures var r := SelectMeals(f, parse).value;
      var all := WithKey(Filter(f.body.items, KeepMeal), MealKey(parse), k);
      var chosen := WithKey(r, MealKey(parse), k);
      |chosen| <= |all| && chosen == all[..|chosen|]
  {
    var items := f.body.items;
    var sorted := KeptInOrder(items, parse);
    assert SelectMeals(f, parse) == ChooseMeals(items, parse);
    assert ChooseMeals(items, parse).value == Take(sorted, 10);
    KeptInOrderStable(items, parse, k);
    WithKeyTake(sorted, MealKey(parse), k, 10);
  }

  /** `getMenuForCategory(category)` given what the fetch produced: the
      meals of the chosen items, or the reason it throws. */
  function MenuForCategory(f: Fetch, parse: Value -> int): (r: Result<seq<Meal>, string>)
    ensures r.Ok? <==> SelectMeals(f, parse).Ok?
    ensures r.Ok? ==> (&& 1 <= |r.value| <= 10
                       && |r.value| == AtMostTen(|KeptInOrder(f.body.items, parse)|)
                       && MealsOf(r.value, SelectMeals(f, parse).value))
  {
    match SelectMeals(f, parse)
    case Err(e) => Err(e)
    case Ok(items) => Ok(Meals(items))
  }

  /** `meals` holds the meal of each item, in order: every item is kept
      and no meal is empty. */
  predicate MealsOf(meals: seq<Meal>, items: seq<Item>) {
    && |meals| == |items|
    && forall i :: 0 <= i < |items| ==>
         KeepMeal(items[i]) && meals[i] == MealOf(items[i]) && |meals[i].menu| >= 1
  }

  /** The meals of kept items, one per item, in order. */
  function Meals(items: seq<Item>): (r: seq<Meal>)
    requires forall i :: 0 <= i < |items| ==> KeepMeal(items[i])
    ensures MealsOf(r, items)
  {
    seq(|items|, i requires 0 <= i < |items| => MealOf(items[i]))
  }
}
