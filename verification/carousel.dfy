/** The image carousel's index arithmetic: previous, next, jump to a slide,
    the auto-advance step, and which controls are shown for how many
    images. The interval timer itself is left out; its tick is `Next`. */
module Carousel {
  import opened Results

  /** JavaScript `%` with a non-negative divisor: the remainder takes the
      sign of the dividend, and a zero divisor gives `NaN` (`None`). */
  function JsRem(a: int, n: nat): (r: Option<int>)
    ensures r.None? <==> n == 0
    ensures r.Some? ==> -(n as int) < r.value < n
    ensures r.Some? && a >= 0 ==> r.value == a % n
    ensures r.Some? && a < 0 ==> r.value <= 0 && r.value == -((-a) % n)
  {
    if n == 0 then None
    else if a >= 0 then Some(a % n)
    else Some(-((-a) % n))
  }

  /** `goToNext` and the auto-advance tick: `(i + 1) % n`. */
  function Next(i: int, n: nat): (r: Option<int>)
    ensures n == 0 ==> r.None?
    ensures 0 <= i < n ==> r == Some(if i == n - 1 then 0 else i + 1)
  {
    JsRem(i + 1, n)
  }

  /** `goToPrevious`: `(i - 1 + n) % n`. */
  function Previous(i: int, n: nat): (r: Option<int>)
    ensures n == 0 ==> r.None?
    ensures 0 <= i < n ==> r == Some(if i == 0 then n - 1 else i - 1)
  {
    if 0 <= i < n then
      assert (i - 1 + n) % n == (if i == 0 then n - 1 else i - 1) by {
        if i > 0 {
          assert i - 1 + n == n + (i - 1);
        }
      }
      JsRem(i - 1 + n, n)
    else JsRem(i - 1 + n, n)
  }

  /** Previous undoes next and next undoes previous, so both keep the
      index among the images. */
  lemma PreviousNext(i: int, n: nat)
    requires 0 <= i < n
    ensures Next(i, n).Some? && 0 <= Next(i, n).value < n && Previous(Next(i, n).value, n) == Some(i)
    ensures Previous(i, n).Some? && 0 <= Previous(i, n).value < n && Next(Previous(i, n).value, n) == Some(i)
  {
  }

  /** The index after `k` auto-advance ticks. */
  function Advance(i: int, n: nat, k: nat): (r: Option<int>)
    decreases k
  {
    if k == 0 then Some(i)
    else match Next(i, n)
      case None => None
      case Some(j) => Advance(j, n, k - 1)
  }

  /** However many ticks pass, the index stays among the images; before
      the last image is passed each tick moves one image on. */
  lemma {:induction false} AdvanceInRange(i: int, n: nat, k: nat)
    requires 0 <= i < n
    ensures Advance(i, n, k).Some? && 0 <= Advance(i, n, k).value < n
    ensures i + k < n ==> Advance(i, n, k) == Some(i + k)
    decreases k
  {
    if k > 0 {
      AdvanceInRange(Next(i, n).value, n, k - 1);
    }
  }

  /** `goToSlide`: the clicked indicator's index becomes current. */
  function GoToSlide(index: int): (r: int)
    ensures r == index
  {
    index
  }

  /** The `useEffect`: an interval is started only with `autoPlay` on and
      at least one image. */
  predicate TimerSet(autoPlay: bool, n: nat) {
    autoPlay && n != 0
  }

  /** What the carousel shows: the placeholder for no images, otherwise
      the current slide, the two arrow buttons, and one indicator per image
      telling whether it is the current one. Arrows and indicators appear
      only with more than one image. */
  datatype View = Placeholder | Slides(current: int, arrows: bool, indicators: seq<bool>)

  function Render(i: int, n: nat): (r: View)
    ensures r.Placeholder? <==> n == 0
    ensures r.Slides? ==> r.current == i && (r.arrows <==> n > 1)
    ensures r.Slides? ==> (|r.indicators| > 0 <==> n > 1)
  {
    if n == 0 then Placeholder
    else Slides(i, n > 1, if n > 1 then seq(n, k => k == i) else [])
  }

  function CountTrue(s: seq<bool>): nat
  {
    if |s| == 0 then 0 else (if s[0] then 1 else 0) + CountTrue(s[1..])
  }

  lemma {:induction false} CountSingle(s: seq<bool>, i: int)
    requires 0 <= i < |s|
    requires forall k :: 0 <= k < |s| ==> (s[k] <==> k == i)
    ensures CountTrue(s) == 1
  {
    if i == 0 {
      CountNone(s[1..]);
    } else {
      CountSingle(s[1..], i - 1);
    }
  }

  lemma {:induction false} CountNone(s: seq<bool>)
    requires forall k :: 0 <= k < |s| ==> !s[k]
    ensures CountTrue(s) == 0
  {
    if |s| > 0 {
      CountNone(s[1..]);
    }
  }

  /** With several images and an index among them, exactly one indicator
      is highlighted, and it is the current one; clicking indicator `k`
      makes it the highlighted one. */
  lemma OneIndicator(i: int, n: nat, k: int)
    requires 0 <= i < n && n > 1 && 0 <= k < n
    ensures CountTrue(Render(i, n).indicators) == 1
    ensures Render(i, n).indicators[i]
    ensures Render(GoToSlide(k), n).indicators[k]
  {
    CountSingle(Render(i, n).indicators, i);
  }
}
