/** The tutorial overlay's step machine: a step counter over the six
    guide pages with previous/next buttons, a finish button on the last
    page, and a close request that leaves the step where it is. */
module Tutorial {
  import opened Text

  const StepCount := 6

  datatype Button = PreviousButton | NextButton | CloseButton | Backdrop

  /** The step after a press, and whether `onClose` was called. */
  datatype Effect = Effect(step: int, closeRequested: bool)

  predicate IsLastStep(step: int) {
    step == StepCount - 1
  }

  /** The previous button is rendered only after the first page. */
  predicate PreviousShown(step: int) {
    step > 0
  }

  /** A press on an open overlay. A hidden overlay renders nothing, so
      nothing can be pressed and nothing changes; a button that is not
      rendered cannot be pressed either. */
  function Press(step: int, open: bool, b: Button): (r: Effect)
    ensures !open ==> r == Effect(step, false)
    ensures open && b == NextButton && !IsLastStep(step) ==> r == Effect(step + 1, false)
    ensures open && b == NextButton && IsLastStep(step) ==> r == Effect(step, true)
    ensures open && b == PreviousButton ==> r == Effect(if step > 0 then step - 1 else step, false)
    ensures open && (b == CloseButton || b == Backdrop) ==> r == Effect(step, true)
  {
    if !open then Effect(step, false)
    else match b
      case PreviousButton => if PreviousShown(step) then Effect(step - 1, false) else Effect(step, false)
      case NextButton => if IsLastStep(step) then Effect(step, true) else Effect(step + 1, false)
      case CloseButton => Effect(step, true)
      case Backdrop => Effect(step, true)
  }

  predicate InRange(step: int) {
    0 <= step < StepCount
  }

  /** Presses keep the step on a page; closing never resets it. */
  lemma PressInRange(step: int, open: bool, b: Button)
    requires InRange(step)
    ensures InRange(Press(step, open, b).step)
    ensures Press(step, open, b).closeRequested ==> Press(step, open, b).step == step
  {
  }

  /** A run of presses from the initial step 0, with the overlay's
      visibility at each press. */
  function Run(step: int, presses: seq<(bool, Button)>): int
    decreases |presses|
  {
    if |presses| == 0 then step
    else Run(Press(step, presses[0].0, presses[0].1).step, presses[1..])
  }

  lemma {:induction false} RunInRange(step: int, presses: seq<(bool, Button)>)
    requires InRange(step)
    ensures InRange(Run(step, presses))
    decreases |presses|
  {
    if |presses| > 0 {
      PressInRange(step, presses[0].0, presses[0].1);
      RunInRange(Press(step, presses[0].0, presses[0].1).step, presses[1..]);
    }
  }

  /** The main button's caption. */
  function NextLabel(step: int): (r: string)
    ensures r == "완료" <==> IsLastStep(step)
    ensures r == "다음" <==> !IsLastStep(step)
  {
    if IsLastStep(step) then "완료" else "다음"
  }

  /** The step indicator, "단계 step+1 / 6". */
  function Indicator(step: int): (r: string)
    requires InRange(step)
    ensures r == "단계 " + [DigitChar(step + 1)] + " / 6"
  {
    "단계 " + NatToString(step + 1) + " / " + NatToString(StepCount)
  }

  /** Different pages show different indicators. */
  lemma IndicatorInjective(a: int, b: int)
    requires InRange(a) && InRange(b) && Indicator(a) == Indicator(b)
    ensures a == b
  {
    var pa, pb := NatToString(a + 1), NatToString(b + 1);
    assert |pa| == 1 && |pb| == 1;
    assert Indicator(a)[|"단계 "|] == pa[0];
    assert Indicator(b)[|"단계 "|] == pb[0];
    assert pa == [pa[0]] && pb == [pb[0]];
    NatToStringInjective(a + 1, b + 1);
  }

  /** The progress dots: one per page, the current one highlighted. */
  function Dots(step: int): (r: seq<bool>)
    ensures |r| == StepCount
    ensures forall k :: 0 <= k < StepCount ==> (r[k] <==> k == step)
  {
    seq(StepCount, k => k == step)
  }

  /** On a page exactly one dot is highlighted: no other dot equals it. */
  lemma OneDot(step: int, k: int)
    requires InRange(step) && 0 <= k < StepCount && k != step
    ensures Dots(step)[step] && !Dots(step)[k]
  {
  }
}
