/**
  The value state machine of `DynamicNumberLabel`. The label keeps the
  exported `Value`, the value on screen, and the start and target of the
  current animation; every operation that changes the value on screen ends
  with `UpdateDisplay`, which re-renders `Text`.

  The engine's tween and timer only decide when callbacks arrive, so they
  are events here: a tween step carries the (already rounded) value the
  tween produced, a random-timer tick carries the rounded random candidate,
  and a callback can only arrive while the tween or timer that issues it
  is alive.
 */
module NumberLabel {
  import opened Decimal
  import opened Outcomes
  import opened NumberFormat

  /** The tween the label owns: counting from start to target, or driving the random mode's progress. */
  datatype TweenKind = CountTween | ProgressTween

  /** Godot's `Tween.EaseType.Out` and `Tween.TransitionType.Cubic`. */
  const EASE_OUT: int := 1
  const TRANS_CUBIC: int := 7

  datatype AnimationSettings = AnimationSettings(
    duration: real,
    easeType: int,
    transitionType: int,
    randomMode: bool,
    randomUpdateInterval: real)

  datatype Signal = ValueChanged(oldValue: Int32, newValue: Int32) | AnimationFinished

  datatype Label = Label(
    format: FormatSettings,
    animation: AnimationSettings,
    animateOnReady: bool,
    value: Int32,
    display: Int32,
    target: Int32,
    start: Int32,
    progress: real,
    tween: Option<TweenKind>,
    timer: bool,
    text: string,
    emitted: seq<Signal>)

  /** A label as constructed, with the exported defaults, before `_Ready`. */
  function NewLabel(): Label {
    Label(
      FormatSettings("", "", true, ",", 0),
      AnimationSettings(1.0, EASE_OUT, TRANS_CUBIC, false, 0.05),
      false, 0, 0, 0, 0, 0.0, None, false, "", [])
  }

  /**
    Settings the model covers: the clamp computes `(int)Math.Pow(10,
    MaxDigits)`, whose result is unspecified above nine digits, and padding
    with a delimiter throws on an empty one.
   */
  predicate Usable(f: FormatSettings) {
    && f.maxDigits <= 9
    && (f.useDelimiter && f.maxDigits > 0 ==> |f.delimiter| > 0)
  }

  /**
    What holds of every label the operations produce: the settings are
    usable, the three kept values can be formatted, and the start and target
    were clamped.
   */
  predicate Consistent(l: Label) {
    && Usable(l.format)
    && Formattable(l.format, l.display)
    && Formattable(l.format, l.start)
    && Formattable(l.format, l.target)
    && (l.format.maxDigits > 0 ==> FitsBudget(l.format.maxDigits, l.start) && FitsBudget(l.format.maxDigits, l.target))
  }

  /** `Text` is `Prefix + FormatNumber(display) + Suffix`. */
  predicate Shows(l: Label) {
    Formattable(l.format, l.display) && l.text == Render(l.format, l.display)
  }

  /** The value on screen fits the digit budget, when there is one. */
  predicate DisplayFits(l: Label) {
    l.format.maxDigits <= 0 || FitsBudget(l.format.maxDigits, l.display)
  }

  /**
    `IsAnimating`: a live tween, or a live random timer; that is, exactly
    when the engine can still call back with a completion or a tick.
   */
  function IsAnimating(l: Label): (r: bool)
    ensures r <==> Enabled(l, TweenFinished) || Enabled(l, TimerTick(0))
  {
    l.tween.Some? || l.timer
  }

  function Clamp(l: Label, v: Int32): Int32
    requires Usable(l.format)
  {
    ClampToMaxDigits(l.format.maxDigits, v)
  }

  /** A clamped value can be formatted and fits the budget. */
  lemma ClampedIsFormattable(f: FormatSettings, v: Int32)
    requires Usable(f)
    ensures Formattable(f, ClampToMaxDigits(f.maxDigits, v))
    ensures f.maxDigits > 0 ==> FitsBudget(f.maxDigits, ClampToMaxDigits(f.maxDigits, v))
  {
    if f.maxDigits > 0 {
      ClampRespectsDigitBudget(f.maxDigits, v);
      Pow10AtMostNine(Max(1, f.maxDigits - 1));
    }
  }

  /** `UpdateDisplay`: re-render the text; nothing else changes. */
  function UpdateDisplay(l: Label): (r: Label)
    requires Formattable(l.format, l.display)
    ensures Shows(r)
    ensures r.(text := l.text) == l
  {
    l.(text := Render(l.format, l.display))
  }

  function StartLinearAnimation(l: Label): Label {
    l.(tween := Some(CountTween))
  }

  function StartRandomAnimation(l: Label): Label {
    l.(progress := 0.0, timer := true, tween := Some(ProgressTween))
  }

  /**
    `StartAnimation(startValue, targetValue)`: `Value` and the target become
    the clamped target and the start the clamped start, but the screen
    first shows the start value as given, unclamped. The old tween and
    timer are dropped and a new animation of the configured kind begins.
   */
  function StartAnimation(l: Label, startValue: Int32, targetValue: Int32): (r: Label)
    requires Consistent(l)
    requires Formattable(l.format, startValue)
    ensures Consistent(r) && Shows(r)
    ensures r.value == r.target == Clamp(l, targetValue)
    ensures r.start == Clamp(l, startValue)
    ensures r.display == startValue
    ensures r.format == l.format && r.animation == l.animation && r.emitted == l.emitted
    ensures r.animation.randomMode ==> r.tween == Some(ProgressTween) && r.timer && r.progress == 0.0
    ensures !r.animation.randomMode ==> r.tween == Some(CountTween) && !r.timer
  {
    var t := Clamp(l, targetValue);
    var s := Clamp(l, startValue);
    ClampedIsFormattable(l.format, targetValue);
    ClampedIsFormattable(l.format, startValue);
    var reset := l.(target := t, start := s, value := t, tween := None, timer := false, display := startValue);
    var shown := UpdateDisplay(reset);
    if l.animation.randomMode then StartRandomAnimation(shown) else StartLinearAnimation(shown)
  }

  /** `StartAnimation(targetValue)`: count up from zero. */
  function StartAnimationTo(l: Label, targetValue: Int32): (r: Label)
    requires Consistent(l)
    ensures r.start == 0 && r.display == 0
    ensures r.value == r.target == Clamp(l, targetValue)
    ensures Consistent(r) && Shows(r)
    ensures r.format == l.format && r.animation == l.animation && r.emitted == l.emitted
    ensures r.animation.randomMode ==> r.tween == Some(ProgressTween) && r.timer && r.progress == 0.0
    ensures !r.animation.randomMode ==> r.tween == Some(CountTween) && !r.timer
  {
    StartAnimation(l, 0, targetValue)
  }

  /** `StartAnimation()`: count up from zero to the current `Value`. */
  function StartAnimationFromValue(l: Label): (r: Label)
    requires Consistent(l)
    ensures r.start == 0 && r.display == 0
    ensures r.value == r.target == Clamp(l, l.value)
    ensures Consistent(r) && Shows(r)
    ensures r.format == l.format && r.animation == l.animation && r.emitted == l.emitted
    ensures r.animation.randomMode ==> r.tween == Some(ProgressTween) && r.timer && r.progress == 0.0
    ensures !r.animation.randomMode ==> r.tween == Some(CountTween) && !r.timer
  {
    StartAnimationTo(l, l.value)
  }

  /** `_Ready`: animate from zero, or show `Value` as it is (unclamped). */
  function Ready(l: Label): (r: Label)
    requires Consistent(l) && (!l.animateOnReady ==> Formattable(l.format, l.value))
    ensures Consistent(r) && Shows(r)
    ensures !l.animateOnReady ==> r.display == l.value && r.target == l.target && !IsAnimating(r) == !IsAnimating(l)
    ensures !l.animateOnReady ==> r == l.(display := l.value, text := r.text)
    ensures l.animateOnReady ==> r.display == 0 && r.value == r.target == Clamp(l, l.value)
    ensures l.animateOnReady ==>
      && r.start == 0 && r.emitted == l.emitted
      && r.format == l.format && r.animation == l.animation
    ensures l.animateOnReady && l.animation.randomMode ==>
      r.tween == Some(ProgressTween) && r.timer && r.progress == 0.0
    ensures l.animateOnReady && !l.animation.randomMode ==> r.tween == Some(CountTween) && !r.timer
  {
    if l.animateOnReady then StartAnimationFromValue(l)
    else UpdateDisplay(l.(display := l.value))
  }

  /**
    A random-timer tick. Once the progress tween has reached 1 nothing
    happens; before that the rounded random candidate is clamped between
    the start and the target and shown.
   */
  function OnRandomTimerTimeout(l: Label, candidate: int): (r: Label)
    requires Consistent(l) && l.timer
    ensures Consistent(r)
    ensures l.progress >= 1.0 ==> r == l
    ensures l.progress < 1.0 ==>
      && Shows(r)
      && Min(l.start, l.target) <= r.display <= Max(l.start, l.target)
      && r == l.(display := r.display, text := r.text)
  {
    if l.progress >= 1.0 then l
    else
      var lo := Min(l.start, l.target);
      var hi := Max(l.start, l.target);
      var shown: Int32 := if candidate < lo then lo else if candidate > hi then hi else candidate;
      UpdateDisplay(l.(display := shown))
  }

  /**
    The progress tween reports how far the random animation has come: the
    progress is recorded and nothing on screen changes; only the next timer
    tick looks at it.
   */
  function OnRandomProgressUpdate(l: Label, progress: real): (r: Label)
    requires l.tween == Some(ProgressTween)
    ensures r.progress == progress
    ensures r.display == l.display && r.text == l.text && r.emitted == l.emitted
    ensures r.value == l.value && r.start == l.start && r.target == l.target
    ensures r.tween == l.tween && r.timer == l.timer && r.format == l.format && r.animation == l.animation
    ensures Consistent(l) ==> Consistent(r)
    ensures Shows(l) ==> Shows(r)
  {
    l.(progress := progress)
  }

  /** The counting tween reports its current (rounded) value, which is shown as it is. */
  function OnTweenUpdate(l: Label, v: Int32): (r: Label)
    requires Consistent(l) && l.tween == Some(CountTween) && Formattable(l.format, v)
    ensures Consistent(r) && Shows(r)
    ensures r.display == v && r == l.(display := v, text := r.text)
  {
    UpdateDisplay(l.(display := v))
  }

  /** The tween's final callback: drop the timer, show the target, signal `AnimationFinished`. */
  function OnAnimationComplete(l: Label): (r: Label)
    requires Consistent(l) && l.tween.Some?
    ensures Consistent(r) && Shows(r)
    ensures r.display == r.target == l.target && r.value == l.value && r.start == l.start
    ensures r.emitted == l.emitted + [AnimationFinished]
    ensures !IsAnimating(r)
    ensures r == l.(display := l.target, tween := None, timer := false, text := r.text, emitted := r.emitted)
  {
    var shown := UpdateDisplay(l.(timer := false, display := l.target));
    shown.(emitted := l.emitted + [AnimationFinished], tween := None)
  }

  /** `StopAnimation`: drop tween and timer and show the target at once. */
  function StopAnimation(l: Label): (r: Label)
    requires Consistent(l)
    ensures Consistent(r) && Shows(r)
    ensures r.display == r.target == l.target && r.value == l.value && r.start == l.start
    ensures r.emitted == l.emitted
    ensures !IsAnimating(r)
    ensures r == l.(display := l.target, tween := None, timer := false, text := r.text)
  {
    UpdateDisplay(l.(tween := None, timer := false, display := l.target))
  }

  /**
    `SetValueInstant` as the source writes it, with the clamp as written:
    it throws (on the null `Logger`) exactly when the value is outside the
    digit budget; otherwise `Value`, the screen and the target become the
    value and the tween is killed, but a random mode timer is left running.
   */
  function SetValueInstantAsWritten(l: Label, v: Int32): (r: Result<Label, ClampError>)
    requires Consistent(l)
    ensures r.Ok? <==> Clamp(l, v) == v
    ensures r.Ok? ==> Consistent(r.value) && Shows(r.value)
    ensures r.Ok? ==> r.value.value == r.value.display == r.value.target == v
    ensures r.Ok? ==> r.value.start == l.start && r.value.timer == l.timer && r.value.tween.None?
    ensures r.Ok? ==> r.value == l.(value := v, display := v, target := v, tween := None, text := r.value.text)
  {
    ClampAsWrittenThrowsWhereItClamps(l.format.maxDigits, v);
    match ClampToMaxDigitsAsWritten(l.format.maxDigits, v)
    case Err(e) => Err(e)
    case Ok(c) =>
      ClampedIsFormattable(l.format, v);
      Ok(UpdateDisplay(l.(value := c, display := c, target := c, tween := None)))
  }

  /**
    `SetValueInstant` corrected twice: the clamp saturates instead of
    throwing, and the random timer is dropped as well, as `StopAnimation`
    does, so nothing animates afterwards. The rest of the model uses this
    definition.
   */
  function SetValueInstant(l: Label, v: Int32): (r: Label)
    requires Consistent(l)
    ensures Consistent(r) && Shows(r)
    ensures r.value == r.display == r.target == Clamp(l, v)
    ensures r.start == l.start && r.emitted == l.emitted
    ensures !IsAnimating(r)
    ensures r == l.(value := r.value, display := r.display, target := r.target, tween := None, timer := false, text := r.text)
  {
    var c := Clamp(l, v);
    ClampedIsFormattable(l.format, v);
    UpdateDisplay(l.(value := c, display := c, target := c, tween := None, timer := false))
  }

  /** `SetAnimationSettings`: replaces the five animation settings and nothing else. */
  function SetAnimationSettings(l: Label, duration: real, easeType: int, transitionType: int,
                                randomMode: bool, randomUpdateInterval: real): (r: Label)
    ensures r.animation.duration == duration && r.animation.easeType == easeType
    ensures r.animation.transitionType == transitionType
    ensures r.animation.randomMode == randomMode && r.animation.randomUpdateInterval == randomUpdateInterval
    ensures r.(animation := l.animation) == l
  {
    l.(animation := AnimationSettings(duration, easeType, transitionType, randomMode, randomUpdateInterval))
  }

  /**
    `AnimateToValue`: animate from what is on screen now to the clamped new
    value, then signal `ValueChanged(previous Value, clamped new value)`.
   */
  function AnimateToValue(l: Label, newValue: Int32): (r: Label)
    requires Consistent(l)
    ensures Consistent(r) && Shows(r)
    ensures r.value == r.target == Clamp(l, newValue)
    ensures r.display == l.display && r.start == Clamp(l, l.display)
    ensures r.emitted == l.emitted + [ValueChanged(l.value, Clamp(l, newValue))]
    ensures r.format == l.format && r.animation == l.animation
    ensures r.animation.randomMode ==> r.tween == Some(ProgressTween) && r.timer && r.progress == 0.0
    ensures !r.animation.randomMode ==> r.tween == Some(CountTween) && !r.timer
  {
    var previous := l.value;
    var nv := Clamp(l, newValue);
    ClampedIsFormattable(l.format, newValue);
    ClampRespectsDigitBudgetIfAny(l.format, newValue);
    var started := StartAnimation(l, l.display, nv);
    started.(emitted := started.emitted + [ValueChanged(previous, nv)])
  }

  /** Clamping an already clamped value changes nothing. */
  lemma ClampRespectsDigitBudgetIfAny(f: FormatSettings, v: Int32)
    requires Usable(f)
    ensures ClampToMaxDigits(f.maxDigits, ClampToMaxDigits(f.maxDigits, v)) == ClampToMaxDigits(f.maxDigits, v)
  {
    if f.maxDigits > 0 {
      ClampRespectsDigitBudget(f.maxDigits, v);
    }
  }

  /** Everything that can happen to a label: calls of its public operations and engine callbacks. */
  datatype Event =
    | SetValue(v: Int32)
    | Start(startValue: Int32, targetValue: Int32)
    | StartTo(targetValue: Int32)
    | StartFromValue
    | SetInstant(v: Int32)
    | Stop
    | AnimateTo(newValue: Int32)
    | ChangeSettings(settings: AnimationSettings)
    | TweenStep(tweenValue: Int32)
    | ProgressStep(progressValue: real)
    | TimerTick(candidate: int)
    | TweenFinished

  /** An event can occur: its callback's tween or timer is alive, and a value to show can be formatted. */
  predicate Enabled(l: Label, e: Event) {
    match e
    case Start(s, _) => Formattable(l.format, s)
    case TweenStep(v) => l.tween == Some(CountTween) && Formattable(l.format, v)
    case ProgressStep(_) => l.tween == Some(ProgressTween)
    case TimerTick(_) => l.timer
    case TweenFinished => l.tween.Some?
    case _ => true
  }

  function Step(l: Label, e: Event): (r: Label)
    requires Consistent(l) && Enabled(l, e)
    ensures Consistent(r) && r.format == l.format
    ensures Shows(l) ==> Shows(r)
  {
    match e
    case SetValue(v) => l.(value := v)
    case Start(s, t) => StartAnimation(l, s, t)
    case StartTo(t) => StartAnimationTo(l, t)
    case StartFromValue => StartAnimationFromValue(l)
    case SetInstant(v) => SetValueInstant(l, v)
    case Stop => StopAnimation(l)
    case AnimateTo(v) => AnimateToValue(l, v)
    case ChangeSettings(a) =>
      SetAnimationSettings(l, a.duration, a.easeType, a.transitionType, a.randomMode, a.randomUpdateInterval)
    case TweenStep(v) => OnTweenUpdate(l, v)
    case ProgressStep(p) => OnRandomProgressUpdate(l, p)
    case TimerTick(c) => OnRandomTimerTimeout(l, c)
    case TweenFinished => OnAnimationComplete(l)
  }

  /** Applies the events in order; one that cannot occur in the state it meets is skipped. */
  function Run(l: Label, es: seq<Event>): (r: Label)
    requires Consistent(l)
    ensures Consistent(r) && r.format == l.format
    ensures Shows(l) ==> Shows(r)
    decreases |es|
  {
    if |es| == 0 then l
    else if Enabled(l, es[0]) then Run(Step(l, es[0]), es[1..])
    else Run(l, es[1..])
  }

  /**
    From `_Ready` on, whatever the label is asked to do and whatever the
    engine calls back, `Text` is `Prefix + FormatNumber(display) + Suffix`.
   */
  lemma TextAlwaysShowsDisplay(l: Label, es: seq<Event>)
    requires Consistent(l) && Formattable(l.format, l.value)
    ensures Shows(Run(Ready(l), es))
  {
  }

  /** A new label is consistent, and `_Ready` on it shows its `Value` (or starts counting from zero). */
  lemma NewLabelIsConsistent()
    ensures Consistent(NewLabel())
    ensures Shows(Ready(NewLabel())) && Ready(NewLabel()).display == 0
  {
  }

  /** Animation completion and `StopAnimation` leave the label in the same state, but completion also signals. */
  lemma CompletionIsStopPlusSignal(l: Label)
    requires Consistent(l) && l.tween.Some?
    ensures OnAnimationComplete(l) == StopAnimation(l).(emitted := l.emitted + [AnimationFinished])
  {
  }

  /** However an animation is started, stopping it shows the clamped target. */
  lemma StopAfterStartShowsClampedTarget(l: Label, s: Int32, t: Int32)
    requires Consistent(l) && Formattable(l.format, s)
    ensures var r := StopAnimation(StartAnimation(l, s, t));
      r.display == Clamp(l, t) && r.text == Render(l.format, Clamp(l, t))
  {
  }

  /** `AnimateToValue` starts from what is on screen, so the text does not jump. */
  lemma AnimateToValueKeepsText(l: Label, n: Int32)
    requires Consistent(l)
    ensures AnimateToValue(l, n).text == Render(l.format, l.display)
    ensures Shows(l) ==> AnimateToValue(l, n).text == l.text
  {
  }

  /** Setting the same value instantly twice is setting it once. */
  lemma SetValueInstantIdempotent(l: Label, v: Int32)
    requires Consistent(l)
    ensures SetValueInstant(SetValueInstant(l, v), v) == SetValueInstant(l, v)
  {
    ClampRespectsDigitBudgetIfAny(l.format, v);
  }

  /**
    With a digit budget, what is on screen fits it after every operation
    except the first frame of `StartAnimation` (which shows the start value
    unclamped) and a tween step (whose value comes from the easing curve).
   */
  lemma DisplayStaysWithinBudget(l: Label, e: Event)
    requires Consistent(l) && Enabled(l, e) && DisplayFits(l)
    requires !e.TweenStep?
    requires e.Start? ==> DisplayFits(l.(display := e.startValue))
    ensures DisplayFits(Step(l, e))
  {
    match e
    case TimerTick(c) =>
      if l.progress < 1.0 && l.format.maxDigits > 0 {
        var r := Step(l, e);
        var m := l.format.maxDigits;
        FitsBudgetIffInRange(m, l.start);
        FitsBudgetIffInRange(m, l.target);
        FitsBudgetIffInRange(m, r.display);
      }
    case AnimateTo(n) =>
    case _ =>
  }

  /** `_Ready` without `AnimateOnReady` does not set the target, so stopping right after shows the old target, not `Value`. */
  lemma StopAfterReadyShowsOldTarget(l: Label)
    requires Consistent(l) && Formattable(l.format, l.value) && !l.animateOnReady
    ensures StopAnimation(Ready(l)).display == l.target
  {
  }

  /**
    Random mode, animation from 0 to 100, then `SetValueInstant(50)` as
    written: the timer still ticks, and its next tick replaces the 50 on
    screen with a random value (here 0).
   */
  lemma SetValueInstantAsWrittenKeepsTicking()
    ensures var l0 := SetAnimationSettings(NewLabel(), 1.0, EASE_OUT, TRANS_CUBIC, true, 0.05);
      var l1 := StartAnimation(l0, 0, 100);
      var l2 := SetValueInstantAsWritten(l1, 50);
      && l2.Ok? && l2.value.display == 50 && l2.value.timer
      && OnRandomTimerTimeout(l2.value, 0).display == 0
  {
  }

  /**
    Once the progress tween has reported 1 (or more), every later tick of
    the random timer leaves the label as it is, whatever its candidate.
   */
  lemma FinishedProgressFreezesTicks(l: Label, p: real, c: int)
    requires Consistent(l) && l.tween == Some(ProgressTween) && l.timer && p >= 1.0
    ensures var r := OnRandomProgressUpdate(l, p);
      OnRandomTimerTimeout(r, c) == r
  {
  }

  /**
    Where the source's `SetValueInstant` returns, it leaves the label as
    the corrected one does except for the random timer, which it keeps.
   */
  lemma SetValueInstantDiffersOnlyInTimer(l: Label, v: Int32)
    requires Consistent(l)
    ensures var w := SetValueInstantAsWritten(l, v);
      w.Ok? ==> w.value == SetValueInstant(l, v).(timer := l.timer)
  {
  }

  /** With MaxDigits 3, the source's `SetValueInstant(1000)` throws where the corrected one shows 999. */
  lemma SetValueInstantAsWrittenThrowsOutsideBudget()
    ensures var l := NewLabel().(format := NewLabel().format.(maxDigits := 3));
      && Consistent(l)
      && SetValueInstantAsWritten(l, 1000).Err?
      && SetValueInstant(l, 1000).display == 999
  {
    ClampAsWrittenThrowsWhereItClamps(3, 1000);
  }

  /** With the correction no engine callback can follow `SetValueInstant`, so the value on screen stays put. */
  lemma SetValueInstantSettles(l: Label, v: Int32, e: Event)
    requires Consistent(l)
    requires e.TweenStep? || e.ProgressStep? || e.TimerTick? || e.TweenFinished?
    ensures !Enabled(SetValueInstant(l, v), e)
  {
  }
}
