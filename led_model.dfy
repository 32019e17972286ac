/** The status LED as a state machine on values: two flags, the animation step,
    the time of the last animation frame and the colour held in the strip's one
    pixel. Each operation of the LED manager is a function from the state
    before to the state after; the class in `NeoPixel` is proved against them. */
module LedModel {
  import opened Platform

  /** `LED_COUNT`: the strip has a single pixel. */
  const LED_COUNT: nat := 1

  /** The animation advances at most once per this many milliseconds. */
  const RAINBOW_INTERVAL: u32 := 50

  /** `rainbowStep` counts modulo this. */
  const RAINBOW_STEPS: nat := 256

  /** A pixel colour: packed from three channels, or the strip library's HSV
      conversion of a hue at full saturation and value (its RGB result is
      library code and is kept symbolic). */
  datatype Color = Rgb(red: u8, green: u8, blue: u8) | Hue(hue: u16)

  const BLACK: Color := Rgb(0, 0, 0)

  datatype LedState = LedState(
    rainbowMode: bool,
    enabled: bool,
    rainbowStep: nat,
    lastRainbowUpdate: u32,
    pixel: Color)

  /** The invariant every public operation keeps: the step is a valid hue index
      and rainbow mode is only on while the LED is enabled. */
  predicate Inv(s: LedState) {
    s.rainbowStep < RAINBOW_STEPS && (s.rainbowMode ==> s.enabled)
  }

  /** The constructor: rainbow mode, enabled, step 0, never animated; the strip
      library starts with every pixel cleared. */
  function Initial(): (s: LedState)
    ensures Inv(s)
    ensures s.rainbowMode && s.enabled && s.rainbowStep == 0
  {
    LedState(true, true, 0, 0, BLACK)
  }

  /** `setColor`: static colour, LED enabled. */
  function SetColor(s: LedState, red: u8, green: u8, blue: u8): (t: LedState)
    ensures Inv(s) ==> Inv(t)
    ensures t.enabled && !t.rainbowMode && t.pixel == Rgb(red, green, blue)
    ensures t.rainbowStep == s.rainbowStep && t.lastRainbowUpdate == s.lastRainbowUpdate
  {
    s.(rainbowMode := false, enabled := true, pixel := Rgb(red, green, blue))
  }

  /** `setRainbowMode`: switching the animation on also enables the LED;
      switching it off leaves `enabled` as it was. */
  function SetRainbowMode(s: LedState, enable: bool): (t: LedState)
    ensures Inv(s) ==> Inv(t)
    ensures t.rainbowMode == enable
    ensures t.enabled == (enable || s.enabled)
    ensures t.pixel == s.pixel && t.rainbowStep == s.rainbowStep && t.lastRainbowUpdate == s.lastRainbowUpdate
  {
    if enable then s.(rainbowMode := true, enabled := true) else s.(rainbowMode := false)
  }

  /** `setEnabled`: disabling also stops the animation and blanks the pixel;
      enabling leaves the mode and the pixel as they were. */
  function SetEnabled(s: LedState, enable: bool): (t: LedState)
    ensures Inv(s) ==> Inv(t)
    ensures t.enabled == enable
    ensures !enable ==> !t.rainbowMode && t.pixel == BLACK
    ensures enable ==> t.rainbowMode == s.rainbowMode && t.pixel == s.pixel
    ensures t.rainbowStep == s.rainbowStep && t.lastRainbowUpdate == s.lastRainbowUpdate
  {
    if enable then s.(enabled := true) else s.(enabled := false, rainbowMode := false, pixel := BLACK)
  }

  /** `flashColor`: the pixel shows the flash colour and keeps it; rainbow mode
      is switched off for the flash and then put back as it was. */
  function FlashColor(s: LedState, red: u8, green: u8, blue: u8): (t: LedState)
    ensures Inv(s) ==> Inv(t)
    ensures t.rainbowMode == s.rainbowMode && t.enabled == s.enabled
    ensures t.pixel == Rgb(red, green, blue)
    ensures t.rainbowStep == s.rainbowStep && t.lastRainbowUpdate == s.lastRainbowUpdate
  {
    var wasRainbow := s.rainbowMode;
    var during := s.(rainbowMode := false, pixel := Rgb(red, green, blue));
    if wasRainbow then during.(rainbowMode := true) else during
  }

  /** Whether `update` at time `now` draws a new animation frame. */
  predicate Fires(s: LedState, now: u32) {
    s.enabled && s.rainbowMode && Elapsed(now, s.lastRainbowUpdate) >= RAINBOW_INTERVAL
  }

  /** `update` at time `now`; `shownAt` is the second clock reading, taken after
      the frame is shown, which becomes the time of the last frame. The hue is
      `rainbowStep * 256` passed as a 16-bit argument. */
  function Update(s: LedState, now: u32, shownAt: u32): (t: LedState)
    ensures Inv(s) ==> Inv(t)
    ensures t != s <==> Fires(s, now)
    ensures t.rainbowMode == s.rainbowMode && t.enabled == s.enabled
    ensures Fires(s, now) ==> t.rainbowStep == (s.rainbowStep + 1) % RAINBOW_STEPS && t.lastRainbowUpdate == shownAt
  {
    if !s.enabled then s
    else if !s.rainbowMode then s
    else if Elapsed(now, s.lastRainbowUpdate) < RAINBOW_INTERVAL then s
    else s.(pixel := Hue((s.rainbowStep * 256) % 0x1_0000),
             rainbowStep := (s.rainbowStep + 1) % RAINBOW_STEPS,
             lastRainbowUpdate := shownAt)
  }

  /** The public operations, `setRed` .. `turnOff` being `SetColorOp` and
      `SetEnabledOp` with fixed arguments. */
  datatype Op =
    | SetColorOp(red: u8, green: u8, blue: u8)
    | SetRainbowModeOp(enable: bool)
    | SetEnabledOp(enable: bool)
    | FlashColorOp(red: u8, green: u8, blue: u8)
    | UpdateOp(now: u32, shownAt: u32)

  function Apply(s: LedState, op: Op): LedState {
    match op
    case SetColorOp(r, g, b) => SetColor(s, r, g, b)
    case SetRainbowModeOp(e) => SetRainbowMode(s, e)
    case SetEnabledOp(e) => SetEnabled(s, e)
    case FlashColorOp(r, g, b) => FlashColor(s, r, g, b)
    case UpdateOp(now, shownAt) => Update(s, now, shownAt)
  }

  function ApplyAll(s: LedState, ops: seq<Op>): LedState
    decreases |ops|
  {
    if ops == [] then s else ApplyAll(Apply(s, ops[0]), ops[1..])
  }

  /** How many of the `update` calls in `ops` draw a frame. */
  function Fired(s: LedState, ops: seq<Op>): nat
    decreases |ops|
  {
    if ops == [] then 0
    else (if ops[0].UpdateOp? && Fires(s, ops[0].now) then 1 else 0) + Fired(Apply(s, ops[0]), ops[1..])
  }

  /** Every operation keeps the invariant; `flashColor` relies on it, since it
      turns rainbow mode back on without looking at `enabled`. */
  lemma ApplyKeepsInv(s: LedState, op: Op)
    requires Inv(s)
    ensures Inv(Apply(s, op))
  {
  }

  /** The invariant holds after construction and after any sequence of calls. */
  lemma {:induction false} InvAlways(s: LedState, ops: seq<Op>)
    requires Inv(s)
    ensures Inv(ApplyAll(s, ops))
    decreases |ops|
  {
    if ops != [] {
      ApplyKeepsInv(s, ops[0]);
      InvAlways(Apply(s, ops[0]), ops[1..]);
    }
  }

  lemma InvFromConstruction(ops: seq<Op>)
    ensures Inv(ApplyAll(Initial(), ops))
  {
    InvAlways(Initial(), ops);
  }

  /** `update` draws a frame exactly when the LED is enabled, animating, and at
      least 50 ms (wrapping) have passed; a frame shows the hue of the current
      step, advances the step by one modulo 256 and records `shownAt`. When it
      does not fire, nothing changes. */
  lemma UpdateFrame(s: LedState, now: u32, shownAt: u32)
    requires Inv(s)
    ensures Update(s, now, shownAt) != s <==> Fires(s, now)
    ensures Fires(s, now) ==> Update(s, now, shownAt) == s.(
      pixel := Hue(s.rainbowStep * 256),
      rainbowStep := (s.rainbowStep + 1) % RAINBOW_STEPS,
      lastRainbowUpdate := shownAt)
  {
  }

  /** Right after a frame, `update` draws nothing until 50 ms after `shownAt`. */
  lemma UpdateRateLimited(s: LedState, now: u32, shownAt: u32, d: u32, later: u32)
    requires Fires(s, now) && d < RAINBOW_INTERVAL
    ensures var t := Update(s, now, shownAt);
      Update(t, (shownAt + d) % U32_MODULUS, later) == t
  {
    ElapsedAfter(shownAt, d);
  }

  /** Only `update` moves the animation: every setter keeps the step and the time
      of the last frame, and `update` never touches the two flags. */
  lemma OnlyUpdateAnimates(s: LedState, op: Op)
    ensures !op.UpdateOp? ==> Apply(s, op).rainbowStep == s.rainbowStep
                              && Apply(s, op).lastRainbowUpdate == s.lastRainbowUpdate
    ensures op.UpdateOp? ==> Apply(s, op).rainbowMode == s.rainbowMode
                             && Apply(s, op).enabled == s.enabled
  {
  }

  /** Over any sequence of calls, the step has advanced by exactly the number of
      frames drawn, modulo 256. */
  lemma {:induction false} StepCountsFrames(s: LedState, ops: seq<Op>)
    requires Inv(s)
    ensures ApplyAll(s, ops).rainbowStep == (s.rainbowStep + Fired(s, ops)) % RAINBOW_STEPS
    decreases |ops|
  {
    if ops != [] {
      var t := Apply(s, ops[0]);
      ApplyKeepsInv(s, ops[0]);
      StepCountsFrames(t, ops[1..]);
      var f := if ops[0].UpdateOp? && Fires(s, ops[0].now) then 1 else 0;
      assert t.rainbowStep == (s.rainbowStep + f) % RAINBOW_STEPS;
      assert Fired(s, ops) == f + Fired(t, ops[1..]);
    }
  }

  /** `flashColor` keeps `enabled`, restores the mode it found, and leaves the
      flash colour in the pixel: nothing brings back a previous static colour. */
  lemma FlashRestoresMode(s: LedState, red: u8, green: u8, blue: u8)
    requires Inv(s)
    ensures var t := FlashColor(s, red, green, blue);
      && Inv(t)
      && t.enabled == s.enabled
      && t.rainbowMode == s.rainbowMode
      && t.pixel == Rgb(red, green, blue)
      && t.rainbowStep == s.rainbowStep && t.lastRainbowUpdate == s.lastRainbowUpdate
  {
  }

  /** A flash on a disabled LED lights the pixel while `enabled` stays false. */
  lemma FlashWhileDisabled(s: LedState, red: u8, green: u8, blue: u8)
    requires Inv(s) && !s.enabled
    ensures !FlashColor(s, red, green, blue).enabled
    ensures FlashColor(s, red, green, blue).pixel == Rgb(red, green, blue)
  {
  }

  /** Turning the LED off is idempotent and forgets the mode and the colour. */
  lemma TurnOffForgets(s: LedState)
    ensures SetEnabled(SetEnabled(s, false), false) == SetEnabled(s, false)
    ensures var t := SetEnabled(s, false); !t.enabled && !t.rainbowMode && t.pixel == BLACK
    ensures forall now, shownAt :: Update(SetEnabled(s, false), now, shownAt) == SetEnabled(s, false)
  {
  }

  /** Re-enabling after a switch-off does not resume the animation. */
  lemma ReenableStaysStatic(s: LedState)
    ensures var t := SetEnabled(SetEnabled(s, false), true);
      t.enabled && !t.rainbowMode && t.pixel == BLACK
  {
  }
}
