/**
The mode manager, its PID controller and the clock of the cross-fade. After a
switch the old encoder and decoder stay in service for the first half of the
cross-fade; sends count it down.
 */
module Controllers {
  import opened Options
  import opened Adaptive

  // ----- Mode and window -----

  /** Rounding to the nearest integer, halves away from zero, negative results becoming zero. */
  function RoundToNat(x: real): nat {
    if x < 0.0 then 0 else (x + 0.5).Floor
  }

  function Clamp(w: nat, range: (nat, nat)): nat {
    if w < range.0 then range.0 else if w > range.1 then range.1 else w
  }

  /** The window scaled by how far the loss is from the mode's threshold. */
  function Scaled(mode: FecMode, window: nat, loss: real): real {
    var alpha := 1.0 + 0.5 * (loss - Threshold(mode));
    window as real * alpha
  }

  function NextWindow(mode: FecMode, window: nat, loss: real): nat {
    Clamp(RoundToNat(Scaled(mode, window, loss)), WindowRange(mode))
  }

  lemma ScaledDirection(mode: FecMode, window: nat, loss: real)
    ensures loss >= Threshold(mode) ==> Scaled(mode, window, loss) >= window as real
    ensures loss <= Threshold(mode) ==> Scaled(mode, window, loss) <= window as real
  {
    hide Threshold;
    var d := 0.5 * (loss - Threshold(mode));
    var w := window as real;
    assert w * (1.0 + d) == w + w * d;
    if d >= 0.0 {
      assert w * d >= 0.0;
    }
    if d <= 0.0 {
      assert w * d <= 0.0;
    }
  }

  lemma RoundBelow(x: real, w: nat)
    ensures x >= w as real ==> RoundToNat(x) >= w
    ensures x <= w as real ==> RoundToNat(x) <= w
  {
    if x >= w as real {
      assert (x + 0.5).Floor >= w;
    } else if x >= 0.0 {
      assert (x + 0.5).Floor <= w;
    }
  }

  /** Within a mode the window follows the loss: up above the threshold, down below it. */
  lemma WindowFollowsLoss(mode: FecMode, window: nat, loss: real)
    requires InWindowRange(mode, window)
    ensures InWindowRange(mode, NextWindow(mode, window, loss))
    ensures loss >= Threshold(mode) ==> NextWindow(mode, window, loss) >= window
    ensures loss <= Threshold(mode) ==> NextWindow(mode, window, loss) <= window
  {
    hide RoundToNat;
    hide Threshold;
    hide Scaled;
    ScaledDirection(mode, window, loss);
    RoundBelow(Scaled(mode, window, loss), window);
  }

  /** The new window is the scaled one, rounded to the nearest, as far as the mode's range allows. */
  lemma WindowTracks(mode: FecMode, window: nat, loss: real)
    ensures
      var target := window as real * (1.0 + 0.5 * (loss - Threshold(mode)));
      var next, (lo, hi) := NextWindow(mode, window, loss), WindowRange(mode);
      && (target <= lo as real ==> next == lo)
      && (target >= hi as real ==> next == hi)
      && (lo as real <= target <= hi as real ==> target - 0.5 <= next as real <= target + 0.5)
  {
    var target := Scaled(mode, window, loss);
    RoundNear(target);
    RoundBelow(target, WindowRange(mode).0);
    RoundBelow(target, WindowRange(mode).1);
  }

  lemma RoundNear(x: real)
    ensures x >= 0.0 ==> x - 0.5 <= RoundToNat(x) as real <= x + 0.5
  {
  }

  class PidController {
    const kp: real
    const ki: real
    const kd: real
    var integral: real
    var previousError: real

    constructor (kp: real, ki: real, kd: real)
      ensures this.kp == kp && this.ki == ki && this.kd == kd && integral == 0.0 && previousError == 0.0
    {
      this.kp := kp;
      this.ki := ki;
      this.kd := kd;
      integral := 0.0;
      previousError := 0.0;
    }

    /** The output for an error: its proportional, integral and derivative terms. */
    function Output(value: real, setpoint: real, dt: real): real
      reads this
    {
      if dt <= 0.0 then 0.0 else
        var error := setpoint - value;
        kp * error + ki * (integral + error * dt) + kd * ((error - previousError) / dt)
    }

    /** No time passed, no output and no change; otherwise the error is booked. */
    method Update(value: real, setpoint: real, dt: real) returns (output: real)
      modifies this
      ensures output == old(Output(value, setpoint, dt))
      ensures dt <= 0.0 ==> integral == old(integral) && previousError == old(previousError)
      ensures dt > 0.0 ==> previousError == setpoint - value && integral == old(integral) + (setpoint - value) * dt
    {
      if dt <= 0.0 {
        return 0.0;
      }
      var error := setpoint - value;
      integral := integral + error * dt;
      var derivative := (error - previousError) / dt;
      previousError := error;
      output := kp * error + ki * integral + kd * derivative;
    }
  }

  /** One step up or down, or none when the output is small. */
  function ModeAfter(mode: FecMode, output: real): FecMode {
    if output > 0.1 then NextMode(mode) else if output < -0.1 then PrevMode(mode) else mode
  }

  /** How much the output falls per unit of loss. */
  function Slope(kp: real, ki: real, kd: real, dt: real): real
    requires dt > 0.0
  {
    kp + ki * dt + kd / dt
  }

  /** What the controller remembers: the output at zero error. */
  function Memory(pid: PidController, dt: real): real
    requires dt > 0.0
    reads pid
  {
    pid.ki * pid.integral - pid.kd * pid.previousError / dt
  }

  lemma OutputIsLinear(pid: PidController, loss: real, setpoint: real, dt: real)
    requires dt > 0.0
    ensures pid.Output(loss, setpoint, dt)
         == Memory(pid, dt) - Slope(pid.kp, pid.ki, pid.kd, dt) * (loss - setpoint)
    ensures Slope(pid.kp, pid.ki, pid.kd, dt) == pid.kp + pid.ki * dt + pid.kd / dt
    ensures Memory(pid, dt) == pid.ki * pid.integral - pid.kd * pid.previousError / dt
  {
    var e := setpoint - loss;
    assert pid.ki * (pid.integral + e * dt) == pid.ki * pid.integral + pid.ki * dt * e;
    assert pid.kd * ((e - pid.previousError) / dt) == pid.kd / dt * e - pid.kd * pid.previousError / dt;
    assert Slope(pid.kp, pid.ki, pid.kd, dt) * e == pid.kp * e + pid.ki * dt * e + pid.kd / dt * e;
  }

  /** A step of the mode keeps the order of outputs. */
  lemma ModeAfterMonotone(mode: FecMode, low: real, high: real)
    requires low <= high
    ensures Rank(ModeAfter(mode, low)) <= Rank(ModeAfter(mode, high))
  {
  }

  /**
  The error is threshold minus loss: for all nonnegative gains and whatever the
  controller remembers, a higher loss never gives a higher output, so it never
  leads to a stronger mode.
   */
  lemma HigherLossNeverRaises(pid: PidController, mode: FecMode, loss: real, higher: real, setpoint: real, dt: real)
    requires pid.kp >= 0.0 && pid.ki >= 0.0 && pid.kd >= 0.0 && loss <= higher
    ensures pid.Output(higher, setpoint, dt) <= pid.Output(loss, setpoint, dt)
    ensures Rank(ModeAfter(mode, pid.Output(higher, setpoint, dt))) <= Rank(ModeAfter(mode, pid.Output(loss, setpoint, dt)))
  {
    hide ModeAfter, Rank, Slope, Memory, PidController.Output;
    if dt <= 0.0 {
      NoTimeNoOutput(pid, loss, setpoint, dt);
      NoTimeNoOutput(pid, higher, setpoint, dt);
    } else {
      OutputIsLinear(pid, loss, setpoint, dt);
      OutputIsLinear(pid, higher, setpoint, dt);
      SlopeNonNegative(pid.kp, pid.ki, pid.kd, dt);
      ScaleKeepsOrder(Slope(pid.kp, pid.ki, pid.kd, dt), loss - setpoint, higher - setpoint);
    }
    ModeAfterMonotone(mode, pid.Output(higher, setpoint, dt), pid.Output(loss, setpoint, dt));
  }

  lemma NoTimeNoOutput(pid: PidController, loss: real, setpoint: real, dt: real)
    requires dt <= 0.0
    ensures pid.Output(loss, setpoint, dt) == 0.0
  {
  }

  lemma SlopeNonNegative(kp: real, ki: real, kd: real, dt: real)
    requires kp >= 0.0 && ki >= 0.0 && kd >= 0.0 && dt > 0.0
    ensures Slope(kp, ki, kd, dt) >= 0.0
  {
    assert ki * dt >= 0.0 && kd / dt >= 0.0;
  }

  lemma ScaleKeepsOrder(b: real, x: real, y: real)
    requires b >= 0.0 && x <= y
    ensures b * x <= b * y
  {
    assert b * (y - x) >= 0.0;
  }

  /**
  Exactly when the controller steps: down when the loss is far enough above the
  threshold, up when it is far enough below, for all gains.
   */
  lemma StepExactly(pid: PidController, mode: FecMode, loss: real, dt: real)
    requires dt > 0.0
    ensures
      var after := ModeAfter(mode, pid.Output(loss, Threshold(mode), dt));
      var push := Slope(pid.kp, pid.ki, pid.kd, dt) * (loss - Threshold(mode));
      && (Rank(after) < Rank(mode) <==> push > Memory(pid, dt) + 0.1 && mode != Zero)
      && (Rank(after) > Rank(mode) <==> push < Memory(pid, dt) - 0.1 && mode != Extreme)
  {
    OutputIsLinear(pid, loss, Threshold(mode), dt);
  }

  /** With the default gains a fresh controller answers half the packets lost in Light mode by switching repair off. */
  method DefaultStepsDown() returns (after: FecMode)
    ensures after == Zero
  {
    var pid := new PidController(1.2, 0.5, 0.1);
    var output := pid.Update(0.5, Threshold(Light), 1.0);
    after := ModeAfter(Light, output);
  }

  class ModeManager {
    var currentMode: FecMode
    var currentWindow: nat
    const pid: PidController
    const windowSizes: map<FecMode, nat>
    const hysteresis: real

    ghost predicate Valid()
      reads this
    {
      WindowsInRange(windowSizes) && InWindowRange(currentMode, currentWindow) && 0.0 <= hysteresis < 1.0
    }

    constructor (config: Config)
      requires Validated(config) && WindowsInRange(config.windowSizes)
      ensures Valid() && fresh(pid) && currentMode == config.initialMode
      ensures currentWindow == InitialWindow(config.windowSizes, config.initialMode)
      ensures windowSizes == config.windowSizes && hysteresis == config.hysteresis
    {
      pid := new PidController(config.kp, config.ki, config.kd);
      windowSizes := config.windowSizes;
      hysteresis := config.hysteresis;
      currentMode := config.initialMode;
      currentWindow := InitialWindow(config.windowSizes, config.initialMode);
      InitialWindowInRange(config.windowSizes, config.initialMode);
    }

    /** Loss beyond the Strong threshold by more than the hysteresis. */
    predicate Emergency(loss: real)
      reads this
    {
      loss > Threshold(Strong) + hysteresis
    }

    /**
    Moves mode and window for an estimated loss. Returns the previous mode and
    window when a cross-fade should start.
     */
    method Update(loss: real, dwelling: bool, dt: real) returns (prev: Option<(FecMode, nat)>)
      requires Valid()
      modifies this`currentMode, this`currentWindow, pid
      ensures Valid()
      ensures prev.Some? ==> prev.value == (old(currentMode), old(currentWindow))
      ensures prev.None? ==> currentMode == old(currentMode) && currentWindow == old(currentWindow)
      ensures Emergency(loss) <==> loss > 0.50 + hysteresis
      ensures Emergency(loss) ==> prev.Some? && currentMode == Extreme && currentWindow == InitialWindow(windowSizes, Extreme)
      ensures !Emergency(loss) ==> Rank(old(currentMode)) - 1 <= Rank(currentMode) <= Rank(old(currentMode)) + 1
      ensures !Emergency(loss) && dwelling ==> prev.None?
      ensures !Emergency(loss) && !dwelling ==>
        && currentMode == ModeAfter(old(currentMode), old(pid.Output(loss, Threshold(currentMode), dt)))
        && (currentMode != old(currentMode) ==>
              currentWindow == NextWindow(currentMode, InitialWindow(windowSizes, currentMode), loss))
        && (currentMode == old(currentMode) ==> currentWindow == NextWindow(currentMode, old(currentWindow), loss))
        && (prev.Some? <==> currentMode != old(currentMode) || currentWindow != old(currentWindow))
    {
      hide NextWindow;
      if Emergency(loss) {
        prev := Some((currentMode, currentWindow));
        currentMode := Extreme;
        currentWindow := InitialWindow(windowSizes, currentMode);
        InitialWindowInRange(windowSizes, currentMode);
        return;
      }
      if dwelling {
        return None;
      }
      var output := pid.Update(loss, Threshold(currentMode), dt);
      var newMode := currentMode;
      if output > 0.1 {
        newMode := NextMode(currentMode);
      } else if output < -0.1 {
        newMode := PrevMode(currentMode);
      }
      var prevMode, prevWindow := currentMode, currentWindow;
      if newMode != currentMode {
        currentMode := newMode;
        currentWindow := InitialWindow(windowSizes, newMode);
        InitialWindowInRange(windowSizes, newMode);
      }
      WindowFollowsLoss(currentMode, currentWindow, loss);
      currentWindow := NextWindow(currentMode, currentWindow, loss);
      if prevMode != currentMode || prevWindow != currentWindow {
        return Some((prevMode, prevWindow));
      }
      return None;
    }
  }

  // ----- Cross-fade -----

  const CROSS_FADE_LEN: nat := 32

  /** The cross-fade: sends left, and whether the old encoder still serves. */
  datatype Fade = Fade(left: nat, serving: bool)

  /** One send: whether the old encoder is asked for repairs, and the cross-fade afterwards. */
  function SendStep(f: Fade): (Fade, bool) {
    var asked := f.left > CROSS_FADE_LEN / 2 && f.serving;
    if f.left == 0 then (f, asked)
    else
      var left := f.left - 1;
      (Fade(left, f.serving && left != CROSS_FADE_LEN / 2), asked)
  }

  function AfterSends(f: Fade, n: nat): Fade {
    if n == 0 then f else SendStep(AfterSends(f, n - 1)).0
  }

  /**
  After an uninterrupted switch the old encoder is asked for repairs on exactly
  the first 16 sends, and the cross-fade is over after 32.
   */
  lemma {:induction false} OldEncoderServes(n: nat)
    ensures
      var f := AfterSends(Fade(CROSS_FADE_LEN, true), n);
      && f == Fade(if n < 32 then 32 - n else 0, n < 16)
      && (SendStep(f).1 <==> n < 16)
    decreases n
  {
    if n > 0 {
      OldEncoderServes(n - 1);
    }
  }
}
