/**
 * The fan policy of gateway/sbegw/hwd.py: duty curves with hysteresis over a kernel governor. `raw` is
 * the last 0-255 duty written to the fan, None while this process has not written one.
 */
module FanControl {
  import opened Wrappers

  type Level = n: int | 0 <= n < 4

  const FAN_LEVELS: seq<int> := [36, 72, 128, 255]
  const FAN_LEVEL_PERCENT: seq<int> := [14, 28, 50, 100]
  const HYSTERESIS := 4.0
  const THERMAL_WARNING := 100.0

  type Curve = seq<(real, Level)>

  datatype CurveName = Balanced | Cool | Quiet

  function CurveOf(name: CurveName): Curve {
    match name
    case Balanced => [(0.0, 0), (50.0, 1), (65.0, 2), (75.0, 3)]
    case Cool => [(0.0, 1), (50.0, 2), (65.0, 3)]
    case Quiet => [(0.0, 0), (65.0, 1), (80.0, 2), (90.0, 3)]
  }

  /** The board's own trip table. */
  const DTS_POLICY: Curve := [(0.0, 0), (50.0, 1), (65.0, 2), (80.0, 3)]

  /** A mode that is no known name falls back to the balanced curve, so `Curved` is total. */
  datatype Mode = Auto | Full | Manual(percent: int) | Curved(name: CurveName)

  function LevelFrom(curve: Curve, t: real, level: Level): Level {
    if curve == [] || t < curve[0].0 then level else LevelFrom(curve[1..], t, curve[0].1)
  }

  function CurveLevel(curve: Curve, t: real): Level
    requires curve != []
  {
    LevelFrom(curve, t, curve[0].1)
  }

  method ComputeCurveLevel(curve: Curve, t: real) returns (level: Level)
    requires curve != []
    ensures level == CurveLevel(curve, t)
  {
    level := curve[0].1;
    var i := 0;
    while i < |curve|
      invariant 0 <= i <= |curve|
      invariant LevelFrom(curve[i..], t, level) == CurveLevel(curve, t)
    {
      assert curve[i..][1..] == curve[i + 1..];
      if t < curve[i].0 {
        return;
      }
      level := curve[i].1;
      i := i + 1;
    }
  }

  /** Whether the threshold that justified the level has been cleared by the hysteresis. */
  predicate StepDownOk(curve: Curve, t: real, level: Level) {
    forall i | 0 <= i < |curve| && curve[i].1 >= level :: t < curve[i].0 - HYSTERESIS
  }

  /** `round(a / b)`: to the nearest integer, halves to even. */
  function Round(a: nat, b: nat): nat
    requires b > 0
  {
    var q, r := a / b, a % b;
    if 2 * r < b then q else if 2 * r > b then q + 1 else if q % 2 == 0 then q else q + 1
  }

  function ManualRaw(percent: int): int {
    if percent <= 0 then 0 else if Round(percent * 255, 100) > 255 then 255 else Round(percent * 255, 100)
  }

  datatype Target = HandBack | Hold(duty: int, level: Option<Level>, raw: int)

  function AtLevel(level: Level): Target {
    Hold(FAN_LEVEL_PERCENT[level], Some(level), FAN_LEVELS[level])
  }

  function FanTarget(mode: Mode, temperature: Option<real>, current: Option<Level>): Target {
    match mode
    case Auto => HandBack
    case Full => AtLevel(3)
    case Manual(percent) =>
      if 0 < percent < FAN_LEVEL_PERCENT[0] then AtLevel(0) else Hold(percent, None, ManualRaw(percent))
    case Curved(name) =>
      if temperature.None? then AtLevel(2)
      else
        var level := CurveLevel(CurveOf(name), temperature.value);
        if temperature.value >= THERMAL_WARNING then AtLevel(3)
        else if current.Some? && level < current.value
                && !StepDownOk(CurveOf(name), temperature.value, current.value) then
          AtLevel(current.value)
        else AtLevel(level)
  }

  datatype Fan = Fan(duty: Option<int>, level: Option<Level>, released: bool, raw: Option<int>)

  const FRESH := Fan(None, None, false, None)

  function Release(f: Fan, temperature: Option<real>, controllable: bool): Fan {
    Fan(None, None, true,
        if temperature.Some? && controllable then Some(FAN_LEVELS[CurveLevel(DTS_POLICY, temperature.value)])
        else f.raw)
  }

  /** One policy tick. `controllable` is whether a writable fan was found. */
  function Tick(f: Fan, mode: Mode, temperature: Option<real>, controllable: bool): Fan {
    match FanTarget(mode, temperature, f.level)
    case HandBack => if f.duty.Some? || !f.released then Release(f, temperature, controllable) else f
    case Hold(duty, level, raw) =>
      if !controllable || f.duty == Some(duty) then f else Fan(Some(duty), level, false, Some(raw))
  }

  class HardwareManager {
    var fanDuty: Option<int>
    var fanLevel: Option<Level>
    var pendingLevel: Option<Level>
    var pendingRaw: Option<int>
    var released: bool
    var raw: Option<int>

    ghost function Model(): Fan
      reads this
    {
      Fan(fanDuty, fanLevel, released, raw)
    }

    constructor ()
      ensures Model() == FRESH
    {
      fanDuty, fanLevel, pendingLevel, pendingRaw := None, None, None, None;
      released, raw := false, None;
    }

    /** The target duty, leaving the level and the raw duty that go with it pending; touches no hardware. */
    method Target(mode: Mode, temperature: Option<real>) returns (duty: Option<int>)
      modifies this`pendingLevel, this`pendingRaw
      ensures match FanTarget(mode, temperature, fanLevel)
              case HandBack => duty == None && pendingLevel == None && pendingRaw == None
              case Hold(d, level, r) => duty == Some(d) && pendingLevel == level && pendingRaw == Some(r)
    {
      match mode
      case Auto =>
        pendingLevel, pendingRaw := None, None;
        return None;
      case Full =>
        pendingLevel, pendingRaw := Some(3), Some(255);
        return Some(100);
      case Manual(percent) =>
        if 0 < percent < FAN_LEVEL_PERCENT[0] {
          pendingLevel, pendingRaw := Some(0), Some(FAN_LEVELS[0]);
          return Some(FAN_LEVEL_PERCENT[0]);
        }
        pendingLevel, pendingRaw := None, Some(ManualRaw(percent));
        return Some(percent);
      case Curved(name) =>
        if temperature.None? {
          pendingLevel, pendingRaw := Some(2), Some(FAN_LEVELS[2]);
          return Some(FAN_LEVEL_PERCENT[2]);
        }
        var level := ComputeCurveLevel(CurveOf(name), temperature.value);
        if temperature.value >= THERMAL_WARNING {
          pendingLevel, pendingRaw := Some(3), Some(255);
          return Some(100);
        }
        if fanLevel.Some? && level < fanLevel.value && !StepDownOk(CurveOf(name), temperature.value, fanLevel.value) {
          pendingLevel, pendingRaw := fanLevel, Some(FAN_LEVELS[fanLevel.value]);
          return Some(FAN_LEVEL_PERCENT[fanLevel.value]);
        }
        pendingLevel, pendingRaw := Some(level), Some(FAN_LEVELS[level]);
        return Some(FAN_LEVEL_PERCENT[level]);
    }

    method ApplyFan(mode: Mode, temperature: Option<real>, controllable: bool)
      modifies this
      ensures Model() == Tick(old(Model()), mode, temperature, controllable)
    {
      var duty := Target(mode, temperature);
      if duty.None? {
        if fanDuty.Some? || !released {
          ReleaseFan(temperature, controllable);
        }
        return;
      }
      if !controllable || duty == fanDuty {
        return;
      }
      raw := pendingRaw;
      fanDuty := duty;
      fanLevel := pendingLevel;
      released := false;
    }

    method ReleaseFan(temperature: Option<real>, controllable: bool)
      modifies this
      ensures Model() == Release(old(Model()), temperature, controllable)
    {
      if temperature.Some? && controllable {
        var level := ComputeCurveLevel(DTS_POLICY, temperature.value);
        raw := Some(FAN_LEVELS[level]);
      }
      fanDuty, fanLevel, released := None, None, true;
    }
  }

  // --------------------------------------------------------- what curves say

  /** The level of a temperature is the one of the last threshold it reaches. */
  lemma CurveLevelMeaning(name: CurveName, t: real, i: nat)
    requires i < |CurveOf(name)|
    requires CurveOf(name)[i].0 <= t && (i + 1 < |CurveOf(name)| ==> t < CurveOf(name)[i + 1].0)
    ensures CurveLevel(CurveOf(name), t) == CurveOf(name)[i].1
  {
    var c := CurveOf(name);
    LevelFromAt(c, t, c[0].1, i);
  }

  lemma {:induction false} LevelFromAt(c: Curve, t: real, level: Level, i: nat)
    requires i < |c| && (forall j | 0 <= j <= i :: c[j].0 <= t) && (i + 1 < |c| ==> t < c[i + 1].0)
    ensures LevelFrom(c, t, level) == c[i].1
    decreases i
  {
    if i > 0 {
      LevelFromAt(c[1..], t, c[0].1, i - 1);
    } else if |c| > 1 {
      assert c[1..][0] == c[1];
    }
  }

  lemma {:induction false} Levels(name: CurveName, t: real)
    ensures var l := CurveLevel(CurveOf(name), t);
            match name
            case Balanced => l == if t < 50.0 then 0 else if t < 65.0 then 1 else if t < 75.0 then 2 else 3
            case Cool => l == if t < 50.0 then 1 else if t < 65.0 then 2 else 3
            case Quiet => l == if t < 65.0 then 0 else if t < 80.0 then 1 else if t < 90.0 then 2 else 3
  {
    var c := CurveOf(name);
    if t >= 0.0 {
      var i := if |c| > 3 && t >= c[3].0 then 3 else if t >= c[2].0 then 2 else if t >= c[1].0 then 1 else 0;
      CurveLevelMeaning(name, t, i);
    }
  }

  lemma DtsLevels(t: real)
    ensures CurveLevel(DTS_POLICY, t) == if t < 50.0 then 0 else if t < 65.0 then 1 else if t < 80.0 then 2 else 3
  {
    if t >= 0.0 {
      LevelFromAt(DTS_POLICY, t, 0, if t >= 80.0 then 3 else if t >= 65.0 then 2 else if t >= 50.0 then 1 else 0);
    }
  }

  /** Balanced and cool never ask for less than the board's own policy; quiet does exactly from 50 to 90 degrees. */
  lemma CurveAgainstBoardPolicy(name: CurveName, t: real)
    ensures CurveLevel(CurveOf(name), t) >= CurveLevel(DTS_POLICY, t) <==> name != Quiet || t < 50.0 || t >= 90.0
  {
    Levels(name, t);
    DtsLevels(t);
  }

  // ------------------------------------------------ the level over any run

  datatype Input = Input(mode: Mode, temperature: Option<real>, controllable: bool)

  function Run(f: Fan, inputs: seq<Input>): Fan {
    if inputs == [] then f
    else
      var last := inputs[|inputs| - 1];
      Tick(Run(f, inputs[..|inputs| - 1]), last.mode, last.temperature, last.controllable)
  }

  /** Level and duty say the same: the state of a fan no manual duty is in force on. */
  predicate Coupled(f: Fan) {
    if f.duty.None? then f.level.None? else f.level.Some? && f.duty.value == FAN_LEVEL_PERCENT[f.level.value]
  }

  lemma TickKeepsCoupled(f: Fan, input: Input)
    requires Coupled(f) && !input.mode.Manual?
    ensures Coupled(Tick(f, input.mode, input.temperature, input.controllable))
  {
  }

  lemma {:induction false} RunKeepsCoupled(f: Fan, inputs: seq<Input>)
    requires Coupled(f) && forall i | 0 <= i < |inputs| :: !inputs[i].mode.Manual?
    ensures Coupled(Run(f, inputs))
    decreases |inputs|
  {
    if inputs != [] {
      RunKeepsCoupled(f, inputs[..|inputs| - 1]);
      TickKeepsCoupled(Run(f, inputs[..|inputs| - 1]), inputs[|inputs| - 1]);
    }
  }

  /** The level a tick on a coupled fan in a curve mode leaves it at. */
  function NextLevel(name: CurveName, t: real, current: Option<Level>): Level {
    var level := CurveLevel(CurveOf(name), t);
    if current.Some? && level < current.value && !StepDownOk(CurveOf(name), t, current.value) then current.value
    else level
  }

  lemma CurvedTick(f: Fan, name: CurveName, t: real)
    requires Coupled(f)
    ensures Tick(f, Curved(name), Some(t), true).level == Some(NextLevel(name, t, f.level))
    ensures NextLevel(name, t, f.level) >= CurveLevel(CurveOf(name), t)
  {
    Levels(name, t);
  }

  /**
   * From a fresh or released fan, over any run without manual duty: after every curve-mode reading the
   * held level is at least the curve's, and in balanced and cool at least the board's own.
   */
  lemma HeldLevelCovers(f: Fan, inputs: seq<Input>, name: CurveName, t: real)
    requires f.duty.None? && f.level.None?
    requires forall i | 0 <= i < |inputs| :: !inputs[i].mode.Manual?
    ensures var after := Tick(Run(f, inputs), Curved(name), Some(t), true);
            && after.level.Some? && after.level.value >= CurveLevel(CurveOf(name), t)
            && (name != Quiet ==> after.level.value >= CurveLevel(DTS_POLICY, t))
            && after.duty == Some(FAN_LEVEL_PERCENT[after.level.value])
  {
    RunKeepsCoupled(f, inputs);
    CurvedTick(Run(f, inputs), name, t);
    TickKeepsCoupled(Run(f, inputs), Input(Curved(name), Some(t), true));
    CurveAgainstBoardPolicy(name, t);
  }

  // --------------------------------------------------------------- no hunting

  /** The level a tick leaves, a reading being there or missing: without one the fan goes to level 2. */
  function NextOn(name: CurveName, t: Option<real>, current: Option<Level>): Level {
    if t.None? then 2 else NextLevel(name, t.value, current)
  }

  /** All readings there are lie within the hysteresis of each other. */
  predicate WithinHysteresis(temps: seq<Option<real>>) {
    forall i, j | 0 <= i < |temps| && 0 <= j < |temps| && temps[i].Some? && temps[j].Some? ::
      temps[i].value - temps[j].value <= HYSTERESIS
  }

  function Missing(temps: seq<Option<real>>): nat {
    if temps == [] then 0 else (if temps[0].None? then 1 else 0) + Missing(temps[1..])
  }

  /** How often the level goes down as the readings come in or stay away. */
  function DownSteps(level: Option<Level>, name: CurveName, temps: seq<Option<real>>): nat
    decreases |temps|
  {
    if temps == [] then 0
    else
      var next := NextOn(name, temps[0], level);
      (if level.Some? && next < level.value then 1 else 0) + DownSteps(Some(next), name, temps[1..])
  }

  /**
   * What one missing reading does, exactly: it takes the level down if and only if that was 3, and the
   * reading after it takes the level down again if and only if its own level is below 2 and the threshold
   * of level 2 is cleared by the hysteresis.
   */
  lemma GapMovesTheFanIff(name: CurveName, level: Level, t: real)
    ensures var gap := NextOn(name, None, Some(level));
            && (gap < level <==> level == 3)
            && (NextOn(name, Some(t), Some(gap)) < gap <==>
                  CurveLevel(CurveOf(name), t) < 2 && StepDownOk(CurveOf(name), t, 2))
  {
  }

  /** In temperatures: where the second of those steps happens on each curve. */
  lemma GapStepsDownBelow(name: CurveName, t: real)
    ensures CurveLevel(CurveOf(name), t) < 2 && StepDownOk(CurveOf(name), t, 2) <==>
            t < match name case Balanced => 61.0 case Cool => 46.0 case Quiet => 76.0
  {
    Levels(name, t);
    var c := CurveOf(name);
    match name
    case Balanced => assert c[2].1 == 2 && c[3].1 == 3;
    case Cool => assert c[1].1 == 2 && c[2].1 == 3;
    case Quiet => assert c[2].1 == 2 && c[3].1 == 3;
  }

  /** The level is the curve's at a temperature close to all the readings to come. */
  ghost predicate Anchored(level: Level, name: CurveName, temps: seq<Option<real>>) {
    exists t: real :: AnchoredAt(t, level, name, temps)
  }

  predicate AnchoredAt(t: real, level: Level, name: CurveName, temps: seq<Option<real>>) {
    && level == CurveLevel(CurveOf(name), t)
    && forall i | 0 <= i < |temps| && temps[i].Some? :: t - temps[i].value <= HYSTERESIS
  }

  /** From a level some temperature calls for, a reading at most the hysteresis below it does not step down. */
  lemma NoStepDownNearby(name: CurveName, t: real, near: real)
    requires t - near <= HYSTERESIS
    ensures var level := CurveLevel(CurveOf(name), t);
            NextLevel(name, near, Some(level)) == if CurveLevel(CurveOf(name), near) < level then level
                                                  else CurveLevel(CurveOf(name), near)
  {
    var c := CurveOf(name);
    var level := CurveLevel(c, t);
    Levels(name, t);
    Levels(name, near);
    if CurveLevel(c, near) < level {
      ReachedThreshold(name, t);
      var i :| 0 <= i < |c| && c[i].1 == level && c[i].0 <= t;
      assert !StepDownOk(c, near, level);
    }
  }

  lemma ReachedThreshold(name: CurveName, t: real)
    ensures var c := CurveOf(name);
            CurveLevel(c, t) > c[0].1 ==> exists i :: 0 <= i < |c| && c[i].1 == CurveLevel(c, t) && c[i].0 <= t
  {
    Levels(name, t);
    var c := CurveOf(name);
    var level := CurveLevel(c, t);
    if level > c[0].1 {
      var i := level - c[0].1;
      assert c[i].1 == level && c[i].0 <= t;
    }
  }

  /** So hot that no reading to come takes the level below 2, nor from 3 to 2. */
  predicate Hot(name: CurveName, temps: seq<Option<real>>) {
    forall i | 0 <= i < |temps| && temps[i].Some? :: StaysHigh(name, temps[i].value)
  }

  predicate StaysHigh(name: CurveName, t: real) {
    CurveLevel(CurveOf(name), t) >= 2 && !StepDownOk(CurveOf(name), t, 3)
  }

  lemma NearTopStaysHigh(name: CurveName, t: real, near: real)
    requires CurveLevel(CurveOf(name), t) == 3 && t - near <= HYSTERESIS
    ensures StaysHigh(name, near)
  {
    Levels(name, t);
    Levels(name, near);
    var c := CurveOf(name);
    var top := |c| - 1;
    assert c[top].1 == 3 && near >= c[top].0 - HYSTERESIS;
  }

  lemma {:induction false} HotGapsOnly(level: Level, name: CurveName, temps: seq<Option<real>>)
    requires level >= 2 && Hot(name, temps)
    ensures DownSteps(Some(level), name, temps) <= Missing(temps)
    decreases |temps|
  {
    if temps != [] {
      assert forall i | 0 <= i < |temps[1..]| :: temps[1..][i] == temps[i + 1];
      if temps[0].Some? {
        assert StaysHigh(name, temps[0].value);
      }
      HotGapsOnly(NextOn(name, temps[0], Some(level)), name, temps[1..]);
    }
  }

  lemma {:induction false} AnchoredGapsOnly(level: Level, name: CurveName, temps: seq<Option<real>>)
    requires WithinHysteresis(temps) && Anchored(level, name, temps)
    ensures DownSteps(Some(level), name, temps) <= Missing(temps)
    decreases |temps|, 0
  {
    if temps != [] {
      var rest := temps[1..];
      assert forall i | 0 <= i < |rest| :: rest[i] == temps[i + 1];
      var t: real :| AnchoredAt(t, level, name, temps);
      if temps[0].Some? {
        var near := temps[0].value;
        NoStepDownNearby(name, t, near);
        var next := NextLevel(name, near, Some(level));
        assert AnchoredAt(if next == level then t else near, next, name, rest);
        AnchoredGapsOnly(next, name, rest);
      } else if level == 3 {
        forall i | 0 <= i < |rest| && rest[i].Some? ensures StaysHigh(name, rest[i].value) {
          NearTopStaysHigh(name, t, rest[i].value);
        }
        HotGapsOnly(2, name, rest);
      } else {
        OneStepDownPerGap(Some(2), name, rest);
      }
    }
  }

  /**
   * Once all readings stay within the hysteresis of each other, the level goes down at most once ever
   * again, and once more for each reading that is missing.
   */
  lemma {:induction false} OneStepDownPerGap(level: Option<Level>, name: CurveName, temps: seq<Option<real>>)
    requires WithinHysteresis(temps)
    ensures DownSteps(level, name, temps) <= 1 + Missing(temps)
    decreases |temps|, 1
  {
    if temps != [] {
      var rest := temps[1..];
      assert forall i | 0 <= i < |rest| :: rest[i] == temps[i + 1];
      var next := NextOn(name, temps[0], level);
      if temps[0].None? || level == Some(next) {
        OneStepDownPerGap(Some(next), name, rest);
      } else {
        assert next == CurveLevel(CurveOf(name), temps[0].value);
        assert AnchoredAt(temps[0].value, next, name, rest);
        AnchoredGapsOnly(next, name, rest);
      }
    }
  }

  function Readings(name: CurveName, temps: seq<Option<real>>): seq<Input> {
    seq(|temps|, i requires 0 <= i < |temps| => Input(Curved(name), temps[i], true))
  }

  /** How often a run of ticks takes the held level down. */
  function TickDownSteps(f: Fan, inputs: seq<Input>): nat
    decreases |inputs|
  {
    if inputs == [] then 0
    else
      var next := Tick(f, inputs[0].mode, inputs[0].temperature, inputs[0].controllable);
      (if f.level.Some? && next.level.Some? && next.level.value < f.level.value then 1 else 0)
      + TickDownSteps(next, inputs[1..])
  }

  lemma TickOn(f: Fan, name: CurveName, t: Option<real>)
    requires Coupled(f)
    ensures Tick(f, Curved(name), t, true).level == Some(NextOn(name, t, f.level))
  {
    if t.Some? {
      CurvedTick(f, name, t.value);
    }
  }

  lemma {:induction false} TickDownStepsAreDownSteps(f: Fan, name: CurveName, temps: seq<Option<real>>)
    requires Coupled(f)
    ensures TickDownSteps(f, Readings(name, temps)) == DownSteps(f.level, name, temps)
    decreases |temps|
  {
    if temps != [] {
      assert Readings(name, temps)[1..] == Readings(name, temps[1..]);
      TickOn(f, name, temps[0]);
      TickKeepsCoupled(f, Readings(name, temps)[0]);
      TickDownStepsAreDownSteps(Tick(f, Curved(name), temps[0], true), name, temps[1..]);
    }
  }

  /** The same of the controller itself, after any run without manual duty, readings missing or not. */
  lemma ControllerDoesNotHunt(f: Fan, inputs: seq<Input>, name: CurveName, temps: seq<Option<real>>)
    requires f.duty.None? && f.level.None?
    requires forall i | 0 <= i < |inputs| :: !inputs[i].mode.Manual?
    requires WithinHysteresis(temps)
    ensures TickDownSteps(Run(f, inputs), Readings(name, temps)) <= 1 + Missing(temps)
  {
    RunKeepsCoupled(f, inputs);
    TickDownStepsAreDownSteps(Run(f, inputs), name, temps);
    OneStepDownPerGap(Run(f, inputs).level, name, temps);
  }

  /**
   * Missing readings do make it hunt: at a constant 20 degrees one sends a balanced fan up two levels and down
   * again.
   */
  lemma MissingReadingsHunt()
    ensures var low := Tick(FRESH, Curved(Balanced), Some(20.0), true);
            var high := Tick(low, Curved(Balanced), None, true);
            low.level == Some(0) && high.level == Some(2) && Tick(high, Curved(Balanced), Some(20.0), true) == low
  {
    Levels(Balanced, 20.0);
  }

  // --------------------------------------------- the duty the hardware has

  /** The raw duty belongs to the duty percent in force: through the percentage, or through a level. */
  predicate RawOk(f: Fan) {
    f.duty.Some? ==>
      && f.raw.Some?
      && (f.raw.value == ManualRaw(f.duty.value)
          || exists l: Level :: f.duty.value == FAN_LEVEL_PERCENT[l] && f.raw.value == FAN_LEVELS[l])
  }

  lemma TickKeepsRawOk(f: Fan, input: Input)
    requires RawOk(f)
    ensures RawOk(Tick(f, input.mode, input.temperature, input.controllable))
  {
    match FanTarget(input.mode, input.temperature, f.level)
    case HandBack =>
    case Hold(duty, level, raw) =>
      assert level.Some? ==> duty == FAN_LEVEL_PERCENT[level.value] && raw == FAN_LEVELS[level.value];
      assert level.None? ==> raw == ManualRaw(duty);
  }

  lemma {:induction false} RunKeepsRawOk(inputs: seq<Input>)
    ensures RawOk(Run(FRESH, inputs))
    decreases |inputs|
  {
    if inputs != [] {
      RunKeepsRawOk(inputs[..|inputs| - 1]);
      TickKeepsRawOk(Run(FRESH, inputs[..|inputs| - 1]), inputs[|inputs| - 1]);
    }
  }

  /**
   * After any run of any modes, a curve-mode tick leaves the fan at the duty percent of its target level,
   * never below the curve's; and at that level's own raw duty exactly unless the level is 1 and a manual
   * 28 percent, one step of duty below it, is still in force.
   */
  lemma RawDutyMatchesLevelIff(inputs: seq<Input>, name: CurveName, t: real)
    ensures var f := Run(FRESH, inputs);
            var after := Tick(f, Curved(name), Some(t), true);
            var target := FanTarget(Curved(name), Some(t), f.level);
            && target.Hold? && target.level.Some? && target.level.value >= CurveLevel(CurveOf(name), t)
            && after.duty == Some(FAN_LEVEL_PERCENT[target.level.value]) && after.raw.Some?
            && (after.raw == Some(FAN_LEVELS[target.level.value]) <==>
                  !(target.level.value == 1 && f.duty == Some(28) && f.raw == Some(71)))
            && after.raw.value >= FAN_LEVELS[target.level.value] - 1
  {
    var f := Run(FRESH, inputs);
    var target := FanTarget(Curved(name), Some(t), f.level);
    RunKeepsRawOk(inputs);
    Levels(name, t);
    assert ManualRaw(14) == 36 && ManualRaw(28) == 71 && ManualRaw(50) == 128 && ManualRaw(100) == 255;
    var l := target.level.value;
    assert l == 0 || l == 1 || l == 2 || l == 3;
  }

  /** It does happen: manual 28 percent, then balanced at 55 degrees, leaves 71 where the level's duty is 72. */
  lemma ManualTwentyEightLatches()
    ensures var f := Tick(Tick(FRESH, Manual(28), Some(55.0), true), Curved(Balanced), Some(55.0), true);
            f.raw == Some(71) && f.level == None && CurveLevel(CurveOf(Balanced), 55.0) == 1 && FAN_LEVELS[1] == 72
  {
    Levels(Balanced, 55.0);
  }

  /** At or past the board's hot trip a curve mode runs the fan at full duty, after any run of any modes. */
  lemma HotReadingsRunFull(inputs: seq<Input>, name: CurveName, t: real)
    requires t >= THERMAL_WARNING
    ensures Tick(Run(FRESH, inputs), Curved(name), Some(t), true).raw == Some(255)
  {
    RawDutyMatchesLevelIff(inputs, name, t);
    assert FanTarget(Curved(name), Some(t), Run(FRESH, inputs).level) == AtLevel(3);
  }

  /** The raw duty the board's table has for a temperature. */
  function BoardRaw(t: real): int {
    if t < 50.0 then 36 else if t < 65.0 then 72 else if t < 80.0 then 128 else 255
  }

  /**
   * After any run of any modes, mode auto hands the fan back at the duty the board's table has for the reading, or,
   * the fan having been handed back already, leaves everything as it is.
   */
  lemma HandBackFollowsBoard(inputs: seq<Input>, t: real)
    ensures var f := Run(FRESH, inputs);
            var after := Tick(f, Auto, Some(t), true);
            && after.released && after.duty.None? && after.level.None?
            && (f.duty.Some? || !f.released ==> after.raw == Some(BoardRaw(t)))
            && (f.duty.None? && f.released ==> after == f)
  {
    RunKeepsReleased(inputs);
    DtsLevels(t);
  }

  /** A fan that is handed back is driven by nobody. */
  lemma {:induction false} RunKeepsReleased(inputs: seq<Input>)
    ensures var f := Run(FRESH, inputs); (f.released ==> f.duty.None?) && (f.duty.None? ==> f.level.None?)
    decreases |inputs|
  {
    if inputs != [] {
      RunKeepsReleased(inputs[..|inputs| - 1]);
    }
  }

  /** From there on nothing is written while the mode stays auto, whatever the readings. */
  lemma {:induction false} HandedBackStays(f: Fan, inputs: seq<Input>)
    requires f.released && f.duty.None? && forall i | 0 <= i < |inputs| :: inputs[i].mode.Auto?
    ensures Run(f, inputs) == f
    decreases |inputs|
  {
    if inputs != [] {
      HandedBackStays(f, inputs[..|inputs| - 1]);
    }
  }

  /** After any run of any modes, mode max leaves the fan at full duty, with or without a reading. */
  lemma FullIsFull(inputs: seq<Input>, temperature: Option<real>)
    ensures var after := Tick(Run(FRESH, inputs), Full, temperature, true);
            after.duty == Some(100) && after.raw == Some(255)
  {
    RunKeepsRawOk(inputs);
    assert ManualRaw(100) == 255;
  }

  /** While no writable fan is found nothing is written, over any run; nor is it by handing back without a reading. */
  lemma {:induction false} NoFanNoWrite(f: Fan, inputs: seq<Input>)
    requires forall i | 0 <= i < |inputs| ::
               !inputs[i].controllable || (inputs[i].mode.Auto? && inputs[i].temperature.None?)
    ensures Run(f, inputs).raw == f.raw
    ensures Run(f, inputs).duty == f.duty || Run(f, inputs).duty.None?
    decreases |inputs|
  {
    if inputs != [] {
      NoFanNoWrite(f, inputs[..|inputs| - 1]);
    }
  }

  // ------------------------------------------------------ powered but stalled

  /** A duty the fan turns at, or none at all. */
  predicate Turns(raw: int) {
    raw == 0 || FAN_LEVELS[0] <= raw <= 255
  }

  lemma ManualTurns(percent: int)
    requires percent <= 0 || percent >= FAN_LEVEL_PERCENT[0]
    ensures Turns(ManualRaw(percent)) && (ManualRaw(percent) == 0 <==> percent <= 0)
  {
    if percent > 0 {
      assert percent * 255 / 100 >= 35 && (percent * 255 / 100 == 35 ==> percent == 14);
    }
  }

  lemma TargetTurns(mode: Mode, temperature: Option<real>, current: Option<Level>)
    ensures match FanTarget(mode, temperature, current)
            case HandBack => mode.Auto?
            case Hold(_, _, raw) => Turns(raw) && (raw == 0 <==> mode.Manual? && mode.percent <= 0)
  {
    if mode.Manual? && !(0 < mode.percent < FAN_LEVEL_PERCENT[0]) {
      ManualTurns(mode.percent);
    }
  }

  /**
   * Whatever modes and readings come in, no duty is ever written at which the fan is powered but may not
   * turn; it is stopped only by a manual duty of zero or less.
   */
  lemma {:induction false} RunNeverStalls(inputs: seq<Input>)
    ensures var raw := Run(FRESH, inputs).raw;
            raw.Some? ==>
              Turns(raw.value)
              && (raw.value == 0 ==>
                    exists i :: 0 <= i < |inputs| && inputs[i].mode.Manual? && inputs[i].mode.percent <= 0)
    decreases |inputs|
  {
    if inputs != [] {
      var before, last := inputs[..|inputs| - 1], inputs[|inputs| - 1];
      RunNeverStalls(before);
      TargetTurns(last.mode, last.temperature, Run(FRESH, before).level);
      if i :| 0 <= i < |before| && before[i].mode.Manual? && before[i].mode.percent <= 0 {
        assert inputs[i] == before[i];
      }
    }
  }
}
