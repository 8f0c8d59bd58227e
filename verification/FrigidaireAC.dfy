/** The Frigidaire controller (workshop/esphome/my_components/frigidaire_ac): absolute mode commands behind a
    POWER toggle, and fan speeds reached by running to an end stop. */
module FrigidaireAC {
  import opened Options
  import opened ClimateRemote

  const TEMPF_MIN := 60
  const TEMPF_MAX := 90

  function ModePresses(mode: Mode, newMode: Mode, newPreset: Preset): seq<IR> {
    (if mode.Off? then [Power] else []) +
    [if newPreset.Eco? then ModeEsave
     else match newMode
       case Cool => ModeCool
       case FanOnly => ModeFan
       case Off => Power]
  }

  function ModeChange(s: Shadow, call: Call): seq<IR> {
    var (newMode, newPreset) := Wanted(s, call);
    if newMode == s.mode && newPreset == s.preset then [] else ModePresses(s.mode, newMode, newPreset)
  }

  function FanPresses(call: Call): seq<IR> {
    match call.fanMode
    case None => []
    case Some(Auto) => [FanDown, FanAuto]
    case Some(High) => [FanUp, FanUp, FanUp]
    case Some(Medium) => [FanDown, FanDown, FanDown, FanUp]
    case Some(Low) => [FanDown, FanDown, FanDown]
  }

  /** Everything a call sends. */
  function Presses(s: Shadow, call: Call): seq<IR>
    requires TEMPF_MIN <= WantedTarget(s, call) <= TEMPF_MAX
  {
    ModeChange(s, call) + SyncPresses(AfterTarget(s, call), TEMPF_MIN, TEMPF_MAX) + FanPresses(call)
  }

  /** The unit is what the controller says it is. */
  predicate Tracks(d: Device, s: Shadow) {
    && d.lowest == TEMPF_MIN && d.highest == TEMPF_MAX && Synced(d, s) && d.fanLevel <= 2
    && d.power == !s.mode.Off?
    && (!s.mode.Off? ==> d.cool == s.mode.Cool? && d.eco == s.preset.Eco?)
    && (s.preset.Eco? ==> s.mode.Cool?)
    && (s.mode.Cool? ==> d.setpoint == s.target)
  }

  predicate FanIs(d: Device, m: FanMode) {
    match m
    case Auto => d.fanAuto
    case Low => !d.fanAuto && d.fanLevel == 0
    case Medium => !d.fanAuto && d.fanLevel == 1
    case High => !d.fanAuto && d.fanLevel == 2
  }

  lemma {:induction false} ModeChangeTracks(d: Device, s: Shadow, call: Call)
    requires Tracks(d, s)
    ensures var d', t := Replay(d, ModeChange(s, call)), AfterMode(s, call);
      && d' == d.(power := d'.power, cool := d'.cool, eco := d'.eco)
      && (t.mode, t.preset) == Wanted(s, call)
      && d'.power == !t.mode.Off? && (d'.power ==> d'.cool == t.mode.Cool? && d'.eco == t.preset.Eco?)
      && (t.preset.Eco? ==> t.mode.Cool?)
      && (t.syncedF == 0 || t.syncedF == d'.setpoint)
      && Keeps(d, ModeChange(s, call), d.setpoint, d.setpoint)
  {
    var cs := ModeChange(s, call);
    NoPress(d, d.setpoint, d.setpoint);
    if |cs| >= 2 {
      ReplayTwo(d, cs);
    }
  }

  /** The fan presses reach the requested speed from any setting of a unit that is on, and move nothing else. */
  lemma {:induction false} FanStep(d: Device, call: Call, lo: int, hi: int)
    requires lo <= d.setpoint <= hi && d.fanLevel <= 2
    ensures var cs := FanPresses(call);
      var d' := Replay(d, cs);
      && d' == d.(fanAuto := d'.fanAuto, fanLevel := d'.fanLevel) && d'.fanLevel <= 2
      && (cs == [] || !d.power ==> d' == d)
      && (call.fanMode.Some? && d.power ==> FanIs(d', call.fanMode.value))
      && Keeps(d, cs, lo, hi)
  {
    NoPress(d, lo, hi);
    match call.fanMode
    case None =>
    case Some(Auto) => FanAutoSettles(d, lo, hi);
    case Some(High) => FanUpSettles(d, lo, hi);
    case Some(Low) => FanDownSettles(d, lo, hi);
    case Some(Medium) =>
      FanDownSettles(d, lo, hi);
      var d' := Replay(d, [FanDown, FanDown, FanDown]);
      NoPress(Press(d', FanUp), lo, hi);
      assert [FanUp][1..] == [];
      ReplayConcat(d, [FanDown, FanDown, FanDown], [FanUp]);
      assert [FanDown, FanDown, FanDown] + [FanUp] == [FanDown, FanDown, FanDown, FanUp];
  }

  lemma FanAutoSettles(d: Device, lo: int, hi: int)
    requires lo <= d.setpoint <= hi
    ensures var cs := [FanDown, FanAuto];
      var d' := Replay(d, cs);
      && d' == d.(fanAuto := d'.fanAuto, fanLevel := d'.fanLevel) && Keeps(d, cs, lo, hi)
      && (if d.power then d'.fanAuto && d'.fanLevel <= d.fanLevel else d' == d)
  {
    ReplayTwo(d, [FanDown, FanAuto]);
    NoPress(Press(Press(d, FanDown), FanAuto), lo, hi);
  }

  lemma FanUpSettles(d: Device, lo: int, hi: int)
    requires lo <= d.setpoint <= hi && d.fanLevel <= 2
    ensures var cs := [FanUp, FanUp, FanUp];
      Replay(d, cs) == (if d.power then d.(fanAuto := false, fanLevel := 2) else d) && Keeps(d, cs, lo, hi)
  {
    var d2 := Press(Press(d, FanUp), FanUp);
    ReplayTwo(d, [FanUp, FanUp, FanUp]);
    assert [FanUp][1..] == [];
    NoPress(Press(d2, FanUp), lo, hi);
  }

  lemma FanDownSettles(d: Device, lo: int, hi: int)
    requires lo <= d.setpoint <= hi && d.fanLevel <= 2
    ensures var cs := [FanDown, FanDown, FanDown];
      Replay(d, cs) == (if d.power then d.(fanAuto := false, fanLevel := 0) else d) && Keeps(d, cs, lo, hi)
  {
    var d2 := Press(Press(d, FanDown), FanDown);
    ReplayTwo(d, [FanDown, FanDown, FanDown]);
    assert [FanDown][1..] == [];
    NoPress(Press(d2, FanDown), lo, hi);
  }

  predicate Supported(call: Call) {
    InRange(call, TEMPF_MIN, TEMPF_MAX)
  }

  lemma WantedIsObeyed(d: Device, before: Shadow, after: Shadow, call: Call)
    requires Tracks(d, after) && (after.mode, after.preset) == Wanted(before, call)
    requires before.preset.Eco? ==> before.mode.Cool?
    ensures Obeys(d, before, call)
  {
  }

  /** Device tracking: one supported call keeps the unit in step with the record, reaches what was asked for, the fan
      speed included while the unit is on, brings a cooling unit exactly to the target, and never lets the setpoint
      pass the wrong side of it. */
  lemma {:induction false} CallTracks(d: Device, s: Shadow, call: Call)
    requires Tracks(d, s) && Supported(call)
    ensures var cs, s' := Presses(s, call), Controlled(s, call);
      var d' := Replay(d, cs);
      && Tracks(d', s') && Obeys(d', s, call)
      && (s'.mode, s'.preset) == Wanted(s, call) && s'.target == WantedTarget(s, call)
      && (s'.mode.Cool? ==> d'.setpoint == s'.syncedF == WantedTarget(s, call))
      && (call.target.Some? ==> s'.target == call.target.value)
      && (call.target.Some? && s'.mode.Cool? ==> d'.setpoint == call.target.value)
      && (call.target.None? ==> s'.target == s.target)
      && (call.fanMode.Some? ==> s'.fanMode == call.fanMode.value) && (call.fanMode.None? ==> s'.fanMode == s.fanMode)
      && s'.action == s.action
      && (call.fanMode.Some? && !s'.mode.Off? ==> FanIs(d', call.fanMode.value))
      && (call.fanMode.None? || s'.mode.Off? ==> d'.fanAuto == d.fanAuto && d'.fanLevel == d.fanLevel)
      && Keeps(d, cs, LowBound(AfterTarget(s, call), d.setpoint, d.lowest),
               HighBound(AfterTarget(s, call), d.setpoint, d.highest))
  {
    hide Press, Replay, Keeps, ModeChange, Wanted, SyncPresses, FanIs;
    CallIsRecorded(s, call);
    var t := AfterTarget(s, call);
    var cs1, cs2, cs3 := ModeChange(s, call), SyncPresses(t, TEMPF_MIN, TEMPF_MAX), FanPresses(call);
    var lo, hi := LowBound(t, d.setpoint, d.lowest), HighBound(t, d.setpoint, d.highest);
    ModeChangeTracks(d, s, call);
    var d1 := Replay(d, cs1);
    KeepsWider(d, cs1, d.setpoint, d.setpoint, lo, hi);
    SyncStep(d1, t, lo, hi);
    var d2 := Replay(d1, cs2);
    FanStep(d2, call, lo, hi);
    ReplayConcat(d, cs1, cs2);
    ReplayConcat(d, cs1 + cs2, cs3);
    WantedIsObeyed(Replay(d2, cs3), s, Controlled(s, call), call);
  }

  /** Published and actual fan mode agree after a call exactly when no new speed was sent to an off unit. */
  lemma {:induction false} FanTracksIff(d: Device, s: Shadow, call: Call)
    requires Tracks(d, s) && Supported(call) && FanIs(d, s.fanMode)
    ensures FanIs(Replay(d, Presses(s, call)), Controlled(s, call).fanMode) <==>
            (call.fanMode.None? || call.fanMode.value == s.fanMode || !Wanted(s, call).0.Off?)
  {
    hide Replay, Presses, Tracks, Wanted;
    CallTracks(d, s, call);
  }

  /** A bare fan request to a unit that is off: no press is heard, and the record says high from then on. */
  lemma FanSpeedLost(target: int)
    requires TEMPF_MIN <= target <= TEMPF_MAX
    ensures var d := Device(false, true, false, target, true, 0, TEMPF_MIN, TEMPF_MAX);
      var s := Shadow(Off, NoPreset, ActionOff, target, 0, Auto);
      var call := Call(None, None, None, Some(High));
      && Tracks(d, s) && FanIs(d, s.fanMode) && Supported(call)
      && Replay(d, Presses(s, call)) == d && Controlled(s, call) == s.(fanMode := High) && !FanIs(d, High)
  {
    hide Replay;
    var d := Device(false, true, false, target, true, 0, TEMPF_MIN, TEMPF_MAX);
    var s := Shadow(Off, NoPreset, ActionOff, target, 0, Auto);
    assert Presses(s, Call(None, None, None, Some(High))) == [FanUp, FanUp, FanUp];
    FanUpSettles(d, target, target);
  }

  /** With the setpoint unknown and the compressor at rest, the run goes all the way up to 90 F and back to the target. */
  lemma UnknownSetpointRun(s: Shadow, target: int)
    requires s.mode.Cool? && s.syncedF == 0 && !s.action.Cooling? && 60 <= target <= 90
    ensures Presses(s, Call(None, None, Some(target), None)) == Repeat(TempUp, 30) + Repeat(TempDown, 90 - target)
  {
  }

  /** What one power sensor reading, in watts, does to the record; `settled` when no call was made recently. */
  function PowerReading(s: Shadow, power: real, settled: bool): Shadow {
    if power > 150.0 then
      s.(action := Cooling, mode := if settled then Cool else s.mode)
    else if power > 50.0 then
      s.(action := Fan, mode := if settled && s.mode.Off? then FanOnly else s.mode)
    else
      s.(action := if s.mode.Off? then ActionOff else Idle)
  }

  /** The readings that say about the mode what is true of the unit: only a running compressor exceeds 150 W, and an
      off unit stays at or under 50 W. */
  predicate ModeFits(d: Device, power: real) {
    (!d.power ==> power <= 50.0) && (d.power && !d.cool ==> power <= 150.0)
  }

  /** The record stays in step exactly when the reading is not settled or fits; then only the action changes. */
  lemma {:induction false} ReadingTracksIff(d: Device, s: Shadow, power: real, settled: bool)
    requires Tracks(d, s)
    ensures var s' := PowerReading(s, power, settled);
      && (Tracks(d, s') <==> (settled ==> ModeFits(d, power)))
      && (Tracks(d, s') ==> s' == s.(action := s'.action))
      && (!settled ==> s' == s.(action := s'.action))
  {
  }

  /** What a reading makes of any record, right or wrong: the action always follows the watts, and a settled reading
      sets right a mode that the watts refute. Preset, target and fan mode stay. */
  lemma ReadingSetsRight(s: Shadow, power: real, settled: bool)
    ensures var t := PowerReading(s, power, settled);
      && t == s.(action := t.action, mode := t.mode)
      && (power > 150.0 ==> t.action.Cooling?) && (50.0 < power <= 150.0 ==> t.action.Fan?)
      && (power <= 50.0 ==> t.mode == s.mode && t.action == if s.mode.Off? then ActionOff else Idle)
      && (settled && power > 150.0 ==> t.mode.Cool?)
      && (settled && 50.0 < power <= 150.0 ==> t.mode == if s.mode.Off? then FanOnly else s.mode)
      && (!settled ==> t.mode == s.mode)
  {
  }

  predicate Allowed(d: Device, e: Event) {
    match e
    case Request(call) => Supported(call)
    case Reading(power, settled) => settled ==> ModeFits(d, power)
  }

  function Next(d: Device, s: Shadow, e: Event): (Device, Shadow)
    requires Tracks(d, s) && Allowed(d, e)
  {
    match e
    case Request(call) => (Replay(d, Presses(s, call)), Controlled(s, call))
    case Reading(power, settled) => (d, PowerReading(s, power, settled))
  }

  /** A run: unit and record after each event. */
  ghost predicate IsRun(ds: seq<Device>, ss: seq<Shadow>, es: seq<Event>) {
    && |ds| == |ss| == |es| + 1
    && forall i :: 0 <= i < |es| ==>
         && Allowed(ds[i], es[i])
         && (Tracks(ds[i], ss[i]) ==> (ds[i + 1], ss[i + 1]) == Next(ds[i], ss[i], es[i]))
  }

  /** Setpoint synchronisation and mode tracking over every run of supported calls and readings, of which only
      the settled ones need to be true. */
  lemma {:induction false} RunTracks(ds: seq<Device>, ss: seq<Shadow>, es: seq<Event>, i: nat)
    requires IsRun(ds, ss, es) && Tracks(ds[0], ss[0]) && i <= |es|
    ensures Tracks(ds[i], ss[i])
  {
    if i > 0 {
      RunTracks(ds, ss, es, i - 1);
      match es[i - 1]
      case Request(call) => CallTracks(ds[i - 1], ss[i - 1], call);
      case Reading(power, settled) => ReadingTracksIff(ds[i - 1], ss[i - 1], power, settled);
    }
  }

  class FrigidaireACClimate {
    var mode: Mode
    var preset: Preset
    var action: Action
    var targetTemperature: int
    var targetTemperatureF: int
    var fanMode: FanMode
    var lastChangeTime: nat
    const powerSettlingTime: nat
    const transmitter: Transmitter

    function Record(): Shadow
      reads this
    {
      Shadow(mode, preset, action, targetTemperature, targetTemperatureF, fanMode)
    }

    ghost predicate Valid()
      reads this
    {
      TEMPF_MIN <= targetTemperature <= TEMPF_MAX && 0 <= targetTemperatureF <= TEMPF_MAX
    }

    /** The state after the base class's setup: off and without preset, with the setpoint of the unit unknown. What a
      * restored state would apply afterwards is not part of it; target and fan mode are whatever they are by then. */
    constructor (transmitter: Transmitter, target: int, fanMode: FanMode, powerSettlingTime: nat)
      requires TEMPF_MIN <= target <= TEMPF_MAX
      ensures Valid() && this.transmitter == transmitter
      ensures Record() == Shadow(Off, NoPreset, ActionOff, target, 0, fanMode)
    {
      mode, preset, action := Off, NoPreset, ActionOff;
      targetTemperature, targetTemperatureF := target, 0;
      this.fanMode := fanMode;
      lastChangeTime := 0;
      this.powerSettlingTime := powerSettlingTime;
      this.transmitter := transmitter;
    }

    /** `control`, with the clock reading as a parameter. */
    method Control(call: Call, now: nat)
      requires Valid() && InRange(call, TEMPF_MIN, TEMPF_MAX)
      modifies this, transmitter
      ensures Valid() && Record() == Controlled(old(Record()), call)
      ensures transmitter.sent == old(transmitter.sent) + Presses(old(Record()), call)
      ensures targetTemperature == (match call.target case Some(target) => target case None => old(targetTemperature))
      ensures fanMode == (match call.fanMode case Some(m) => m case None => old(fanMode)) && action == old(action)
      ensures lastChangeTime ==
        if Record() != old(Record()) || call.target.Some? || call.fanMode.Some? then now else old(lastChangeTime)
    {
      hide AfterMode, ModeChange, SyncPresses, FanPresses;
      ghost var before, sent := Record(), transmitter.sent;
      var changed := TakeMode(call);
      if call.target.Some? {
        targetTemperature := call.target.value;
        changed := true;
      }
      assert Record() == AfterTarget(before, call);
      if mode.Cool? && targetTemperature != targetTemperatureF {
        transmitter.SyncSetpoint(Record(), TEMPF_MIN, TEMPF_MAX);
        targetTemperatureF := targetTemperature;
        changed := true;
      } else {
        NothingToSync(Record(), TEMPF_MIN, TEMPF_MAX);
      }
      assert transmitter.sent ==
             sent + (ModeChange(before, call) + SyncPresses(AfterTarget(before, call), TEMPF_MIN, TEMPF_MAX));
      if call.fanMode.Some? {
        fanMode := call.fanMode.value;
        changed := true;
      }
      SendFan(call);
      CallIsRecorded(before, call);
      if changed {
        lastChangeTime := now;
      }
    }

    /** The part of `control` that switches when the wanted mode or preset differs. */
    method TakeMode(call: Call) returns (changed: bool)
      requires Valid()
      modifies this`mode, this`preset, this`targetTemperatureF, transmitter
      ensures Valid() && Record() == AfterMode(old(Record()), call)
      ensures transmitter.sent == old(transmitter.sent) + ModeChange(old(Record()), call)
      ensures changed <==> mode != old(mode) || preset != old(preset)
      ensures changed <==> Record() != old(Record())
    {
      hide ModePresses;
      changed := false;
      var newMode, newPreset := ReadMode(Record(), call);
      if newMode != mode || newPreset != preset {
        SwitchMode(newMode, newPreset);
        changed := true;
      }
    }

    /** The part of `control` that sends POWER and the absolute mode command. */
    method SwitchMode(newMode: Mode, newPreset: Preset)
      requires Valid()
      requires newMode != mode || newPreset != preset
      modifies this`mode, this`preset, this`targetTemperatureF, transmitter
      ensures Valid() && Record() == SwitchedMode(old(Record()), newMode, newPreset)
      ensures transmitter.sent == old(transmitter.sent) + ModePresses(old(mode), newMode, newPreset)
    {
      if mode.Off? {
        transmitter.Send(Power, 1);
        targetTemperatureF := 0;
      }
      if newPreset.Eco? {
        transmitter.Send(ModeEsave, 1);
      } else {
        match newMode
        case Cool =>
          transmitter.Send(ModeCool, 1);
        case FanOnly =>
          transmitter.Send(ModeFan, 1);
          targetTemperatureF := 0;
        case Off =>
          targetTemperatureF := 0;
          transmitter.Send(Power, 1);
      }
      mode := newMode;
      preset := newPreset;
    }

    /** The part of `control` that sets the fan speed. */
    method SendFan(call: Call)
      modifies transmitter
      ensures transmitter.sent == old(transmitter.sent) + FanPresses(call)
    {
      if call.fanMode.Some? {
        match call.fanMode.value
        case Auto =>
          transmitter.Send(FanDown, 1);
          transmitter.Send(FanAuto, 1);
        case High =>
          transmitter.Send(FanUp, 3);
        case Medium =>
          transmitter.Send(FanDown, 3);
          transmitter.Send(FanUp, 1);
        case Low =>
          transmitter.Send(FanDown, 3);
      }
    }

    /** The power sensor callback; `publish` says whether the state is published. */
    method OnPower(power: real, now: nat) returns (publish: bool)
      requires Valid()
      modifies this
      ensures Valid() && lastChangeTime == old(lastChangeTime)
      ensures Record() == PowerReading(old(Record()), power, now > old(lastChangeTime) + powerSettlingTime)
      ensures publish == (Record() != old(Record()))
    {
      var oldAction, oldMode := action, mode;
      var updateMode := now > lastChangeTime + powerSettlingTime;
      if power > 150.0 {
        action := Cooling;
        if updateMode {
          mode := Cool;
        }
      } else if power > 50.0 {
        action := Fan;
        if updateMode && mode.Off? {
          mode := FanOnly;
        }
      } else if mode.Off? {
        action := ActionOff;
      } else {
        action := Idle;
      }
      publish := mode != oldMode || action != oldAction;
    }
  }
}
