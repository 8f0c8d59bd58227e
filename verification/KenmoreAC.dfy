/** The Kenmore controller (workshop/esphome/my_components/kenmore_ac), whose remote only toggles. */
module KenmoreAC {
  import opened Options
  import opened ClimateRemote

  const TEMPF_MIN := 60
  const TEMPF_MAX := 86

  /** The presses that take the unit from the recorded mode and preset to the wanted ones. */
  function ModePresses(mode: Mode, preset: Preset, newMode: Mode, newPreset: Preset): seq<IR> {
    var on := if mode.Off? then [Power] else [];
    var (m, p) := if mode.Off? then (Cool, NoPreset) else (mode, preset);
    on +
    if newPreset.Eco? then
      (if !m.Cool? then [ModeToggle] else []) + (if !p.Eco? then [Esave] else [])
    else
      match newMode
      case Cool => (if !m.Cool? then [ModeToggle] else []) + (if p.Eco? then [Esave] else [])
      case FanOnly => if !m.FanOnly? then [ModeToggle] else []
      case Off => (if m.FanOnly? then [ModeToggle] else []) + [Power]
  }

  function FanPresses(s: Shadow, call: Call): seq<IR> {
    if call.fanMode.Some? && call.fanMode.value != s.fanMode then [FanSpeed] else []
  }

  function ModeChange(s: Shadow, call: Call): seq<IR> {
    var (newMode, newPreset) := Wanted(s, call);
    if newMode == s.mode && newPreset == s.preset then [] else ModePresses(s.mode, s.preset, newMode, newPreset)
  }

  /** Everything a call sends. */
  function Presses(s: Shadow, call: Call): seq<IR>
    requires TEMPF_MIN <= WantedTarget(s, call) <= TEMPF_MAX
  {
    ModeChange(s, call) + SyncPresses(AfterTarget(s, call), TEMPF_MIN, TEMPF_MAX) + FanPresses(s, call)
  }

  /** The unit is what the controller says it is. An off unit remembers cool; eco is only ever published with cool. */
  predicate Tracks(d: Device, s: Shadow) {
    && d.lowest == TEMPF_MIN && d.highest == TEMPF_MAX && Synced(d, s)
    && d.power == !s.mode.Off?
    && (s.mode.Off? ==> d.cool && s.preset.NoPreset?)
    && (!s.mode.Off? ==> d.cool == s.mode.Cool? && d.eco == s.preset.Eco?)
    && (s.preset.Eco? ==> s.mode.Cool?)
    && (s.mode.Cool? ==> d.setpoint == s.target)
  }

  predicate FanTracks(d: Device, s: Shadow) {
    (d.fanLevel == 0 || d.fanLevel == 2) && (d.fanLevel == 2 <==> s.fanMode.High?) && (s.fanMode.High? || s.fanMode.Low?)
  }

  predicate Supported(call: Call) {
    InRange(call, TEMPF_MIN, TEMPF_MAX) &&
    (call.fanMode.Some? ==> call.fanMode.value.Low? || call.fanMode.value.High?)
  }

  /** The toggles end in the wanted mode and preset, from every tracked one, and touch nothing else. */
  lemma {:induction false} ModePressesReach(d: Device, s: Shadow, newMode: Mode, newPreset: Preset)
    requires Tracks(d, s) && (newPreset.Eco? ==> newMode.Cool?)
    requires newMode != s.mode || newPreset != s.preset
    ensures var cs := ModePresses(s.mode, s.preset, newMode, newPreset);
      var d' := Replay(d, cs);
      && d' == d.(power := d'.power, cool := d'.cool, eco := d'.eco)
      && d'.power == !newMode.Off? && (d'.cool == !newMode.FanOnly?)
      && (d'.power ==> d'.eco == newPreset.Eco?)
      && Keeps(d, cs, d.setpoint, d.setpoint)
  {
    var cs := ModePresses(s.mode, s.preset, newMode, newPreset);
    if |cs| >= 2 {
      ReplayTwo(d, cs);
    }
  }

  lemma {:induction false} ModeChangeTracks(d: Device, s: Shadow, call: Call)
    requires Tracks(d, s)
    ensures var d', t := Replay(d, ModeChange(s, call)), AfterMode(s, call);
      && d' == d.(power := d'.power, cool := d'.cool, eco := d'.eco)
      && (t.mode, t.preset) == Wanted(s, call)
      && d'.power == !t.mode.Off? && d'.cool == !t.mode.FanOnly? && (d'.power ==> d'.eco == t.preset.Eco?)
      && (t.preset.Eco? ==> t.mode.Cool?)
      && (t.syncedF == 0 || t.syncedF == d'.setpoint)
      && Keeps(d, ModeChange(s, call), d.setpoint, d.setpoint)
  {
    hide Press;
    var (newMode, newPreset) := Wanted(s, call);
    if newMode != s.mode || newPreset != s.preset {
      ModePressesReach(d, s, newMode, newPreset);
    }
  }

  lemma WantedIsObeyed(d: Device, before: Shadow, after: Shadow, call: Call)
    requires Tracks(d, after) && (after.mode, after.preset) == Wanted(before, call)
    requires before.preset.Eco? ==> before.mode.Cool?
    ensures Obeys(d, before, call)
  {
  }

  /** Device tracking: one supported call keeps the unit in step with the record, reaches what was asked for, brings
      a cooling unit exactly to the target, and never lets the setpoint pass the wrong side of it. */
  lemma {:induction false} CallTracks(d: Device, s: Shadow, call: Call)
    requires Tracks(d, s) && Supported(call)
    ensures var cs, s' := Presses(s, call), Controlled(s, call);
      var d' := Replay(d, cs);
      && Tracks(d', s') && Obeys(d', s, call)
      && (s'.mode, s'.preset) == Wanted(s, call) && s'.target == WantedTarget(s, call)
      && (s'.mode.Cool? ==> d'.setpoint == s'.syncedF == WantedTarget(s, call))
      && (call.target.Some? ==> s'.target == call.target.value)
      && (call.target.Some? && s'.mode.Cool? ==> d'.setpoint == call.target.value)
      && (call.target.None? ==> s'.target == s.target)
      && (call.fanMode.Some? ==> s'.fanMode == call.fanMode.value) && (call.fanMode.None? ==> s'.fanMode == s.fanMode)
      && s'.action == s.action
      && (call.fanMode.Some? && d'.power && FanTracks(d, s) ==> (d'.fanLevel == 2 <==> call.fanMode.value.High?))
      && (call.fanMode.None? ==> d'.fanLevel == d.fanLevel)
      && Keeps(d, cs, LowBound(AfterTarget(s, call), d.setpoint, d.lowest),
               HighBound(AfterTarget(s, call), d.setpoint, d.highest))
  {
    hide Press, Replay, Keeps, ModeChange, Wanted, SyncPresses;
    CallIsRecorded(s, call);
    var t := AfterTarget(s, call);
    var cs1, cs2, cs3 := ModeChange(s, call), SyncPresses(t, TEMPF_MIN, TEMPF_MAX), FanPresses(s, call);
    var lo, hi := LowBound(t, d.setpoint, d.lowest), HighBound(t, d.setpoint, d.highest);
    ModeChangeTracks(d, s, call);
    var d1 := Replay(d, cs1);
    KeepsWider(d, cs1, d.setpoint, d.setpoint, lo, hi);
    SyncStep(d1, t, lo, hi);
    var d2 := Replay(d1, cs2);
    FanStep(d2, s, call, lo, hi);
    ReplayConcat(d, cs1, cs2);
    ReplayConcat(d, cs1 + cs2, cs3);
    WantedIsObeyed(Replay(d2, cs3), s, Controlled(s, call), call);
  }

  lemma FanStep(d: Device, s: Shadow, call: Call, lo: int, hi: int)
    requires lo <= d.setpoint <= hi
    ensures var cs := FanPresses(s, call);
      && Replay(d, cs) == d.(fanLevel := if cs == [] || !d.power then d.fanLevel else if d.fanLevel == 0 then 2 else 0)
      && Keeps(d, cs, lo, hi)
  {
  }

  /** Switching on a unit that remembers fan leaves it in the other mode than the one asked for. */
  lemma ModeChangeFromFan(d: Device, s: Shadow, call: Call)
    requires Tracks(d.(cool := true), s) && s.mode.Off? && !d.cool && !Wanted(s, call).0.Off?
    ensures var d' := Replay(d, ModeChange(s, call));
      d' == d.(power := true, cool := Wanted(s, call).0.FanOnly?, eco := d'.eco) &&
      AfterMode(s, call).mode == Wanted(s, call).0 && AfterMode(s, call).syncedF == 0
  {
    var cs := ModeChange(s, call);
    if |cs| >= 2 {
      ReplayTwo(d, cs);
    }
  }

  /** Switching on relies on the unit remembering cool: the record is right afterwards exactly when it does. */
  lemma {:induction false} SwitchOnTracksIff(d: Device, s: Shadow, call: Call)
    requires Tracks(d.(cool := true), s) && s.mode.Off? && Supported(call) && !Wanted(s, call).0.Off?
    ensures Tracks(Replay(d, Presses(s, call)), Controlled(s, call)) <==> d.cool
  {
    hide Press, Replay, Keeps, ModeChange, Wanted, SyncPresses;
    if d.cool {
      assert d == d.(cool := true);
      CallTracks(d, s, call);
    } else {
      var t := AfterTarget(s, call);
      var cs1, cs2, cs3 := ModeChange(s, call), SyncPresses(t, TEMPF_MIN, TEMPF_MAX), FanPresses(s, call);
      ModeChangeFromFan(d, s, call);
      var d1 := Replay(d, cs1);
      SyncStep(d1, t, LowBound(t, d1.setpoint, d1.lowest), HighBound(t, d1.setpoint, d1.highest));
      var d2 := Replay(d1, cs2);
      FanStep(d2, s, call, d2.setpoint, d2.setpoint);
      ReplayConcat(d, cs1, cs2);
      ReplayConcat(d, cs1 + cs2, cs3);
    }
  }

  /** The fan speed is a toggle sent blindly: the record stays right exactly when no toggle goes to an off unit. */
  lemma {:induction false} FanTracksIff(d: Device, s: Shadow, call: Call)
    requires Tracks(d, s) && Supported(call) && FanTracks(d, s)
    ensures FanTracks(Replay(d, Presses(s, call)), Controlled(s, call)) <==>
            (FanPresses(s, call) == [] || !Wanted(s, call).0.Off?)
  {
    hide Press, Replay, Keeps, ModeChange, Wanted, SyncPresses;
    var t := AfterTarget(s, call);
    var cs1, cs2, cs3 := ModeChange(s, call), SyncPresses(t, TEMPF_MIN, TEMPF_MAX), FanPresses(s, call);
    ModeChangeTracks(d, s, call);
    var d1 := Replay(d, cs1);
    SyncStep(d1, t, LowBound(t, d1.setpoint, d1.lowest), HighBound(t, d1.setpoint, d1.highest));
    var d2 := Replay(d1, cs2);
    FanStep(d2, s, call, d2.setpoint, d2.setpoint);
    ReplayConcat(d, cs1, cs2);
    ReplayConcat(d, cs1 + cs2, cs3);
  }

  /** Asking again for what has just been done sends nothing. */
  lemma {:induction false} RepeatedCallIsSilent(d: Device, s: Shadow, call: Call)
    requires Tracks(d, s) && Supported(call)
    ensures WantedTarget(Controlled(s, call), call) == WantedTarget(s, call)
    ensures Presses(Controlled(s, call), call) == []
  {
  }

  /** A bare fan request to a unit that is off: the toggle is not heard, and the record says high from then on. */
  lemma FanToggleLost(target: int)
    requires TEMPF_MIN <= target <= TEMPF_MAX
    ensures var d := Device(false, true, false, target, false, 0, TEMPF_MIN, TEMPF_MAX);
      var s := Shadow(Off, NoPreset, ActionOff, target, 0, Low);
      var call := Call(None, None, None, Some(High));
      && Tracks(d, s) && FanTracks(d, s) && Supported(call)
      && Presses(s, call) == [FanSpeed] && Replay(d, [FanSpeed]) == d
      && Controlled(s, call) == s.(fanMode := High) && !FanTracks(d, Controlled(s, call))
  {
  }

  /** With the setpoint unknown and the compressor at rest, the run goes all the way up to 86 F and back to the target. */
  lemma UnknownSetpointRun(s: Shadow, target: int)
    requires s.mode.Cool? && s.syncedF == 0 && !s.action.Cooling? && 60 <= target <= 86
    ensures Presses(s, Call(None, None, Some(target), None)) == Repeat(TempUp, 26) + Repeat(TempDown, 86 - target)
  {
  }

  /** What one power sensor reading, in watts, does to the record; `settled` when no call was made recently. */
  function PowerReading(s: Shadow, power: real, settled: bool): Shadow {
    if power > 150.0 then
      s.(action := Cooling, mode := if settled then Cool else s.mode)
    else if power > 25.0 then
      s.(action := Fan,
         mode := if settled && s.mode.Off? then FanOnly else s.mode,
         fanMode := if settled && !s.preset.Eco? then (if power > 45.0 then High else Low) else s.fanMode)
    else if power < 2.0 then
      if settled then s.(action := ActionOff, mode := Off, preset := NoPreset) else s.(action := ActionOff)
    else if power < 5.0 then
      if settled then s.(action := Idle, mode := Cool, preset := Eco) else s.(action := Idle)
    else s
  }

  /** The readings that say about mode and preset what is true of the unit. */
  predicate ModeFits(d: Device, power: real) {
    if !d.power then power < 2.0 || 5.0 <= power <= 25.0
    else if d.eco then power >= 2.0
    else power >= 5.0 && (power > 150.0 ==> d.cool)
  }

  /** The readings that say about the fan what is true of the unit. In eco they say nothing. */
  predicate FanFits(d: Device, power: real) {
    d.power && !d.eco && 25.0 < power <= 150.0 ==> (power > 45.0 <==> d.fanLevel == 2)
  }

  /** The record stays in step exactly when the reading is not settled, which changes the action only, or fits. */
  lemma {:induction false} ReadingTracksIff(d: Device, s: Shadow, power: real, settled: bool)
    requires Tracks(d, s)
    ensures var s' := PowerReading(s, power, settled);
      && (Tracks(d, s') <==> (settled ==> ModeFits(d, power)))
      && (Tracks(d, s') ==> s' == s.(action := s'.action, fanMode := s'.fanMode))
      && (Tracks(d, s') && FanTracks(d, s) ==> (FanTracks(d, s') <==> (settled ==> FanFits(d, power))))
      && (!settled ==> s' == s.(action := s'.action))
  {
  }

  /** What a reading makes of any record, right or wrong. The action always follows the watts; a settled reading sets
      right whatever the watts tell: off, eco at rest, cooling, or a fan at one of its speeds. */
  lemma ReadingSetsRight(s: Shadow, power: real, settled: bool)
    ensures var t := PowerReading(s, power, settled);
      && t.target == s.target && t.syncedF == s.syncedF
      && (power > 150.0 ==> t.action.Cooling?) && (25.0 < power <= 150.0 ==> t.action.Fan?)
      && (5.0 <= power <= 25.0 ==> t == s) && (2.0 <= power < 5.0 ==> t.action.Idle?)
      && (power < 2.0 ==> t.action.ActionOff?)
      && (settled && power > 150.0 ==> t.mode.Cool? && t.preset == s.preset && t.fanMode == s.fanMode)
      && (settled && 25.0 < power <= 150.0 ==>
            && t.mode == (if s.mode.Off? then FanOnly else s.mode) && t.preset == s.preset
            && t.fanMode == if s.preset.Eco? then s.fanMode else if power > 45.0 then High else Low)
      && (settled && 2.0 <= power < 5.0 ==> t.mode.Cool? && t.preset.Eco? && t.fanMode == s.fanMode)
      && (settled && power < 2.0 ==> t.mode.Off? && t.preset.NoPreset? && t.fanMode == s.fanMode)
  {
  }

  /** The draws that were measured for the states of the unit all fit. */
  lemma MeasuredDrawsFit(d: Device)
    requires d.fanLevel == 0 || d.fanLevel == 2
    ensures !d.power ==> ModeFits(d, 1.5)
    ensures d.power && d.eco ==> ModeFits(d, 2.1) && ModeFits(d, 37.0) && ModeFits(d, 53.0) && ModeFits(d, 290.0)
    ensures d.power && !d.eco ==> ModeFits(d, if d.fanLevel == 0 then 37.0 else 53.0)
    ensures d.power && d.cool ==> ModeFits(d, 290.0)
    ensures FanFits(d, 1.5) && FanFits(d, 2.1) && FanFits(d, if d.fanLevel == 0 then 37.0 else 53.0) && FanFits(d, 290.0)
  {
  }

  predicate EcoCools(s: Shadow) {
    s.preset.Eco? ==> s.mode.Cool?
  }

  function Next(d: Device, s: Shadow, e: Event): (Device, Shadow)
    requires Tracks(d, s) && Allowed(d, e)
  {
    match e
    case Request(call) => (Replay(d, Presses(s, call)), Controlled(s, call))
    case Reading(power, settled) => (d, PowerReading(s, power, settled))
  }

  predicate Allowed(d: Device, e: Event) {
    match e
    case Request(call) => Supported(call)
    case Reading(power, settled) => settled ==> ModeFits(d, power)
  }

  /** The event sends no fan toggle to a unit that is off, and brings no settled reading of another fan speed. */
  predicate FanAllowed(d: Device, s: Shadow, e: Event) {
    match e
    case Request(call) => FanPresses(s, call) == [] || !Wanted(s, call).0.Off?
    case Reading(power, settled) => settled ==> FanFits(d, power)
  }

  /** A run: unit and record after each event. */
  ghost predicate IsRun(ds: seq<Device>, ss: seq<Shadow>, es: seq<Event>) {
    && |ds| == |ss| == |es| + 1
    && forall i :: 0 <= i < |es| ==>
         && Allowed(ds[i], es[i])
         && (Tracks(ds[i], ss[i]) ==> (ds[i + 1], ss[i + 1]) == Next(ds[i], ss[i], es[i]))
  }

  /** Over every run of supported calls and readings, of which only the settled ones need to be true, the unit matches
      the published mode and preset, and a cooling unit is set to the target; so does the fan mode, as long as every fan
      toggle is heard. */
  lemma {:induction false} RunTracks(ds: seq<Device>, ss: seq<Shadow>, es: seq<Event>, i: nat)
    requires IsRun(ds, ss, es) && Tracks(ds[0], ss[0]) && i <= |es|
    ensures Tracks(ds[i], ss[i])
    ensures FanTracks(ds[0], ss[0]) && (forall j :: 0 <= j < i ==> FanAllowed(ds[j], ss[j], es[j])) ==>
            FanTracks(ds[i], ss[i])
  {
    hide Tracks, FanTracks, Presses, Controlled, PowerReading, ModeFits, FanFits;
    if i > 0 {
      RunTracks(ds, ss, es, i - 1);
      match es[i - 1]
      case Request(call) =>
        CallTracks(ds[i - 1], ss[i - 1], call);
        if FanTracks(ds[i - 1], ss[i - 1]) {
          FanTracksIff(ds[i - 1], ss[i - 1], call);
        }
      case Reading(power, settled) => ReadingTracksIff(ds[i - 1], ss[i - 1], power, settled);
    }
  }

  /** Calls and readings of any kind, true or not, publish eco only together with cooling. */
  lemma EcoAlwaysCools(s: Shadow, call: Call, power: real, settled: bool)
    requires EcoCools(s)
    ensures EcoCools(Controlled(s, call)) && EcoCools(PowerReading(s, power, settled))
  {
  }

  /** Readings are published when mode or action changes. That misses a change exactly when an idle, cooling unit
      without eco is found to draw between 2 and 5 W: the preset turns to eco unannounced. */
  lemma {:induction false} PresetMissedIff(s: Shadow, power: real, settled: bool)
    requires EcoCools(s)
    ensures var s' := PowerReading(s, power, settled);
      (s'.mode == s.mode && s'.action == s.action && s'.preset != s.preset) <==>
      (settled && 2.0 <= power < 5.0 && s.mode.Cool? && s.preset.NoPreset? && s.action.Idle?)
  {
  }

  /** A unit that somebody has put into eco draws 3 W. The first reading comes too soon after a call and changes only the
      action; the second one changes only the preset, and is not published. */
  lemma PresetMissed(s: Shadow)
    requires s.mode.Cool? && s.preset.NoPreset?
    ensures var s1 := PowerReading(s, 3.0, false);
      var s2 := PowerReading(s1, 3.0, true);
      s1 == s.(action := Idle) && s2 == s1.(preset := Eco)
  {
  }

  class KenmoreACClimate {
    var mode: Mode
    var preset: Preset
    var action: Action
    var targetTemperature: int
    var targetTemperatureF: int
    var fanMode: FanMode
    var lastChangeTime: nat
    const powerSettlingTime: nat
    const transmitter: Transmitter

    function Record(): Shadow
      reads this
    {
      Shadow(mode, preset, action, targetTemperature, targetTemperatureF, fanMode)
    }

    ghost predicate Valid()
      reads this
    {
      TEMPF_MIN <= targetTemperature <= TEMPF_MAX && EcoCools(Record()) &&
      0 <= targetTemperatureF <= TEMPF_MAX
    }

    /** The state after the base class's setup: off and without preset, with the setpoint of the unit unknown. What a
      * restored state would apply afterwards is not part of it; target and fan mode are whatever they are by then. */
    constructor (transmitter: Transmitter, target: int, fanMode: FanMode, powerSettlingTime: nat)
      requires TEMPF_MIN <= target <= TEMPF_MAX
      ensures Valid() && this.transmitter == transmitter
      ensures Record() == Shadow(Off, NoPreset, ActionOff, target, 0, fanMode)
    {
      mode, preset, action := Off, NoPreset, ActionOff;
      targetTemperature, targetTemperatureF := target, 0;
      this.fanMode := fanMode;
      lastChangeTime := 0;
      this.powerSettlingTime := powerSettlingTime;
      this.transmitter := transmitter;
    }

    /** `control`, with the clock reading as a parameter. */
    method Control(call: Call, now: nat)
      requires Valid() && InRange(call, TEMPF_MIN, TEMPF_MAX)
      modifies this, transmitter
      ensures Valid() && Record() == Controlled(old(Record()), call)
      ensures transmitter.sent == old(transmitter.sent) + Presses(old(Record()), call)
      ensures targetTemperature == (match call.target case Some(target) => target case None => old(targetTemperature))
      ensures fanMode == (match call.fanMode case Some(m) => m case None => old(fanMode)) && action == old(action)
      ensures lastChangeTime ==
        if Record() != old(Record()) || call.target.Some? || call.fanMode.Some? then now else old(lastChangeTime)
    {
      hide AfterMode, ModeChange, SyncPresses;
      ghost var before, sent := Record(), transmitter.sent;
      var changed := TakeMode(call);
      if call.target.Some? {
        targetTemperature := call.target.value;
        changed := true;
      }
      assert Record() == AfterTarget(before, call);
      if mode.Cool? && targetTemperature != targetTemperatureF {
        transmitter.SyncSetpoint(Record(), TEMPF_MIN, TEMPF_MAX);
        targetTemperatureF := targetTemperature;
        changed := true;
      } else {
        NothingToSync(Record(), TEMPF_MIN, TEMPF_MAX);
      }
      assert transmitter.sent ==
             sent + (ModeChange(before, call) + SyncPresses(AfterTarget(before, call), TEMPF_MIN, TEMPF_MAX));
      if call.fanMode.Some? {
        if call.fanMode.value != fanMode {
          transmitter.Send(FanSpeed, 1);
        }
        fanMode := call.fanMode.value;
        changed := true;
      }
      CallIsRecorded(before, call);
      if changed {
        lastChangeTime := now;
      }
    }

    /** The part of `control` that switches when the wanted mode or preset differs. */
    method TakeMode(call: Call) returns (changed: bool)
      requires Valid()
      modifies this`mode, this`preset, this`targetTemperatureF, transmitter
      ensures Valid() && Record() == AfterMode(old(Record()), call)
      ensures transmitter.sent == old(transmitter.sent) + ModeChange(old(Record()), call)
      ensures changed <==> mode != old(mode) || preset != old(preset)
      ensures changed <==> Record() != old(Record())
    {
      hide ModePresses;
      changed := false;
      var newMode, newPreset := ReadMode(Record(), call);
      if newMode != mode || newPreset != preset {
        SwitchMode(newMode, newPreset);
        changed := true;
      }
    }

    /** The part of `control` that brings mode and preset about by toggling. */
    method SwitchMode(newMode: Mode, newPreset: Preset)
      requires Valid() && (newPreset.Eco? ==> newMode.Cool?)
      requires newMode != mode || newPreset != preset
      modifies this`mode, this`preset, this`targetTemperatureF, transmitter
      ensures Valid() && Record() == SwitchedMode(old(Record()), newMode, newPreset)
      ensures transmitter.sent == old(transmitter.sent) + ModePresses(old(mode), old(preset), newMode, newPreset)
    {
      if mode.Off? {
        transmitter.Send(Power, 1);
        targetTemperatureF := 0;
        // Power restores the previous mode, assumed to be cooling, with eco off.
        preset := NoPreset;
        mode := Cool;
      }
      if newPreset.Eco? {
        if !mode.Cool? {
          transmitter.Send(ModeToggle, 1);
        }
        if !preset.Eco? {
          transmitter.Send(Esave, 1);
        }
      } else {
        match newMode
        case Cool =>
          if !mode.Cool? {
            transmitter.Send(ModeToggle, 1);
          }
          if preset.Eco? {
            transmitter.Send(Esave, 1);
          }
        case FanOnly =>
          if !mode.FanOnly? {
            transmitter.Send(ModeToggle, 1);
          }
          targetTemperatureF := 0;
        case Off =>
          targetTemperatureF := 0;
          if mode.FanOnly? {
            transmitter.Send(ModeToggle, 1);
          }
          transmitter.Send(Power, 1);
      }
      mode := newMode;
      preset := newPreset;
    }

    /** The power sensor callback; `publish` says whether the state is published. */
    method OnPower(power: real, now: nat) returns (publish: bool)
      requires Valid()
      modifies this
      ensures Valid() && lastChangeTime == old(lastChangeTime)
      ensures Record() == PowerReading(old(Record()), power, now > old(lastChangeTime) + powerSettlingTime)
      ensures publish == (mode != old(mode) || action != old(action))
    {
      var oldAction, oldMode := action, mode;
      var updateMode := now > lastChangeTime + powerSettlingTime;
      if power > 150.0 {
        action := Cooling;
        if updateMode {
          mode := Cool;
        }
      } else if power > 25.0 {
        action := Fan;
        if updateMode && mode.Off? {
          mode := FanOnly;
        }
        if updateMode && !preset.Eco? {
          fanMode := if power > 45.0 then High else Low;
        }
      } else if power < 2.0 {
        action := ActionOff;
        if updateMode {
          mode, preset := Off, NoPreset;
        }
      } else if power < 5.0 {
        action := Idle;
        if updateMode {
          mode, preset := Cool, Eco;
        }
      }
      publish := mode != oldMode || action != oldAction;
    }
  }
}
