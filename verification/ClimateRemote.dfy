/** What both infrared air-conditioner controllers share (workshop/esphome/my_components/climate_ir_power): the
    published state, the commands, the unit that receives them, and the setpoint synchronisation. */
module ClimateRemote {
  import opened Options

  datatype Mode = Off | Cool | FanOnly
  datatype Preset = NoPreset | Eco
  datatype Action = ActionOff | Cooling | Fan | Idle
  datatype FanMode = Auto | Low | Medium | High

  /** A request to the controller. Temperatures are whole degrees Fahrenheit. */
  datatype Call = Call(mode: Option<Mode>, preset: Option<Preset>, target: Option<int>, fanMode: Option<FanMode>)

  /** The controller's own record. `syncedF` is `target_temperature_f`: the setpoint it believes the unit has, or 0. */
  datatype Shadow = Shadow(mode: Mode, preset: Preset, action: Action, target: int, syncedF: int, fanMode: FanMode)

  datatype IR =
    | Power | TempUp | TempDown
    | ModeToggle | Esave | FanSpeed                                      // Kenmore
    | ModeCool | ModeFan | ModeEsave | FanUp | FanDown | FanAuto         // Frigidaire

  /** The unit. `cool` is remembered while it is off; a unit that is off reacts to nothing but POWER. */
  datatype Device = Device(power: bool, cool: bool, eco: bool, setpoint: int, fanAuto: bool, fanLevel: nat,
                           lowest: int, highest: int)

  function Press(d: Device, c: IR): Device {
    if c.Power? then (if d.power then d.(power := false) else d.(power := true, eco := false))
    else if !d.power then d
    else
      match c
      case Power => d
      case TempUp => if d.setpoint < d.highest then d.(setpoint := d.setpoint + 1) else d
      case TempDown => if d.setpoint > d.lowest then d.(setpoint := d.setpoint - 1) else d
      case ModeToggle => d.(cool := !d.cool, eco := false)
      case Esave => d.(eco := !d.eco)
      case FanSpeed => d.(fanLevel := if d.fanLevel == 0 then 2 else 0)
      case ModeCool => d.(cool := true, eco := false)
      case ModeFan => d.(cool := false, eco := false)
      case ModeEsave => d.(cool := true, eco := true)
      case FanUp =>
        if d.fanAuto then d.(fanAuto := false) else if d.fanLevel < 2 then d.(fanLevel := d.fanLevel + 1) else d
      case FanDown =>
        if d.fanAuto then d.(fanAuto := false) else if d.fanLevel > 0 then d.(fanLevel := d.fanLevel - 1) else d
      case FanAuto => d.(fanAuto := !d.fanAuto)
  }

  function Replay(d: Device, cs: seq<IR>): Device
    decreases |cs|
  {
    if cs == [] then d else Replay(Press(d, cs[0]), cs[1..])
  }

  /** The setpoint stays within the bounds before, between and after the presses. */
  predicate Keeps(d: Device, cs: seq<IR>, lo: int, hi: int)
    decreases |cs|
  {
    lo <= d.setpoint <= hi && (cs == [] || Keeps(Press(d, cs[0]), cs[1..], lo, hi))
  }

  function Repeat(c: IR, n: nat): (cs: seq<IR>)
    ensures |cs| == n
  {
    seq(n, _ => c)
  }

  lemma NoPress(d: Device, lo: int, hi: int)
    ensures Replay(d, []) == d && (Keeps(d, [], lo, hi) <==> lo <= d.setpoint <= hi)
  {
  }

  lemma {:induction false} ReplayConcat(d: Device, a: seq<IR>, b: seq<IR>)
    ensures Replay(d, a + b) == Replay(Replay(d, a), b)
    ensures forall lo, hi :: Keeps(d, a + b, lo, hi) <==> Keeps(d, a, lo, hi) && Keeps(Replay(d, a), b, lo, hi)
    decreases |a|
  {
    if a == [] {
      assert a + b == b;
    } else {
      assert (a + b)[1..] == a[1..] + b;
      ReplayConcat(Press(d, a[0]), a[1..], b);
    }
  }

  lemma ReplayTwo(d: Device, cs: seq<IR>)
    requires 2 <= |cs|
    ensures Replay(d, cs) == Replay(Press(Press(d, cs[0]), cs[1]), cs[2..])
    ensures forall lo, hi :: Keeps(d, cs, lo, hi) <==>
      lo <= d.setpoint <= hi && lo <= Press(d, cs[0]).setpoint <= hi &&
      Keeps(Press(Press(d, cs[0]), cs[1]), cs[2..], lo, hi)
  {
    assert cs[1..][1..] == cs[2..];
  }

  lemma {:induction false} KeepsWider(d: Device, cs: seq<IR>, lo: int, hi: int, lo': int, hi': int)
    requires Keeps(d, cs, lo, hi) && lo' <= lo && hi <= hi'
    ensures Keeps(d, cs, lo', hi')
    decreases |cs|
  {
    if cs != [] {
      KeepsWider(Press(d, cs[0]), cs[1..], lo, hi, lo', hi');
    }
  }

  lemma {:induction false} RaisesSetpoint(d: Device, n: nat, lo: int, hi: int)
    requires d.power && d.lowest <= d.setpoint <= d.highest
    requires lo <= d.setpoint && (if d.setpoint + n < d.highest then d.setpoint + n else d.highest) <= hi
    ensures Replay(d, Repeat(TempUp, n)) ==
            d.(setpoint := if d.setpoint + n < d.highest then d.setpoint + n else d.highest)
    ensures Keeps(d, Repeat(TempUp, n), lo, hi)
    decreases n
  {
    if n > 0 {
      assert Repeat(TempUp, n)[1..] == Repeat(TempUp, n - 1);
      RaisesSetpoint(Press(d, TempUp), n - 1, lo, hi);
    }
  }

  lemma {:induction false} LowersSetpoint(d: Device, n: nat, lo: int, hi: int)
    requires d.power && d.lowest <= d.setpoint <= d.highest
    requires d.setpoint <= hi && lo <= if d.setpoint - n > d.lowest then d.setpoint - n else d.lowest
    ensures Replay(d, Repeat(TempDown, n)) ==
            d.(setpoint := if d.setpoint - n > d.lowest then d.setpoint - n else d.lowest)
    ensures Keeps(d, Repeat(TempDown, n), lo, hi)
    decreases n
  {
    if n > 0 {
      assert Repeat(TempDown, n)[1..] == Repeat(TempDown, n - 1);
      LowersSetpoint(Press(d, TempDown), n - 1, lo, hi);
    }
  }

  /** The presses that bring the setpoint to `target`: relative steps when it is known, otherwise a run to one end
      of the range and back, the end chosen so that a running compressor is not stopped nor an idle one started. */
  function SyncPresses(s: Shadow, lowest: int, highest: int): seq<IR>
    requires lowest <= s.target <= highest
  {
    if !s.mode.Cool? || s.target == s.syncedF then []
    else if s.syncedF > 0 then
      if s.target > s.syncedF then Repeat(TempUp, s.target - s.syncedF) else Repeat(TempDown, s.syncedF - s.target)
    else if s.action.Cooling? then
      Repeat(TempDown, highest - lowest) + Repeat(TempUp, s.target - lowest)
    else
      Repeat(TempUp, highest - lowest) + Repeat(TempDown, highest - s.target)
  }

  lemma NothingToSync(s: Shadow, lowest: int, highest: int)
    requires lowest <= s.target <= highest && (!s.mode.Cool? || s.target == s.syncedF)
    ensures SyncPresses(s, lowest, highest) == []
  {
  }

  /** How low and how high the setpoint may go while it is brought from `start` to the target. */
  function LowBound(s: Shadow, start: int, lowest: int): int {
    if s.syncedF == 0 && s.action.Cooling? then lowest else if start < s.target then start else s.target
  }

  function HighBound(s: Shadow, start: int, highest: int): int {
    if s.syncedF == 0 && !s.action.Cooling? then highest else if start > s.target then start else s.target
  }

  /** The believed setpoint is unknown or right, and both it and the target are within the unit's range. */
  predicate Synced(d: Device, s: Shadow) {
    && 0 < d.lowest <= d.setpoint <= d.highest && d.lowest <= s.target <= d.highest
    && (s.syncedF == 0 || s.syncedF == d.setpoint)
  }

  /** Synchronising reaches the target exactly, from any setpoint, without overshooting on the wrong side. */
  lemma {:induction false} SyncReachesTarget(d: Device, s: Shadow)
    requires d.power && Synced(d, s) && s.mode.Cool?
    ensures var cs := SyncPresses(s, d.lowest, d.highest);
      && Replay(d, cs) == d.(setpoint := s.target)
      && Keeps(d, cs, LowBound(s, d.setpoint, d.lowest), HighBound(s, d.setpoint, d.highest))
  {
    hide Replay, Keeps, Press, Repeat;
    var lo, hi := LowBound(s, d.setpoint, d.lowest), HighBound(s, d.setpoint, d.highest);
    var span := d.highest - d.lowest;
    NoPress(d, lo, hi);
    if s.target == s.syncedF {
    } else if s.syncedF > 0 {
      if s.target > s.syncedF {
        RaisesSetpoint(d, s.target - s.syncedF, lo, hi);
      } else {
        LowersSetpoint(d, s.syncedF - s.target, lo, hi);
      }
    } else if s.action.Cooling? {
      LowersSetpoint(d, span, lo, hi);
      RaisesSetpoint(d.(setpoint := d.lowest), s.target - d.lowest, lo, hi);
      ReplayConcat(d, Repeat(TempDown, span), Repeat(TempUp, s.target - d.lowest));
    } else {
      RaisesSetpoint(d, span, lo, hi);
      LowersSetpoint(d.(setpoint := d.highest), d.highest - s.target, lo, hi);
      ReplayConcat(d, Repeat(TempUp, span), Repeat(TempDown, d.highest - s.target));
    }
  }

  /** Which side is wrong: with a known setpoint the presses never leave the way to the target; with an unknown one they
      never go below both start and target while the unit is not cooling, which could start the compressor, and never
      above both while it is, which could stop it. */
  lemma {:induction false} SyncStaysOnItsSide(d: Device, s: Shadow)
    requires d.power && Synced(d, s) && s.mode.Cool?
    ensures var cs := SyncPresses(s, d.lowest, d.highest);
      var least, most := if d.setpoint < s.target then d.setpoint else s.target,
                         if d.setpoint > s.target then d.setpoint else s.target;
      && (s.syncedF != 0 ==> Keeps(d, cs, least, most))
      && (!s.action.Cooling? ==> Keeps(d, cs, least, d.highest)) && (s.action.Cooling? ==> Keeps(d, cs, d.lowest, most))
  {
    hide SyncPresses, Keeps, Press;
    SyncReachesTarget(d, s);
    var lo, hi := LowBound(s, d.setpoint, d.lowest), HighBound(s, d.setpoint, d.highest);
    KeepsWider(d, SyncPresses(s, d.lowest, d.highest), lo, hi,
               if s.action.Cooling? then d.lowest else lo, if s.action.Cooling? then hi else d.highest);
  }

  /** The same for any mode: a unit that is not cooling is left alone. */
  lemma SyncStep(d: Device, t: Shadow, lo: int, hi: int)
    requires Synced(d, t)
    requires t.mode.Cool? ==> d.power
    requires lo == LowBound(t, d.setpoint, d.lowest) && hi == HighBound(t, d.setpoint, d.highest)
    ensures var cs := SyncPresses(t, d.lowest, d.highest);
      && Replay(d, cs) == d.(setpoint := if t.mode.Cool? then t.target else d.setpoint)
      && Keeps(d, cs, lo, hi) && lo <= Replay(d, cs).setpoint <= hi
  {
    hide Press, Replay, Keeps;
    NoPress(d, lo, hi);
    if t.mode.Cool? {
      SyncReachesTarget(d, t);
    }
  }

  /** The mode and preset a call asks for: eco forces cooling, and a bare mode drops the preset. */
  function Wanted(s: Shadow, call: Call): (Mode, Preset) {
    var mode := if call.mode.Some? then call.mode.value else s.mode;
    var preset := if call.mode.Some? then NoPreset else s.preset;
    match call.preset
    case None => (mode, preset)
    case Some(Eco) => (Cool, Eco)
    case Some(NoPreset) => (mode, NoPreset)
  }

  /** The unit does what the call asked for; what the call leaves open stays as it was on record. */
  predicate Obeys(d: Device, before: Shadow, call: Call) {
    if call.preset == Some(Eco) then d.power && d.cool && d.eco
    else
      match call.mode
      case Some(Off) => !d.power
      case Some(Cool) => d.power && d.cool && !d.eco
      case Some(FanOnly) => d.power && !d.cool && !d.eco
      case None =>
        d.power == !before.mode.Off? &&
        (d.power ==> d.cool == before.mode.Cool? && d.eco == (before.preset.Eco? && call.preset.None?))
  }

  /** The target in force once a call has been taken in. */
  function WantedTarget(s: Shadow, call: Call): int {
    if call.target.Some? then call.target.value else s.target
  }

  /** The record once the mode has been switched; the setpoint is forgotten whenever cooling stops or the unit
      is switched on. */
  function SwitchedMode(s: Shadow, newMode: Mode, newPreset: Preset): Shadow {
    var forget := s.mode.Off? || (newPreset.NoPreset? && !newMode.Cool?);
    s.(mode := newMode, preset := newPreset, syncedF := if forget then 0 else s.syncedF)
  }

  function AfterMode(s: Shadow, call: Call): Shadow {
    var (newMode, newPreset) := Wanted(s, call);
    if newMode == s.mode && newPreset == s.preset then s else SwitchedMode(s, newMode, newPreset)
  }

  function AfterTarget(s: Shadow, call: Call): Shadow {
    AfterMode(s, call).(target := WantedTarget(s, call))
  }

  /** The record after a whole call. */
  function Controlled(s: Shadow, call: Call): Shadow {
    var t := AfterTarget(s, call);
    t.(syncedF := if t.mode.Cool? then t.target else t.syncedF,
       fanMode := if call.fanMode.Some? then call.fanMode.value else s.fanMode)
  }

  /** What a call leaves on record: the temperature and fan mode it asks for, or those from before, and never another
      action; the setpoint is known while cooling, and forgotten when the unit is switched to anything else. The steps
      start from the setpoint on record, unless the unit has just been switched on. */
  lemma CallIsRecorded(s: Shadow, call: Call)
    ensures var t := Controlled(s, call);
      && (t.mode, t.preset) == Wanted(s, call) && t.action == s.action
      && t.target == (match call.target case Some(target) => target case None => s.target)
      && t.fanMode == (match call.fanMode case Some(fanMode) => fanMode case None => s.fanMode)
      && (t.mode.Cool? ==> t.syncedF == t.target)
      && (!t.mode.Cool? && (s.preset.Eco? ==> s.mode.Cool?) ==>
            t.syncedF == if t.mode == s.mode && t.preset == s.preset then s.syncedF else 0)
    ensures var t := AfterTarget(s, call);
      (s.preset.Eco? ==> s.mode.Cool?) ==>
        t.syncedF == if (t.mode == s.mode && t.preset == s.preset) || (t.mode.Cool? && !s.mode.Off?) then s.syncedF else 0
  {
  }

  /** A unit that is switched on to cool gets a full run to one end of its range first, whatever its setpoint was
      believed to be. */
  lemma {:induction false} SwitchedOnRunsToEnd(s: Shadow, call: Call, lowest: int, highest: int)
    requires s.mode.Off? && Wanted(s, call).0.Cool? && 0 < lowest <= WantedTarget(s, call) <= highest
    ensures Repeat(if s.action.Cooling? then TempDown else TempUp, highest - lowest) <=
            SyncPresses(AfterTarget(s, call), lowest, highest)
  {
    var t := AfterTarget(s, call);
    assert t.syncedF == 0 && t.action == s.action && t.mode.Cool?;
  }

  predicate InRange(call: Call, lowest: int, highest: int) {
    call.target.Some? ==> lowest <= call.target.value <= highest
  }

  /** What happens to a unit and its controller: a request, or a power sensor reading in watts, which is `settled` when
      no call was made recently. */
  datatype Event = Request(call: Call) | Reading(power: real, settled: bool)

  /** The part of `control` that reads mode and preset from the call. */
  method ReadMode(s: Shadow, call: Call) returns (newMode: Mode, newPreset: Preset)
    ensures (newMode, newPreset) == Wanted(s, call)
  {
    newMode, newPreset := s.mode, s.preset;
    if call.mode.Some? {
      newMode := call.mode.value;
      newPreset := NoPreset;
    }
    if call.preset.Some? {
      match call.preset.value
      case Eco =>
        newMode := Cool;
        newPreset := Eco;
      case NoPreset =>
        newPreset := NoPreset;
    }
  }

  /** The infrared transmitter, with the log of every press it has sent. */
  class Transmitter {
    var sent: seq<IR>

    constructor ()
      ensures sent == []
    {
      sent := [];
    }

    /** `send_ir_`: one command, repeated. The count is a byte. */
    method Send(c: IR, count: nat)
      requires count < 256
      modifies this
      ensures sent == old(sent) + Repeat(c, count)
    {
      sent := sent + Repeat(c, count);
    }

    /** The part of `control` that brings the setpoint about by relative steps. */
    method SyncSetpoint(s: Shadow, lowest: int, highest: int)
      requires 0 <= lowest <= s.target <= highest < 256 && 0 <= s.syncedF <= highest
      requires s.mode.Cool? && s.target != s.syncedF
      modifies this
      ensures sent == old(sent) + SyncPresses(s, lowest, highest)
    {
      if s.syncedF > 0 {
        var delta := s.target - s.syncedF;
        if delta > 0 {
          Send(TempUp, delta);
        } else if delta < 0 {
          Send(TempDown, -delta);
        }
      } else if s.action.Cooling? {
        Send(TempDown, highest - lowest);
        Send(TempUp, s.target - lowest);
      } else {
        Send(TempUp, highest - lowest);
        Send(TempDown, highest - s.target);
      }
    }
  }
}
