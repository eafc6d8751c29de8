/** Energy accounting of make/scripts/PowerTOSSIM/postprocess.py. The functions on histories say what a
    mote's energy is; the class keeps running totals the way the script does. */
module Energy {
  import opened Wrappers

  // ---- Motes and the energy model ----

  datatype Radio = Radio(on: bool, tx: bool, txpower: int)

  /** A Python dictionary from names to 0 or 1, in some order. */
  type Switches = seq<(string, bool)>

  datatype Mote = Mote(radio: Radio, cpu: string, cycles: real, adc: bool, adcOn: bool,
                       sensors: Switches, leds: Switches, eepromRead: bool, eepromWrite: bool)

  /** The energy model: currents, and the supply voltage and clock. */
  datatype Model = Model(
    cpu: string -> real, radioRx: real, radioTx: int -> real, adc: real, led: real,
    sensorBoard: real, sensor: string -> real, eepromRead: real, eepromWrite: real,
    defaultPower: int, hasBoard: bool, voltage: real, freq: real)

  datatype OnOff = On | Off

  datatype Action =
    | CpuCycles(n: real)
    | CpuState(s: string)
    | AdcSample | AdcDataReady | AdcSwitch(to: OnOff)
    | RadioOn | RadioOff | RadioPower(p: int) | RadioTx | RadioRx
    | LedSwitch(led: string, to: OnOff)
    | SensorSwitch(sensor: string, to: OnOff)
    | EepromRead(start: bool) | EepromWrite(start: bool)
    | Unknown(name: string)

  /** One POWER line of the trace. */
  datatype Event = Event(mote: nat, action: Action, time: real)

  function InitMote(em: Model): Mote {
    Mote(Radio(false, false, em.defaultPower), "IDLE", 0.0, false, false, [], [], false, false)
  }

  function Put(d: Switches, name: string, on: bool): Switches {
    if d == [] then [(name, on)]
    else if d[0].0 == name then [(name, on)] + d[1..]
    else [d[0]] + Put(d[1..], name, on)
  }

  /** The event handlers. */
  function Handle(em: Model, s: Mote, a: Action): Mote {
    match a
    case CpuCycles(n) => s.(cycles := n)
    case CpuState(c) => s.(cpu := c)
    case AdcSample => s.(adc := true)
    case AdcDataReady => s.(adc := false)
    case AdcSwitch(to) => s.(adcOn := to.On?)
    case RadioOn => s.(radio := Radio(true, false, em.defaultPower))
    case RadioOff => s.(radio := s.radio.(on := false))
    case RadioPower(p) => s.(radio := s.radio.(txpower := p))
    case RadioTx => s.(radio := s.radio.(on := true, tx := true))
    case RadioRx => s.(radio := s.radio.(on := true, tx := false))
    case LedSwitch(led, to) => s.(leds := Put(s.leds, led, to.On?))
    case SensorSwitch(sensor, to) => s.(sensors := Put(s.sensors, sensor, to.On?))
    case EepromRead(start) => s.(eepromRead := start)
    case EepromWrite(start) => s.(eepromWrite := start)
    case Unknown(_) => s
  }

  function SensorSum(em: Model, d: Switches): real {
    if d == [] then 0.0 else (if d[0].1 then em.sensor(d[0].0) else 0.0) + SensorSum(em, d[1..])
  }

  function CountOn(d: Switches): nat {
    if d == [] then 0 else (if d[0].1 then 1 else 0) + CountOn(d[1..])
  }

  /** The components that totals are kept for. */
  const COMPONENTS := 6

  /** current_fn_map: the current a component draws. */
  function Current(em: Model, s: Mote, c: nat): real {
    if c == 0 then em.cpu(s.cpu)
    else if c == 1 then (if !s.radio.on then 0.0 else if s.radio.tx then em.radioTx(s.radio.txpower) else em.radioRx)
    else if c == 2 then (if s.adcOn then em.adc else 0.0)
    else if c == 3 then CountOn(s.leds) as real * em.led
    else if c == 4 then (if em.hasBoard then em.sensorBoard else 0.0) + SensorSum(em, s.sensors)
    else if s.eepromRead then em.eepromRead
    else if s.eepromWrite then em.eepromWrite
    else 0.0
  }

  // ---- What the energy of a mote is ----

  function Max(a: nat, b: nat): nat {
    if a > b then a else b
  }

  /** The largest mote number in a history, known event or not; 0 at the start. */
  function MaxSeen(h: seq<Event>): nat {
    if h == [] then 0 else Max(MaxSeen(h[..|h| - 1]), h[|h| - 1].mote)
  }

  /** The state of mote m after a history: only its own events count. */
  function StateOf(em: Model, h: seq<Event>, m: nat): Mote {
    if h == [] then InitMote(em)
    else
      var s, e := StateOf(em, h[..|h| - 1], m), h[|h| - 1];
      if e.mote == m then Handle(em, s, e.action) else s
  }

  /** The time of the last recognised event; 0 before the first. */
  function Clock(h: seq<Event>): real {
    if h == [] then 0.0
    else if h[|h| - 1].action.Unknown? then Clock(h[..|h| - 1])
    else h[|h| - 1].time
  }

  /** Mote m was covered, its number not above the largest seen, when the last recognised event came. */
  predicate InForce(h: seq<Event>, m: nat) {
    h != [] && if h[|h| - 1].action.Unknown? then InForce(h[..|h| - 1], m) else m <= MaxSeen(h)
  }

  /** The current in force after a history: that of the mote's state, once it is covered. */
  function Force(em: Model, h: seq<Event>, m: nat, c: nat): real {
    if InForce(h, m) then Current(em, StateOf(em, h, m), c) else 0.0
  }

  /** Voltage times current times seconds, for two instants in cycles. */
  function Joule(em: Model, from: real, to: real, current: real): real
    requires em.freq != 0.0
  {
    (to - from) / em.freq * current * em.voltage
  }

  /** Voltage times the integral, up to the last recognised event, of the piecewise constant current in
      force. */
  function Integral(em: Model, h: seq<Event>, m: nat, c: nat): real
    requires em.freq != 0.0
  {
    if h == [] then 0.0
    else
      var front, e := h[..|h| - 1], h[|h| - 1];
      Integral(em, front, m, c)
      + (if e.action.Unknown? then 0.0 else Joule(em, Clock(front), e.time, Force(em, front, m, c)))
  }

  /** A mote is in force once a recognised event has come, and by then an event, recognised or not, of a mote whose
      number is no smaller; mote 0 needs none. */
  lemma {:induction false} InForceIff(h: seq<Event>, m: nat)
    ensures InForce(h, m) <==> exists j :: 0 <= j < |h| && !h[j].action.Unknown? && Covered(h[..j + 1], m)
  {
    if h != [] {
      var front := h[..|h| - 1];
      InForceIff(front, m);
      CoveredIff(h, m);
      forall j | 0 <= j < |front| ensures front[..j + 1] == h[..j + 1] && front[j] == h[j] {
      }
      assert h[..|h| - 1 + 1] == h;
      if h[|h| - 1].action.Unknown? {
        StillInForce(h, m);
      } else if j :| 0 <= j < |h| && !h[j].action.Unknown? && Covered(h[..j + 1], m) {
        CoverageGrows(h, j + 1, m);
      }
    }
  }

  predicate Covered(h: seq<Event>, m: nat) {
    m == 0 || exists i :: 0 <= i < |h| && h[i].mote >= m
  }

  lemma {:induction false} CoveredIff(h: seq<Event>, m: nat)
    ensures Covered(h, m) <==> m <= MaxSeen(h)
  {
    if h != [] {
      var front, n := h[..|h| - 1], |h| - 1;
      CoveredIff(front, m);
      assert h[..n] == front;
      if Covered(front, m) {
        CoverageGrows(h, n, m);
      }
      if m != 0 && Covered(h, m) && h[n].mote < m {
        var i :| 0 <= i < |h| && h[i].mote >= m;
        assert front[i] == h[i];
      }
    }
  }

  lemma CoverageGrows(h: seq<Event>, n: nat, m: nat)
    requires n <= |h| && Covered(h[..n], m)
    ensures Covered(h, m)
  {
    if m != 0 {
      var front := h[..n];
      var i :| 0 <= i < |front| && front[i].mote >= m;
      assert h[i] == front[i];
    }
  }

  lemma StillInForce(h: seq<Event>, m: nat)
    requires h != [] && h[|h| - 1].action.Unknown?
    ensures InForce(h, m) == InForce(h[..|h| - 1], m)
  {
  }

  /** The clock is the time of the last recognised event. */
  lemma {:induction false} ClockIs(h: seq<Event>, j: nat)
    requires j < |h| && !h[j].action.Unknown? && forall i :: j < i < |h| ==> h[i].action.Unknown?
    ensures Clock(h) == h[j].time
  {
    if j < |h| - 1 {
      ClockIs(h[..|h| - 1], j);
    }
  }

  // ---- What the state stands for ----

  /** The independent parts of a mote's state: those that currents depend on, the cycle count and whether the
      converter is sampling. */
  datatype Facet =
    | Cpu | Cycles | Adc | Sampling | Power | Direction | Level | Led(name: string) | Sensor(name: string)
    | Reading | Writing

  /** The events that decide a facet. Turning the radio on also resets its direction and level; sending and
      receiving also turn it on. */
  predicate Decides(a: Action, f: Facet) {
    match f
    case Cpu => a.CpuState?
    case Cycles => a.CpuCycles?
    case Adc => a.AdcSwitch?
    case Sampling => a.AdcSample? || a.AdcDataReady?
    case Power => a.RadioOn? || a.RadioOff? || a.RadioTx? || a.RadioRx?
    case Direction => a.RadioOn? || a.RadioTx? || a.RadioRx?
    case Level => a.RadioOn? || a.RadioPower?
    case Led(name) => a.LedSwitch? && a.led == name
    case Sensor(name) => a.SensorSwitch? && a.sensor == name
    case Reading => a.EepromRead?
    case Writing => a.EepromWrite?
  }

  /** The last event of mote m that decides a facet. */
  function Last(h: seq<Event>, m: nat, f: Facet): Option<Action> {
    if h == [] then None
    else if h[|h| - 1].mote == m && Decides(h[|h| - 1].action, f) then Some(h[|h| - 1].action)
    else Last(h[..|h| - 1], m, f)
  }

  predicate Lit(h: seq<Event>, m: nat, led: string) {
    Last(h, m, Led(led)) == Some(LedSwitch(led, On))
  }

  predicate Sensing(h: seq<Event>, m: nat, sensor: string) {
    Last(h, m, Sensor(sensor)) == Some(SensorSwitch(sensor, On))
  }

  /** The radio after one event, and the other facets. */
  lemma RadioHandled(em: Model, s: Mote, a: Action)
    ensures var r, t := s.radio, Handle(em, s, a).radio;
            && t.on == (if Decides(a, Power) then !a.RadioOff? else r.on)
            && t.tx == (if Decides(a, Direction) then a.RadioTx? else r.tx)
            && t.txpower == if Decides(a, Level) then (if a.RadioPower? then a.p else em.defaultPower) else r.txpower
  {
    match a {
      case RadioOn =>
      case RadioOff =>
      case RadioPower(_) =>
      case RadioTx =>
      case RadioRx =>
      case _ =>
    }
  }

  lemma CpuHandled(em: Model, s: Mote, a: Action)
    ensures var t := Handle(em, s, a);
            && t.cpu == (if Decides(a, Cpu) then a.s else s.cpu)
            && t.cycles == (if Decides(a, Cycles) then a.n else s.cycles)
  {
  }

  lemma AdcHandled(em: Model, s: Mote, a: Action)
    ensures var t := Handle(em, s, a);
            && t.adcOn == (if Decides(a, Adc) then a == AdcSwitch(On) else s.adcOn)
            && t.adc == (if Decides(a, Sampling) then a.AdcSample? else s.adc)
  {
  }

  lemma EepromHandled(em: Model, s: Mote, a: Action)
    ensures var t := Handle(em, s, a);
            && t.eepromRead == (if Decides(a, Reading) then a == EepromRead(true) else s.eepromRead)
            && t.eepromWrite == (if Decides(a, Writing) then a == EepromWrite(true) else s.eepromWrite)
  {
  }

  lemma SwitchHandled(em: Model, s: Mote, a: Action)
    ensures var t := Handle(em, s, a);
            && t.leds == (if a.LedSwitch? then Put(s.leds, a.led, a.to.On?) else s.leds)
            && t.sensors == if a.SensorSwitch? then Put(s.sensors, a.sensor, a.to.On?) else s.sensors
  {
    hide Put;
  }

  /** The radio is on unless it was last turned off, or never used; it sends if it was last told to; its level
      is the last one set since it was last turned on. */
  lemma {:induction false} RadioMeaning(em: Model, h: seq<Event>, m: nat)
    ensures var r := StateOf(em, h, m).radio;
            && r.on == (Last(h, m, Power).Some? && Last(h, m, Power) != Some(RadioOff))
            && r.tx == (Last(h, m, Direction) == Some(RadioTx))
            && r.txpower == match Last(h, m, Level) case Some(RadioPower(p)) => p case _ => em.defaultPower
  {
    if h != [] {
      hide Handle;
      RadioMeaning(em, h[..|h| - 1], m);
      RadioHandled(em, StateOf(em, h[..|h| - 1], m), h[|h| - 1].action);
    }
  }

  /** The other single facets are what the last event deciding them said. */
  lemma {:induction false} OthersMeaning(em: Model, h: seq<Event>, m: nat)
    ensures var s := StateOf(em, h, m);
            && s.cpu == (match Last(h, m, Cpu) case Some(CpuState(c)) => c case _ => "IDLE")
            && s.cycles == (match Last(h, m, Cycles) case Some(CpuCycles(n)) => n case _ => 0.0)
            && s.adcOn == (Last(h, m, Adc) == Some(AdcSwitch(On)))
            && s.adc == (Last(h, m, Sampling) == Some(AdcSample))
            && s.eepromRead == (Last(h, m, Reading) == Some(EepromRead(true)))
            && s.eepromWrite == (Last(h, m, Writing) == Some(EepromWrite(true)))
  {
    if h != [] {
      hide Handle;
      OthersMeaning(em, h[..|h| - 1], m);
      var s, a := StateOf(em, h[..|h| - 1], m), h[|h| - 1].action;
      CpuHandled(em, s, a);
      AdcHandled(em, s, a);
      EepromHandled(em, s, a);
    }
  }

  // ---- Switches ----

  predicate IsOn(d: Switches, name: string) {
    d != [] && if d[0].0 == name then d[0].1 else IsOn(d[1..], name)
  }

  predicate Named(d: Switches, name: string) {
    d != [] && (d[0].0 == name || Named(d[1..], name))
  }

  predicate NamesDistinct(d: Switches) {
    d != [] ==> !Named(d[1..], d[0].0) && NamesDistinct(d[1..])
  }

  function OnSet(d: Switches): set<string> {
    if d == [] then {} else (if d[0].1 then {d[0].0} else {}) + OnSet(d[1..])
  }

  lemma {:induction false} PutSwitches(d: Switches, name: string, on: bool, other: string)
    ensures IsOn(Put(d, name, on), other) <==> if other == name then on else IsOn(d, other)
    ensures Named(Put(d, name, on), other) <==> other == name || Named(d, other)
  {
    if d != [] && d[0].0 != name {
      PutSwitches(d[1..], name, on, other);
    }
  }

  lemma {:induction false} PutDistinct(d: Switches, name: string, on: bool)
    requires NamesDistinct(d)
    ensures NamesDistinct(Put(d, name, on))
  {
    if d != [] && d[0].0 != name {
      PutDistinct(d[1..], name, on);
      PutSwitches(d[1..], name, on, d[0].0);
    }
  }

  lemma {:induction false} OnIsNamed(d: Switches, name: string)
    requires NamesDistinct(d)
    ensures name in OnSet(d) ==> Named(d, name)
    ensures name in OnSet(d) <==> IsOn(d, name)
  {
    if d != [] {
      OnIsNamed(d[1..], name);
    }
  }

  lemma {:induction false} CountIsCard(d: Switches)
    requires NamesDistinct(d)
    ensures CountOn(d) == |OnSet(d)|
  {
    if d != [] {
      CountIsCard(d[1..]);
      OnIsNamed(d[1..], d[0].0);
    }
  }

  /** Switching a name changes the sum by its current, if it changes the switch. */
  lemma {:induction false} SumSwitched(em: Model, d: Switches, name: string, on: bool)
    ensures SensorSum(em, Put(d, name, on))
         == SensorSum(em, d) - (if IsOn(d, name) then em.sensor(name) else 0.0) + (if on then em.sensor(name) else 0.0)
  {
    if d != [] && d[0].0 != name {
      SumSwitched(em, d[1..], name, on);
    }
  }

  /** The sum of the currents of some sensors, in any order (see SumWithout). */
  ghost function TotalOf(em: Model, sensors: set<string>): real {
    if sensors == {} then 0.0
    else
      var x :| x in sensors;
      em.sensor(x) + TotalOf(em, sensors - {x})
  }

  lemma {:induction false} SumWithout(em: Model, sensors: set<string>, y: string)
    requires y in sensors
    ensures TotalOf(em, sensors) == em.sensor(y) + TotalOf(em, sensors - {y})
    decreases |sensors|
  {
    var x :| x in sensors && TotalOf(em, sensors) == em.sensor(x) + TotalOf(em, sensors - {x});
    if x != y {
      SumWithout(em, sensors - {x}, y);
      SumWithout(em, sensors - {y}, x);
      assert sensors - {x} - {y} == sensors - {y} - {x};
    }
  }

  lemma {:induction false} SumIsTotal(em: Model, d: Switches)
    requires NamesDistinct(d)
    ensures SensorSum(em, d) == TotalOf(em, OnSet(d))
  {
    hide TotalOf;
    if d == [] {
      NoSensors(em);
    } else {
      SumIsTotal(em, d[1..]);
      OnIsNamed(d[1..], d[0].0);
      if d[0].1 {
        SumWithout(em, OnSet(d), d[0].0);
        assert OnSet(d) - {d[0].0} == OnSet(d[1..]);
      } else {
        assert OnSet(d) == OnSet(d[1..]);
      }
    }
  }

  lemma NoSensors(em: Model)
    ensures TotalOf(em, {}) == 0.0
  {
  }

  lemma StateAfter(em: Model, h: seq<Event>, m: nat)
    requires h != []
    ensures var s, e := StateOf(em, h[..|h| - 1], m), h[|h| - 1];
            StateOf(em, h, m) == if e.mote == m then Handle(em, s, e.action) else s
  {
    hide Handle;
  }

  lemma SwitchAfter(h: seq<Event>, m: nat, name: string)
    requires h != []
    ensures var front, e := h[..|h| - 1], h[|h| - 1];
            && (Lit(h, m, name) <==>
                if e.mote == m && e.action.LedSwitch? && e.action.led == name then e.action.to.On?
                else Lit(front, m, name))
            && (Sensing(h, m, name) <==>
                if e.mote == m && e.action.SensorSwitch? && e.action.sensor == name then e.action.to.On?
                else Sensing(front, m, name))
  {
  }

  lemma NothingSwitched(em: Model, m: nat, name: string)
    ensures var s := StateOf(em, [], m);
            && s.leds == [] == s.sensors && NamesDistinct(s.leds)
            && !IsOn(s.leds, name) && !Lit([], m, name) && !Sensing([], m, name)
  {
  }

  /** Switches hold each name once, and are on when last switched on. */
  lemma {:induction false} SwitchMeaning(em: Model, h: seq<Event>, m: nat, name: string)
    ensures var s := StateOf(em, h, m);
            && NamesDistinct(s.leds) && NamesDistinct(s.sensors)
            && (IsOn(s.leds, name) <==> Lit(h, m, name)) && (IsOn(s.sensors, name) <==> Sensing(h, m, name))
  {
    hide *;
    if h == [] {
      NothingSwitched(em, m, name);
    } else {
      var s, a := StateOf(em, h[..|h| - 1], m), h[|h| - 1].action;
      SwitchMeaning(em, h[..|h| - 1], m, name);
      StateAfter(em, h, m);
      SwitchAfter(h, m, name);
      SwitchHandled(em, s, a);
      if a.LedSwitch? {
        PutSwitches(s.leds, a.led, a.to.On?, name);
        PutDistinct(s.leds, a.led, a.to.On?);
      } else if a.SensorSwitch? {
        PutSwitches(s.sensors, a.sensor, a.to.On?, name);
        PutDistinct(s.sensors, a.sensor, a.to.On?);
      }
    }
  }

  /** The current of a component, from the history alone: which CPU state, radio mode and level came last, how
      many LEDs and which sensors were last switched on. The board itself draws a current if there is one. */
  lemma CurrentMeaning(em: Model, h: seq<Event>, m: nat, lit: set<string>, sensing: set<string>)
    requires forall led :: led in lit <==> Lit(h, m, led)
    requires forall sensor :: sensor in sensing <==> Sensing(h, m, sensor)
    ensures var s := StateOf(em, h, m);
            && Current(em, s, 0) == em.cpu(match Last(h, m, Cpu) case Some(CpuState(c)) => c case _ => "IDLE")
            && Current(em, s, 1) == (
                 if Last(h, m, Power).None? || Last(h, m, Power) == Some(RadioOff) then 0.0
                 else if Last(h, m, Direction) != Some(RadioTx) then em.radioRx
                 else em.radioTx(match Last(h, m, Level) case Some(RadioPower(p)) => p case _ => em.defaultPower))
            && Current(em, s, 2) == (if Last(h, m, Adc) == Some(AdcSwitch(On)) then em.adc else 0.0)
            && Current(em, s, 3) == |lit| as real * em.led
            && Current(em, s, 4) == TotalOf(em, sensing) + (if em.hasBoard then em.sensorBoard else 0.0)
            && Current(em, s, 5) == (
                 if Last(h, m, Reading) == Some(EepromRead(true)) then em.eepromRead
                 else if Last(h, m, Writing) == Some(EepromWrite(true)) then em.eepromWrite
                 else 0.0)
  {
    hide StateOf, Last, CountOn, OnSet, NamesDistinct, IsOn, SensorSum, TotalOf;
    var s := StateOf(em, h, m);
    RadioMeaning(em, h, m);
    OthersMeaning(em, h, m);
    SwitchMeaning(em, h, m, "");
    CountIsCard(s.leds);
    forall led ensures led in OnSet(s.leds) <==> led in lit {
      SwitchMeaning(em, h, m, led);
      OnIsNamed(s.leds, led);
    }
    assert OnSet(s.leds) == lit;
    SumIsTotal(em, s.sensors);
    forall sensor ensures sensor in OnSet(s.sensors) <==> sensor in sensing {
      SwitchMeaning(em, h, m, sensor);
      OnIsNamed(s.sensors, sensor);
    }
    assert OnSet(s.sensors) == sensing;
  }

  /** Switching a sensor changes the sensor board's current by that sensor's own, if it changes the sensor. */
  lemma SensorSwitched(em: Model, h: seq<Event>, m: nat, sensor: string, to: OnOff, time: real)
    ensures var next := h + [Event(m, SensorSwitch(sensor, to), time)];
            Current(em, StateOf(em, next, m), 4) == Current(em, StateOf(em, h, m), 4)
              + (if to.On? && !Sensing(h, m, sensor) then em.sensor(sensor)
                 else if to.Off? && Sensing(h, m, sensor) then -em.sensor(sensor) else 0.0)
  {
    hide SensorSum, Put, IsOn, Sensing, NamesDistinct;
    var next := h + [Event(m, SensorSwitch(sensor, to), time)];
    assert next[..|h|] == h;
    SwitchMeaning(em, h, m, sensor);
    SumSwitched(em, StateOf(em, h, m).sensors, sensor, to.On?);
  }

  // ---- Inserting an event of another mote ----

  lemma JouleSplit(em: Model, t0: real, t1: real, t2: real, i: real)
    requires em.freq != 0.0
    ensures Joule(em, t0, t1, i) + Joule(em, t1, t2, i) == Joule(em, t0, t2, i)
  {
  }

  /** Inserting e among the events does not put mote m in force where it was not. */
  predicate Harmless(h: seq<Event>, e: Event, m: nat) {
    e.mote != m && (InForce(h, m) || m > Max(MaxSeen(h), e.mote))
  }

  predicate AllUnknown(h: seq<Event>) {
    forall i :: 0 <= i < |h| ==> h[i].action.Unknown?
  }

  lemma InForceIsSeen(h: seq<Event>, m: nat)
    requires InForce(h, m)
    ensures m <= MaxSeen(h)
  {
  }

  /** A history with an event inserted somewhere, next to the one without it. */
  lemma {:induction false} InsertedStates(em: Model, h1: seq<Event>, e: Event, h2: seq<Event>, m: nat)
    requires Harmless(h1, e, m)
    ensures StateOf(em, h1 + [e] + h2, m) == StateOf(em, h1 + h2, m)
    ensures MaxSeen(h1 + [e] + h2) == Max(MaxSeen(h1 + h2), e.mote)
    ensures InForce(h1 + [e] + h2, m) == InForce(h1 + h2, m)
    decreases |h2|
  {
    if h2 == [] {
      assert h1 + [e] + h2 == h1 + [e] && (h1 + [e])[..|h1|] == h1 && h1 + h2 == h1;
      if InForce(h1, m) {
        InForceIsSeen(h1, m);
      }
    } else {
      var f, l := h2[..|h2| - 1], h2[|h2| - 1];
      var a, b := h1 + h2, h1 + [e] + h2;
      assert a[..|a| - 1] == h1 + f && b[..|b| - 1] == h1 + [e] + f && a[|a| - 1] == l == b[|b| - 1];
      InsertedStates(em, h1, e, f, m);
      if InForce(h1, m) {
        InForceIsSeen(h1, m);
        SeenGrows(h1, h2);
      }
    }
  }

  lemma {:induction false} SeenGrows(h1: seq<Event>, h2: seq<Event>)
    ensures MaxSeen(h1) <= MaxSeen(h1 + h2)
    decreases |h2|
  {
    if h2 == [] {
      assert h1 + h2 == h1;
    } else {
      assert (h1 + h2)[..|h1 + h2| - 1] == h1 + h2[..|h2| - 1];
      SeenGrows(h1, h2[..|h2| - 1]);
    }
  }

  lemma IntegralStep(em: Model, h: seq<Event>, l: Event, m: nat, c: nat)
    requires em.freq != 0.0
    ensures Integral(em, h + [l], m, c)
         == Integral(em, h, m, c) + (if l.action.Unknown? then 0.0 else Joule(em, Clock(h), l.time, Force(em, h, m, c)))
    ensures Clock(h + [l]) == if l.action.Unknown? then Clock(h) else l.time
    ensures l.action.Unknown? ==> Force(em, h + [l], m, c) == Force(em, h, m, c)
  {
  }

  /** A recognised event of another mote, inserted at any time, leaves mote m's totals unchanged from the
      next recognised event on, unless it is what puts m in force. */
  lemma {:induction false} InsertionNeutral(em: Model, h1: seq<Event>, e: Event, h2: seq<Event>, m: nat, c: nat)
    requires em.freq != 0.0 && Harmless(h1, e, m) && !e.action.Unknown?
    ensures var a, b := h1 + h2, h1 + [e] + h2;
            if AllUnknown(h2) then
              && Integral(em, b, m, c) == Integral(em, a, m, c) + Joule(em, Clock(h1), e.time, Force(em, h1, m, c))
              && Clock(b) == e.time && Clock(a) == Clock(h1) && Force(em, a, m, c) == Force(em, h1, m, c)
            else
              Integral(em, b, m, c) == Integral(em, a, m, c) && Clock(b) == Clock(a)
    decreases |h2|
  {
    hide StateOf, Joule, Current, Integral, Clock, MaxSeen, InForce, Harmless;
    if h2 == [] {
      assert h1 + [e] + h2 == h1 + [e] && h1 + h2 == h1;
      IntegralStep(em, h1, e, m, c);
    } else {
      var f, l := h2[..|h2| - 1], h2[|h2| - 1];
      var a, b := h1 + f, h1 + [e] + f;
      assert h1 + h2 == a + [l] && h1 + [e] + h2 == b + [l];
      InsertionNeutral(em, h1, e, f, m, c);
      InsertedStates(em, h1, e, f, m);
      IntegralStep(em, a, l, m, c);
      IntegralStep(em, b, l, m, c);
      AllUnknownSplit(h2);
      if !l.action.Unknown? && AllUnknown(f) {
        JouleSplit(em, Clock(h1), e.time, l.time, Force(em, h1, m, c));
      }
    }
  }

  lemma AllUnknownSplit(h: seq<Event>)
    requires h != []
    ensures AllUnknown(h) <==> AllUnknown(h[..|h| - 1]) && h[|h| - 1].action.Unknown?
  {
  }

  /** An event that puts m in force early charges m, at the next recognised event, for the time since. */
  lemma InsertionStartsCharging(em: Model, h: seq<Event>, e: Event, next: Event, m: nat, c: nat)
    requires em.freq != 0.0 && e.mote != m && !e.action.Unknown? && !next.action.Unknown?
    requires !InForce(h, m) && m <= Max(MaxSeen(h), e.mote)
    ensures Integral(em, h + [e] + [next], m, c)
         == Integral(em, h + [next], m, c) + Joule(em, e.time, next.time, Current(em, StateOf(em, h, m), c))
  {
  }

  /** So an insertion changes nothing exactly when it does not put m in force, or m draws no energy over
      the time it adds. */
  lemma InsertionNeutralIff(em: Model, h: seq<Event>, e: Event, next: Event, m: nat, c: nat)
    requires em.freq != 0.0 && e.mote != m && !e.action.Unknown? && !next.action.Unknown?
    ensures Integral(em, h + [e] + [next], m, c) == Integral(em, h + [next], m, c)
       <==> Harmless(h, e, m) || Joule(em, e.time, next.time, Current(em, StateOf(em, h, m), c)) == 0.0
  {
    hide Integral, Joule, Current, StateOf, InForce, MaxSeen;
    if Harmless(h, e, m) {
      InsertionNeutral(em, h, e, [next], m, c);
    } else {
      InsertionStartsCharging(em, h, e, next, m, c);
    }
  }

  lemma JouleOfNothing(em: Model, from: real, to: real)
    requires em.freq != 0.0
    ensures Joule(em, from, to, 0.0) == 0.0
  {
  }

  /** One second of unit current at unit voltage is one unit of energy; and energy is proportional to the time, to
      the current and to the voltage, and inversely to the clock. */
  lemma JouleIs(em: Model, from: real, to: real, i: real, k: real)
    requires em.freq != 0.0 && k != 0.0
    ensures em.voltage == 1.0 ==> Joule(em, from, from + em.freq, 1.0) == 1.0
    ensures Joule(em, from, from + k * (to - from), i) == k * Joule(em, from, to, i)
    ensures Joule(em, from, to, k * i) == k * Joule(em, from, to, i)
    ensures Joule(em.(voltage := k * em.voltage), from, to, i) == k * Joule(em, from, to, i)
    ensures k * em.freq != 0.0 && k * Joule(em.(freq := k * em.freq), from, to, i) == Joule(em, from, to, i)
  {
    hide Joule;
    JouleOfTime(em, from, to, i, k);
    JouleOfCurrent(em, from, to, i, k);
    JouleOfClock(em, from, to, i, k);
    JouleOfOne(em, from);
  }

  lemma Quotient(t: real, f: real, q: real)
    requires f != 0.0 && q * f == t
    ensures t / f == q
  {
  }

  lemma Product(k: real, q: real, i: real, v: real)
    ensures k * q * i * v == k * (q * i * v) && q * (k * i) * v == k * (q * i * v) && q * i * (k * v) == k * (q * i * v)
  {
  }

  lemma Multiplied(k: real, q: real, f: real, t: real)
    requires q * f == t
    ensures k * q * f == k * t
  {
  }

  lemma Shifted(q: real, p: real, k: real, f: real, t: real)
    requires q * f == t && p * k == q
    ensures p * (k * f) == t
  {
  }

  lemma JouleOfOne(em: Model, from: real)
    requires em.freq != 0.0
    ensures em.voltage == 1.0 ==> Joule(em, from, from + em.freq, 1.0) == 1.0
  {
    Quotient(em.freq, em.freq, 1.0);
    assert from + em.freq - from == em.freq;
  }

  lemma JouleOfTime(em: Model, from: real, to: real, i: real, k: real)
    requires em.freq != 0.0
    ensures Joule(em, from, from + k * (to - from), i) == k * Joule(em, from, to, i)
  {
    var t := to - from;
    var q, d := t / em.freq, k * t;
    Multiplied(k, q, em.freq, t);
    Quotient(d, em.freq, k * q);
    assert from + d - from == d;
    Product(k, q, i, em.voltage);
  }

  lemma JouleOfCurrent(em: Model, from: real, to: real, i: real, k: real)
    requires em.freq != 0.0
    ensures Joule(em, from, to, k * i) == k * Joule(em, from, to, i)
    ensures Joule(em.(voltage := k * em.voltage), from, to, i) == k * Joule(em, from, to, i)
  {
    Product(k, (to - from) / em.freq, i, em.voltage);
  }

  lemma NotZero(k: real, f: real)
    requires k != 0.0 && f != 0.0
    ensures k * f != 0.0
  {
  }

  lemma JouleOfClock(em: Model, from: real, to: real, i: real, k: real)
    requires em.freq != 0.0 && k != 0.0
    ensures k * em.freq != 0.0 && k * Joule(em.(freq := k * em.freq), from, to, i) == Joule(em, from, to, i)
  {
    NotZero(k, em.freq);
    var q, f := (to - from) / em.freq, k * em.freq;
    var p := q / k;
    Shifted(q, p, k, em.freq, to - from);
    Quotient(to - from, f, p);
    Product(k, p, i, em.voltage);
  }

  /** The energy of the active cycles, as the summary reckons it. */
  function CycleEnergy(em: Model, s: Mote): real
    requires em.freq != 0.0
  {
    s.cycles * em.voltage * em.cpu("ACTIVE") / em.freq
  }

  /** It is that of the active CPU for as many cycles as the last report said. */
  lemma CycleEnergyIs(em: Model, h: seq<Event>, m: nat, from: real)
    requires em.freq != 0.0
    ensures var n := match Last(h, m, Cycles) case Some(CpuCycles(n)) => n case _ => 0.0;
            CycleEnergy(em, StateOf(em, h, m)) == Joule(em, from, from + n, em.cpu("ACTIVE"))
  {
    hide StateOf, Last;
    OthersMeaning(em, h, m);
    var n, i, v := StateOf(em, h, m).cycles, em.cpu("ACTIVE"), em.voltage;
    assert from + n - from == n;
    Rearranged(n, v, i, em.freq, n / em.freq);
  }

  lemma Rearranged(n: real, v: real, i: real, f: real, q: real)
    requires f != 0.0 && q * f == n
    ensures n * v * i / f == q * i * v
  {
    Regroup(q, f, v, i);
    Quotient(n * v * i, f, q * i * v);
  }

  lemma Regroup(q: real, f: real, v: real, i: real)
    ensures q * i * v * f == q * f * v * i
  {
  }

  // ---- The script's running totals ----

  class Accounting {
    const em: Model
    const state: array<Mote>
    const total: array<seq<real>>
    const prev_current: array<seq<real>>
    const prev_time: array<real>
    var maxseen: nat

    /** The POWER lines handled so far. */
    ghost var history: seq<Event>

    ghost predicate Shape()
      reads this
    {
      && em.freq != 0.0
      && state.Length == total.Length == prev_current.Length == prev_time.Length
      && total != prev_current
    }

    /** Every mote's state, totals and last currents are those of the history. */
    ghost predicate Valid()
      reads this, state, total, prev_current, prev_time
    {
      && Shape()
      && maxseen == MaxSeen(history) && (state.Length > 0 ==> maxseen < state.Length)
      && forall m: nat :: m < state.Length ==>
           && state[m] == StateOf(em, history, m)
           && |total[m]| == COMPONENTS && |prev_current[m]| == COMPONENTS
           && (InForce(history, m) ==> prev_time[m] == Clock(history))
           && (forall c: nat :: c < COMPONENTS ==> total[m][c] == Integral(em, history, m, c))
           && (forall c: nat :: c < COMPONENTS ==> prev_current[m][c] == Force(em, history, m, c))
    }

    /** initstate */
    constructor (em: Model, maxmotes: nat)
      requires em.freq != 0.0
      ensures Valid() && this.em == em && state.Length == maxmotes && history == []
      ensures fresh(state) && fresh(total) && fresh(prev_current) && fresh(prev_time)
    {
      this.em := em;
      state := new Mote[maxmotes](_ => InitMote(em));
      total := new seq<real>[maxmotes](_ => Zeros());
      prev_current := new seq<real>[maxmotes](_ => Zeros());
      prev_time := new real[maxmotes](_ => 0.0);
      maxseen := 0;
      history := [];
    }

    /** update_totals: every mote seen is charged for the time since its last update. */
    method update_totals(time: real)
      requires Shape() && maxseen < state.Length
      requires forall m: nat :: m <= maxseen ==> |total[m]| == COMPONENTS && |prev_current[m]| == COMPONENTS
      modifies total
      ensures forall m: nat :: m < total.Length ==>
                total[m] == if m <= maxseen then Charged(em, old(total[m]), prev_current[m], prev_time[m], time)
                            else old(total[m])
    {
      for m := 0 to maxseen + 1
        invariant forall k: nat :: k < total.Length ==>
                    total[k] == if k < m then Charged(em, old(total[k]), prev_current[k], prev_time[k], time)
                                else old(total[k])
      {
        var row := total[m];
        for t := 0 to COMPONENTS
          invariant |row| == COMPONENTS
          invariant forall c: nat :: c < COMPONENTS ==>
                      row[c] == if c < t then total[m][c] + Joule(em, prev_time[m], time, prev_current[m][c])
                                else total[m][c]
        {
          var td := (time - prev_time[m]) / em.freq;
          row := row[t := row[t] + td * prev_current[m][t] * em.voltage];
        }
        total[m] := row;
      }
    }

    /** update_currents: every mote seen gets the current of its state from this time on. */
    method update_currents(time: real)
      requires Shape() && maxseen < state.Length
      modifies prev_time, prev_current
      ensures forall m: nat :: m < state.Length ==>
                && prev_time[m] == (if m <= maxseen then time else old(prev_time[m]))
                && prev_current[m] == if m <= maxseen then Currents(em, state[m]) else old(prev_current[m])
    {
      for m := 0 to maxseen + 1
        invariant forall k: nat :: k < state.Length ==>
                    && prev_time[k] == (if k < m then time else old(prev_time[k]))
                    && prev_current[k] == if k < m then Currents(em, state[k]) else old(prev_current[k])
      {
        prev_time[m] := time;
        var row := [];
        for t := 0 to COMPONENTS
          invariant row == Currents(em, state[m])[..t]
        {
          row := row + [Current(em, state[m], t)];
        }
        prev_current[m] := row;
      }
    }

    /** handle_event, for a POWER line whose mote number is in range. */
    method handle_event(e: Event)
      requires Valid() && e.mote < state.Length
      modifies this, state, total, prev_time, prev_current
      ensures Valid() && history == old(history) + [e]
    {
      hide StateOf, Integral, Force, Clock, MaxSeen, InForce, Current, Handle;
      ghost var h := history;
      if e.mote > maxseen {
        maxseen := e.mote;
      }
      if !e.action.Unknown? {
        update_totals(e.time);
        state[e.mote] := Handle(em, state[e.mote], e.action);
        update_currents(e.time);
      }
      history := h + [e];
      SeenAfter(h, e);
      forall m: nat | m < state.Length
        ensures state[m] == StateOf(em, history, m)
        ensures |total[m]| == COMPONENTS && |prev_current[m]| == COMPONENTS
        ensures InForce(history, m) ==> prev_time[m] == Clock(history)
        ensures forall c: nat :: c < COMPONENTS ==> total[m][c] == Integral(em, history, m, c)
        ensures forall c: nat :: c < COMPONENTS ==> prev_current[m][c] == Force(em, history, m, c)
      {
        MoteAfter(em, h, e, m, old(total[m]), old(prev_current[m]), old(prev_time[m]));
      }
    }
  }

  function Zeros(): (z: seq<real>)
    ensures |z| == COMPONENTS && forall c :: 0 <= c < COMPONENTS ==> z[c] == 0.0
  {
    seq(COMPONENTS, _ => 0.0)
  }

  function Currents(em: Model, s: Mote): (r: seq<real>)
    ensures |r| == COMPONENTS
  {
    seq(COMPONENTS, c requires 0 <= c => Current(em, s, c))
  }

  function Charged(em: Model, total: seq<real>, current: seq<real>, from: real, to: real): (r: seq<real>)
    requires em.freq != 0.0 && |total| == COMPONENTS && |current| == COMPONENTS
    ensures |r| == COMPONENTS
  {
    seq(COMPONENTS, c requires 0 <= c < COMPONENTS => total[c] + Joule(em, from, to, current[c]))
  }

  lemma SeenAfter(h: seq<Event>, e: Event)
    ensures MaxSeen(h + [e]) == Max(MaxSeen(h), e.mote)
  {
  }

  /** What one event does to one mote's row: the update of the script against the definition. */
  lemma MoteAfter(em: Model, h: seq<Event>, e: Event, m: nat, total: seq<real>, current: seq<real>, prevTime: real)
    requires em.freq != 0.0 && |total| == COMPONENTS && |current| == COMPONENTS
    requires InForce(h, m) ==> prevTime == Clock(h)
    requires forall c: nat :: c < COMPONENTS ==> total[c] == Integral(em, h, m, c) && current[c] == Force(em, h, m, c)
    ensures StateOf(em, h + [e], m)
         == if e.mote == m then Handle(em, StateOf(em, h, m), e.action) else StateOf(em, h, m)
    ensures e.action.Unknown? ==>
              && StateOf(em, h + [e], m) == StateOf(em, h, m) && InForce(h + [e], m) == InForce(h, m)
              && Clock(h + [e]) == Clock(h)
              && forall c: nat :: c < COMPONENTS ==> && Integral(em, h + [e], m, c) == total[c]
                                                     && Force(em, h + [e], m, c) == current[c]
    ensures !e.action.Unknown? ==>
              && Clock(h + [e]) == e.time && (InForce(h + [e], m) <==> m <= Max(MaxSeen(h), e.mote))
              && forall c: nat :: c < COMPONENTS ==>
                   && Integral(em, h + [e], m, c) ==
                      (if m <= Max(MaxSeen(h), e.mote) then Charged(em, total, current, prevTime, e.time)[c]
                       else total[c])
                   && Force(em, h + [e], m, c) ==
                      if m <= Max(MaxSeen(h), e.mote) then Currents(em, StateOf(em, h + [e], m))[c] else current[c]
  {
    var g := h + [e];
    assert g[..|h|] == h;
    if InForce(h, m) {
      InForceIsSeen(h, m);
    }
    JouleOfNothing(em, prevTime, e.time);
    JouleOfNothing(em, Clock(h), e.time);
  }
}
