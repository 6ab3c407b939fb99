/**
 The Fan SHIM controller: a pin driver that remembers every value written to
 the fan pin, and a monitor that switches the fan with two-threshold
 hysteresis on each temperature reading.
 */
module FanShim {
  import opened Wrappers
  import opened Text

  /** The Python values `set_fan` may be handed, with their truthiness. */
  datatype PyValue = PyBool(b: bool) | PyInt(i: int) | PyStr(s: string) | PyNone

  predicate Truthy(v: PyValue)
  {
    match v
    case PyBool(b) => b
    case PyInt(i) => i != 0
    case PyStr(s) => |s| > 0
    case PyNone => false
  }

  /** The fan rig: the monitor's `running` flag, and every value written to
      the pin since the driver was set up, oldest first. */
  datatype Rig = Rig(running: bool, writes: seq<bool>)

  /** Switching thresholds in degrees Celsius; nothing orders them. */
  datatype Thresholds = Thresholds(off: real, on: real)

  /** The thresholds the monitor is built with when none are given. */
  const DefaultThresholds := Thresholds(45.0, 65.0)

  /** What `set_fan` leaves behind: the extended pin history and the value it
      returns. */
  datatype SetResult = SetResult(rig: Rig, returned: bool)

  /** `set_fan`: writes the truthiness of `v` to the pin and returns it. */
  function SetFan(rig: Rig, v: PyValue): (r: SetResult)
    ensures |r.rig.writes| == |rig.writes| + 1
    ensures r.rig.writes[..|rig.writes|] == rig.writes
    ensures r.rig.writes[|rig.writes|] == r.returned
    ensures r.returned <==> Truthy(v)
    ensures r.rig.running == rig.running
  {
    SetResult(rig.(writes := rig.writes + [Truthy(v)]), Truthy(v))
  }

  /** `set_fan_on`: `set_fan(True)`, one `True` appended to the pin history. */
  function SetFanOn(rig: Rig): (r: Rig)
    ensures r.writes == rig.writes + [true]
    ensures r.running == rig.running
  {
    SetFan(rig, PyBool(true)).rig
  }

  /** `set_fan_off`: `set_fan(False)`, one `False` appended to the pin history. */
  function SetFanOff(rig: Rig): (r: Rig)
    ensures r.writes == rig.writes + [false]
    ensures r.running == rig.running
  {
    SetFan(rig, PyBool(false)).rig
  }

  /** The pin's current level: the last value written to it. */
  function Pin(rig: Rig): bool
    requires |rig.writes| > 0
  {
    rig.writes[|rig.writes| - 1]
  }

  /** The driver switches the fan off as it is set up, and the monitor starts
      believing it is off. */
  function Start(): (rig: Rig)
    ensures |rig.writes| == 1 && !Pin(rig) && !rig.running
  {
    SetFanOff(Rig(false, []))
  }

  /** The decision one loop iteration takes: the new `running` flag, and the
      value written to the pin, if any. */
  datatype Decision = Decision(running: bool, write: Option<bool>)

  /** One iteration's choice, from the reading and the current flag. */
  function Decide(th: Thresholds, temp: real, running: bool): (d: Decision)
    ensures temp >= th.on && !running ==> d == Decision(true, Some(true))
    ensures temp <= th.off && running ==> d == Decision(false, Some(false))
    ensures !(temp >= th.on && !running) && !(temp <= th.off && running) ==>
      d == Decision(running, None)
    ensures d.write.Some? <==> d.running != running
    ensures d.write.Some? ==> d.write.value == d.running
  {
    if temp >= th.on && !running then Decision(true, Some(true))
    else if temp <= th.off && running then Decision(false, Some(false))
    else Decision(running, None)
  }

  /** One iteration of the monitor loop, applied to the rig. */
  function Tick(th: Thresholds, rig: Rig, temp: real): (r: Rig)
    ensures |rig.writes| <= |r.writes| <= |rig.writes| + 1
    ensures r.writes[..|rig.writes|] == rig.writes
  {
    var d := Decide(th, temp, rig.running);
    var flagged := rig.(running := d.running);
    match d.write
    case None => flagged
    case Some(on) => if on then SetFanOn(flagged) else SetFanOff(flagged)
  }

  /** The monitor loop over a finite run of readings. */
  function Run(th: Thresholds, rig: Rig, temps: seq<real>): (r: Rig)
    ensures |rig.writes| <= |r.writes| <= |rig.writes| + |temps|
    ensures r.writes[..|rig.writes|] == rig.writes
    decreases |temps|
  {
    if |temps| == 0 then rig else Run(th, Tick(th, rig, temps[0]), temps[1..])
  }

  /** The `running` flag after each reading. */
  function States(th: Thresholds, rig: Rig, temps: seq<real>): (s: seq<bool>)
    ensures |s| == |temps|
    decreases |temps|
  {
    if |temps| == 0 then []
    else
      var next := Tick(th, rig, temps[0]);
      [next.running] + States(th, next, temps[1..])
  }

  /** The flag agrees with the pin. */
  predicate Consistent(rig: Rig)
  {
    |rig.writes| > 0 && rig.running == Pin(rig)
  }

  /** No value is ever written twice in a row. */
  predicate Alternating(writes: seq<bool>)
  {
    forall i :: 0 < i < |writes| ==> writes[i] != writes[i - 1]
  }

  /** A reading as the loop obtains it: a temperature, or a failure of the
      temperature command. */
  datatype Reading = Temp(celsius: real) | SensorError

  /** `monitor_fan` over a finite run of readings: a failed reading raises out
      of the loop, so nothing after it is processed. */
  function Monitor(th: Thresholds, rig: Rig, readings: seq<Reading>): (r: Rig)
    ensures |rig.writes| <= |r.writes| <= |rig.writes| + |readings|
    ensures r.writes[..|rig.writes|] == rig.writes
    ensures |readings| > 0 && readings[0].SensorError? ==> r == rig
    decreases |readings|
  {
    if |readings| == 0 then rig
    else match readings[0]
      case SensorError => rig
      case Temp(t) => Monitor(th, Tick(th, rig, t), readings[1..])
  }

  /** The text `_get_cpu_temp` hands to `float`: the command output with its
      first five and last three characters cut off. */
  function TempText(out: string): (r: string)
    ensures |out| < 8 ==> r == []
    ensures |out| >= 8 ==> r == out[5..|out| - 3]
  {
    SliceRules(out, 5, -3);
    Slice(out, 5, -3)
  }

  // ---------------------------------------------------------------------
  // Properties

  /** `set_fan` is idempotent on its own result: passing the returned value
      back in writes and returns the same value again. */
  lemma SetFanNormalises(rig: Rig, v: PyValue)
    ensures var r := SetFan(rig, v);
      SetFan(rig, PyBool(r.returned)) == r
  {
  }

  /** Whatever the thresholds, a tick writes `True` only when the fan was
      believed off and the reading reached the on threshold, and `False` only
      when it was believed on and the reading fell to the off threshold; the
      value written is the new flag and differs from the old one. */
  lemma BranchesExclusive(th: Thresholds, rig: Rig, temp: real)
    ensures var r := Tick(th, rig, temp);
      |r.writes| == |rig.writes| + 1 ==>
        r.writes[|rig.writes|] == r.running && r.running != rig.running
    ensures var r := Tick(th, rig, temp);
      |r.writes| == |rig.writes| + 1 && r.writes[|rig.writes|] ==> !rig.running && temp >= th.on
    ensures var r := Tick(th, rig, temp);
      |r.writes| == |rig.writes| + 1 && !r.writes[|rig.writes|] ==> rig.running && temp <= th.off
    ensures var r := Tick(th, rig, temp);
      |r.writes| == |rig.writes| ==> r == rig
  {
  }

  /** The pin tracks the flag: a tick keeps the flag equal to the last value
      written and never writes the value already on the pin. */
  lemma TickPreserves(th: Thresholds, rig: Rig, temp: real)
    requires Consistent(rig) && Alternating(rig.writes)
    ensures Consistent(Tick(th, rig, temp))
    ensures Alternating(Tick(th, rig, temp).writes)
  {
    var r := Tick(th, rig, temp);
    if |r.writes| > |rig.writes| {
      assert r.writes[|rig.writes|] != r.writes[|rig.writes| - 1];
      forall i | 0 < i < |r.writes|
        ensures r.writes[i] != r.writes[i - 1]
      {
        if i < |rig.writes| {
          assert r.writes[i] == rig.writes[i] && r.writes[i - 1] == rig.writes[i - 1];
        }
      }
    } else {
      assert r.writes == rig.writes;
    }
  }

  /** From start-up on, through any finite run, the flag equals the pin, the
      history alternates, and each reading adds at most one write. */
  lemma {:induction false} RunPreserves(th: Thresholds, rig: Rig, temps: seq<real>)
    requires Consistent(rig) && Alternating(rig.writes)
    ensures Consistent(Run(th, rig, temps))
    ensures Alternating(Run(th, rig, temps).writes)
    ensures |Run(th, rig, temps).writes| <= |rig.writes| + |temps|
    decreases |temps|
  {
    if |temps| > 0 {
      TickPreserves(th, rig, temps[0]);
      RunPreserves(th, Tick(th, rig, temps[0]), temps[1..]);
    }
  }

  lemma StartInvariant()
    ensures Consistent(Start()) && Alternating(Start().writes)
  {
  }

  /** Readings strictly between the thresholds never change the flag and
      never touch the pin. */
  lemma {:induction false} InBandHolds(th: Thresholds, rig: Rig, temps: seq<real>)
    requires forall i :: 0 <= i < |temps| ==> th.off < temps[i] < th.on
    ensures Run(th, rig, temps) == rig
    decreases |temps|
  {
    if |temps| > 0 {
      assert Tick(th, rig, temps[0]) == rig;
      InBandHolds(th, rig, temps[1..]);
    }
  }

  /** The hysteresis promise: a steady temperature settles the fan after one
      reading exactly when the off threshold lies below the on threshold.
      With the thresholds reversed, a temperature between them flips the fan
      on every reading. */
  lemma SettlesIffOrdered(th: Thresholds)
    ensures th.off < th.on <==>
      forall t: real, running: bool {:trigger Decide(th, t, running)} ::
        Decide(th, t, Decide(th, t, running).running).write.None?
  {
    if th.off >= th.on {
      var t := th.on;
      assert Decide(th, t, false).running;
      assert Decide(th, t, true).write.Some?;
    }
  }

  /** With reversed thresholds a temperature between them makes every
      reading toggle the fan. */
  lemma {:induction false} ReversedChatters(th: Thresholds, rig: Rig, temps: seq<real>)
    requires th.on <= th.off
    requires forall i :: 0 <= i < |temps| ==> th.on <= temps[i] <= th.off
    ensures var s := States(th, rig, temps);
      forall i :: 0 < i < |s| ==> s[i] != s[i - 1]
    ensures |temps| > 0 ==> States(th, rig, temps)[0] != rig.running
    decreases |temps|
  {
    if |temps| > 0 {
      var next := Tick(th, rig, temps[0]);
      ReversedChatters(th, next, temps[1..]);
      var s := States(th, rig, temps);
      assert s == [next.running] + States(th, next, temps[1..]);
    }
  }

  /** The worked example: off 45, on 65, readings 50, 70, 60, 40 leave the fan
      off, on, on (60 is between the thresholds) and off. */
  lemma ExampleTrace()
    ensures States(DefaultThresholds, Start(), [50.0, 70.0, 60.0, 40.0])
      == [false, true, true, false]
    ensures Run(DefaultThresholds, Start(), [50.0, 70.0, 60.0, 40.0]).writes
      == [false, true, false]
  {
  }

  /** A failed reading ends the loop: what follows it is never processed. */
  lemma {:induction false} MonitorStopsAtFailure(th: Thresholds, rig: Rig, temps: seq<real>, rest: seq<Reading>)
    ensures Monitor(th, rig, TempsOf(temps) + [SensorError] + rest) == Run(th, rig, temps)
    decreases |temps|
  {
    var rs := TempsOf(temps) + [SensorError] + rest;
    if |temps| > 0 {
      assert rs[0] == Temp(temps[0]);
      assert rs[1..] == TempsOf(temps[1..]) + [SensorError] + rest;
      MonitorStopsAtFailure(th, Tick(th, rig, temps[0]), temps[1..], rest);
    } else {
      assert rs[0] == SensorError;
    }
  }

  /** Without a failure, the monitor is the plain loop. */
  lemma {:induction false} MonitorWithoutFailure(th: Thresholds, rig: Rig, temps: seq<real>)
    ensures Monitor(th, rig, TempsOf(temps)) == Run(th, rig, temps)
    decreases |temps|
  {
    if |temps| > 0 {
      assert TempsOf(temps)[1..] == TempsOf(temps[1..]);
      MonitorWithoutFailure(th, Tick(th, rig, temps[0]), temps[1..]);
    }
  }

  /** Successful readings carrying the given temperatures. */
  function TempsOf(temps: seq<real>): (rs: seq<Reading>)
    ensures |rs| == |temps|
    ensures forall i :: 0 <= i < |temps| ==> rs[i] == Temp(temps[i])
  {
    seq(|temps|, i requires 0 <= i < |temps| => Temp(temps[i]))
  }

  /** The temperature command's framing comes off intact: `temp=` in front,
      `'C` and a newline behind. */
  lemma TempTextUnframes(x: string)
    ensures TempText("temp=" + x + "'C\n") == x
  {
    var out := "temp=" + x + "'C\n";
    assert out[5..|out| - 3] == x;
  }

  lemma TempTextExample()
    ensures TempText("temp=48.3'C\n") == "48.3"
    ensures TempText("temp=") == ""
  {
    TempTextUnframes("48.3");
  }
}
