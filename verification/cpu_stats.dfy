/**
 The stats server's CPU collector: it reads the first five lines of
 `/proc/stat` (the overall line and four cores), and for each reports the
 share of non-idle time since that core's previous reading, keeping the
 cumulative counters it saw as the next baseline.
 */
module CpuStats {
  import opened Wrappers
  import opened Text

  /** Cumulative idle and total ticks last seen for one core. */
  datatype Sample = Sample(idle: nat, total: nat)

  /** The collector's retained state: one sample per core name. */
  type Baseline = map<string, Sample>

  /** The keys the collector knows, in the order the lines are read. */
  const CoreNames: seq<string> := ["overall", "core0", "core1", "core2", "core3"]

  /** The same names as a set: the keys of a fresh baseline and of a report. */
  const CoreSet: set<string> := {"overall", "core0", "core1", "core2", "core3"}

  /** Why one core's reading yields no ratio: a token that is not a number,
      fewer than five counters, a core the baseline does not know, or no
      ticks elapsed since the baseline. */
  datatype CpuError = NotANumber | TooFewFields | UnknownCore | NoElapsedTicks

  /** One core's outcome together with the baseline left behind. */
  datatype Attempt = Attempt(outcome: Result<real, CpuError>, baseline: Baseline)

  /** A freshly built collector: every known core at zero. */
  function FreshBaseline(): (b: Baseline)
    ensures b.Keys == CoreSet
    ensures forall n :: n in b ==> b[n] == Sample(0, 0)
  {
    map["overall" := Sample(0, 0), "core0" := Sample(0, 0), "core1" := Sample(0, 0),
        "core2" := Sample(0, 0), "core3" := Sample(0, 0)]
  }

  function Sum(f: seq<nat>): nat
  {
    if |f| == 0 then 0 else f[0] + Sum(f[1..])
  }

  /** Every token parsed as a counter, or nothing if any token is not one. */
  function ParseAll(tokens: seq<string>): (r: Option<seq<nat>>)
    ensures r.Some? <==> forall i :: 0 <= i < |tokens| ==> ParseNat(tokens[i]).Some?
    ensures r.Some? ==> |r.value| == |tokens|
    ensures r.Some? ==> forall i :: 0 <= i < |tokens| ==> ParseNat(tokens[i]) == Some(r.value[i])
  {
    if |tokens| == 0 then Some([])
    else match (ParseNat(tokens[0]), ParseAll(tokens[1..]))
      case (Some(n), Some(ns)) => Some([n] + ns)
      case _ => None
  }

  /** The counters of a line: its whitespace-separated tokens after the
      leading label (`cpu`, `cpu0`, ...), each read as a number. */
  function Fields(line: string): Option<seq<nat>>
  {
    var tokens := Split(line);
    ParseAll(if |tokens| == 0 then [] else tokens[1..])
  }

  /** `Fields` drops the label exactly as the slice `[1:]` does. */
  lemma FieldsIsSliceFromOne(line: string)
    ensures Fields(line) == ParseAll(Slice(Split(line), 1, |Split(line)|))
  {
    var tokens := Split(line);
    if |tokens| == 0 {
      assert Slice(tokens, 1, |tokens|) == [];
    } else {
      assert Slice(tokens, 1, |tokens|) == tokens[1..];
    }
  }

  /** The counters of a line, token by token: they parse exactly when every
      token after the label does, and then there is one counter per such
      token, in order. */
  lemma FieldsTokens(line: string)
    ensures var ts := Split(line);
      Fields(line).Some? ==> forall i :: 1 <= i < |ts| ==> ParseNat(ts[i]).Some?
    ensures var ts := Split(line);
      (forall i :: 1 <= i < |ts| ==> ParseNat(ts[i]).Some?) ==> Fields(line).Some?
    ensures var ts := Split(line);
      Fields(line).Some? && |ts| > 0 ==> |Fields(line).value| == |ts| - 1
    ensures var ts := Split(line);
      Fields(line).Some? ==> forall i :: 0 <= i < |Fields(line).value| ==>
        ParseNat(ts[i + 1]) == Some(Fields(line).value[i])
  {
    var ts := Split(line);
    if |ts| > 0 {
      var rest := ts[1..];
      if forall i :: 1 <= i < |ts| ==> ParseNat(ts[i]).Some? {
        forall j | 0 <= j < |rest| ensures ParseNat(rest[j]).Some? {
          assert rest[j] == ts[j + 1];
        }
      }
      if forall j :: 0 <= j < |rest| ==> ParseNat(rest[j]).Some? {
        forall i | 1 <= i < |ts| ensures ParseNat(ts[i]).Some? {
          assert ts[i] == rest[i - 1];
        }
      }
    }
  }

  /** The sample a full set of counters gives: idle plus iowait (the fourth
      and fifth counters) as idle time, all counters as total time. */
  function Reading(f: seq<nat>): (s: Sample)
    requires |f| >= 5
    ensures s.idle <= s.total
  {
    SumCoversPair(f, 3, 4);
    Sample(f[3] + f[4], Sum(f))
  }

  /** The share of the elapsed ticks that were not idle. */
  function BusyShare(deltaIdle: int, deltaTotal: int): (r: real)
    requires deltaTotal != 0
    ensures 0 <= deltaIdle <= deltaTotal ==> 0.0 <= r <= 1.0
  {
    var r := (deltaTotal - deltaIdle) as real / deltaTotal as real;
    if 0 <= deltaIdle <= deltaTotal then ShareIsFraction(deltaIdle, deltaTotal); r else r
  }

  /** The share times the elapsed ticks is the number of busy ticks. */
  lemma BusyShareScales(deltaIdle: int, deltaTotal: int)
    requires deltaTotal != 0
    ensures BusyShare(deltaIdle, deltaTotal) * deltaTotal as real == (deltaTotal - deltaIdle) as real
  {
  }

  /** With idle time advancing no faster than total time, the non-idle share
      is a fraction. */
  lemma ShareIsFraction(deltaIdle: int, deltaTotal: int)
    requires 0 <= deltaIdle <= deltaTotal && deltaTotal > 0
    ensures 0.0 <= (deltaTotal - deltaIdle) as real / deltaTotal as real <= 1.0
  {
    var busy := (deltaTotal - deltaIdle) as real;
    var all := deltaTotal as real;
    assert busy <= all;
    assert busy / all <= all / all;
  }

  /** The ratio for one core between its baseline and a new sample; no
      elapsed ticks is a division by zero. */
  function Compare(prev: Sample, now: Sample): (r: Result<real, CpuError>)
    ensures r.Failure? <==> now.total == prev.total
    ensures r.Failure? ==> r.error == NoElapsedTicks
    ensures r.Success? ==> r.value == BusyShare(now.idle - prev.idle, now.total - prev.total)
    ensures r.Success? && prev.idle <= now.idle && now.idle - prev.idle <= now.total - prev.total ==>
      0.0 <= r.value <= 1.0
  {
    var deltaTotal := now.total - prev.total;
    if deltaTotal == 0 then Failure(NoElapsedTicks)
    else Success(BusyShare(now.idle - prev.idle, deltaTotal))
  }

  /** `_parse_cpu_line` with its failure made explicit. */
  function Measure(b: Baseline, name: string, line: string): (a: Attempt)
    ensures a.baseline.Keys == b.Keys
    ensures forall n :: n in b && n != name ==> a.baseline[n] == b[n]
    ensures a.outcome.Failure? && a.outcome.error != NoElapsedTicks ==> a.baseline == b
    ensures name !in b ==> a.baseline == b && a.outcome.Failure?
    ensures a.outcome.Success? || a.outcome.error == NoElapsedTicks ==>
      && name in b
      && Fields(line).Some? && |Fields(line).value| >= 5
      && a.baseline == b[name := Reading(Fields(line).value)]
  {
    match Fields(line)
    case None => Attempt(Failure(NotANumber), b)
    case Some(f) =>
      if |f| < 5 then Attempt(Failure(TooFewFields), b)
      else if name !in b then Attempt(Failure(UnknownCore), b)
      else
        var now := Reading(f);
        Attempt(Compare(b[name], now), b[name := now])
  }

  /** `_parse_cpu_line`: any failure is reported as 0.0. */
  function ParseCpuLine(b: Baseline, name: string, line: string): (r: (real, Baseline))
    ensures r.1.Keys == b.Keys
    ensures forall n :: n in b && n != name ==> r.1[n] == b[n]
  {
    var a := Measure(b, name, line);
    (a.outcome.GetOr(0.0), a.baseline)
  }

  /** The line `readline` returns for the i-th line: the empty string once
      the file is exhausted. */
  function LineAt(lines: seq<string>, i: nat): (line: string)
    ensures i < |lines| ==> line == lines[i]
    ensures i >= |lines| ==> line == ""
  {
    if i < |lines| then lines[i] else ""
  }

  /** What `get_cpu_usage` returns, with the collector's new baseline. */
  datatype Usage = Usage(ratios: map<string, real>, baseline: Baseline)

  /** The core names from position `k` on. */
  function NamesFrom(k: nat): set<string>
    requires k <= |CoreNames|
  {
    set j | k <= j < |CoreNames| :: CoreNames[j]
  }

  /** The reads of `get_cpu_usage` from the `k`-th line on: line `k` goes to
      core name `k`, and the baseline it leaves is the one the next line
      sees. */
  function Collect(b: Baseline, lines: seq<string>, k: nat): (u: Usage)
    requires k <= |CoreNames|
    ensures u.ratios.Keys == NamesFrom(k)
    ensures u.baseline.Keys == b.Keys
    ensures forall n :: n in b && n !in NamesFrom(k) ==> u.baseline[n] == b[n]
    decreases |CoreNames| - k
  {
    if k == |CoreNames| then Usage(map[], b)
    else
      var r := ParseCpuLine(b, CoreNames[k], LineAt(lines, k));
      var rest := Collect(r.1, lines, k + 1);
      NamesFromStep(k);
      Usage(rest.ratios[CoreNames[k] := r.0], rest.baseline)
  }

  /** `get_cpu_usage`: five lines, matched in order to the five core names. */
  function GetCpuUsage(b: Baseline, lines: seq<string>): (u: Usage)
    ensures u.ratios.Keys == CoreSet
    ensures u.baseline.Keys == b.Keys
    ensures forall n :: n in b && n !in CoreSet ==> u.baseline[n] == b[n]
  {
    AllNames();
    Collect(b, lines, 0)
  }

  /** The names from position 0 on are all the core names. */
  /** The names from position `k` on are name `k` and those after it. */
  lemma NamesFromStep(k: nat)
    requires k < |CoreNames|
    ensures NamesFrom(k) == NamesFrom(k + 1) + {CoreNames[k]}
  {
  }

  /** The core names are distinct: a name does not come back later on. */
  lemma NameNotLater(k: nat)
    requires k < |CoreNames|
    ensures forall j :: k < j < |CoreNames| ==> CoreNames[j] != CoreNames[k]
    ensures CoreNames[k] !in NamesFrom(k + 1)
  {
  }

  lemma AllNames()
    ensures NamesFrom(0) == CoreSet
  {
    assert CoreNames[0] in NamesFrom(0);
    assert CoreNames[1] in NamesFrom(0);
    assert CoreNames[2] in NamesFrom(0);
    assert CoreNames[3] in NamesFrom(0);
    assert CoreNames[4] in NamesFrom(0);
  }

  // ---------------------------------------------------------------------
  // Properties

  /** Two distinct counters together never exceed the total. */
  lemma {:induction false} SumCoversPair(f: seq<nat>, i: nat, j: nat)
    requires i < j < |f|
    ensures f[i] + f[j] <= Sum(f)
  {
    if i > 0 {
      SumCoversPair(f[1..], i - 1, j - 1);
    } else {
      assert f[j] == f[1..][j - 1];
      SumCoversOne(f[1..], j - 1);
    }
  }

  /** The total is at least every single counter. */
  lemma {:induction false} SumCoversOne(f: seq<nat>, i: nat)
    requires i < |f|
    ensures f[i] <= Sum(f)
  {
    if i > 0 {
      SumCoversOne(f[1..], i - 1);
    }
  }

  /** The text of a `/proc/stat` line: a label and the counters in decimal,
      separated by spaces and ended by a newline. */
  function StatLine(cpuLabel: string, gaps: seq<string>, counters: seq<nat>): string
    requires |counters| <= |gaps|
  {
    Join([cpuLabel] + Shown(counters), gaps) + "\n"
  }

  function Shown(counters: seq<nat>): (ts: seq<string>)
    ensures |ts| == |counters|
    ensures forall i :: 0 <= i < |counters| ==> ts[i] == ShowNat(counters[i])
  {
    seq(|counters|, i requires 0 <= i < |counters| => ShowNat(counters[i]))
  }

  /** The label is dropped and every counter is read back. */
  lemma FieldsOfStatLine(cpuLabel: string, gaps: seq<string>, counters: seq<nat>)
    requires IsWord(cpuLabel) && |counters| <= |gaps|
    requires forall i :: 0 <= i < |gaps| ==> IsGap(gaps[i])
    ensures Fields(StatLine(cpuLabel, gaps, counters)) == Some(counters)
  {
    var ts := [cpuLabel] + Shown(counters);
    forall i | 0 <= i < |ts| ensures IsWord(ts[i]) {
      if i > 0 {
        ParseShowNat(counters[i - 1]);
      }
    }
    SplitJoinThen(ts, gaps, "\n");
    assert Split("\n") == [] by {
      assert "\n"[1..] == [];
    }
    assert Split(StatLine(cpuLabel, gaps, counters)) == ts;
    assert ts[1..] == Shown(counters);
    forall i | 0 <= i < |counters| ensures ParseNat(Shown(counters)[i]) == Some(counters[i]) {
      ParseShowNat(counters[i]);
    }
    ParseAllSome(Shown(counters), counters);
  }

  /** The kernel's aggregate line, `cpu` followed by two spaces and then
      single spaces, reads back its counters. */
  lemma KernelAggregateLine(counters: seq<nat>)
    ensures Fields(StatLine("cpu", ["  "] + SingleSpaces(|counters|), counters)) == Some(counters)
  {
    assert IsWord("cpu");
    var gaps := ["  "] + SingleSpaces(|counters|);
    assert IsGap("  ");
    assert forall i :: 0 <= i < |gaps| ==> IsGap(gaps[i]);
    FieldsOfStatLine("cpu", gaps, counters);
  }

  /** Tokens that each parse to the matching counter parse to the counters. */
  lemma {:induction false} ParseAllSome(tokens: seq<string>, counters: seq<nat>)
    requires |tokens| == |counters|
    requires forall i :: 0 <= i < |tokens| ==> ParseNat(tokens[i]) == Some(counters[i])
    ensures ParseAll(tokens) == Some(counters)
  {
    if |tokens| > 0 {
      ParseAllSome(tokens[1..], counters[1..]);
      assert counters == [counters[0]] + counters[1..];
    }
  }

  /** A well-formed line: the label is dropped, the new counters are
      compared with the core's baseline, and become its baseline. */
  lemma MeasureStatLine(b: Baseline, name: string, cpuLabel: string, gaps: seq<string>, counters: seq<nat>)
    requires IsWord(cpuLabel) && |counters| >= 5 && name in b && |counters| <= |gaps|
    requires forall i :: 0 <= i < |gaps| ==> IsGap(gaps[i])
    ensures var now := Sample(counters[3] + counters[4], Sum(counters));
      Measure(b, name, StatLine(cpuLabel, gaps, counters)) == Attempt(Compare(b[name], now), b[name := now])
  {
    FieldsOfStatLine(cpuLabel, gaps, counters);
    MeasureFields(b, name, StatLine(cpuLabel, gaps, counters), counters);
  }

  /** `Measure` once the counters of the line are known. */
  lemma MeasureFields(b: Baseline, name: string, line: string, counters: seq<nat>)
    requires Fields(line) == Some(counters) && |counters| >= 5 && name in b
    ensures var now := Sample(counters[3] + counters[4], Sum(counters));
      Measure(b, name, line) == Attempt(Compare(b[name], now), b[name := now])
  {
  }

  /** A token that is not a plain decimal number makes the whole line fail
      before anything is stored. */
  lemma NonNumericLeavesBaseline(b: Baseline, name: string, line: string, k: nat)
    requires var tokens := Split(line); 0 < k < |tokens| && ParseNat(tokens[k]).None?
    ensures ParseCpuLine(b, name, line) == (0.0, b)
    ensures Measure(b, name, line).outcome == Failure(NotANumber)
  {
    var tokens := Split(line);
    assert tokens[1..][k - 1] == tokens[k];
  }

  /** Fewer than five counters fail before anything is stored. */
  lemma ShortLineLeavesBaseline(b: Baseline, name: string, line: string, counters: seq<nat>)
    requires Fields(line) == Some(counters) && |counters| < 5
    ensures ParseCpuLine(b, name, line) == (0.0, b)
    ensures Measure(b, name, line).outcome == Failure(TooFewFields)
  {
  }

  /** A missing line (end of file) and a blank line read as 0.0 and store
      nothing. */
  lemma BlankLineLeavesBaseline(b: Baseline, name: string, line: string)
    requires forall i :: 0 <= i < |line| ==> IsSpace(line[i])
    ensures ParseCpuLine(b, name, line) == (0.0, b)
  {
    BlankSplitsToNothing(line);
  }

  lemma {:induction false} BlankSplitsToNothing(s: string)
    requires forall i :: 0 <= i < |s| ==> IsSpace(s[i])
    ensures Split(s) == []
    decreases |s|
  {
    if |s| > 0 {
      BlankSplitsToNothing(s[1..]);
    }
  }

  /** `ParseCpuLine` on a line whose counters are known: the comparison with
      the core's baseline, failures read as 0.0, and the new sample stored. */
  lemma ParseCpuLineFields(b: Baseline, name: string, line: string, counters: seq<nat>)
    requires Fields(line) == Some(counters) && |counters| >= 5 && name in b
    ensures var now := Sample(counters[3] + counters[4], Sum(counters));
      ParseCpuLine(b, name, line) == (Compare(b[name], now).GetOr(0.0), b[name := now])
  {
    MeasureFields(b, name, line, counters);
  }

  /** No elapsed ticks: the result is 0.0, yet the baseline has already been
      overwritten with the new counters. */
  lemma NoElapsedStillStores(b: Baseline, name: string, line: string, counters: seq<nat>)
    requires Fields(line) == Some(counters) && |counters| >= 5 && name in b
    requires Sum(counters) == b[name].total
    ensures ParseCpuLine(b, name, line)
      == (0.0, b[name := Sample(counters[3] + counters[4], Sum(counters))])
  {
    ParseCpuLineFields(b, name, line, counters);
  }

  /** The first reading of a fresh collector is the non-idle share of all
      ticks since boot, not 0.0. */
  lemma FirstReadingSinceBoot(name: string, line: string, counters: seq<nat>)
    requires name in CoreSet && Fields(line) == Some(counters) && |counters| >= 5
    requires Sum(counters) > 0
    ensures var idle := counters[3] + counters[4];
      var r := ParseCpuLine(FreshBaseline(), name, line);
      && r.0 == BusyShare(idle, Sum(counters))
      && r.1[name] == Sample(idle, Sum(counters))
  {
    FromZero(FreshBaseline(), name, line, counters);
  }

  /** Against a zero entry, the reading is the share since boot. */
  lemma FromZero(b: Baseline, name: string, line: string, counters: seq<nat>)
    requires name in b && b[name] == Sample(0, 0)
    requires Fields(line) == Some(counters) && |counters| >= 5 && Sum(counters) > 0
    ensures var idle := counters[3] + counters[4];
      var r := ParseCpuLine(b, name, line);
      && r.0 == BusyShare(idle, Sum(counters))
      && r.1[name] == Sample(idle, Sum(counters))
  {
    var now := Sample(counters[3] + counters[4], Sum(counters));
    assert ParseCpuLine(b, name, line) == (BusyShare(now.idle, now.total), b[name := now]) by {
      ParseCpuLineFields(b, name, line, counters);
      CompareFromZero(now);
    }
  }

  /** Compared with a zero entry, a sample's ratio is its own busy share. */
  lemma CompareFromZero(now: Sample)
    requires now.total > 0
    ensures Compare(Sample(0, 0), now) == Success(BusyShare(now.idle, now.total))
  {
    assert now.total - 0 == now.total && now.idle - 0 == now.idle;
  }

  /** Every value the collector reports for a reading whose idle time
      advanced, but by no more than the total, lies in [0, 1]. */
  lemma ReportedRatioBounded(b: Baseline, name: string, line: string, counters: seq<nat>)
    requires Fields(line) == Some(counters) && |counters| >= 5 && name in b
    requires b[name].idle <= counters[3] + counters[4]
    requires (counters[3] + counters[4]) - b[name].idle <= Sum(counters) - b[name].total
    ensures 0.0 <= ParseCpuLine(b, name, line).0 <= 1.0
  {
    ParseCpuLineFields(b, name, line, counters);
  }

  /** The worked example: between two readings of a core, idle time
      advancing by 10 ticks while the total advances by 20 reads as 0.5. */
  lemma HalfBusyExample(b: Baseline, name: string, line: string, counters: seq<nat>)
    requires Fields(line) == Some(counters) && |counters| >= 5 && name in b
    requires Sum(counters) == b[name].total + 20
    requires counters[3] + counters[4] == b[name].idle + 10
    ensures ParseCpuLine(b, name, line).0 == 0.5
  {
    var now := Sample(counters[3] + counters[4], Sum(counters));
    assert ParseCpuLine(b, name, line).0 == Compare(b[name], now).GetOr(0.0) by {
      ParseCpuLineFields(b, name, line, counters);
    }
    assert Compare(b[name], now) == Success(BusyShare(10, 20)) by {
      CompareDeltas(b[name], now, 10, 20);
    }
    assert BusyShare(10, 20) == 0.5;
  }

  /** A reported ratio times the elapsed ticks is the number of ticks that
      were not idle. */
  lemma CompareScales(prev: Sample, now: Sample)
    requires Compare(prev, now).Success?
    ensures Compare(prev, now).value * (now.total - prev.total) as real
      == ((now.total - prev.total) - (now.idle - prev.idle)) as real
  {
    BusyShareScales(now.idle - prev.idle, now.total - prev.total);
  }

  /** With ticks elapsed, the ratio is the busy share of the differences. */
  lemma CompareDeltas(prev: Sample, now: Sample, deltaIdle: int, deltaTotal: int)
    requires now.idle - prev.idle == deltaIdle && now.total - prev.total == deltaTotal != 0
    ensures Compare(prev, now) == Success(BusyShare(deltaIdle, deltaTotal))
  {
  }

  /** A core's ratio, and what is stored for it, depend on the baseline only
      through that core's own entry. */
  lemma MeasureIsLocal(b1: Baseline, b2: Baseline, name: string, line: string)
    requires name in b1 <==> name in b2
    requires name in b1 ==> b1[name] == b2[name]
    ensures Measure(b1, name, line).outcome == Measure(b2, name, line).outcome
    ensures name in b1 ==> Measure(b1, name, line).baseline[name] == Measure(b2, name, line).baseline[name]
  {
  }

  /** Core `n` reads in the report `u` what measuring `line` alone against
      `b` gives it: the same ratio, and the same stored entry. */
  predicate ReadsAlone(u: Usage, b: Baseline, n: string, line: string)
  {
    var alone := ParseCpuLine(b, n, line);
    && n in u.ratios && u.ratios[n] == alone.0
    && (n in b ==> n in u.baseline && u.baseline[n] == alone.1[n])
  }

  /** Threading the baseline through the lines is the same as measuring
      each core alone against the baseline the reads started from: each line
      touches only its own core. */
  lemma {:induction false} CollectIsPerCore(b: Baseline, lines: seq<string>, k: nat, j: nat)
    requires k <= j < |CoreNames|
    ensures ReadsAlone(Collect(b, lines, k), b, CoreNames[j], LineAt(lines, j))
    decreases |CoreNames| - k
  {
    if j == k {
      CollectHead(b, lines, k);
    } else {
      var r := ParseCpuLine(b, CoreNames[k], LineAt(lines, k));
      CollectIsPerCore(r.1, lines, k + 1, j);
      CollectLater(b, lines, k, j);
    }
  }

  /** The step of `CollectIsPerCore` for a core read after core `k`: what
      the rest of the fold gives it against the baseline core `k` left is
      what it gets against the baseline before. */
  lemma CollectLater(b: Baseline, lines: seq<string>, k: nat, j: nat)
    requires k < j < |CoreNames|
    requires var r := ParseCpuLine(b, CoreNames[k], LineAt(lines, k));
      ReadsAlone(Collect(r.1, lines, k + 1), r.1, CoreNames[j], LineAt(lines, j))
    ensures ReadsAlone(Collect(b, lines, k), b, CoreNames[j], LineAt(lines, j))
  {
    var n, line := CoreNames[j], LineAt(lines, j);
    var r := ParseCpuLine(b, CoreNames[k], LineAt(lines, k));
    var u, rest := Collect(b, lines, k), Collect(r.1, lines, k + 1);
    var before, alone := ParseCpuLine(r.1, n, line), ParseCpuLine(b, n, line);
    assert u.ratios[n] == rest.ratios[n] && u.baseline == rest.baseline by {
      CollectTail(b, lines, k, j);
    }
    assert before.0 == alone.0 && (n in b ==> before.1[n] == alone.1[n]) by {
      NameNotLater(k);
      ParseCpuLineIsLocal(r.1, b, n, line);
    }
  }

  /** `MeasureIsLocal` for what the collector reports and keeps. */
  lemma ParseCpuLineIsLocal(b1: Baseline, b2: Baseline, name: string, line: string)
    requires name in b1 <==> name in b2
    requires name in b1 ==> b1[name] == b2[name]
    ensures ParseCpuLine(b1, name, line).0 == ParseCpuLine(b2, name, line).0
    ensures name in b1 ==> ParseCpuLine(b1, name, line).1[name] == ParseCpuLine(b2, name, line).1[name]
  {
    MeasureIsLocal(b1, b2, name, line);
  }

  /** One step of the fold: line `k` is measured, then the rest is read
      against the baseline it left. */
  lemma CollectStep(b: Baseline, lines: seq<string>, k: nat)
    requires k < |CoreNames|
    ensures var r := ParseCpuLine(b, CoreNames[k], LineAt(lines, k));
      var rest := Collect(r.1, lines, k + 1);
      Collect(b, lines, k) == Usage(rest.ratios[CoreNames[k] := r.0], rest.baseline)
  {
  }

  /** The core read first reports its own line's ratio and keeps what that
      line stored. */
  lemma CollectHead(b: Baseline, lines: seq<string>, k: nat)
    requires k < |CoreNames|
    ensures ReadsAlone(Collect(b, lines, k), b, CoreNames[k], LineAt(lines, k))
  {
    var r := ParseCpuLine(b, CoreNames[k], LineAt(lines, k));
    var u, rest := Collect(b, lines, k), Collect(r.1, lines, k + 1);
    assert u == Usage(rest.ratios[CoreNames[k] := r.0], rest.baseline) by {
      CollectStep(b, lines, k);
    }
    NameNotLater(k);
  }

  /** A core read later reports what the rest of the fold gives it. */
  lemma CollectTail(b: Baseline, lines: seq<string>, k: nat, j: nat)
    requires k < j < |CoreNames|
    ensures var r := ParseCpuLine(b, CoreNames[k], LineAt(lines, k));
      var u := Collect(b, lines, k);
      var rest := Collect(r.1, lines, k + 1);
      && u.ratios[CoreNames[j]] == rest.ratios[CoreNames[j]]
      && u.baseline == rest.baseline
  {
    var r := ParseCpuLine(b, CoreNames[k], LineAt(lines, k));
    var u, rest := Collect(b, lines, k), Collect(r.1, lines, k + 1);
    assert u == Usage(rest.ratios[CoreNames[k] := r.0], rest.baseline) by {
      CollectStep(b, lines, k);
    }
    NameNotLater(k);
  }

  /** The five reported ratios are each core's own reading against the
      collector's baseline, and each core's new baseline is what its own line
      stored. */
  lemma UsageIsPerCore(b: Baseline, lines: seq<string>, i: nat)
    requires i < |CoreNames|
    ensures var u := GetCpuUsage(b, lines);
      var alone := ParseCpuLine(b, CoreNames[i], LineAt(lines, i));
      && u.ratios[CoreNames[i]] == alone.0
      && (CoreNames[i] in b ==> u.baseline[CoreNames[i]] == alone.1[CoreNames[i]])
  {
    CollectIsPerCore(b, lines, 0, i);
  }

  /** When `/proc/stat` ends early, the cores whose lines are missing report
      0.0 and keep their baseline. */
  lemma MissingLinesReadZero(b: Baseline, lines: seq<string>, i: nat)
    requires |lines| <= i < |CoreNames|
    ensures GetCpuUsage(b, lines).ratios[CoreNames[i]] == 0.0
    ensures CoreNames[i] in b ==> GetCpuUsage(b, lines).baseline[CoreNames[i]] == b[CoreNames[i]]
  {
    UsageIsPerCore(b, lines, i);
    BlankLineLeavesBaseline(b, CoreNames[i], "");
  }

  /** Keys outside the five cores are never touched. */
  lemma UsageKeepsOtherKeys(b: Baseline, lines: seq<string>, n: string)
    requires n in b && n !in CoreSet
    ensures GetCpuUsage(b, lines).baseline[n] == b[n]
  {
  }
}
