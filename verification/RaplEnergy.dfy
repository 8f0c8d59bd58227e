/** Unwrapping of CPU energy counters with a history per device (nix/modules/telegraf/intel_rapl/intel_rapl.py). */
module RaplEnergy {
  import opened Division

  type Result = map<string, int>

  const ENERGY := "energy_uj"
  const RANGE := "max_energy_range_uj"
  const CUMULATIVE := "energy_uj_cumulative"
  const LIMIT := 0x7fff_ffff_ffff_ffff

  function Get(m: Result, key: string): int {
    if key in m then m[key] else 0
  }

  /** The result of one sample, given the previous result of the same device. */
  function Unwrapped(last: Result, reading: Result): Result {
    if ENERGY !in reading then reading
    else
      var lastEnergy := Get(last, ENERGY);
      var energy := reading[ENERGY] + if reading[ENERGY] < lastEnergy then Get(reading, RANGE) else 0;
      var total := Get(last, CUMULATIVE) + (energy - lastEnergy);
      reading[CUMULATIVE := if total > LIMIT then 0 else total]
  }

  /** What a sample comes to, key by key. Without an energy counter it stays as it was read; with one, only the cumulative
    * value is added: it moves by the counter's step, with one range more when the counter fell, and beyond 2^63 - 1 it
    * starts again at zero. A counter that falls without a known range takes the cumulative value down with it. */
  lemma SampleMeans(last: Result, reading: Result, key: string)
    ensures var r := Unwrapped(last, reading);
      && ("energy_uj" !in reading ==> r == reading)
      && (key != "energy_uj_cumulative" ==> (key in r <==> key in reading) && (key in r ==> r[key] == reading[key]))
      && ("energy_uj" in reading ==>
            var before := if "energy_uj" in last then last["energy_uj"] else 0;
            var base := if "energy_uj_cumulative" in last then last["energy_uj_cumulative"] else 0;
            var range := if "max_energy_range_uj" in reading then reading["max_energy_range_uj"] else 0;
            var step := reading["energy_uj"] - before + if reading["energy_uj"] < before then range else 0;
            && "energy_uj_cumulative" in r
            && (base + step <= 9_223_372_036_854_775_807 ==> r["energy_uj_cumulative"] == base + step)
            && (base + step > 9_223_372_036_854_775_807 ==> r["energy_uj_cumulative"] == 0))
  {
  }

  function Latest(readings: seq<Result>): Result {
    if readings == [] then map[] else Unwrapped(Latest(readings[..|readings| - 1]), readings[|readings| - 1])
  }

  // ----- what the cumulative value means -----

  /** Samples of a counter that wraps at `range`, each with a reading of the true energy. */
  ghost predicate Samples(readings: seq<Result>, energy: seq<nat>, range: nat) {
    && range > 0 && |readings| == |energy|
    && forall i :: 0 <= i < |readings| ==>
         ENERGY in readings[i] && readings[i][ENERGY] == energy[i] % range && Get(readings[i], RANGE) == range
  }

  ghost predicate GrowsSlowly(energy: seq<nat>, range: nat) {
    forall i :: 0 < i < |energy| ==> energy[i - 1] <= energy[i] < energy[i - 1] + range
  }

  /** The step added for one sample: the true growth modulo the range. */
  function Growth(before: nat, now: nat, range: nat): int
    requires range > 0
  {
    now % range - before % range + if now % range < before % range then range else 0
  }

  lemma {:induction false} GrowthIsModular(before: nat, now: nat, range: nat)
    requires range > 0 && before <= now
    ensures Growth(before, now, range) == (now - before) % range
  {
    var q, q' := before / range, now / range;
    var r, r' := before % range, now % range;
    assert before == q * range + r && now == q' * range + r';
    var k := q' - q - if r' < r then 1 else 0;
    var g := Growth(before, now, range);
    assert (q' - q) * range == q' * range - q * range;
    assert k * range == (q' - q) * range - if r' < r then range else 0;
    assert now - before == k * range + g;
    DivisionUnique(now - before, range, k, g);
    assert now - before == ((now - before) / range) * range + (now - before) % range;
  }

  /** One step is right exactly when the counter has not gone all the way round. */
  lemma {:induction false} GrowthExactIff(before: nat, now: nat, range: nat)
    requires range > 0 && before <= now
    ensures Growth(before, now, range) == now - before <==> now - before < range
  {
    GrowthIsModular(before, now, range);
    if now - before < range {
      DivisionUnique(now - before, range, 0, now - before);
      assert now - before == ((now - before) / range) * range + (now - before) % range;
    }
  }

  /** The cumulative value after the first `n` samples. */
  function Total(readings: seq<Result>, n: nat): int
    requires n <= |readings|
  {
    Get(Latest(readings[..n]), CUMULATIVE)
  }

  lemma StepsBy(readings: seq<Result>, energy: seq<nat>, range: nat, i: nat)
    requires Samples(readings, energy, range) && i < |readings|
    ensures Get(Latest(readings[..i + 1]), ENERGY) == energy[i] % range
    ensures var step := if i == 0 then energy[0] % range else Growth(energy[i - 1], energy[i], range);
      var total := Total(readings, i) + step;
      Total(readings, i + 1) == if total > LIMIT then 0 else total
    decreases i
  {
    assert readings[..i + 1][..i] == readings[..i];
    if i > 0 {
      StepsBy(readings, energy, range, i - 1);
    }
  }

  /** The true energy used from one sample to another. */
  ghost function Used(energy: seq<nat>, first: nat, last: nat): int
    requires first < |energy| && last < |energy|
  {
    var a: int, b: int := energy[first], energy[last];
    b - a
  }

  /** No sample after number `m` up to number `n` was reset at 2^63. */
  ghost predicate NoReset(readings: seq<Result>, energy: seq<nat>, range: nat, m: nat, n: nat)
    requires Samples(readings, energy, range) && 1 <= m <= n <= |readings|
  {
    forall i :: m <= i < n ==> Total(readings, i) + Growth(energy[i - 1], energy[i], range) <= LIMIT
  }

  /** Between resets the cumulative value moves by exactly the energy used. */
  lemma {:induction false} CumulativeIsEnergyUsed(readings: seq<Result>, energy: seq<nat>, range: nat, m: nat, n: nat)
    requires Samples(readings, energy, range) && GrowsSlowly(energy, range)
    requires 1 <= m <= n <= |readings| && NoReset(readings, energy, range, m, n)
    ensures Total(readings, n) == Total(readings, m) + Used(energy, m - 1, n - 1)
  {
    hide Latest, Growth, Total;
    if m < n {
      CumulativeIsEnergyUsed(readings, energy, range, m, n - 1);
      StepsBy(readings, energy, range, n - 1);
      GrowthExactIff(energy[n - 2], energy[n - 1], range);
      assert Total(readings, n - 1) + Growth(energy[n - 2], energy[n - 1], range) <= LIMIT;
    }
  }

  /** From the first sample on, and until the 2^63 reset: the first reading plus the energy used since. */
  lemma {:induction false} CumulativeFromStart(readings: seq<Result>, energy: seq<nat>, range: nat, n: nat)
    requires Samples(readings, energy, range) && GrowsSlowly(energy, range) && 1 <= n <= |readings|
    requires energy[0] % range + Used(energy, 0, n - 1) <= LIMIT
    ensures Total(readings, n) == energy[0] % range + Used(energy, 0, n - 1)
    decreases n
  {
    StepsBy(readings, energy, range, n - 1);
    if n == 1 {
      assert readings[..0] == [];
    } else {
      CumulativeFromStart(readings, energy, range, n - 1);
      GrowthExactIff(energy[n - 2], energy[n - 1], range);
    }
  }

  /** A sample without the energy counter forgets everything: the next cumulative value is that reading itself. */
  lemma {:induction false} GapRestarts(readings: seq<Result>, n: nat)
    requires 0 < n < |readings| && ENERGY !in readings[n - 1] && CUMULATIVE !in readings[n - 1]
    requires ENERGY in readings[n] && 0 <= readings[n][ENERGY] <= LIMIT
    ensures Total(readings, n + 1) == readings[n][ENERGY]
  {
    assert readings[..n + 1][..n] == readings[..n];
    assert Latest(readings[..n]) == readings[n - 1];
    assert Latest(readings[..n + 1]) == Unwrapped(readings[n - 1], readings[n]);
  }

  // ----- several devices -----

  datatype Sample = Sample(device: string, reading: Result)

  type History = map<string, Result>

  function LastOf(h: History, device: string): Result {
    if device in h then h[device] else map[]
  }

  function AfterSample(h: History, s: Sample): History {
    h[s.device := Unwrapped(LastOf(h, s.device), s.reading)]
  }

  function AfterSamples(h: History, ss: seq<Sample>): History {
    if ss == [] then h else AfterSample(AfterSamples(h, ss[..|ss| - 1]), ss[|ss| - 1])
  }

  function ReadingsOf(ss: seq<Sample>, device: string): seq<Result> {
    if ss == [] then []
    else
      var last := ss[|ss| - 1];
      ReadingsOf(ss[..|ss| - 1], device) + if last.device == device then [last.reading] else []
  }

  /** Devices do not disturb one another, however their samples are interleaved. */
  lemma {:induction false} DevicesIndependent(ss: seq<Sample>, device: string)
    ensures LastOf(AfterSamples(map[], ss), device) == Latest(ReadingsOf(ss, device))
  {
    if ss != [] {
      var front, last := ss[..|ss| - 1], ss[|ss| - 1];
      DevicesIndependent(front, device);
      if last.device == device {
        assert ReadingsOf(ss, device)[..|ReadingsOf(front, device)|] == ReadingsOf(front, device);
      } else {
        assert ReadingsOf(ss, device) == ReadingsOf(front, device);
      }
    }
  }

  /** The reader, with its dictionary of last results and everything it has sampled so far. */
  class EnergyReader {
    var lastResultByDevice: History
    ghost var sampled: seq<Sample>

    ghost predicate Valid()
      reads this
    {
      lastResultByDevice == AfterSamples(map[], sampled)
    }

    constructor ()
      ensures Valid() && sampled == []
    {
      lastResultByDevice := map[];
      sampled := [];
    }

    /** The body of the loop over devices. */
    method TakeSample(s: Sample) returns (result: Result)
      modifies this`lastResultByDevice
      ensures lastResultByDevice == AfterSample(old(lastResultByDevice), s)
      ensures result == LastOf(lastResultByDevice, s.device)
    {
      result := s.reading;
      var lastResult := LastOf(lastResultByDevice, s.device);
      if ENERGY in result {
        var energy := result[ENERGY];
        var lastEnergy := Get(lastResult, ENERGY);
        if energy < lastEnergy {
          energy := energy + Get(result, RANGE);
        }
        result := result[CUMULATIVE := Get(lastResult, CUMULATIVE) + (energy - lastEnergy)];
        if result[CUMULATIVE] > LIMIT {
          result := result[CUMULATIVE := 0];
          assert result == s.reading[CUMULATIVE := 0];
        }
      }
      lastResultByDevice := lastResultByDevice[s.device := result];
    }

    /** One poll: every listed device is read once. */
    method Poll(batch: seq<Sample>) returns (results: seq<Result>)
      requires Valid()
      modifies this
      ensures Valid() && sampled == old(sampled) + batch
      ensures |results| == |batch|
      ensures forall i :: 0 <= i < |batch| ==>
        results[i] == Latest(ReadingsOf(old(sampled) + batch[..i + 1], batch[i].device))
    {
      hide AfterSample, Latest, ReadingsOf, LastOf;
      results := [];
      for i := 0 to |batch|
        invariant Valid() && sampled == old(sampled) + batch[..i] && |results| == i
        invariant forall k :: 0 <= k < i ==>
          results[k] == Latest(ReadingsOf(old(sampled) + batch[..k + 1], batch[k].device))
      {
        var result := TakeSample(batch[i]);
        results := results + [result];
        ghost var before := sampled;
        sampled := sampled + [batch[i]];
        assert sampled[..|sampled| - 1] == before;
        assert sampled == old(sampled) + batch[..i + 1];
        DevicesIndependent(sampled, batch[i].device);
      }
      assert batch[..|batch|] == batch;
    }
  }
}
