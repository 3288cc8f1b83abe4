/**
 Rates from cumulative counters: a sampler keeps the counters and the time of the last sample
 that had any, and reports whole units per second since then. Times are nanoseconds, 0 is the
 zero time; quotients are exact.
 */
module Rates {
  import opened Outcomes

  const SECOND := 1_000_000_000

  /** Two counters that are read together, such as bytes received and sent. */
  datatype Pair = Pair(a: nat, b: nat)

  /** What the network collector, or the disk collector, delivers: bytes and operations. */
  datatype Reading = Reading(bytes: Pair, ops: Pair)

  /** The stored baseline. */
  datatype Baseline = Baseline(bytes: Pair, ops: Pair, at: int)

  const NO_BASELINE := Baseline(Pair(0, 0), Pair(0, 0), 0)

  /** Whole units per second: what is left out is less than one unit for every second. */
  function PerSecond(grown: nat, elapsed: int): (r: nat)
    requires elapsed > 0
    ensures r * elapsed <= grown * SECOND < r * elapsed + elapsed
  {
    grown * SECOND / elapsed
  }

  /** `calculateRate`, truncated as a conversion to an integer truncates. */
  function Rate(prev: Pair, cur: Pair, prevAt: int, now: int): (r: Pair) {
    if prevAt == 0 || now < prevAt || cur.a < prev.a || cur.b < prev.b || now == prevAt then Pair(0, 0)
    else Pair(PerSecond(cur.a - prev.a, now - prevAt), PerSecond(cur.b - prev.b, now - prevAt))
  }

  class Sampler {
    var prevBytes: Pair
    var prevOps: Pair
    var prevAt: int

    function State(): Baseline
      reads this
    {
      Baseline(prevBytes, prevOps, prevAt)
    }

    constructor ()
      ensures State() == NO_BASELINE
    {
      prevBytes, prevOps, prevAt := Pair(0, 0), Pair(0, 0), 0;
    }

    /** One collector's part of `Sample`; `None` is a sample in which the collector had nothing. */
    method Sample(reading: Option<Reading>, now: int) returns (bytes: Pair, ops: Pair)
      modifies this
      ensures State() == AfterSample(old(State()), reading, now)
      ensures reading.None? ==> bytes == ops == Pair(0, 0)
      ensures reading.Some? ==> bytes == Rate(old(prevBytes), reading.value.bytes, old(prevAt), now)
                                && ops == Rate(old(prevOps), reading.value.ops, old(prevAt), now)
    {
      bytes, ops := Pair(0, 0), Pair(0, 0);
      if reading.Some? {
        bytes := Rate(prevBytes, reading.value.bytes, prevAt, now);
        prevBytes := reading.value.bytes;
        ops := Rate(prevOps, reading.value.ops, prevAt, now);
        prevOps := reading.value.ops;
        prevAt := now;
      }
    }
  }

  function AfterSample(s: Baseline, reading: Option<Reading>, now: int): (s': Baseline) {
    match reading
    case None => s
    case Some(r) => Baseline(r.bytes, r.ops, now)
  }

  // ---- Runs ----

  datatype Sample = Sample(reading: Option<Reading>, now: int)

  function After(samples: seq<Sample>): (s: Baseline) {
    if samples == [] then NO_BASELINE
    else AfterSample(After(samples[..|samples| - 1]), samples[|samples| - 1].reading, samples[|samples| - 1].now)
  }

  /** The baseline is that of sample `i`, and no later sample had a reading. */
  ghost predicate TakenFrom(s: Baseline, samples: seq<Sample>, i: int) {
    && 0 <= i < |samples| && samples[i].reading.Some?
    && s == Baseline(samples[i].reading.value.bytes, samples[i].reading.value.ops, samples[i].now)
    && forall j :: i < j < |samples| ==> samples[j].reading.None?
  }

  /** Counters and time of the baseline always come from one and the same sample, the last that had any. */
  lemma {:induction false} BaselineIsOneSample(samples: seq<Sample>)
    ensures (After(samples) == NO_BASELINE && forall i :: 0 <= i < |samples| ==> samples[i].reading.None?)
         || exists i :: TakenFrom(After(samples), samples, i)
  {
    if samples != [] {
      var before, last := samples[..|samples| - 1], samples[|samples| - 1];
      BaselineIsOneSample(before);
      if last.reading.Some? {
        assert TakenFrom(After(samples), samples, |samples| - 1);
      } else if i :| TakenFrom(After(before), before, i) {
        assert TakenFrom(After(samples), samples, i);
      }
    }
  }

  /** Times are positive and increase. */
  ghost predicate Increasing(samples: seq<Sample>) {
    && (forall i :: 0 <= i < |samples| ==> samples[i].now > 0)
    && (forall i, j :: 0 <= i < j < |samples| ==> samples[i].now < samples[j].now)
  }

  /** No counter is ever lower than in an earlier sample. */
  ghost predicate ResetFree(samples: seq<Sample>) {
    forall i, j :: 0 <= i < j < |samples| && samples[i].reading.Some? && samples[j].reading.Some? ==>
      NotBelow(samples[i].reading.value, samples[j].reading.value)
  }

  predicate NotBelow(r: Reading, s: Reading) {
    r.bytes.a <= s.bytes.a && r.bytes.b <= s.bytes.b && r.ops.a <= s.ops.a && r.ops.b <= s.ops.b
  }

  /** The four counters, seen one at a time. */
  datatype Which = BytesA | BytesB | OpsA | OpsB

  function CounterOf(bytes: Pair, ops: Pair, w: Which): (n: nat) {
    match w
    case BytesA => bytes.a
    case BytesB => bytes.b
    case OpsA => ops.a
    case OpsB => ops.b
  }

  /** The rate reported with the last sample of a run. */
  function LastRate(samples: seq<Sample>, w: Which): (r: nat)
    requires samples != []
  {
    var before, last := After(samples[..|samples| - 1]), samples[|samples| - 1];
    match last.reading
    case None => 0
    case Some(r) =>
      CounterOf(Rate(before.bytes, r.bytes, before.at, last.now), Rate(before.ops, r.ops, before.at, last.now), w)
  }

  /** Units accounted for by the rates: each rate times the time it covers, in unit-nanoseconds. */
  function Accounted(samples: seq<Sample>, w: Which): (n: int) {
    if samples == [] then 0
    else
      var before, last := After(samples[..|samples| - 1]), samples[|samples| - 1];
      Accounted(samples[..|samples| - 1], w)
      + (if last.reading.Some? && before.at != 0 then LastRate(samples, w) * (last.now - before.at) else 0)
  }

  /** The first sample with a reading, from which everything is measured. */
  function First(samples: seq<Sample>): (s: Baseline) {
    if samples == [] then NO_BASELINE
    else
      var before := First(samples[..|samples| - 1]);
      if before.at != 0 then before
      else AfterSample(NO_BASELINE, samples[|samples| - 1].reading, samples[|samples| - 1].now)
  }

  function Growth(samples: seq<Sample>, w: Which): (n: int) {
    CounterOf(After(samples).bytes, After(samples).ops, w) - CounterOf(First(samples).bytes, First(samples).ops, w)
  }

  function Elapsed(samples: seq<Sample>): (n: int) {
    After(samples).at - First(samples).at
  }

  /** Before a further sample of an increasing, reset-free run: earlier time, lower or equal counters. */
  lemma BaselineIsEarlier(samples: seq<Sample>)
    requires samples != [] && Increasing(samples) && ResetFree(samples)
    ensures var s, last := After(samples[..|samples| - 1]), samples[|samples| - 1];
      && s.at < last.now
      && (last.reading.Some? && s.at != 0 ==> NotBelow(Reading(s.bytes, s.ops), last.reading.value))
      && (s.at == 0 ==> s == NO_BASELINE)
  {
    var before := samples[..|samples| - 1];
    BaselineIsOneSample(before);
    if i :| TakenFrom(After(before), before, i) {
      assert before[i] == samples[i];
    }
  }

  lemma {:induction false} FirstAndLast(samples: seq<Sample>)
    requires Increasing(samples)
    ensures First(samples).at == 0 <==> After(samples).at == 0
    ensures First(samples).at == 0 ==> First(samples) == After(samples) == NO_BASELINE
  {
    if samples != [] { FirstAndLast(samples[..|samples| - 1]); }
  }

  lemma LastRateBounds(samples: seq<Sample>, w: Which)
    requires samples != [] && Increasing(samples) && ResetFree(samples)
    requires samples[|samples| - 1].reading.Some? && After(samples[..|samples| - 1]).at != 0
    ensures var s, last := After(samples[..|samples| - 1]), samples[|samples| - 1];
      var dt, grown := last.now - s.at,
        CounterOf(last.reading.value.bytes, last.reading.value.ops, w) - CounterOf(s.bytes, s.ops, w);
      LastRate(samples, w) * dt <= grown * SECOND < LastRate(samples, w) * dt + dt
  {
    var s, last := After(samples[..|samples| - 1]), samples[|samples| - 1];
    BaselineIsEarlier(samples);
  }

  /**
   Conservation: over any reset-free run with increasing times, whichever samples lacked a reading,
   the reported rates account for no more than the counter grew, and for less than one unit per
   second short of it.
   */
  lemma {:induction false} RatesConserveGrowth(samples: seq<Sample>, w: Which)
    requires Increasing(samples) && ResetFree(samples)
    ensures Accounted(samples, w) <= Growth(samples, w) * SECOND <= Accounted(samples, w) + Elapsed(samples)
    ensures Elapsed(samples) > 0 ==> Growth(samples, w) * SECOND < Accounted(samples, w) + Elapsed(samples)
    ensures Elapsed(samples) >= 0
  {
    if samples != [] {
      var before := samples[..|samples| - 1];
      RatesConserveGrowth(before, w);
      FirstAndLast(before);
      BaselineIsEarlier(samples);
      if samples[|samples| - 1].reading.Some? && After(before).at != 0 {
        LastRateBounds(samples, w);
      }
    }
  }
}
