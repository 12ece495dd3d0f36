/**
 * The discrete skeleton of `get_tumble_schedule`
 * (jmclient/jmclient/schedule.py): one run of transactions per mixdepth,
 * each run ending in a sweep; the last mixdepths' final transactions sent
 * to the external destinations; and the last mixdepth cut down to its one
 * external sweep. The random draws are inputs.
 */
module TumbleGen {
  import opened Wrappers
  import opened Schedules
  import opened Tweaks

  /** The options `get_tumble_schedule` reads apart from the parameters of the random draws. */
  datatype TumbleOptions = TumbleOptions(
    mixdepthsrc: int,
    mixdepthcount: int,
    addrcount: int,
    mintxcount: int,
    minmakercount: int)

  /**
   * The random draws for one mixdepth: `get_amount_fractions`, the waits of
   * `rand_exp_array` already rounded to two places, and the raw
   * `rand_norm_array` counterparty counts.
   */
  datatype MixdepthDraws = MixdepthDraws(fractions: seq<Decimal>, waits: seq<Decimal>, makercounts: seq<real>)

  const NotSupported := "Non-zero mixdepth source not supported; restart the tumbler with --restart instead"

  /** Python's `int(x)` on a float: truncation toward zero. */
  function Trunc(x: real): (r: int)
    ensures 0.0 <= x ==> r as real <= x < r as real + 1.0
    ensures x < 0.0 ==> r as real - 1.0 < x <= r as real
  {
    if x >= 0.0 then x.Floor else -((-x).Floor)
  }

  /** `lower_bounded_int`: each draw truncated, and raised to `lowerbound` if below it. */
  function LowerBoundedInt(l: seq<real>, lowerbound: int): (r: seq<int>)
    ensures |r| == |l|
    ensures forall i :: 0 <= i < |l| ==> r[i] >= lowerbound
    ensures forall i :: 0 <= i < |l| && Trunc(l[i]) >= lowerbound ==> r[i] == Trunc(l[i])
    ensures forall i :: 0 <= i < |l| && Trunc(l[i]) < lowerbound ==> r[i] == lowerbound
    decreases |l|
  {
    if l == [] then []
    else
      var n := Trunc(l[0]);
      [if n >= lowerbound then n else lowerbound] + LowerBoundedInt(l[1..], lowerbound)
  }

  /** The number of transactions of mixdepth `m`: a mixdepth that sends to an address, other than the last, gets at least two. */
  function TxCount(o: TumbleOptions, txcounts: seq<int>, m: int): int
    requires 0 <= m < |txcounts|
  {
    if o.mixdepthcount - o.addrcount <= m < o.mixdepthcount - 1 && txcounts[m] == 1 then 2 else txcounts[m]
  }

  /** `['addrask'] * n`: empty when `n` is not positive. */
  function Repeat(x: string, n: int): (r: seq<string>)
    ensures |r| == (if n > 0 then n else 0)
    ensures forall i :: 0 <= i < |r| ==> r[i] == x
    decreases n
  {
    if n <= 0 then [] else [x] + Repeat(x, n - 1)
  }

  /** `['addrask'] * (addrcount - len(destaddrs)) + destaddrs`. */
  function ExternalDestinations(addrcount: int, destaddrs: seq<string>): (r: seq<string>)
    ensures |r| == Max(addrcount, |destaddrs|)
    ensures r[|r| - |destaddrs|..] == destaddrs
    ensures forall i :: 0 <= i < |r| - |destaddrs| ==> r[i] == "addrask"
  {
    var r := Repeat("addrask", addrcount - |destaddrs|) + destaddrs;
    assert r[|r| - |destaddrs|..] == destaddrs;
    r
  }

  // ---------------------------------------------------------------- shape of a transaction list

  /** Mixdepths never decrease along the list. */
  predicate Sorted(t: Schedule) {
    forall i, j :: 0 <= i < j < |t| ==> t[i].mixdepth <= t[j].mixdepth
  }

  /** Entry `k` is the final transaction of its mixdepth's run. */
  predicate LastOfRun(t: Schedule, k: int)
    requires 0 <= k < |t|
  {
    k == |t| - 1 || t[k + 1].mixdepth != t[k].mixdepth
  }

  /** Every run ends in a sweep. */
  predicate SweepEnds(t: Schedule) {
    forall k :: 0 <= k < |t| && LastOfRun(t, k) ==> t[k].amount == Sats(0)
  }

  /** Fields every generated transaction has: not yet done, enough makers, a mixdepth in range. */
  predicate Fresh(t: Schedule, o: TumbleOptions) {
    forall k :: 0 <= k < |t| ==>
      && t[k].completed == Num(0)
      && t[k].makercount >= o.minmakercount
      && 0 <= t[k].mixdepth < o.mixdepthcount
  }

  function Count(t: Schedule, m: int): (r: nat)
    ensures r <= |t|
    decreases |t|
  {
    if t == [] then 0 else (if t[0].mixdepth == m then 1 else 0) + Count(t[1..], m)
  }

  lemma {:induction false} CountConcat(a: Schedule, b: Schedule, m: int)
    ensures Count(a + b, m) == Count(a, m) + Count(b, m)
    decreases |a|
  {
    if a != [] {
      assert (a + b)[1..] == a[1..] + b;
      CountConcat(a[1..], b, m);
    } else {
      assert a + b == b;
    }
  }

  lemma {:induction false} CountSameMixdepths(a: Schedule, b: Schedule, m: int)
    requires |a| == |b| && forall k :: 0 <= k < |a| ==> a[k].mixdepth == b[k].mixdepth
    ensures Count(a, m) == Count(b, m)
    decreases |a|
  {
    if a != [] {
      CountSameMixdepths(a[1..], b[1..], m);
    }
  }

  lemma {:induction false} CountUniform(b: Schedule, mb: int, m: int)
    requires forall k :: 0 <= k < |b| ==> b[k].mixdepth == mb
    ensures Count(b, m) == if mb == m then |b| else 0
    decreases |b|
  {
    if b != [] {
      CountUniform(b[1..], mb, m);
    }
  }

  // ---------------------------------------------------------------- one mixdepth's run

  /** The `zip` loop: one `INTERNAL` transaction per draw, appended in order. */
  method AppendRun(t: Schedule, srcmixdepth: int, d: MixdepthDraws, makercounts: seq<int>, n: nat)
    returns (r: Schedule)
    requires |d.fractions| == n && |d.waits| == n && |makercounts| == n
    ensures |r| == |t| + n && forall k :: 0 <= k < |t| ==> r[k] == t[k]
    ensures forall k :: |t| <= k < |r| ==>
      r[k] == Entry(srcmixdepth, Frac(d.fractions[k - |t|]), makercounts[k - |t|], "INTERNAL", d.waits[k - |t|], Num(0))
  {
    r := t;
    for i := 0 to n
      invariant |r| == |t| + i && forall k :: 0 <= k < |t| ==> r[k] == t[k]
      invariant forall k :: |t| <= k < |r| ==>
        r[k] == Entry(srcmixdepth, Frac(d.fractions[k - |t|]), makercounts[k - |t|], "INTERNAL", d.waits[k - |t|], Num(0))
    {
      r := r + [Entry(srcmixdepth, Frac(d.fractions[i]), makercounts[i], "INTERNAL", d.waits[i], Num(0))];
    }
  }

  /** The draws fit the transaction counts: one fraction, wait and counterparty draw per transaction. */
  predicate DrawsFit(o: TumbleOptions, txcounts: seq<int>, draws: seq<MixdepthDraws>) {
    && |draws| == |txcounts|
    && forall m :: 0 <= m < |draws| ==>
         var n := TxCount(o, txcounts, m);
         |draws[m].fractions| == n && |draws[m].waits| == n && |draws[m].makercounts| == n
  }

  /** A schedule of runs in mixdepth order, whose last run (of mixdepth `last`) starts at `start`. */
  predicate LastRunFrom(t: Schedule, last: int, start: int) {
    && 0 <= start <= |t|
    && (forall k :: start <= k < |t| ==> t[k].mixdepth == last)
    && (forall k :: 0 <= k < start ==> t[k].mixdepth < last)
  }

  /** The counts of the mixdepths before `m` are reached, those from `m` on are zero. */
  predicate CountsUpTo(t: Schedule, o: TumbleOptions, txcounts: seq<int>, m: int) {
    forall j :: 0 <= j < |txcounts| ==> Count(t, j) == if j < m then TxCount(o, txcounts, j) else 0
  }

  /**
   * Mixdepth `m`'s run as the `zip` loop builds it from the draws: one
   * `INTERNAL`, not yet done transaction per draw, in order, with the
   * counterparty counts bounded below, and the final amount reset to 0.
   */
  function RunOf(o: TumbleOptions, txcounts: seq<int>, draws: seq<MixdepthDraws>, m: int): (r: Schedule)
    requires DrawsFit(o, txcounts, draws) && 0 <= m < |txcounts|
    ensures |r| == TxCount(o, txcounts, m)
  {
    var d := draws[m];
    var n := |d.fractions|;
    var makercounts := LowerBoundedInt(d.makercounts, o.minmakercount);
    seq(n, i requires 0 <= i < n =>
      Entry(m + o.mixdepthsrc, if i == n - 1 then Sats(0) else Frac(d.fractions[i]), makercounts[i], "INTERNAL", d.waits[i], Num(0)))
  }

  lemma RunOfAt(o: TumbleOptions, txcounts: seq<int>, draws: seq<MixdepthDraws>, m: int, i: int)
    requires DrawsFit(o, txcounts, draws) && 0 <= m < |txcounts| && 0 <= i < TxCount(o, txcounts, m)
    ensures var d, n := draws[m], TxCount(o, txcounts, m);
      RunOf(o, txcounts, draws, m)[i] ==
        Entry(m + o.mixdepthsrc, if i == n - 1 then Sats(0) else Frac(d.fractions[i]),
              LowerBoundedInt(d.makercounts, o.minmakercount)[i], "INTERNAL", d.waits[i], Num(0))
  {
  }

  /** The runs of mixdepths `0` to `m - 1`, one after the other. */
  function Planned(o: TumbleOptions, txcounts: seq<int>, draws: seq<MixdepthDraws>, m: int): (r: Schedule)
    requires DrawsFit(o, txcounts, draws) && 0 <= m <= |txcounts|
    decreases m
  {
    if m == 0 then [] else Planned(o, txcounts, draws, m - 1) + RunOf(o, txcounts, draws, m - 1)
  }

  /** The shape of the runs of mixdepths `0` to `m - 1`, the last of which starts at `start`. */
  predicate BuiltShape(t: Schedule, o: TumbleOptions, txcounts: seq<int>, m: int, start: int) {
    && 0 <= m <= |txcounts|
    && Fresh(t, o) && Sorted(t) && SweepEnds(t)
    && (forall k :: 0 <= k < |t| ==> t[k].destination == "INTERNAL" && t[k].mixdepth < m)
    && CountsUpTo(t, o, txcounts, m)
    && (m > 0 ==> |t| > 0 && LastRunFrom(t, m - 1, start) && |t| - start == TxCount(o, txcounts, m - 1))
  }

  /** The runs of mixdepths `0` to `m - 1`, built: the invariant of the loop over mixdepths. */
  predicate Built(t: Schedule, o: TumbleOptions, txcounts: seq<int>, draws: seq<MixdepthDraws>, m: int, start: int) {
    && BuiltShape(t, o, txcounts, m, start)
    && DrawsFit(o, txcounts, draws)
    && t == Planned(o, txcounts, draws, m)
  }

  /** Appending mixdepth `m`'s run and resetting its final amount keeps runs sorted and sweep-ended. */
  lemma RunSorted(t: Schedule, r: Schedule, r': Schedule, m: int, n: nat)
    requires |t| > 0 || n > 0
    requires Sorted(t) && SweepEnds(t) && forall k :: 0 <= k < |t| ==> t[k].mixdepth < m
    requires |r| == |t| + n && forall k :: 0 <= k < |t| ==> r[k] == t[k]
    requires forall k :: |t| <= k < |r| ==> r[k].mixdepth == m
    requires r' == r[|r| - 1 := r[|r| - 1].(amount := Sats(0))]
    ensures Sorted(r') && SweepEnds(r')
    ensures LastRunFrom(r', m, |t|)
  {
    forall k | 0 <= k < |r'| && LastOfRun(r', k) ensures r'[k].amount == Sats(0) {
      if k < |t| - 1 {
        assert LastOfRun(t, k);
      } else if k == |t| - 1 && n > 0 {
        assert LastOfRun(t, k);
      }
    }
  }

  lemma RunCounts(o: TumbleOptions, txcounts: seq<int>, t: Schedule, r: Schedule, r': Schedule, m: int, n: nat)
    requires 0 <= m < |txcounts| && n == TxCount(o, txcounts, m)
    requires CountsUpTo(t, o, txcounts, m)
    requires |r| == |t| + n && forall k :: 0 <= k < |t| ==> r[k] == t[k]
    requires forall k :: |t| <= k < |r| ==> r[k].mixdepth == m
    requires |r'| == |r| && forall k :: 0 <= k < |r| ==> r'[k].mixdepth == r[k].mixdepth
    ensures CountsUpTo(r', o, txcounts, m + 1)
  {
    var run := r[|t|..];
    assert r == t + run;
    assert forall k :: 0 <= k < |run| ==> run[k].mixdepth == m;
    forall j | 0 <= j < |txcounts| ensures Count(r', j) == if j < m + 1 then TxCount(o, txcounts, j) else 0 {
      CountSameMixdepths(r', r, j);
      CountConcat(t, run, j);
      CountUniform(run, m, j);
    }
  }

  lemma RunFresh(o: TumbleOptions, t: Schedule, r: Schedule, r': Schedule, m: int)
    requires 0 <= m < o.mixdepthcount && Fresh(t, o)
    requires forall k :: 0 <= k < |t| ==> t[k].destination == "INTERNAL" && t[k].mixdepth < m
    requires |r| >= |t| && forall k :: 0 <= k < |t| ==> r[k] == t[k]
    requires forall k :: |t| <= k < |r| ==>
      && r[k].mixdepth == m && r[k].destination == "INTERNAL"
      && r[k].completed == Num(0) && r[k].makercount >= o.minmakercount
    requires |r'| == |r| && forall k :: 0 <= k < |r| ==> r'[k] == r[k].(amount := r'[k].amount)
    ensures Fresh(r', o)
    ensures forall k :: 0 <= k < |r'| ==> r'[k].destination == "INTERNAL" && r'[k].mixdepth < m + 1
  {
  }

  lemma RunStep(o: TumbleOptions, txcounts: seq<int>, t: Schedule, start: int, r: Schedule, r': Schedule, m: int, n: nat)
    requires 0 <= m < |txcounts| == o.mixdepthcount && n == TxCount(o, txcounts, m)
    requires BuiltShape(t, o, txcounts, m, start)
    requires m == 0 ==> n > 0
    requires |r| == |t| + n && forall k :: 0 <= k < |t| ==> r[k] == t[k]
    requires forall k :: |t| <= k < |r| ==>
      && r[k].mixdepth == m && r[k].destination == "INTERNAL"
      && r[k].completed == Num(0) && r[k].makercount >= o.minmakercount
    requires r' == r[|r| - 1 := r[|r| - 1].(amount := Sats(0))]
    ensures BuiltShape(r', o, txcounts, m + 1, |t|)
  {
    RunSorted(t, r, r', m, n);
    RunCounts(o, txcounts, t, r, r', m, n);
    RunFresh(o, t, r, r', m);
  }

  lemma ResetRun(t: Schedule, run: Schedule, r: Schedule, r': Schedule)
    requires |run| > 0 && |r| == |t| + |run|
    requires forall k :: 0 <= k < |t| ==> r[k] == t[k]
    requires forall k :: |t| <= k < |r| - 1 ==> r[k] == run[k - |t|]
    requires r[|r| - 1].(amount := Sats(0)) == run[|run| - 1]
    requires r' == r[|r| - 1 := r[|r| - 1].(amount := Sats(0))]
    ensures r' == t + run
  {
    assert forall k :: 0 <= k < |r'| ==> r'[k] == (t + run)[k];
  }

  /** An empty run: the reset hits the previous run's final transaction, already a sweep. */
  lemma ResetEmptyRun(t: Schedule, run: Schedule, r: Schedule, r': Schedule)
    requires |run| == 0 && |r| == |t| > 0 && t[|t| - 1].amount == Sats(0)
    requires forall k :: 0 <= k < |t| ==> r[k] == t[k]
    requires r' == r[|r| - 1 := r[|r| - 1].(amount := Sats(0))]
    ensures r' == t + run
  {
    assert r[|r| - 1].(amount := Sats(0)) == t[|t| - 1];
    assert forall k :: 0 <= k < |r'| ==> r'[k] == t[k];
    assert t + run == t;
  }

  /** A mixdepth without transactions leaves the planned runs as they are. */
  lemma EmptyRunPlanned(o: TumbleOptions, txcounts: seq<int>, draws: seq<MixdepthDraws>, t: Schedule, r: Schedule, r': Schedule, m: int)
    requires DrawsFit(o, txcounts, draws) && 0 <= m < |txcounts| && TxCount(o, txcounts, m) == 0
    requires t == Planned(o, txcounts, draws, m)
    requires |t| > 0 && t[|t| - 1].amount == Sats(0)
    requires |r| == |t| && forall k :: 0 <= k < |t| ==> r[k] == t[k]
    requires r' == r[|r| - 1 := r[|r| - 1].(amount := Sats(0))]
    ensures r' == Planned(o, txcounts, draws, m + 1)
  {
    var run := RunOf(o, txcounts, draws, m);
    assert Planned(o, txcounts, draws, m + 1) == t + run;
    ResetEmptyRun(t, run, r, r');
  }

  /** The appended run, its final amount reset, is mixdepth `m`'s planned run. */
  lemma RunPlanned(o: TumbleOptions, txcounts: seq<int>, draws: seq<MixdepthDraws>, t: Schedule, r: Schedule, r': Schedule, m: int)
    requires DrawsFit(o, txcounts, draws) && 0 <= m < |txcounts| && TxCount(o, txcounts, m) > 0
    requires t == Planned(o, txcounts, draws, m)
    requires var d, n := draws[m], TxCount(o, txcounts, m);
      && |r| == |t| + n && (forall k :: 0 <= k < |t| ==> r[k] == t[k])
      && forall k :: |t| <= k < |r| ==>
        r[k] == Entry(m + o.mixdepthsrc, Frac(d.fractions[k - |t|]), LowerBoundedInt(d.makercounts, o.minmakercount)[k - |t|],
                      "INTERNAL", d.waits[k - |t|], Num(0))
    requires r' == r[|r| - 1 := r[|r| - 1].(amount := Sats(0))]
    ensures r' == Planned(o, txcounts, draws, m + 1)
  {
    var run := RunOf(o, txcounts, draws, m);
    assert Planned(o, txcounts, draws, m + 1) == t + run;
    forall k | |t| <= k < |r| - 1 ensures r[k] == run[k - |t|] {
      RunOfAt(o, txcounts, draws, m, k - |t|);
    }
    RunOfAt(o, txcounts, draws, m, |run| - 1);
    ResetRun(t, run, r, r');
  }

  /**
   * One pass of the loop over mixdepths: mixdepth `m` gets its (possibly
   * bumped) number of transactions, each `INTERNAL` and not yet done, the
   * final one with amount 0.
   */
  method AddMixdepth(o: TumbleOptions, txcounts: seq<int>, draws: seq<MixdepthDraws>, t: Schedule, m: int, ghost start: int)
    returns (t': Schedule)
    requires o.mixdepthsrc == 0 && |txcounts| == o.mixdepthcount && 0 <= m < o.mixdepthcount
    requires DrawsFit(o, txcounts, draws)
    requires m == 0 ==> TxCount(o, txcounts, 0) >= 1
    requires Built(t, o, txcounts, draws, m, start)
    ensures Built(t', o, txcounts, draws, m + 1, |t|)
    ensures t' == t + RunOf(o, txcounts, draws, m)
  {
    var txcount := txcounts[m];
    if o.mixdepthcount - o.addrcount <= m && m < o.mixdepthcount - 1 {
      if txcount == 1 {
        txcount := 2;
      }
    }
    assert txcount == TxCount(o, txcounts, m);
    var d := draws[m];
    var makercounts := LowerBoundedInt(d.makercounts, o.minmakercount);
    var r := AppendRun(t, m + o.mixdepthsrc, d, makercounts, txcount);
    t' := r[|r| - 1 := r[|r| - 1].(amount := Sats(0))];
    RunStep(o, txcounts, t, start, r, t', m, txcount);
    if txcount == 0 {
      assert LastOfRun(t, |t| - 1);
      EmptyRunPlanned(o, txcounts, draws, t, r, t', m);
    } else {
      RunPlanned(o, txcounts, draws, t, r, t', m);
    }
  }

  /** The loop over mixdepths. `start` is where the last mixdepth's run begins. */
  method BuildRuns(o: TumbleOptions, txcounts: seq<int>, draws: seq<MixdepthDraws>)
    returns (t: Schedule, ghost start: int)
    requires o.mixdepthsrc == 0 && |txcounts| == o.mixdepthcount
    requires DrawsFit(o, txcounts, draws)
    requires o.mixdepthcount >= 1 ==> TxCount(o, txcounts, 0) >= 1
    ensures t == Planned(o, txcounts, draws, o.mixdepthcount)
    ensures Runs(t, o) && forall k :: 0 <= k < |t| ==> t[k].destination == "INTERNAL"
    ensures forall m :: 0 <= m < o.mixdepthcount ==> Count(t, m) == TxCount(o, txcounts, m)
    ensures o.mixdepthcount >= 1 ==>
      start == |Planned(o, txcounts, draws, o.mixdepthcount - 1)| && LastRunFrom(t, o.mixdepthcount - 1, start)
  {
    t := [];
    start := 0;
    for m := 0 to o.mixdepthcount
      invariant Built(t, o, txcounts, draws, m, start)
    {
      var t' := AddMixdepth(o, txcounts, draws, t, m, start);
      start := |t|;
      t := t';
    }
    BuiltAll(t, o, txcounts, draws, start);
  }

  /** What the finished loop over mixdepths has built. */
  lemma BuiltAll(t: Schedule, o: TumbleOptions, txcounts: seq<int>, draws: seq<MixdepthDraws>, start: int)
    requires |txcounts| == o.mixdepthcount && Built(t, o, txcounts, draws, o.mixdepthcount, start)
    ensures Runs(t, o) && forall k :: 0 <= k < |t| ==> t[k].destination == "INTERNAL"
    ensures forall m :: 0 <= m < o.mixdepthcount ==> Count(t, m) == TxCount(o, txcounts, m)
    ensures o.mixdepthcount >= 1 ==>
      start == |Planned(o, txcounts, draws, o.mixdepthcount - 1)| && LastRunFrom(t, o.mixdepthcount - 1, start)
  {
    if o.mixdepthcount >= 1 {
      var last := o.mixdepthcount - 1;
      assert t == Planned(o, txcounts, draws, last) + RunOf(o, txcounts, draws, last);
    }
  }

  // ---------------------------------------------------------------- destinations

  /** The position of the last transaction of mixdepth `srcmix`, or -1 when it has none. */
  function LastIndex(t: Schedule, srcmix: int): (k: int)
    ensures -1 <= k < |t|
    ensures k >= 0 ==> t[k].mixdepth == srcmix
    ensures forall j :: k < j < |t| ==> t[j].mixdepth != srcmix
    decreases |t|
  {
    if t == [] then -1
    else if t[|t| - 1].mixdepth == srcmix then |t| - 1
    else LastIndex(t[..|t| - 1], srcmix)
  }

  /** The reversed search with `break`: the last transaction of mixdepth `srcmix`, if any, is sent to `dest`. */
  method AssignLastDestination(t: Schedule, srcmix: int, dest: string) returns (r: Schedule)
    ensures var k := LastIndex(t, srcmix);
      r == if k < 0 then t else t[k := t[k].(destination := dest)]
  {
    r := t;
    var k := |t|;
    while k > 0
      invariant 0 <= k <= |t|
      invariant forall j :: k <= j < |t| ==> t[j].mixdepth != srcmix
    {
      k := k - 1;
      if t[k].mixdepth == srcmix {
        r := t[k := t[k].(destination := dest)];
        return;
      }
    }
  }

  /** The transactions the pruning removes: the `INTERNAL` ones of mixdepth `srcmix`. */
  predicate Removed(x: Entry, srcmix: int) {
    x.mixdepth == srcmix && x.destination == "INTERNAL"
  }

  /** What the first pruning pass does to one transaction: zero the amount of an external one of `srcmix`. */
  function Zeroed(x: Entry, srcmix: int): (r: Entry)
    ensures Removed(r, srcmix) <==> Removed(x, srcmix)
    ensures r.mixdepth == x.mixdepth && r.destination == x.destination
  {
    if x.mixdepth == srcmix && x.destination != "INTERNAL" then x.(amount := Sats(0)) else x
  }

  /** The pruned list: `srcmix`'s `INTERNAL` transactions gone, its external ones sweeps, the rest as they were. */
  function Pruned(t: Schedule, srcmix: int): (r: Schedule)
    ensures |r| <= |t|
    decreases |t|
  {
    if t == [] then []
    else if Removed(t[0], srcmix) then Pruned(t[1..], srcmix)
    else [Zeroed(t[0], srcmix)] + Pruned(t[1..], srcmix)
  }

  function RemovedOf(t: Schedule, srcmix: int): (r: Schedule)
    ensures forall i :: 0 <= i < |r| ==> Removed(r[i], srcmix)
    decreases |t|
  {
    if t == [] then []
    else if Removed(t[0], srcmix) then [t[0]] + RemovedOf(t[1..], srcmix)
    else RemovedOf(t[1..], srcmix)
  }

  function Kept(t: Schedule, srcmix: int): Schedule
    decreases |t|
  {
    if t == [] then []
    else if Removed(t[0], srcmix) then Kept(t[1..], srcmix)
    else [t[0]] + Kept(t[1..], srcmix)
  }

  /** Python's `l.remove(x)`: the first element equal to `x` taken out. */
  function RemoveFirst(l: Schedule, x: Entry): (r: Schedule)
    requires x in l
    ensures |r| == |l| - 1
    decreases |l|
  {
    if l[0] == x then l[1..] else [l[0]] + RemoveFirst(l[1..], x)
  }

  lemma {:induction false} RemovedOfAppend(t: Schedule, x: Entry, srcmix: int)
    ensures RemovedOf(t + [x], srcmix) == RemovedOf(t, srcmix) + (if Removed(x, srcmix) then [x] else [])
    decreases |t|
  {
    if t == [] {
      assert [x][1..] == [];
    } else {
      assert (t + [x])[1..] == t[1..] + [x];
      RemovedOfAppend(t[1..], x, srcmix);
    }
  }

  /**
   * Removing, by value, the first of the transactions still to be removed
   * takes out exactly that one: any element equal to it is itself a
   * transaction to remove, and none comes before it.
   */
  lemma {:induction false} RemoveFirstRemoved(l: Schedule, srcmix: int)
    requires RemovedOf(l, srcmix) != []
    ensures RemovedOf(l, srcmix)[0] in l
    ensures var l' := RemoveFirst(l, RemovedOf(l, srcmix)[0]);
      RemovedOf(l', srcmix) == RemovedOf(l, srcmix)[1..] && Kept(l', srcmix) == Kept(l, srcmix)
    decreases |l|
  {
    var x := RemovedOf(l, srcmix)[0];
    if Removed(l[0], srcmix) {
      assert x == l[0];
    } else {
      assert l[0] != x;
      RemoveFirstRemoved(l[1..], srcmix);
      var l' := RemoveFirst(l, x);
      assert l'[0] == l[0] && l'[1..] == RemoveFirst(l[1..], x);
    }
  }

  lemma {:induction false} KeptAll(l: Schedule, srcmix: int)
    requires RemovedOf(l, srcmix) == []
    ensures Kept(l, srcmix) == l
    decreases |l|
  {
    if l != [] {
      KeptAll(l[1..], srcmix);
    }
  }

  lemma {:induction false} KeptOfZeroed(t: Schedule, c: Schedule, srcmix: int)
    requires |c| == |t| && forall j :: 0 <= j < |t| ==> c[j] == Zeroed(t[j], srcmix)
    ensures Kept(c, srcmix) == Pruned(t, srcmix) && RemovedOf(c, srcmix) == RemovedOf(t, srcmix)
    decreases |t|
  {
    if t != [] {
      KeptOfZeroed(t[1..], c[1..], srcmix);
      if Removed(t[0], srcmix) {
        assert c[0] == t[0];
      }
    }
  }

  /**
   * The pruning of the last mixdepth: a first pass zeroes the amounts of its
   * external transactions and collects its `INTERNAL` ones, then each
   * collected transaction is removed from the list by value.
   */
  method PruneMixdepth(t: Schedule, srcmix: int) returns (r: Schedule)
    ensures r == Pruned(t, srcmix)
  {
    var cur := t;
    var remove: Schedule := [];
    for k := 0 to |t|
      invariant |cur| == |t|
      invariant forall j :: 0 <= j < |t| ==> cur[j] == if j < k then Zeroed(t[j], srcmix) else t[j]
      invariant remove == RemovedOf(t[..k], srcmix)
    {
      assert t[..k + 1] == t[..k] + [t[k]];
      RemovedOfAppend(t[..k], t[k], srcmix);
      if cur[k].mixdepth == srcmix {
        if cur[k].destination == "INTERNAL" {
          remove := remove + [cur[k]];
        } else {
          cur := cur[k := cur[k].(amount := Sats(0))];
        }
      }
    }
    assert t[..|t|] == t;
    KeptOfZeroed(t, cur, srcmix);
    ghost var kept := Kept(cur, srcmix);
    for i := 0 to |remove|
      invariant RemovedOf(cur, srcmix) == remove[i..]
      invariant Kept(cur, srcmix) == kept
    {
      RemoveFirstRemoved(cur, srcmix);
      cur := RemoveFirst(cur, remove[i]);
    }
    KeptAll(cur, srcmix);
    r := cur;
  }

  lemma {:induction false} PrunedConcat(a: Schedule, b: Schedule, srcmix: int)
    ensures Pruned(a + b, srcmix) == Pruned(a, srcmix) + Pruned(b, srcmix)
    decreases |a|
  {
    if a == [] {
      assert a + b == b;
    } else {
      assert (a + b)[1..] == a[1..] + b;
      PrunedConcat(a[1..], b, srcmix);
    }
  }

  lemma {:induction false} PrunedUntouched(a: Schedule, srcmix: int)
    requires forall k :: 0 <= k < |a| ==> a[k].mixdepth != srcmix
    ensures Pruned(a, srcmix) == a
    decreases |a|
  {
    if a != [] {
      PrunedUntouched(a[1..], srcmix);
    }
  }

  /** A run of `srcmix` that is `INTERNAL` up to its last transaction keeps only that one, if it is external. */
  lemma {:induction false} PrunedRun(b: Schedule, srcmix: int)
    requires b != []
    requires forall k :: 0 <= k < |b| ==> b[k].mixdepth == srcmix
    requires forall k :: 0 <= k < |b| - 1 ==> b[k].destination == "INTERNAL"
    ensures Pruned(b, srcmix) == if b[|b| - 1].destination == "INTERNAL" then [] else [b[|b| - 1].(amount := Sats(0))]
    decreases |b|
  {
    if |b| > 1 {
      PrunedRun(b[1..], srcmix);
    }
  }

  /** Entry `k`'s destination once the first `upto` external destinations are assigned. */
  function ExpectedDestination(t: Schedule, k: int, last: int, upto: int, ext: seq<string>): string
    requires 0 <= k < |t| && t[k].mixdepth <= last && upto <= |ext|
  {
    if LastOfRun(t, k) && last - upto < t[k].mixdepth then ext[last - t[k].mixdepth] else "INTERNAL"
  }

  /**
   * The final transaction of each of the last `upto` mixdepths goes to its
   * external destination (the last mixdepth's to the first), every other
   * transaction to `INTERNAL`.
   */
  predicate DestinationsUpTo(t: Schedule, last: int, upto: int, ext: seq<string>)
    requires upto <= |ext|
  {
    forall k :: 0 <= k < |t| ==> t[k].mixdepth <= last && t[k].destination == ExpectedDestination(t, k, last, upto, ext)
  }

  /** The shape kept by the destination loop, for a schedule of `mixdepthcount` mixdepths. */
  predicate Runs(t: Schedule, o: TumbleOptions) {
    Fresh(t, o) && Sorted(t) && SweepEnds(t)
  }

  /** Changing destinations only keeps the runs, their ends and their sizes. */
  lemma DestinationOnly(t: Schedule, t1: Schedule, o: TumbleOptions)
    requires |t1| == |t| && forall k :: 0 <= k < |t| ==> t1[k] == t[k].(destination := t1[k].destination)
    requires Runs(t, o)
    ensures Runs(t1, o)
    ensures forall k :: 0 <= k < |t| ==> (LastOfRun(t1, k) <==> LastOfRun(t, k))
    ensures forall m :: Count(t1, m) == Count(t, m)
  {
    forall k | 0 <= k < |t| ensures LastOfRun(t1, k) <==> LastOfRun(t, k) {
      if k + 1 < |t| {
        assert t1[k + 1].mixdepth == t[k + 1].mixdepth;
      }
    }
    forall m ensures Count(t1, m) == Count(t, m) {
      CountSameMixdepths(t1, t, m);
    }
  }

  /** In a sorted schedule, the last transaction of a mixdepth ends its run and no other one does. */
  lemma LastIsRunEnd(t: Schedule, srcmix: int, k: int)
    requires Sorted(t) && 0 <= k < |t| && t[k].mixdepth == srcmix
    requires forall j :: k < j < |t| ==> t[j].mixdepth != srcmix
    ensures LastOfRun(t, k)
    ensures forall j :: 0 <= j < |t| && j != k && t[j].mixdepth == srcmix ==> !LastOfRun(t, j)
  {
    forall j | 0 <= j < |t| && j != k && t[j].mixdepth == srcmix ensures !LastOfRun(t, j) {
      assert j < k;
      assert t[j + 1].mixdepth <= t[k].mixdepth;
    }
  }

  lemma LaterDestinations(t: Schedule, t1: Schedule, last: int, off: int, ext: seq<string>, k: int)
    requires 1 <= off < |ext| && DestinationsUpTo(t, last, off, ext)
    requires 0 <= k < |t| && t[k].mixdepth == last - off && LastOfRun(t, k)
    requires forall j :: 0 <= j < |t| && j != k && t[j].mixdepth == last - off ==> !LastOfRun(t, j)
    requires t1 == t[k := t[k].(destination := ext[off])]
    ensures DestinationsUpTo(t1, last, off + 1, ext)
  {
    forall j | 0 <= j < |t1| ensures t1[j].mixdepth <= last && t1[j].destination == ExpectedDestination(t1, j, last, off + 1, ext) {
      assert LastOfRun(t1, j) == LastOfRun(t, j);
      if j != k {
        assert ExpectedDestination(t, j, last, off + 1, ext) == ExpectedDestination(t, j, last, off, ext);
      }
    }
  }

  lemma LaterNone(t: Schedule, last: int, off: int, ext: seq<string>)
    requires 1 <= off < |ext| && DestinationsUpTo(t, last, off, ext)
    requires forall k :: 0 <= k < |t| ==> t[k].mixdepth != last - off
    ensures DestinationsUpTo(t, last, off + 1, ext)
  {
    forall k | 0 <= k < |t| ensures t[k].destination == ExpectedDestination(t, k, last, off + 1, ext) {
      assert ExpectedDestination(t, k, last, off + 1, ext) == ExpectedDestination(t, k, last, off, ext);
    }
  }

  /** A later offset only changes a destination, so the runs, their mixdepths and their sizes stay. */
  lemma LaterOffsetShape(t: Schedule, o: TumbleOptions, srcmix: int, dest: string, t1: Schedule)
    requires Runs(t, o)
    requires var k := LastIndex(t, srcmix);
      t1 == if k < 0 then t else t[k := t[k].(destination := dest)]
    ensures Runs(t1, o) && forall m :: Count(t1, m) == Count(t, m)
    ensures |t1| == |t| && forall j :: 0 <= j < |t| ==> t1[j].mixdepth == t[j].mixdepth
  {
    if LastIndex(t, srcmix) >= 0 {
      DestinationOnly(t, t1, o);
    }
  }

  /** A later offset: the final transaction of mixdepth `last - off` goes to `ext[off]`. */
  lemma LaterOffsetDestinations(t: Schedule, last: int, ext: seq<string>, off: int, t1: Schedule)
    requires 1 <= off < |ext|
    requires Sorted(t) && DestinationsUpTo(t, last, off, ext)
    requires var k := LastIndex(t, last - off);
      t1 == if k < 0 then t else t[k := t[k].(destination := ext[off])]
    ensures DestinationsUpTo(t1, last, off + 1, ext)
  {
    var k := LastIndex(t, last - off);
    if k < 0 {
      LaterNone(t, last, off, ext);
    } else {
      LastIsRunEnd(t, last - off, k);
      LaterDestinations(t, t1, last, off, ext, k);
    }
  }

  /** After the first offset the schedule is the runs before the last mixdepth's, then at most its one external sweep. */
  lemma FirstOffsetShape(t: Schedule, last: int, ext: seq<string>, start: int, t1: Schedule, t2: Schedule)
    requires |ext| >= 1 && LastRunFrom(t, last, start)
    requires forall k :: 0 <= k < |t| ==> t[k].destination == "INTERNAL"
    requires start < |t| ==> t1 == t[|t| - 1 := t[|t| - 1].(destination := ext[0])]
    requires start == |t| ==> t1 == t
    requires t2 == Pruned(t1, last)
    ensures t2 == FirstPruned(t, start, ext)
  {
    var prefix, run := t1[..start], t1[start..];
    assert t1 == prefix + run;
    assert t[..start] == prefix;
    PrunedConcat(prefix, run, last);
    PrunedUntouched(prefix, last);
    if start < |t| {
      PrunedRun(run, last);
    }
  }

  /** The tail left after pruning: nothing, or the last transaction made an external sweep. */
  predicate PrunedTail(t: Schedule, start: int, last: int, tail: Schedule) {
    tail == [] || (0 <= start < |t| && |tail| == 1 && tail[0].mixdepth == last && tail[0].amount == Sats(0)
                   && tail[0] == t[|t| - 1].(destination := tail[0].destination, amount := Sats(0)))
  }

  lemma FirstOffsetFresh(t: Schedule, o: TumbleOptions, start: int, tail: Schedule, t2: Schedule)
    requires Fresh(t, o) && 0 <= start <= |t| && PrunedTail(t, start, o.mixdepthcount - 1, tail)
    requires t2 == t[..start] + tail
    ensures Fresh(t2, o)
  {
    forall k | 0 <= k < |t2| ensures t2[k].completed == Num(0) && t2[k].makercount >= o.minmakercount && 0 <= t2[k].mixdepth < o.mixdepthcount {
      if k < start {
        assert t2[k] == t[k];
      } else {
        assert t2[k] == tail[0];
      }
    }
  }

  lemma FirstOffsetSorted(t: Schedule, last: int, start: int, tail: Schedule, t2: Schedule)
    requires Sorted(t) && SweepEnds(t) && LastRunFrom(t, last, start) && PrunedTail(t, start, last, tail)
    requires t2 == t[..start] + tail
    ensures Sorted(t2) && SweepEnds(t2)
    ensures forall k :: 0 <= k < |t2| - 1 ==> t2[k].mixdepth < last
  {
    assert forall k :: 0 <= k < start ==> t2[k] == t[k];
    forall i, j | 0 <= i < j < |t2| ensures t2[i].mixdepth <= t2[j].mixdepth {
      if j < start {
        assert t[i].mixdepth <= t[j].mixdepth;
      }
    }
    forall k | 0 <= k < |t2| && LastOfRun(t2, k) ensures t2[k].amount == Sats(0) {
      if k < start {
        assert LastOfRun(t, k);
      }
    }
  }

  lemma FirstOffsetCounts(t: Schedule, last: int, start: int, tail: Schedule, t2: Schedule)
    requires LastRunFrom(t, last, start) && PrunedTail(t, start, last, tail)
    requires t2 == t[..start] + tail
    ensures forall m :: m != last ==> Count(t2, m) == Count(t, m)
  {
    assert t == t[..start] + t[start..];
    assert forall k :: 0 <= k < |t[start..]| ==> t[start..][k].mixdepth == last;
    forall m | m != last ensures Count(t2, m) == Count(t, m) {
      CountConcat(t[..start], tail, m);
      CountUniform(tail, last, m);
      CountConcat(t[..start], t[start..], m);
      CountUniform(t[start..], last, m);
    }
  }

  lemma FirstOffsetDestinations(t: Schedule, last: int, ext: seq<string>, start: int, tail: Schedule, t2: Schedule)
    requires |ext| >= 1 && LastRunFrom(t, last, start)
    requires forall k :: 0 <= k < |t| ==> t[k].destination == "INTERNAL"
    requires tail == [] || (|tail| == 1 && tail[0].mixdepth == last && tail[0].destination == ext[0])
    requires t2 == t[..start] + tail
    ensures DestinationsUpTo(t2, last, 1, ext)
  {
    forall k | 0 <= k < |t2| ensures t2[k].mixdepth <= last && t2[k].destination == ExpectedDestination(t2, k, last, 1, ext) {
      if k < start {
        assert t2[k] == t[k];
      }
    }
  }

  /** The first offset: the last mixdepth's final transaction goes to `ext[0]`, and its other transactions are pruned. */
  lemma FirstOffsetStep(t: Schedule, o: TumbleOptions, ext: seq<string>, start: int, t1: Schedule, t2: Schedule)
    requires o.mixdepthcount >= 1 && |ext| >= 1
    requires Runs(t, o) && forall k :: 0 <= k < |t| ==> t[k].destination == "INTERNAL"
    requires LastRunFrom(t, o.mixdepthcount - 1, start)
    requires start < |t| ==> t1 == t[|t| - 1 := t[|t| - 1].(destination := ext[0])]
    requires start == |t| ==> t1 == t
    requires t2 == Pruned(t1, o.mixdepthcount - 1)
    ensures Runs(t2, o) && DestinationsUpTo(t2, o.mixdepthcount - 1, 1, ext)
    ensures forall k :: 0 <= k < |t2| - 1 ==> t2[k].mixdepth < o.mixdepthcount - 1
    ensures start < |t| && ext[0] != "INTERNAL" ==> |t2| > 0 && t2[|t2| - 1].mixdepth == o.mixdepthcount - 1
    ensures forall m :: m != o.mixdepthcount - 1 ==> Count(t2, m) == Count(t, m)
    ensures t2 == FirstPruned(t, start, ext)
  {
    var last := o.mixdepthcount - 1;
    FirstOffsetShape(t, last, ext, start, t1, t2);
    var tail := if start < |t| && ext[0] != "INTERNAL" then [t[|t| - 1].(destination := ext[0], amount := Sats(0))] else [];
    assert PrunedTail(t, start, last, tail);
    FirstOffsetFresh(t, o, start, tail, t2);
    FirstOffsetSorted(t, last, start, tail, t2);
    FirstOffsetCounts(t, last, start, tail, t2);
    FirstOffsetDestinations(t, last, ext, start, tail, t2);
  }

  /** The list `t` after offset 0, whose last run starts at `start`: its earlier runs, then at most one external sweep. */
  function FirstPruned(t: Schedule, start: int, ext: seq<string>): Schedule
    requires 0 <= start <= |t| && |ext| >= 1
  {
    t[..start] + if start < |t| && ext[0] != "INTERNAL" then [t[|t| - 1].(destination := ext[0], amount := Sats(0))] else []
  }

  /** `a` and `b` differ at most in their destinations. */
  predicate SameExceptDestinations(a: Schedule, b: Schedule) {
    |a| == |b| && forall k :: 0 <= k < |a| ==> a[k] == b[k].(destination := a[k].destination)
  }

  /** What holds after the first `off` offsets of the destination loop over `t`. */
  ghost predicate OffsetsDone(r: Schedule, t: Schedule, o: TumbleOptions, ext: seq<string>, start: int, off: int)
    requires 0 <= off <= |ext|
  {
    OffsetsShape(r, t, o, ext, start, off) && OffsetsKept(r, t, ext, start, off)
  }

  /** The runs, destinations and counts after the first `off` offsets. */
  ghost predicate OffsetsShape(r: Schedule, t: Schedule, o: TumbleOptions, ext: seq<string>, start: int, off: int)
    requires 0 <= off <= |ext|
  {
    var last := o.mixdepthcount - 1;
    && Runs(r, o) && DestinationsUpTo(r, last, off, ext)
    && (off > 0 ==> forall k :: 0 <= k < |r| - 1 ==> r[k].mixdepth < last)
    && (off > 0 && start < |t| && ext[0] != "INTERNAL" ==> |r| > 0 && r[|r| - 1].mixdepth == last)
    && forall m :: (off == 0 || m != last) ==> Count(r, m) == Count(t, m)
  }

  /** Apart from destinations, the list after the first `off` offsets is `t`, pruned once `off > 0`. */
  ghost predicate OffsetsKept(r: Schedule, t: Schedule, ext: seq<string>, start: int, off: int)
    requires 0 <= off <= |ext|
  {
    && (off == 0 ==> r == t)
    && (off > 0 ==> 0 <= start <= |t| && SameExceptDestinations(r, FirstPruned(t, start, ext)))
  }

  lemma FirstOffsetDone(t: Schedule, o: TumbleOptions, ext: seq<string>, start: int, r1: Schedule, r2: Schedule)
    requires o.mixdepthcount >= 1 && |ext| >= 1
    requires Runs(t, o) && forall k :: 0 <= k < |t| ==> t[k].destination == "INTERNAL"
    requires LastRunFrom(t, o.mixdepthcount - 1, start)
    requires var k := LastIndex(t, o.mixdepthcount - 1);
      r1 == if k < 0 then t else t[k := t[k].(destination := ext[0])]
    requires r2 == Pruned(r1, o.mixdepthcount - 1)
    ensures OffsetsDone(r2, t, o, ext, start, 1)
  {
    var last := o.mixdepthcount - 1;
    if start < |t| {
      assert t[|t| - 1].mixdepth == last;
      assert LastIndex(t, last) == |t| - 1;
    } else {
      assert LastIndex(t, last) == -1;
    }
    FirstOffsetStep(t, o, ext, start, r1, r2);
  }

  lemma SameExceptNewDestination(r: Schedule, r1: Schedule, u: Schedule)
    requires SameExceptDestinations(r, u)
    requires |r1| == |r| && forall j :: 0 <= j < |r| ==> r1[j] == r[j].(destination := r1[j].destination)
    ensures SameExceptDestinations(r1, u)
  {
  }

  lemma LaterOffsetDone(r: Schedule, t: Schedule, o: TumbleOptions, ext: seq<string>, start: int, off: int, r1: Schedule)
    requires 1 <= off < |ext|
    requires OffsetsDone(r, t, o, ext, start, off)
    requires var k := LastIndex(r, o.mixdepthcount - 1 - off);
      r1 == if k < 0 then r else r[k := r[k].(destination := ext[off])]
    ensures OffsetsDone(r1, t, o, ext, start, off + 1)
  {
    LaterOffsetShapeDone(r, t, o, ext, start, off, r1);
    LaterOffsetKept(r, t, o, ext, start, off, r1);
  }

  lemma LaterOffsetShapeDone(r: Schedule, t: Schedule, o: TumbleOptions, ext: seq<string>, start: int, off: int, r1: Schedule)
    requires 1 <= off < |ext|
    requires OffsetsShape(r, t, o, ext, start, off)
    requires var k := LastIndex(r, o.mixdepthcount - 1 - off);
      r1 == if k < 0 then r else r[k := r[k].(destination := ext[off])]
    ensures OffsetsShape(r1, t, o, ext, start, off + 1)
  {
    var last := o.mixdepthcount - 1;
    LaterOffsetShape(r, o, last - off, ext[off], r1);
    LaterOffsetDestinations(r, last, ext, off, r1);
    if |r| > 0 {
      assert r1[|r1| - 1].mixdepth == r[|r| - 1].mixdepth;
    }
  }

  lemma LaterOffsetKept(r: Schedule, t: Schedule, o: TumbleOptions, ext: seq<string>, start: int, off: int, r1: Schedule)
    requires 1 <= off < |ext|
    requires OffsetsKept(r, t, ext, start, off)
    requires var k := LastIndex(r, o.mixdepthcount - 1 - off);
      r1 == if k < 0 then r else r[k := r[k].(destination := ext[off])]
    ensures OffsetsKept(r1, t, ext, start, off + 1)
  {
    SameExceptNewDestination(r, r1, FirstPruned(t, start, ext));
  }

  /** Offset 0: the last mixdepth's final transaction goes to `ext[0]`, then that mixdepth is pruned. */
  method FirstOffset(t: Schedule, o: TumbleOptions, ext: seq<string>, ghost start: int) returns (r: Schedule)
    requires o.mixdepthsrc == 0 && o.mixdepthcount >= 1 && 1 <= |ext|
    requires Runs(t, o) && forall k :: 0 <= k < |t| ==> t[k].destination == "INTERNAL"
    requires LastRunFrom(t, o.mixdepthcount - 1, start)
    ensures OffsetsDone(r, t, o, ext, start, 1)
  {
    var srcmix := o.mixdepthsrc + o.mixdepthcount - 1;
    var r1 := AssignLastDestination(t, srcmix, ext[0]);
    r := PruneMixdepth(r1, srcmix);
    FirstOffsetDone(t, o, ext, start, r1, r);
  }

  /**
   * One pass of the loop over `range(addrcount)`: offset `off` sends the
   * final transaction of mixdepth `mixdepthcount - 1 - off` to `ext[off]`,
   * and at offset 0 the last mixdepth is pruned.
   */
  method AssignOffset(r: Schedule, t: Schedule, o: TumbleOptions, ext: seq<string>, ghost start: int, off: int)
    returns (r': Schedule)
    requires o.mixdepthsrc == 0 && o.mixdepthcount >= 1 && 0 <= off < |ext|
    requires forall k :: 0 <= k < |t| ==> t[k].destination == "INTERNAL"
    requires LastRunFrom(t, o.mixdepthcount - 1, start)
    requires OffsetsDone(r, t, o, ext, start, off)
    ensures OffsetsDone(r', t, o, ext, start, off + 1)
  {
    if off == 0 {
      r' := FirstOffset(t, o, ext, start);
    } else {
      var srcmix := o.mixdepthsrc + o.mixdepthcount - off - 1;
      var r1 := AssignLastDestination(r, srcmix, ext[off]);
      LaterOffsetDone(r, t, o, ext, start, off, r1);
      r' := r1;
    }
  }

  /** The loop over `range(addrcount)`. */
  method AssignDestinations(t: Schedule, o: TumbleOptions, ext: seq<string>, ghost start: int) returns (r: Schedule)
    requires o.mixdepthsrc == 0 && o.mixdepthcount >= 1 && |ext| >= o.addrcount
    requires Runs(t, o) && forall k :: 0 <= k < |t| ==> t[k].destination == "INTERNAL"
    requires LastRunFrom(t, o.mixdepthcount - 1, start)
    ensures OffsetsDone(r, t, o, ext, start, if o.addrcount > 0 then o.addrcount else 0)
  {
    var upto := if o.addrcount > 0 then o.addrcount else 0;
    r := t;
    assert DestinationsUpTo(r, o.mixdepthcount - 1, 0, ext);
    for off := 0 to upto
      invariant OffsetsDone(r, t, o, ext, start, off)
    {
      r := AssignOffset(r, t, o, ext, start, off);
    }
  }

  // ---------------------------------------------------------------- get_tumble_schedule

  /**
   * The planned runs after offset 0: the runs of the mixdepths before the
   * last, then the last mixdepth's final transaction, sent to `ext[0]`, if it
   * has one and `ext[0]` is external.
   */
  function PrunedPlan(o: TumbleOptions, txcounts: seq<int>, draws: seq<MixdepthDraws>, ext: seq<string>): Schedule
    requires DrawsFit(o, txcounts, draws) && 1 <= |txcounts| && |ext| >= 1
  {
    var last := |txcounts| - 1;
    var run := RunOf(o, txcounts, draws, last);
    Planned(o, txcounts, draws, last) + if |run| > 0 && ext[0] != "INTERNAL" then [run[|run| - 1].(destination := ext[0])] else []
  }

  /**
   * What `get_tumble_schedule` returns for the transaction counts `txcounts`
   * and the draws: see the three parts below.
   */
  ghost predicate IsTumbleSchedule(s: Schedule, o: TumbleOptions, txcounts: seq<int>, destaddrs: seq<string>, draws: seq<MixdepthDraws>)
    requires DrawsFit(o, txcounts, draws) && |txcounts| == o.mixdepthcount
  {
    var ext := ExternalDestinations(o.addrcount, destaddrs);
    TumbleShape(s, o, txcounts, ext) && TumbleContents(s, o, txcounts, draws, ext) && TumbleLastSweep(s, o, txcounts, ext)
  }

  /**
   * Runs that are sorted, fresh and sweep-ended; the final transactions of
   * the last `addrcount` mixdepths sent to the external destinations, every
   * other transaction `INTERNAL`; every mixdepth but a pruned last one with
   * its transaction count.
   */
  ghost predicate TumbleShape(s: Schedule, o: TumbleOptions, txcounts: seq<int>, ext: seq<string>)
    requires |txcounts| == o.mixdepthcount && |ext| >= o.addrcount
  {
    var last, upto := o.mixdepthcount - 1, if o.addrcount > 0 then o.addrcount else 0;
    && Runs(s, o)
    && (o.mixdepthcount >= 1 ==> DestinationsUpTo(s, last, upto, ext))
    && (forall m :: 0 <= m < o.mixdepthcount && (o.addrcount < 1 || m != last) ==> Count(s, m) == TxCount(o, txcounts, m))
  }

  /**
   * Apart from the destinations, exactly the planned runs, the last
   * mixdepth reduced to at most its one external sweep when `addrcount >= 1`.
   */
  ghost predicate TumbleContents(s: Schedule, o: TumbleOptions, txcounts: seq<int>, draws: seq<MixdepthDraws>, ext: seq<string>)
    requires DrawsFit(o, txcounts, draws) && |txcounts| == o.mixdepthcount && |ext| >= o.addrcount
  {
    && (o.mixdepthcount < 1 || o.addrcount < 1 ==> s == Planned(o, txcounts, draws, o.mixdepthcount))
    && (o.mixdepthcount >= 1 && o.addrcount >= 1 ==> SameExceptDestinations(s, PrunedPlan(o, txcounts, draws, ext)))
  }

  /** When the first destination is external and the last mixdepth has a transaction, its sweep ends the schedule. */
  ghost predicate TumbleLastSweep(s: Schedule, o: TumbleOptions, txcounts: seq<int>, ext: seq<string>)
    requires |txcounts| == o.mixdepthcount && |ext| >= o.addrcount
  {
    var last := o.mixdepthcount - 1;
    o.mixdepthcount >= 1 && o.addrcount >= 1 && ext[0] != "INTERNAL" && txcounts[last] >= 1 ==>
      && |s| > 0
      && s[|s| - 1].mixdepth == last
      && s[|s| - 1].amount == Sats(0)
      && s[|s| - 1].destination == ext[0]
      && forall k :: 0 <= k < |s| - 1 ==> s[k].mixdepth < last
  }

  /** Offset 0 applied to the planned runs gives the pruned plan. */
  lemma FirstPrunedOfPlan(o: TumbleOptions, txcounts: seq<int>, draws: seq<MixdepthDraws>, ext: seq<string>, t: Schedule, start: int)
    requires DrawsFit(o, txcounts, draws) && 1 <= |txcounts|
    requires t == Planned(o, txcounts, draws, |txcounts|)
    requires start == |Planned(o, txcounts, draws, |txcounts| - 1)|
    ensures 0 <= start <= |t| && |t| - start == TxCount(o, txcounts, |txcounts| - 1)
    ensures |ext| >= 1 ==> FirstPruned(t, start, ext) == PrunedPlan(o, txcounts, draws, ext)
  {
    var last := |txcounts| - 1;
    var p, run := Planned(o, txcounts, draws, last), RunOf(o, txcounts, draws, last);
    assert t == p + run;
    assert t[..start] == p;
    if |run| > 0 && |ext| >= 1 {
      RunOfAt(o, txcounts, draws, last, |run| - 1);
      assert t[|t| - 1] == run[|run| - 1];
    }
  }

  /** The destination loop's outcome over the planned runs is a tumble schedule. */
  lemma TumbleScheduleOf(s: Schedule, t: Schedule, o: TumbleOptions, txcounts: seq<int>, destaddrs: seq<string>, draws: seq<MixdepthDraws>, start: int)
    requires DrawsFit(o, txcounts, draws) && |txcounts| == o.mixdepthcount >= 1
    requires t == Planned(o, txcounts, draws, o.mixdepthcount)
    requires start == |Planned(o, txcounts, draws, o.mixdepthcount - 1)|
    requires forall m :: 0 <= m < o.mixdepthcount ==> Count(t, m) == TxCount(o, txcounts, m)
    requires var ext := ExternalDestinations(o.addrcount, destaddrs);
      OffsetsDone(s, t, o, ext, start, if o.addrcount > 0 then o.addrcount else 0)
    ensures IsTumbleSchedule(s, o, txcounts, destaddrs, draws)
  {
    var ext := ExternalDestinations(o.addrcount, destaddrs);
    var upto := if o.addrcount > 0 then o.addrcount else 0;
    FirstPrunedOfPlan(o, txcounts, draws, ext, t, start);
    TumbleShapeOf(s, t, o, txcounts, ext, start, upto);
    TumbleContentsOf(s, t, o, txcounts, draws, ext, start, upto);
    TumbleLastSweepOf(s, t, o, txcounts, ext, start, upto);
  }

  lemma TumbleShapeOf(s: Schedule, t: Schedule, o: TumbleOptions, txcounts: seq<int>, ext: seq<string>, start: int, upto: int)
    requires |txcounts| == o.mixdepthcount >= 1 && |ext| >= o.addrcount
    requires upto == if o.addrcount > 0 then o.addrcount else 0
    requires forall m :: 0 <= m < o.mixdepthcount ==> Count(t, m) == TxCount(o, txcounts, m)
    requires OffsetsShape(s, t, o, ext, start, upto)
    ensures TumbleShape(s, o, txcounts, ext)
  {
    forall m | 0 <= m < o.mixdepthcount && (o.addrcount < 1 || m != o.mixdepthcount - 1)
      ensures Count(s, m) == TxCount(o, txcounts, m)
    {
      assert Count(s, m) == Count(t, m);
    }
  }

  lemma TumbleContentsOf(s: Schedule, t: Schedule, o: TumbleOptions, txcounts: seq<int>, draws: seq<MixdepthDraws>,
                         ext: seq<string>, start: int, upto: int)
    requires DrawsFit(o, txcounts, draws) && |txcounts| == o.mixdepthcount >= 1 && |ext| >= o.addrcount
    requires upto == if o.addrcount > 0 then o.addrcount else 0
    requires t == Planned(o, txcounts, draws, o.mixdepthcount)
    requires 0 <= start <= |t| && (|ext| >= 1 ==> FirstPruned(t, start, ext) == PrunedPlan(o, txcounts, draws, ext))
    requires OffsetsKept(s, t, ext, start, upto)
    ensures TumbleContents(s, o, txcounts, draws, ext)
  {
  }

  lemma TumbleLastSweepOf(s: Schedule, t: Schedule, o: TumbleOptions, txcounts: seq<int>, ext: seq<string>, start: int, upto: int)
    requires |txcounts| == o.mixdepthcount >= 1 && |ext| >= o.addrcount
    requires upto == if o.addrcount > 0 then o.addrcount else 0
    requires |t| - start == TxCount(o, txcounts, o.mixdepthcount - 1)
    requires OffsetsShape(s, t, o, ext, start, upto)
    ensures TumbleLastSweep(s, o, txcounts, ext)
  {
    var last := o.mixdepthcount - 1;
    if o.addrcount >= 1 && ext[0] != "INTERNAL" && txcounts[last] >= 1 {
      assert start < |t|;
      assert |s| > 0 && s[|s| - 1].mixdepth == last;
      assert LastOfRun(s, |s| - 1);
      assert ExpectedDestination(s, |s| - 1, last, o.addrcount, ext) == ext[0];
    }
  }

  /** The schedule `get_tumble_schedule` builds once the mixdepth source is known to be 0. */
  method GenerateSchedule(o: TumbleOptions, txcounts: seq<int>, destaddrs: seq<string>, draws: seq<MixdepthDraws>)
    returns (s: Schedule)
    requires o.mixdepthsrc == 0 && |txcounts| == o.mixdepthcount
    requires DrawsFit(o, txcounts, draws)
    requires o.mixdepthcount >= 1 ==> TxCount(o, txcounts, 0) >= 1
    ensures IsTumbleSchedule(s, o, txcounts, destaddrs, draws)
  {
    var txList, start := BuildRuns(o, txcounts, draws);
    if o.mixdepthcount < 1 {
      return txList;
    }
    var ext := ExternalDestinations(o.addrcount, destaddrs);
    s := AssignDestinations(txList, o, ext, start);
    TumbleScheduleOf(s, txList, o, txcounts, destaddrs, draws, start);
  }

  /**
   * `get_tumble_schedule`. `txcountDraws` are the raw transaction-count
   * draws (one per mixdepth) and `draws` the other draws of each mixdepth.
   * The caller supplies as many draws as the counts call for, and a first
   * mixdepth with at least one transaction (otherwise the source fails on
   * `tx_list[-1]`).
   */
  method GetTumbleSchedule(o: TumbleOptions, destaddrs: seq<string>, txcountDraws: seq<real>, draws: seq<MixdepthDraws>)
    returns (r: Result<Schedule>)
    requires |txcountDraws| == o.mixdepthcount
    requires o.mixdepthsrc == 0 ==> DrawsFit(o, LowerBoundedInt(txcountDraws, o.mintxcount), draws)
    requires o.mixdepthsrc == 0 && o.mixdepthcount >= 1 ==> TxCount(o, LowerBoundedInt(txcountDraws, o.mintxcount), 0) >= 1
    ensures o.mixdepthsrc != 0 <==> r.Err?
    ensures r.Err? ==> r.error == NotSupported
    ensures r.Ok? ==> IsTumbleSchedule(r.value, o, LowerBoundedInt(txcountDraws, o.mintxcount), destaddrs, draws)
  {
    if o.mixdepthsrc != 0 {
      return Err(NotSupported);
    }
    var txcounts := LowerBoundedInt(txcountDraws, o.mintxcount);
    var s := GenerateSchedule(o, txcounts, destaddrs, draws);
    return Ok(s);
  }
}
