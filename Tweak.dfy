/**
 * `tweak_tumble_schedule` (jmclient/jmclient/schedule.py): after a failed
 * attempt, the entry after `last_completed` is changed to improve the odds
 * of the retry. A sweep is retried with one counterparty fewer (but never
 * fewer than the configured minimum); any other amount has the
 * not-yet-done entries of its mixdepth given fresh fractions, the last of
 * them reset to a sweep.
 */
module Tweaks {
  import opened Schedules

  /** `[s for s in schedule if s[0] == m]`. */
  function MixdepthEntries(s: Schedule, m: int): (r: Schedule)
    ensures |r| <= |s|
    ensures forall i :: 0 <= i < |r| ==> r[i].mixdepth == m
    ensures forall k :: 0 <= k < |s| && s[k].mixdepth == m ==> s[k] in r
    decreases |s|
  {
    if s == [] then []
    else if s[0].mixdepth == m then [s[0]] + MixdepthEntries(s[1..], m)
    else MixdepthEntries(s[1..], m)
  }

  /** The filter goes entry by entry: it keeps order and multiplicity. */
  lemma {:induction false} MixdepthEntriesConcat(a: Schedule, b: Schedule, m: int)
    ensures MixdepthEntries(a + b, m) == MixdepthEntries(a, m) + MixdepthEntries(b, m)
    decreases |a|
  {
    if a == [] {
      assert a + b == b;
    } else {
      assert (a + b)[1..] == a[1..] + b;
      MixdepthEntriesConcat(a[1..], b, m);
    }
  }

  /** Python's `l.index(x)`: the position of the first element equal to `x`. */
  function IndexOf(l: Schedule, x: Entry): (r: nat)
    requires x in l
    ensures r < |l| && l[r] == x
    ensures forall j :: 0 <= j < r ==> l[j] != x
    decreases |l|
  {
    if l[0] == x then 0 else 1 + IndexOf(l[1..], x)
  }

  /** `len(tobedone)`: the entries of the altered entry's mixdepth from its first occurrence on. */
  function ToBeDone(s: Schedule, lastCompleted: int): (r: nat)
    requires -1 <= lastCompleted < |s| - 1
    ensures 1 <= r <= |MixdepthEntries(s, s[lastCompleted + 1].mixdepth)|
  {
    var altered := s[lastCompleted + 1];
    var entries := MixdepthEntries(s, altered.mixdepth);
    |entries| - IndexOf(entries, altered)
  }

  function Max(a: int, b: int): (r: int)
    ensures r >= a && r >= b && (r == a || r == b)
  {
    if a >= b then a else b
  }

  /**
   * What the caller must provide: an entry after `lastCompleted`, and for a
   * non-sweep a run of `len(tobedone)` entries from there that fits in the
   * schedule (otherwise the source raises `IndexError`), together with one
   * new fraction per entry of that run.
   */
  predicate CanTweak(s: Schedule, lastCompleted: int, newFracs: seq<Decimal>) {
    && -1 <= lastCompleted < |s| - 1
    && (!IsSweep(s[lastCompleted + 1].amount) ==>
          var n := ToBeDone(s, lastCompleted);
          lastCompleted + n < |s| && |newFracs| == n)
  }

  /**
   * What `tweak_tumble_schedule` makes of `schedule`: the same length and
   * nothing up to `lastCompleted` changed; a sweep retried with one
   * counterparty fewer (never below `minimumMakers`); otherwise only the
   * amounts of the `len(tobedone)` entries after `lastCompleted` rewritten,
   * to the new fractions, the last of them to a sweep.
   */
  predicate IsTweakOf(schedule: Schedule, lastCompleted: int, minimumMakers: int, newFracs: seq<Decimal>, r: Schedule)
    requires CanTweak(schedule, lastCompleted, newFracs)
  {
    var altered := schedule[lastCompleted + 1];
    && |r| == |schedule|
    && (forall k :: 0 <= k <= lastCompleted ==> r[k] == schedule[k])
    && (IsSweep(altered.amount) ==>
          r == schedule[lastCompleted + 1 := altered.(makercount := Max(altered.makercount - 1, minimumMakers))])
    && (!IsSweep(altered.amount) ==>
          var n := ToBeDone(schedule, lastCompleted);
          && (forall k :: 0 <= k < |r| ==> r[k] == schedule[k].(amount := r[k].amount))
          && (forall k :: 0 <= k < |r| && !(lastCompleted < k <= lastCompleted + n) ==> r[k] == schedule[k])
          && (forall k :: lastCompleted < k < lastCompleted + n ==> r[k].amount == Frac(newFracs[k - lastCompleted - 1]))
          && r[lastCompleted + n].amount == Sats(0))
  }

  /**
   * `tweak_tumble_schedule` on a copy of the schedule. `newFracs` stands for
   * `get_amount_fractions` rescaled to what is left to spend, and
   * `minimumMakers` for the `POLICY` `minimum_makers` setting.
   */
  method TweakTumbleSchedule(schedule: Schedule, lastCompleted: int, minimumMakers: int, newFracs: seq<Decimal>)
    returns (r: Schedule)
    requires CanTweak(schedule, lastCompleted, newFracs)
    ensures IsTweakOf(schedule, lastCompleted, minimumMakers, newFracs, r)
  {
    r := schedule;
    var altered := r[lastCompleted + 1];
    if IsSweep(altered.amount) {
      var newCount := altered.makercount - 1;
      if newCount < minimumMakers {
        newCount := minimumMakers;
      }
      r := r[lastCompleted + 1 := altered.(makercount := newCount)];
    }
    if !IsSweep(altered.amount) {
      var n := ToBeDone(r, lastCompleted);
      for i := 0 to n
        invariant |r| == |schedule|
        invariant forall k :: 0 <= k < |r| ==> r[k] == schedule[k].(amount := r[k].amount)
        invariant forall k :: 0 <= k < |r| && !(lastCompleted < k <= lastCompleted + i) ==> r[k] == schedule[k]
        invariant forall k :: lastCompleted < k <= lastCompleted + i ==> r[k].amount == Frac(newFracs[k - lastCompleted - 1])
      {
        var j := lastCompleted + 1 + i;
        r := r[j := r[j].(amount := Frac(newFracs[i]))];
      }
      r := r[lastCompleted + n := r[lastCompleted + n].(amount := Sats(0))];
    }
  }

  /** The description of the tweak leaves no choice: it determines the new schedule. */
  lemma TweakDetermined(s: Schedule, lastCompleted: int, minimumMakers: int, newFracs: seq<Decimal>, r1: Schedule, r2: Schedule)
    requires CanTweak(s, lastCompleted, newFracs)
    requires IsTweakOf(s, lastCompleted, minimumMakers, newFracs, r1)
    requires IsTweakOf(s, lastCompleted, minimumMakers, newFracs, r2)
    ensures r1 == r2
  {
    if !IsSweep(s[lastCompleted + 1].amount) {
      var n := ToBeDone(s, lastCompleted);
      forall k | 0 <= k < |r1| ensures r1[k] == r2[k] {
        if lastCompleted < k < lastCompleted + n {
          assert r1[k].amount == r2[k].amount;
        } else if k == lastCompleted + n {
          assert r1[k].amount == r2[k].amount;
        }
      }
    }
  }

  /**
   * A tweak never touches which mixdepth an entry spends from or whether it
   * is done, so the record of completed transactions stays accurate.
   */
  lemma TweakKeepsProgress(s: Schedule, lastCompleted: int, minimumMakers: int, newFracs: seq<Decimal>, r: Schedule)
    requires CanTweak(s, lastCompleted, newFracs)
    requires IsTweakOf(s, lastCompleted, minimumMakers, newFracs, r)
    ensures |r| == |s|
    ensures forall k :: 0 <= k < |s| ==> r[k].mixdepth == s[k].mixdepth && r[k].completed == s[k].completed
  {
    if IsSweep(s[lastCompleted + 1].amount) {
      forall k | 0 <= k < |s| ensures r[k].mixdepth == s[k].mixdepth && r[k].completed == s[k].completed {
        if k != lastCompleted + 1 {
          assert r[k] == s[k];
        }
      }
    }
  }

  /** A mixdepth whose entries are exactly those at positions `lo` to `hi - 1`. */
  predicate Block(s: Schedule, m: int, lo: int, hi: int) {
    && 0 <= lo <= hi <= |s|
    && forall k :: 0 <= k < |s| ==> (s[k].mixdepth == m <==> lo <= k < hi)
  }

  lemma {:induction false} MixdepthEntriesOfBlock(s: Schedule, m: int, lo: int, hi: int)
    requires Block(s, m, lo, hi)
    ensures MixdepthEntries(s, m) == s[lo..hi]
    decreases |s|
  {
    if s != [] {
      var t := s[1..];
      if s[0].mixdepth == m {
        assert lo == 0;
        assert Block(t, m, 0, hi - 1) by {
          forall k | 0 <= k < |t| ensures t[k].mixdepth == m <==> 0 <= k < hi - 1 {
            assert t[k] == s[k + 1];
          }
        }
        MixdepthEntriesOfBlock(t, m, 0, hi - 1);
        assert s[lo..hi] == [s[0]] + t[0..hi - 1];
      } else if lo < hi {
        assert Block(t, m, lo - 1, hi - 1) by {
          forall k | 0 <= k < |t| ensures t[k].mixdepth == m <==> lo - 1 <= k < hi - 1 {
            assert t[k] == s[k + 1];
          }
        }
        MixdepthEntriesOfBlock(t, m, lo - 1, hi - 1);
        forall k | 0 <= k < hi - lo ensures s[lo..hi][k] == t[lo - 1..hi - 1][k] {
          assert t[lo - 1 + k] == s[lo + k];
        }
      } else {
        assert Block(t, m, 0, 0) by {
          forall k | 0 <= k < |t| ensures t[k].mixdepth != m {
            assert t[k] == s[k + 1];
          }
        }
        MixdepthEntriesOfBlock(t, m, 0, 0);
      }
    }
  }

  /**
   * When the altered entry's mixdepth occupies one contiguous block (as in
   * every schedule `get_tumble_schedule` makes) and no earlier entry of the
   * block equals it, the rewritten run is exactly the rest of that block:
   * its last entry, the mixdepth's final transaction, becomes the sweep.
   */
  lemma TweakCoversRestOfBlock(s: Schedule, lastCompleted: int, lo: int, hi: int)
    requires -1 <= lastCompleted < |s| - 1
    requires Block(s, s[lastCompleted + 1].mixdepth, lo, hi)
    requires forall k :: lo <= k <= lastCompleted ==> s[k] != s[lastCompleted + 1]
    ensures lo <= lastCompleted + 1 < hi
    ensures ToBeDone(s, lastCompleted) == hi - (lastCompleted + 1)
  {
    var altered := s[lastCompleted + 1];
    MixdepthEntriesOfBlock(s, altered.mixdepth, lo, hi);
    var entries := s[lo..hi];
    assert entries[lastCompleted + 1 - lo] == altered;
  }

  /** Two identical entries of mixdepth 0 followed by one of mixdepth 1. */
  function DuplicateExample(): Schedule {
    var e := Entry(0, Frac(Decimal("0.5")), 3, "INTERNAL", Decimal("1.5"), Num(0));
    var f := Entry(1, Frac(Decimal("0.25")), 3, "INTERNAL", Decimal("2.0"), Num(0));
    [e, e, f]
  }

  /**
   * The run is positional, so when an earlier entry of the same mixdepth is
   * identical to the altered one, `tobedone` is one longer than the rest of
   * the mixdepth and the rewrite spills into the next mixdepth: its entry
   * becomes the sweep.
   */
  lemma TweakSpillsPastDuplicate(minimumMakers: int, newFracs: seq<Decimal>, r: Schedule)
    requires CanTweak(DuplicateExample(), 0, newFracs)
    requires IsTweakOf(DuplicateExample(), 0, minimumMakers, newFracs, r)
    ensures ToBeDone(DuplicateExample(), 0) == 2
    ensures r[2].mixdepth == 1 && r[2].amount == Sats(0)
  {
    var s := DuplicateExample();
    var e, f := s[0], s[2];
    assert s[1..] == [e, f] && [e, f][1..] == [f] && [f][1..] == [];
    assert MixdepthEntries([f], 0) == [];
    assert MixdepthEntries([e, f], 0) == [e];
    assert MixdepthEntries(s, 0) == [e, e];
    assert IndexOf([e, e], e) == 0;
    assert e.amount.fraction.text[2] == '5';
  }
}
