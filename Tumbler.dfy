/**
 * Run sequencing of the tumbler script (scripts/tumbler.py): the
 * normalisation of a schedule read back with `--restart`, and the
 * `taker_finished` callback, with its nested `unconf_update`, that moves
 * the run along after each transaction attempt. The schedule file is a
 * ghost string, the wallet and the event loop are recorded as events.
 */
module Tumbler {
  import opened Wrappers
  import opened Text
  import opened Schedules
  import opened Tweaks

  // ---------------------------------------------------------------- restart

  /** `[s for s in schedule if s[5] != 1]`: every entry marked done is dropped, wherever it sits. */
  function Unfinished(s: Schedule): (r: Schedule)
    ensures |r| <= |s|
    ensures forall i :: 0 <= i < |r| ==> r[i].completed != Num(1)
    decreases |s|
  {
    if s == [] then []
    else (if s[0].completed == Num(1) then [] else [s[0]]) + Unfinished(s[1..])
  }

  /** Filtering splits over concatenation, so the entries that stay keep their relative order. */
  lemma {:induction false} UnfinishedConcat(a: Schedule, b: Schedule)
    ensures Unfinished(a + b) == Unfinished(a) + Unfinished(b)
    decreases |a|
  {
    if a == [] {
      assert a + b == b;
    } else {
      assert (a + b)[1..] == a[1..] + b;
      UnfinishedConcat(a[1..], b);
    }
  }

  /** A schedule with everything marked done leaves nothing. */
  lemma {:induction false} UnfinishedOfDone(s: Schedule)
    requires forall k :: 0 <= k < |s| ==> s[k].completed == Num(1)
    ensures Unfinished(s) == []
    decreases |s|
  {
    if s != [] {
      UnfinishedOfDone(s[1..]);
    }
  }

  /** A schedule with nothing marked done is kept as it is; in particular filtering twice is filtering once. */
  lemma {:induction false} UnfinishedOfUnmarked(s: Schedule)
    requires forall k :: 0 <= k < |s| ==> s[k].completed != Num(1)
    ensures Unfinished(s) == s
    decreases |s|
  {
    if s != [] {
      UnfinishedOfUnmarked(s[1..]);
    }
  }

  datatype RestartOutcome =
    | Resumed(schedule: Schedule, waitedOn: Option<string>)
    | InvalidHead

  /** The transaction id the restart waits for: output 0 of it. */
  function Outpoint(txid: string): string {
    txid + ":0"
  }

  /**
   * The head check of the restart: a head already broadcast (its completed
   * field a 64-character transaction id) is waited for and dropped; a head
   * that is neither that nor 0 is rejected. The caller must leave at least
   * one unfinished entry (otherwise the source fails on `schedule[0]`).
   */
  function NormaliseForRestart(s: Schedule): (r: RestartOutcome)
    requires Unfinished(s) != []
    ensures r.Resumed? && r.waitedOn.Some? <==> Unfinished(s)[0].completed.Txid? && |Unfinished(s)[0].completed.id| == 64
    ensures r.Resumed? && r.waitedOn.Some? ==>
      r.waitedOn.value == Unfinished(s)[0].completed.id + ":0" && r.schedule == Unfinished(s)[1..]
    ensures r.InvalidHead? <==> !(Unfinished(s)[0].completed.Txid? && |Unfinished(s)[0].completed.id| == 64)
                                && Unfinished(s)[0].completed != Num(0)
    ensures r.Resumed? && r.waitedOn.None? ==> r.schedule == Unfinished(s) && r.schedule[0].completed == Num(0)
  {
    var u := Unfinished(s);
    match u[0].completed
    case Txid(id) =>
      if |id| == 64 then Resumed(u[1..], Some(Outpoint(id))) else InvalidHead
    case Num(n) =>
      if n != 0 then InvalidHead else Resumed(u, None)
  }

  /**
   * After a transaction id is dropped, the new head is not checked again:
   * it may itself be a transaction id, which the run then takes for a
   * transaction still to do.
   */
  lemma HeadNotRecheckedAfterTxid()
    ensures var t := seq(64, _ => 'a');
      var e := Entry(0, Sats(0), 3, "INTERNAL", Decimal("1.0"), Txid(t));
      NormaliseForRestart([e, e]) == Resumed([e], Some(t + ":0"))
  {
    var t := seq(64, _ => 'a');
    var e := Entry(0, Sats(0), 3, "INTERNAL", Decimal("1.0"), Txid(t));
    assert [e, e][1..] == [e] && [e][1..] == [];
    assert Unfinished([e]) == [e];
    assert Unfinished([e, e]) == [e, e];
  }

  /** When everything before entry `i` is done and entry `i` is not, the filtered schedule starts at entry `i`. */
  lemma {:induction false} UnfinishedFrom(s: Schedule, i: int)
    requires 0 <= i < |s| && s[i].completed != Num(1)
    requires forall k :: 0 <= k < i ==> s[k].completed == Num(1)
    ensures Unfinished(s) == [s[i]] + Unfinished(s[i + 1..])
    decreases i
  {
    if i > 0 {
      UnfinishedFrom(s[1..], i - 1);
      assert s[1..][i - 1 + 1..] == s[i + 1..];
    }
  }

  /** A run that stopped right after broadcasting entry `i` resumes by waiting for it, with what follows it. */
  lemma RestartAfterBroadcast(s: Schedule, i: int, txid: string)
    requires 0 <= i < |s| && |txid| == 64
    requires forall k :: 0 <= k < i ==> s[k].completed == Num(1)
    requires s[i].completed == Txid(txid)
    ensures Unfinished(s) != []
    ensures NormaliseForRestart(s) == Resumed(Unfinished(s[i + 1..]), Some(txid + ":0"))
  {
    UnfinishedFrom(s, i);
  }

  /** The same, starting from the schedule file: the checkpoint written after the broadcast is read back intact. */
  lemma RestartFromFileAfterBroadcast(s: Schedule, i: int, txid: string, validate: Validator)
    requires forall k :: 0 <= k < |s| ==> Persistable(s[k], validate)
    requires 0 <= i < |s| && |txid| == 64
    requires forall k :: 0 <= k < i ==> s[k].completed == Num(1)
    requires s[i].completed == Txid(txid)
    ensures ParseSchedule(ReadLines(ScheduleToText(s)), validate) == Ok(s)
    ensures Unfinished(s) != [] && NormaliseForRestart(s) == Resumed(Unfinished(s[i + 1..]), Some(txid + ":0"))
  {
    RoundTrip(s, validate);
    RestartAfterBroadcast(s, i, txid);
  }

  // ---------------------------------------------------------------- the running tumbler

  /** What the run does outside the schedule, in order. */
  datatype Event =
    | WaitedFor(outpoint: string)            // `restart_waiter`
    | Written(s: Schedule)                   // the schedule file rewritten with `schedule_to_text(s)`
    | CacheIndexUpdated                      // `wallet.update_cache_index`
    | UtxosUpdated(txid: string)             // `remove_old_utxos` and `add_new_utxos`
    | Prompted(addr: string, silenced: bool) // the destination prompt's accepted answer; whether other output was silenced
    | ContinueAfter(minutes: Decimal)        // `reactor.callLater(waittime*60, clientStart)`
    | Retry                                  // `reactor.callLater(0, clientStart)`
    | Stopped                                // `reactor.stop`

  /** How `taker_finished` was called: `fromtx` is `"unconfirmed"`, true, or false. */
  datatype FromTx = Unconfirmed | MidRun | Final

  /** The position of the first address `validate` accepts. */
  function FirstValid(inputs: seq<string>, validate: Validator): (j: nat)
    requires exists k :: 0 <= k < |inputs| && validate(inputs[k]).valid
    ensures j < |inputs| && validate(inputs[j]).valid
    ensures forall i :: 0 <= i < j ==> !validate(inputs[i]).valid
    decreases |inputs|
  {
    if validate(inputs[0]).valid then 0
    else
      assert exists k :: 0 <= k < |inputs[1..]| && validate(inputs[1..][k]).valid by {
        var k :| 0 <= k < |inputs| && validate(inputs[k]).valid;
        assert inputs[1..][k - 1] == inputs[k];
      }
      1 + FirstValid(inputs[1..], validate)
  }

  /** The two schedules agree on the mixdepth and the completion of every entry. */
  predicate SameProgress(a: Schedule, b: Schedule) {
    |a| == |b| && forall k :: 0 <= k < |a| ==> a[k].mixdepth == b[k].mixdepth && a[k].completed == b[k].completed
  }

  class Tumbler {
    /** `taker.schedule` and `taker.schedule_index`. */
    var schedule: Schedule
    var index: int
    /** `jm_single().debug_silence[0]`. */
    var debugSilence: bool
    /** The schedule last written to the schedule file. */
    ghost var persisted: Schedule
    ghost var events: seq<Event>
    /** `validate_address` and the `minimum_makers` policy. */
    const validate: Validator
    const minimumMakers: int

    /**
     * The record in the schedule file is accurate about what is done: the
     * changes made in memory since the last write only touch amounts,
     * counterparty counts and destinations.
     */
    ghost predicate Valid()
      reads this
    {
      SameProgress(persisted, schedule)
    }

    /** What the schedule file holds. */
    ghost function File(): string
      reads this
    {
      ScheduleToText(persisted)
    }

    /**
     * What `Valid()` is for: the schedule file reads back, and what it says
     * is done, entry by entry, is what the run in memory has done.
     */
    lemma FileShowsProgress()
      requires Valid() && forall i :: 0 <= i < |persisted| ==> Persistable(persisted[i], validate)
      ensures var r := ParseSchedule(ReadLines(File()), validate);
        && r.Ok? && |r.value| == |schedule|
        && forall k :: 0 <= k < |schedule| ==>
             r.value[k].mixdepth == schedule[k].mixdepth && r.value[k].completed == schedule[k].completed
    {
      RoundTrip(persisted, validate);
    }

    /** A tumbler about to run `s`, already written to the schedule file. */
    constructor (s: Schedule, validate: Validator, minimumMakers: int, ghost history: seq<Event>)
      ensures Valid()
      ensures schedule == s && persisted == s && index == 0 && !debugSilence
      ensures events == history
    {
      this.schedule := s;
      this.index := 0;
      this.debugSilence := false;
      this.validate := validate;
      this.minimumMakers := minimumMakers;
      this.persisted := s;
      this.events := history;
    }

    /**
     * `unconf_update`: the wallet's cache index is updated, then entry
     * `index` is marked with the transaction id (`addtolog`) or 1, and the
     * whole schedule is written to the file.
     */
    method UnconfUpdate(addtolog: bool, takerTxid: string)
      requires Valid() && 0 <= index < |schedule|
      modifies this
      ensures Valid()
      ensures var flag := if addtolog then Txid(takerTxid) else Num(1);
        schedule == old(schedule)[old(index) := old(schedule)[old(index)].(completed := flag)]
      ensures persisted == schedule
      ensures index == old(index) && debugSilence == old(debugSilence)
      ensures events == old(events) + [CacheIndexUpdated, Written(schedule)]
    {
      var flag := if addtolog then Txid(takerTxid) else Num(1);
      schedule := schedule[index := schedule[index].(completed := flag)];
      persisted := schedule;
      events := events + [CacheIndexUpdated, Written(schedule)];
    }

    /** The `while True` prompt: the first of the operator's inputs that `validate` accepts. */
    method ReadValidAddress(inputs: seq<string>) returns (addr: string)
      requires debugSilence
      requires exists k :: 0 <= k < |inputs| && validate(inputs[k]).valid
      ensures addr == inputs[FirstValid(inputs, validate)]
    {
      var j := 0;
      while true
        invariant 0 <= j < |inputs|
        invariant forall i :: 0 <= i < j ==> !validate(inputs[i]).valid
        invariant exists k :: j <= k < |inputs| && validate(inputs[k]).valid
        decreases |inputs| - j
      {
        var v := validate(inputs[j]);
        if v.valid {
          FirstValidIsFirst(inputs, validate, j);
          return inputs[j];
        }
        j := j + 1;
      }
    }

    /**
     * A confirmed transaction before the last: entry `index` is marked 1 and
     * written; if the next entry asks for an address, the operator is asked
     * (with other output silenced) until a valid one is given, which goes
     * into the next entry only; then the wallet takes in the transaction and
     * the next one starts after `waittime` minutes.
     */
    method ConfirmedMidRun(waittime: Decimal, txid: string, takerTxid: string, inputs: seq<string>)
      requires Valid() && 0 <= index && index + 1 < |schedule|
      requires schedule[index + 1].destination == "addrask" ==>
        exists k :: 0 <= k < |inputs| && validate(inputs[k]).valid
      modifies this
      ensures Valid()
      ensures var marked := old(schedule)[old(index) := old(schedule)[old(index)].(completed := Num(1))];
        && persisted == marked
        && events == old(events) + [CacheIndexUpdated, Written(marked)]
                     + (if old(schedule)[old(index) + 1].destination == "addrask"
                        then [Prompted(inputs[FirstValid(inputs, validate)], true)] else [])
                     + [UtxosUpdated(txid), ContinueAfter(waittime)]
        && (old(schedule)[old(index) + 1].destination == "addrask" ==>
              && schedule == marked[old(index) + 1 := marked[old(index) + 1].(destination := inputs[FirstValid(inputs, validate)])]
              && !debugSilence)
        && (old(schedule)[old(index) + 1].destination != "addrask" ==>
              schedule == marked && debugSilence == old(debugSilence))
      ensures index == old(index)
    {
      UnconfUpdate(false, takerTxid);
      if schedule[index + 1].destination == "addrask" {
        debugSilence := true;
        var destaddr := ReadValidAddress(inputs);
        events := events + [Prompted(destaddr, debugSilence)];
        debugSilence := false;
        SameProgressOfDestination(persisted, schedule, index + 1, destaddr);
        schedule := schedule[index + 1 := schedule[index + 1].(destination := destaddr)];
      }
      events := events + [UtxosUpdated(txid), ContinueAfter(waittime)];
    }

    /**
     * A failed attempt: the index steps back to the last completed entry
     * and the schedule is tweaked from the failed one; the file is left as
     * it was and the attempt is retried at once.
     */
    method FailedAttempt(newFracs: seq<Decimal>)
      requires Valid() && 0 <= index < |schedule|
      requires CanTweak(schedule, index - 1, newFracs)
      modifies this
      ensures Valid()
      ensures index == old(index) - 1
      ensures IsTweakOf(old(schedule), old(index) - 1, minimumMakers, newFracs, schedule)
      ensures persisted == old(persisted) && debugSilence == old(debugSilence)
      ensures events == old(events) + [Retry]
    {
      index := index - 1;
      var tweaked := TweakTumbleSchedule(schedule, index, minimumMakers, newFracs);
      TweakKeepsProgress(schedule, index, minimumMakers, newFracs, tweaked);
      schedule := tweaked;
      events := events + [Retry];
    }

    /**
     * `taker_finished`. `res` is the outcome of the attempt, `txid` the id
     * in `txdetails`, `takerTxid` the taker's `txid`, `inputs` what the
     * operator types at the address prompt, and `newFracs` the fresh
     * fractions a tweak uses.
     */
    method TakerFinished(res: bool, fromtx: FromTx, waittime: Decimal, txid: string, takerTxid: string,
                         inputs: seq<string>, newFracs: seq<Decimal>)
      requires Valid() && 0 <= index < |schedule|
      requires fromtx == MidRun && res ==> index + 1 < |schedule|
      requires fromtx == MidRun && res && schedule[index + 1].destination == "addrask" ==>
        exists k :: 0 <= k < |inputs| && validate(inputs[k]).valid
      requires fromtx == MidRun && !res ==> CanTweak(schedule, index - 1, newFracs)
      modifies this
      ensures Valid()
      // the broadcast is checkpointed with its id, and nothing else happens
      ensures fromtx == Unconfirmed ==>
        && schedule == old(schedule)[old(index) := old(schedule)[old(index)].(completed := Txid(takerTxid))]
        && persisted == schedule
        && index == old(index) && debugSilence == old(debugSilence)
        && events == old(events) + [CacheIndexUpdated, Written(schedule)]
      // a confirmation is recorded before the next entry is touched, and before the run continues
      ensures fromtx == MidRun && res ==>
        var marked := old(schedule)[old(index) := old(schedule)[old(index)].(completed := Num(1))];
        && persisted == marked
        && index == old(index)
        && (old(schedule)[old(index) + 1].destination == "addrask" ==>
              schedule == marked[old(index) + 1 := marked[old(index) + 1].(destination := inputs[FirstValid(inputs, validate)])])
        && (old(schedule)[old(index) + 1].destination != "addrask" ==>
              schedule == marked && debugSilence == old(debugSilence))
        && (old(schedule)[old(index) + 1].destination == "addrask" ==> !debugSilence)
        && events == old(events) + [CacheIndexUpdated, Written(marked)]
                     + (if old(schedule)[old(index) + 1].destination == "addrask"
                        then [Prompted(inputs[FirstValid(inputs, validate)], true)] else [])
                     + [UtxosUpdated(txid), ContinueAfter(waittime)]
      ensures fromtx == MidRun && !res ==>
        && index == old(index) - 1
        && IsTweakOf(old(schedule), old(index) - 1, minimumMakers, newFracs, schedule)
        && persisted == old(persisted) && debugSilence == old(debugSilence)
        && events == old(events) + [Retry]
      // the end of the run: the last entry marked and written on success, nothing written on failure
      ensures fromtx == Final && res ==>
        var marked := old(schedule)[old(index) := old(schedule)[old(index)].(completed := Num(1))];
        && schedule == marked && persisted == marked && index == old(index) && debugSilence == old(debugSilence)
        && events == old(events) + [Written(marked)] + [Stopped]
      ensures fromtx == Final && !res ==>
        && schedule == old(schedule) && persisted == old(persisted) && index == old(index)
        && debugSilence == old(debugSilence)
        && events == old(events) + [Stopped]
    {
      if fromtx == Unconfirmed {
        UnconfUpdate(true, takerTxid);
        return;
      }
      if fromtx == MidRun {
        if res {
          ConfirmedMidRun(waittime, txid, takerTxid, inputs);
        } else {
          FailedAttempt(newFracs);
        }
      } else {
        if res {
          schedule := schedule[index := schedule[index].(completed := Num(1))];
          persisted := schedule;
          events := events + [Written(schedule)];
        }
        events := events + [Stopped];
      }
    }
  }

  /** Giving an entry a new destination keeps the progress record in step. */
  lemma SameProgressOfDestination(a: Schedule, b: Schedule, k: int, d: string)
    requires SameProgress(a, b) && 0 <= k < |b|
    ensures SameProgress(a, b[k := b[k].(destination := d)])
  {
  }

  lemma FirstValidIsFirst(inputs: seq<string>, validate: Validator, j: int)
    requires 0 <= j < |inputs| && validate(inputs[j]).valid
    requires forall i :: 0 <= i < j ==> !validate(inputs[i]).valid
    ensures FirstValid(inputs, validate) == j
  {
  }

  // ---------------------------------------------------------------- starting a restarted run

  const LoadFailed := "Failed to load schedule"
  const FirstEntryInvalid := "Error: first schedule entry is invalid."

  /**
   * The `--restart` start: the schedule file's lines are parsed, finished
   * entries dropped, the head checked (and waited for when it was already
   * broadcast), and the result written back before the run begins.
   */
  method Restart(lines: seq<string>, validate: Validator, minimumMakers: int) returns (r: Result<Tumbler>)
    requires ParseSchedule(lines, validate).Ok? ==> Unfinished(ParseSchedule(lines, validate).value) != []
    ensures ParseSchedule(lines, validate).Err? ==> r == Err(LoadFailed + ": " + ParseSchedule(lines, validate).error)
    ensures ParseSchedule(lines, validate).Ok? ==>
      var n := NormaliseForRestart(ParseSchedule(lines, validate).value);
      && (n.InvalidHead? ==> r == Err(FirstEntryInvalid))
      && (n.Resumed? ==>
            && r.Ok? && fresh(r.value) && r.value.Valid()
            && r.value.schedule == n.schedule && r.value.persisted == n.schedule && r.value.index == 0
            && r.value.events ==
                 (if n.waitedOn.Some? then [WaitedFor(n.waitedOn.value)] else []) + [Written(n.schedule)])
  {
    var loaded := GetSchedule(lines, validate);
    if loaded.Err? {
      return Err(LoadFailed + ": " + loaded.error);
    }
    var n := NormaliseForRestart(loaded.value);
    if n.InvalidHead? {
      return Err(FirstEntryInvalid);
    }
    var history: seq<Event> := if n.waitedOn.Some? then [WaitedFor(n.waitedOn.value)] else [];
    var t := new Tumbler(n.schedule, validate, minimumMakers, history + [Written(n.schedule)]);
    return Ok(t);
  }
}
