# Tumbler schedules, modelled in Dafny

This project models how the JoinMarket tumbler handles its schedule. A
schedule is a list of planned coinjoin transactions
`[mixdepth, amount, makercount, destaddr, waittime, completed]`. The model
covers:

- the schedule text format: `schedule_to_text` and `get_schedule`;
- `tweak_tumble_schedule`, which rewrites what is left of a schedule after a
  failed attempt;
- the discrete part of `get_tumble_schedule`, with the random draws taken as
  inputs;
- `human_readable_schedule_entry`;
- in the tumbler script:
  - the normalisation of a schedule read back with `--restart`;
  - the `taker_finished` callback with its nested `unconf_update`, which
    checkpoints progress to the schedule file and drives the run.

Files:

- `Wrappers.dfy`: `Option` and `Result`.
- `Text.dfy`: the Python 2 byte-string operations the file format rests on:
  `strip`, `split`, `join`, `int()`, `str(int)` and `readlines`.
- `Schedules.dfy`: entries, the text format and its round trip, the parser
  loop, and the human-readable formatter.
- `Tweak.dfy`: `tweak_tumble_schedule`.
- `TumbleGen.dfy`: `get_tumble_schedule` and `lower_bounded_int`.
- `Tumbler.dfy`: the restart normaliser and a `Tumbler` class.
  - Its fields are `schedule` and `index` (the taker's), `debugSilence`,
    a ghost `persisted` schedule standing for the file, and a ghost trace
    of `events`.
  - The events record writes, waits, wallet updates and reactor calls.

How values are represented:

- Floats (fractional amounts, wait times) are `Decimal` tokens holding the
  literal they are read from and printed as.
  - The only float fact used is the zero test: an amount equal to `0` means
    sweep, and `0.0 == 0` holds in Python.
- `validate_address` is a parameter of type `string -> Validation`.
- The operator's answers at the address prompt are a sequence of inputs.
- The random draws of `get_tumble_schedule` and of the tweak are parameters.

What the code does at four points where one might expect otherwise:

- **Restart filter.** The restart drops every entry marked `1`, wherever it
  sits, not only those at the front (`Tumbler.Unfinished`).
- **Restart head check.** After the restart drops a broadcast head entry, it
  does not check the new head again. The resumed schedule can therefore start
  with another transaction id (`Tumbler.HeadNotRecheckedAfterTxid`).
- **Failed attempt.** A failed attempt tweaks the schedule in memory only.
  The file is not rewritten in that branch (`Tumbler.Tumbler.FailedAttempt`).
- **Tweak range.** The tweak's range is positional. When an earlier entry is
  identical to the failed one, the rewritten run reaches into the next
  mixdepth (`Tweaks.TweakSpillsPastDuplicate`). The run is exactly the rest of
  the mixdepth under the conditions of `Tweaks.TweakCoversRestOfBlock`.

## Model

| member | source | states |
|---|---|---|
| Text.ParseIntOfIntToString | jmclient/jmclient/schedule.py:32 | `int()` reads back what `str()` wrote for every integer |
| Text.ParseIntSpacedSign | jmclient/jmclient/schedule.py:32 | Python 2 `int()` accepts blanks between the sign and the digits: `int("- 5") == -5` |
| Text.SplitJoin | jmclient/jmclient/schedule.py:27-28 | splitting a `sep`-join of fields free of `sep` gives back exactly those fields |
| Text.ReadLinesCons | jmclient/jmclient/schedule.py:22 | `readlines` cuts after each newline and keeps the newline on its line |
| Text.IntToString | jmclient/jmclient/schedule.py:202 | `str(n)` is never blank-edged and never holds `.`, `,`, a newline or `#` |
| Schedules.ParseDecimal | jmclient/jmclient/schedule.py:41 | `float()` succeeds exactly on a decimal literal once stripped, and the value holds that stripped literal |
| Schedules.ParseAmount | jmclient/jmclient/schedule.py:35-38 | the amount is a fraction exactly when its field contains `.`, else satoshis |
| Schedules.ParseCompletion | jmclient/jmclient/schedule.py:42-44 | the completed field stays a txid exactly when it is 64 characters long once stripped |
| Schedules.ParseLineMeaning | jmclient/jmclient/schedule.py:26-50 | parse failure exactly when the line does not split into six comma fields or one of the five conversions fails; with all fields converted, a stripped destination that is neither `INTERNAL` nor valid gives `Invalid address: <dest>,<message>`; success exactly otherwise, and then the entry is the six converted fields with the destination stripped |
| Schedules.GetSchedule | jmclient/jmclient/schedule.py:19-53 | the append loop over the file's lines returns exactly the result of the parser specification |
| Schedules.ParseLinesOk | jmclient/jmclient/schedule.py:23-53 | success exactly when every non-comment line parses, with one entry per such line, in order |
| Schedules.ParseLinesErr | jmclient/jmclient/schedule.py:23-53 | a failure carries the message of the first non-comment line that does not parse |
| Schedules.CommentsIgnored | jmclient/jmclient/schedule.py:24-25 | dropping the `#` lines, wherever they stand, changes nothing |
| Schedules.ScheduleToTextShape | jmclient/jmclient/schedule.py:201-202 | the text is `""` for an empty schedule, else one newline-separated line per entry with no trailing newline, each line the six fields in order |
| Schedules.RoundTrip | jmclient/jmclient/schedule.py:19-53 | reading back the lines of `schedule_to_text(s)` gives `Ok(s)` for every schedule the format can carry |
| Schedules.AmountShown | jmclient/jmclient/schedule.py:194 | the given amount is shown unless it is missing or 0, then the entry's own |
| Schedules.DestinationShown | jmclient/jmclient/schedule.py:196 | the given destination is shown unless it is missing or empty, then the entry's own |
| Schedules.HumanReadableScheduleEntry | jmclient/jmclient/schedule.py:191-199 | the mixdepth and amount phrases in front, the destination and counterparty phrases at the end, and the length of the four joined by `", "` |
| Schedules.HumanReadableExactly | jmclient/jmclient/schedule.py:199 | those three facts leave exactly one string: the four phrases joined by `", "` |
| Tweaks.MixdepthEntries | jmclient/jmclient/schedule.py:171 | the entries of one mixdepth: every one of them is kept, nothing of another mixdepth, never more entries than the schedule |
| Tweaks.MixdepthEntriesConcat | jmclient/jmclient/schedule.py:171 | the selection of a concatenation is the concatenation of the selections, so it keeps the schedule's order |
| Tweaks.IndexOf | jmclient/jmclient/schedule.py:172 | `list.index`: the first position holding an equal element |
| Tweaks.ToBeDone | jmclient/jmclient/schedule.py:173 | `len(tobedone)` is at least 1 and at most the number of entries of the mixdepth |
| Tweaks.Max | jmclient/jmclient/schedule.py:152-154 | the raised counterparty count is the larger of the two values |
| Tweaks.TweakTumbleSchedule | jmclient/jmclient/schedule.py:137-189 | same length, prefix through `last_completed` unchanged; a sweep only gets `max(makercount - 1, minimum_makers)`; otherwise only the amounts of the `len(tobedone)` entries after `last_completed` change, to the new fractions, the last to 0 |
| Tweaks.TweakDetermined | jmclient/jmclient/schedule.py:146-188 | the description of the tweak determines its result completely |
| Tweaks.TweakKeepsProgress | jmclient/jmclient/schedule.py:146-188 | no entry's mixdepth or completion changes |
| Tweaks.MixdepthEntriesOfBlock | jmclient/jmclient/schedule.py:171 | a mixdepth held in one contiguous block has exactly that block for its entries |
| Tweaks.TweakCoversRestOfBlock | jmclient/jmclient/schedule.py:171-188 | with the mixdepth contiguous and no identical earlier entry, the rewritten run is exactly the rest of the mixdepth |
| Tweaks.TweakSpillsPastDuplicate | jmclient/jmclient/schedule.py:171-188 | with two identical mixdepth-0 entries before one of mixdepth 1, a tweak after the first gives `len(tobedone) == 2`, and the mixdepth-1 entry becomes the sweep |
| TumbleGen.Trunc | jmclient/jmclient/schedule.py:79 | `int()` on a float truncates toward zero |
| TumbleGen.LowerBoundedInt | jmclient/jmclient/schedule.py:78-79 | each draw truncated, or the lower bound when the truncation is below it |
| TumbleGen.Repeat | jmclient/jmclient/schedule.py:113 | `[x] * n` has `n` copies, none when `n` is not positive |
| TumbleGen.ExternalDestinations | jmclient/jmclient/schedule.py:112-113 | `max(addrcount, len(destaddrs))` destinations: `addrask` placeholders, then exactly the given addresses |
| TumbleGen.AppendRun | jmclient/jmclient/schedule.py:101-108 | one `INTERNAL`, not-done transaction per draw appended, nothing before changed |
| TumbleGen.AddMixdepth | jmclient/jmclient/schedule.py:85-110 | the list grows by exactly mixdepth `m`'s planned run, built from its draws with the bumped count and ending in a sweep; the shape invariant is kept |
| TumbleGen.RunStep | jmclient/jmclient/schedule.py:101-110 | the appended run, its final amount reset, keeps the runs sorted, sweep-ended and counted |
| TumbleGen.RunPlanned | jmclient/jmclient/schedule.py:101-110 | the appended draws, their final amount reset to 0, are mixdepth `m`'s planned run |
| TumbleGen.BuildRuns | jmclient/jmclient/schedule.py:84-110 | the list is exactly the planned runs of all mixdepths, in order, all `INTERNAL`, sorted, sweep-ended, each mixdepth with its bumped count |
| TumbleGen.FirstPrunedOfPlan | jmclient/jmclient/schedule.py:114-130 | offset 0 applied to the planned runs gives the pruned plan, the last run standing at its bumped count |
| TumbleGen.LastIndex | jmclient/jmclient/schedule.py:117-120 | the position of the last transaction of a mixdepth, or -1 when it has none |
| TumbleGen.AssignLastDestination | jmclient/jmclient/schedule.py:117-120 | the reversed search gives that last transaction the destination and changes nothing else |
| TumbleGen.RemoveFirstRemoved | jmclient/jmclient/schedule.py:130 | removing the first pending transaction by value removes just that one |
| TumbleGen.PruneMixdepth | jmclient/jmclient/schedule.py:121-130 | the mixdepth's external transactions zeroed and its `INTERNAL` ones removed, the rest kept in order |
| TumbleGen.PrunedRun | jmclient/jmclient/schedule.py:121-130 | a run that is `INTERNAL` but for its last keeps only that one, as a sweep, if it is external |
| TumbleGen.FirstOffsetStep | jmclient/jmclient/schedule.py:114-130 | offset 0 gives the runs before the last mixdepth's unchanged, then that mixdepth's final transaction as a sweep to `ext[0]` if it has one and `ext[0]` is external; counts of the other mixdepths kept |
| TumbleGen.LaterOffsetDestinations | jmclient/jmclient/schedule.py:114-120 | a later offset sends its mixdepth's final transaction to its address |
| TumbleGen.FirstOffset | jmclient/jmclient/schedule.py:114-130 | after offset 0, the last mixdepth's final transaction is sent to `ext[0]` and that mixdepth is pruned; apart from destinations the list is the offset-0 result, and the other runs keep their counts |
| TumbleGen.AssignOffset | jmclient/jmclient/schedule.py:114-130 | each pass of the loop over `range(addrcount)` extends the destination invariant by one offset |
| TumbleGen.AssignDestinations | jmclient/jmclient/schedule.py:114-130 | after the loop, each of the last `addrcount` mixdepths ends at its address and every other transaction is `INTERNAL`; apart from destinations the list is the offset-0 result; runs keep their shape and counts |
| TumbleGen.TumbleScheduleOf | jmclient/jmclient/schedule.py:84-135 | the destination loop's outcome over the planned runs has the three properties listed for `GetTumbleSchedule` |
| TumbleGen.GenerateSchedule | jmclient/jmclient/schedule.py:84-135 | with `mixdepthsrc == 0`, the two loops build a schedule with those three properties |
| TumbleGen.GetTumbleSchedule | jmclient/jmclient/schedule.py:63-135 | error, `NotSupported`, exactly when `mixdepthsrc != 0`; otherwise, with the counts bounded below by `mintxcount`: apart from destinations exactly the planned runs, the last mixdepth pruned to at most one sweep when `addrcount >= 1`; the last `addrcount` mixdepths end at their destinations, all else `INTERNAL`; if also `ext[0] != "INTERNAL"` and the last count is at least 1, the schedule ends in that mixdepth's one sweep to `ext[0]` |
| Tumbler.Unfinished | scripts/tumbler.py:99 | no entry marked 1 is left |
| Tumbler.UnfinishedConcat | scripts/tumbler.py:99 | the filter works entry by entry and keeps the relative order |
| Tumbler.UnfinishedOfUnmarked | scripts/tumbler.py:99 | a schedule with nothing marked 1 comes through unchanged |
| Tumbler.UnfinishedOfDone | scripts/tumbler.py:99-100 | a fully done schedule filters to nothing, which the head check cannot take |
| Tumbler.UnfinishedFrom | scripts/tumbler.py:99 | after a done prefix, the filtered schedule starts at the first unfinished entry |
| Tumbler.NormaliseForRestart | scripts/tumbler.py:100-111 | a 64-character txid head is waited for as `txid:0` and dropped; a 0 head keeps the list; any other head is rejected |
| Tumbler.HeadNotRecheckedAfterTxid | scripts/tumbler.py:100-111 | after dropping a txid head, a second txid head is accepted |
| Tumbler.RestartAfterBroadcast | scripts/tumbler.py:99-108 | a run stopped right after a broadcast resumes by waiting for that transaction and continues with what follows it |
| Tumbler.RestartFromFileAfterBroadcast | scripts/tumbler.py:147-151 | the checkpoint written after a broadcast reads back intact, and restarting from it waits for that transaction |
| Tumbler.Restart | scripts/tumbler.py:90-113 | a load failure or a bad head stops the run; otherwise the normalised schedule is written before the run starts, after the wait |
| Tumbler.FirstValid | scripts/tumbler.py:185-189 | the first input the validator accepts, every earlier one rejected |
| Tumbler.Tumbler.UnconfUpdate | scripts/tumbler.py:134-151 | the cache index is updated, then entry `index` is marked (txid or 1) and the whole schedule written; nothing else changes |
| Tumbler.Tumbler.FileShowsProgress | scripts/tumbler.py:134-151 | for entries the format can carry, the file reads back, and each entry's mixdepth and completion equal those in memory, because the changes since the last write touch neither |
| Tumbler.Tumbler.ReadValidAddress | scripts/tumbler.py:185-191 | the prompt loop ends on the first valid input and returns it |
| Tumbler.Tumbler.ConfirmedMidRun | scripts/tumbler.py:172-202 | entry `index` marked 1 and written before the address prompt, which runs with other output silenced and whose answer is the first valid input and goes into the next entry only, not written; silence is off afterwards; then the wallet update and the wait |
| Tumbler.Tumbler.FailedAttempt | scripts/tumbler.py:203-219 | the index steps back by one, the schedule becomes its tweak from there, the file is untouched, a retry follows at once |
| Tumbler.Tumbler.TakerFinished | scripts/tumbler.py:131-237 | per outcome: a txid checkpoint and nothing more; a confirmation written before the address prompt (the event order says so), the prompt run with silence on, then the continuation, silence kept afterwards unless an `addrask` prompt turns it off; a tweak and retry with file and silence untouched; at the end, the last entry marked and written or nothing, then stop |

## Left out

- Randomness and float arithmetic are inputs to the model.
  - This covers `get_amount_fractions`, `rand_pow_array`, `rand_norm_array`,
    `rand_exp_array`, the rescaling by `tobespent` in the tweak, and
    `round(wait, 2)`.
  - Their values are parameters; their distributions and sums are not
    modelled.
- `str(float)` formatting is not modelled. A fraction or wait time is printed
  as the literal it holds.
- Schedules.ParseDecimal: `float()` accepts more than the model does, since
  exponents, `inf` and `nan` are not modelled.
- Tweaks.IndexOf: it compares floats by their literal, so `0.5` and `0.50`
  differ here but are equal in Python.
  - This matters only for `list.index` in the tweak and `list.remove` in the
    pruning.
- Tweaks.TweakTumbleSchedule: two cases, in which the source raises
  `IndexError`, are preconditions rather than modelled paths. The caller must
  ensure both are in range:
  - the entry after `last_completed`;
  - the run of `len(tobedone)` entries.
- TumbleGen.GetTumbleSchedule: two cases are preconditions rather than
  modelled paths.
  - The draws have the lengths the (bumped) transaction counts give, as the
    source draws them. So every count is non-negative: a negative
    `mintxcount`, which can leave a count below 0, is not modelled.
  - The first mixdepth must have at least one transaction. Otherwise the
    source fails on `tx_list[-1]`.
- Tumbler.NormaliseForRestart: it requires at least one unfinished entry.
  The source fails on `schedule[0]` otherwise.
- Tumbler.Tumbler.TakerFinished: the preconditions stand in for situations the
  source does not handle.
  - It requires `0 <= index`, so Python's negative indexing is not modelled.
  - A mid-run success requires a next entry.
  - An `addrask` prompt requires that some input is eventually valid. The
    source would otherwise loop for ever.
- Tumbler.Restart: the failure messages are reduced to one string each, with
  no schedule file name.
- The taker itself is not part of this model: no `Taker`, `clientStart`,
  `JMTakerClientProtocolFactory`, and no advancing of `schedule_index`
  before each attempt.
  - The constructor starts the index at 0.
- The normal start (`scripts/tumbler.py`:115-121) is not modelled as a method.
  It writes `schedule_to_text` of what `TumbleGen.GetTumbleSchedule` returns,
  in the same way `Tumbler.Restart` writes the restarted schedule.
- The following are recorded as events only, with no behaviour modelled:
  - `restart_waiter`, the blocking poll for a confirmation, is the event
    `WaitedFor`.
  - The wallet calls `update_cache_index`, `remove_old_utxos` and
    `add_new_utxos`.
  - `reactor.callLater` and `reactor.stop`.
- Left out entirely:
  - file I/O (the file is the ghost `persisted` schedule, whose text is
    `schedule_to_text` of it);
  - logging, `TUMBLE.log` and printed messages, including the
    human-readable log lines of `unconf_update`;
  - option parsing, the wallet password loop and `sync_wallet`;
  - the regtest hooks.
