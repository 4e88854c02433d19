# Time-me-out scheduler, trigger switches, RPS scoring and the VP calculator

This project models the decision logic of a Discord bot in Dafny and proves
properties of it. Nothing here talks to Discord or to a file.

- **Schedule store** (`ScheduleStore`): the records of the daily "time-me-out".
  They are keyed by user and guild. The operations are set (replace-by-key), remove,
  get and list.
- **Clock helpers** (`Clock`):
  - instants are whole seconds since the epoch, and a fixed GMT offset is whole hours;
  - the local day is `(t + 3600 * off) div 86400`;
  - `next_occurrence_utc` is modelled, and so is the `H:MM` / `HH:MM` parser of `/timeout`.
- **The scheduler tick** (`Scheduler`): one pass of `timeout_scheduler_task` over one
  record, as a pure function from the record, the current instant and what the platform
  shows. It returns:
  - the updated record;
  - the effects asked of the platform (end notice, timeout request, start announcement);
  - whether the record is written back.

  Whether the member could be found, the live timeout end, and whether applying the
  timeout succeeded are all inputs. The whole tick is a fold of those per-record
  outcomes over the store.
- **Duration texts** (`Durations`): the `Xh` / `Xh Ymin` / `Ymin` renderings that the
  listing and the start announcement produce, and a reader that proves both say the
  right number of minutes.
- **The slash commands' decisions** (`Lifecycle`): `/timeout`, `/timeout_cancel` and
  `/timeouts`, as validation plus the store write, without the reply wording.
- **Trigger switches** (`Triggers`): `is_trigger_enabled` / `set_trigger_enabled` over
  the per-trigger lists of disabled channel and guild ids.
- **Rock-paper-scissors** (`Rps`): the series length clamp, the wins needed, the
  `beats` cycle, round resolution, picks and bailing out.
- **VP calculator** (`VpCalc`): `calculate_vp`. It buys as many of each bundle as fit,
  largest first, and then adds one smallest bundle if anything is still missing.

## Model

| member | source | states |
|---|---|---|
| ScheduleStore.ListFor | main.py:158-161 | the records of one key: every stored record with that key, as often as the store holds it, and nothing else |
| ScheduleStore.ListForHas | main.py:158-161 | a record is listed for a key exactly when it is stored and has that key |
| ScheduleStore.ListForAppend | main.py:158-161 | the records of a store made of two parts are those of the first part followed by those of the second: the listing keeps store order |
| ScheduleStore.Get | main.py:151-156 | the lookup finds nothing exactly when the key has no record, and otherwise the first record of that key |
| ScheduleStore.Without | main.py:165 | dropping a key leaves no record of it, and every other key keeps its records in order |
| ScheduleStore.Upsert | main.py:939-941 | replace-by-key: afterwards the written record is the key's only record, and every other key is untouched |
| ScheduleStore.UpsertKeepsUnique | main.py:939-941 | replace-by-key keeps at most one record per key |
| ScheduleStore.GetOfUnique | main.py:151-156 | in a store with one record per key, looking up a stored record's key returns that record |
| ScheduleStore.UniqueTail | main.py:939-941 | dropping the first record of a store with one record per key leaves such a store, without that key |
| ScheduleStore.UpsertTwice | main.py:939-941 | two writes of the same key in one tick amount to one write of the later record |
| ScheduleStore.Set | main.py:163-176 | after `set_timeout_schedule` the key holds exactly the submitted record, with nothing applied yet; other keys are untouched |
| ScheduleStore.Remove | main.py:178-181 | after `remove_timeout_schedule` the key has no record; other keys are untouched |
| ScheduleStore.SetThenGet | main.py:151-176 | getting right after setting returns the submitted record |
| ScheduleStore.RemoveThenGet | main.py:151-156 | getting right after removing finds nothing |
| ScheduleStore.RemoveKeepsUnique | main.py:178-181 | removal keeps at most one record per key |
| Clock.ScheduledToday | main.py:943-945 | today's `hour:minute` in GMT+off lies on the local day of now, with exactly that wall clock |
| Clock.ScheduledTodayNear | main.py:943-945 | on the local clock, today's scheduled time lies less than a day before or after now |
| Clock.NextOccurrence | main.py:193-201 | the next occurrence is strictly after now, at most one day later, and reads `hour:minute` in GMT+off |
| Clock.NextOccurrenceIsEarliest | main.py:193-201 | no instant strictly between now and the next occurrence reads `hour:minute`: it is the first one |
| Clock.FormatTime | main.py:753 | the echoed time is five characters long and renders the given valid time, so it is the zero-padded `HH:MM` |
| Clock.MatchTimeSound | main.py:185-191 | whatever the pattern and the range test accept is a 1- or 2-digit hour, `:`, and a 2-digit minute of a valid time |
| Clock.ParseTime | main.py:183-191 | an accepted input is, once stripped, a rendering of the returned time, and that time is valid |
| Clock.ParseTimeComplete | main.py:183-191 | every such rendering of a valid time, with any surrounding white space, is accepted as that time; with `ParseTime` this is an if-and-only-if |
| Clock.FormatParseRoundTrip | main.py:183-191 | parsing the echoed time gives the time back |
| Durations.ListedDuration | main.py:792-800 | the listed duration reads back as exactly the record's minutes |
| Durations.AnnouncedDuration | main.py:1000-1006 | the announced duration reads back as exactly the minutes it was made from |
| Durations.RenderingsAgree | main.py:792-800 | the listing's duration text equals the start announcement's for every number of minutes |
| Scheduler.Tick | main.py:912-1010 | for a tick the source gets through (valid clock fields, and today's window inside the years `datetime` holds whenever the tick computes it): only the three stamp fields change; every effect is about the record's key; an unwritten record is unchanged; an unresolved member means no change and no effect; a requested timeout lasts `window_end - now`, which is positive and at most the duration |
| Scheduler.TickEffectCounts | main.py:931-1010 | one end notice exactly when one is due; one timeout request exactly when the record is inside today's window; one start announcement exactly when that request succeeded |
| Scheduler.TickStamps | main.py:938-991 | the applied date moves to today exactly on a missed day or a successful start; a start records the live end (else the window's end) and clears the notice flag; a due notice sets the flag |
| Scheduler.TickNotYetDue | main.py:948-950 | before today's scheduled time no timeout is requested and the apply stamps are kept |
| Scheduler.TickAlreadyHandled | main.py:952-954 | once today is stamped no timeout is requested and the apply stamps are kept |
| Scheduler.TickMissedDay | main.py:956-968 | when the whole window has elapsed, today is stamped and written back, and no timeout is requested |
| Scheduler.TickInsideWindow | main.py:970-994 | inside the window exactly one timeout is requested, for the rest of the window, and it lies in (0, duration]. On success: today stamped, end time recorded (live, else now plus the rest), flag cleared, record written. On failure: the stamps are kept. On success the last effect is the start announcement, sent to the record's announce channel, whose duration reads back as the whole minutes left in the window |
| Scheduler.TickEndNotice | main.py:913-941 | the notice goes out exactly when an end time is known (live first), the flag is not set and that time has passed; it comes first and the record is written; afterwards the flag is set even if the send fails; a record with no stored end time counts as notified |
| Scheduler.TickKeepsArmedWithEnd | main.py:913-991 | a record marked "not notified" always has a stored end time, and ticks keep it so |
| Scheduler.NonPositiveDurationNeverApplies | main.py:956-968 | a record whose duration is not positive is never timed out |
| Scheduler.Run | main.py:889-1010 | successive ticks, each of which the source gets through, keep the key, the offset and a tickable record |
| Scheduler.AtMostOncePerDay | main.py:943-982 | however many ticks fall on one local day, at most one starts a timeout, and none requests one once the day is stamped |
| Scheduler.NoticeOncePerTimeout | main.py:913-991 | between two starts the end notice goes out at most once, and never for a record that already counts as notified |
| Scheduler.Outcomes | main.py:889 | one outcome per record loaded at the start of the tick |
| Scheduler.OutcomeAt | main.py:889-1010 | the outcome at position `i` is the tick of record `i` |
| Scheduler.OutcomesBelong | main.py:889-1010 | every outcome keeps its record's key, leaves its record as it is when nothing is written, and has effects only about that key |
| Scheduler.WriteBack | main.py:939-941 | writing an outcome back: a changed record becomes its key's only record, an unchanged one leaves the key as it was, and every other key is untouched |
| Scheduler.WriteAll | main.py:939-994 | writing all outcomes back leaves every key no outcome is about with the records it had |
| Scheduler.CancelMidTickUndone | main.py:939-941 | a changed record is written back under its key even if the key was removed after the loop loaded the store: a cancel during a tick is undone |
| Scheduler.WriteAllUnique | main.py:939-994 | writing the outcomes back keeps at most one record per key |
| Scheduler.WriteAllEffects | main.py:889-1010 | every effect collected by the tick concerns a record that was loaded |
| Scheduler.WriteAllOthers | main.py:939-994 | keys that were not loaded keep what the current store holds |
| Scheduler.WriteBackFirst | main.py:939-941 | writing back the first record's outcome leaves the other loaded records where they were |
| Scheduler.WriteAllRecords | main.py:939-994 | each loaded record ends up exactly as its own outcome left it |
| Scheduler.TickAll | main.py:883-1010 | over a store with one record per key, after a tick: still one record per key; each record is what its own tick made of it; no new key appears; every effect concerns a stored record, and the effects about each record's key are exactly its own tick's effects, in order. For any store the effects are the records' own tick effects, one block per record, in store order |
| Scheduler.TickAllSpec | main.py:883-1010 | the same facts, about the fold of the outcomes |
| Scheduler.TickEffectsAbsent | main.py:883-1010 | a tick over records none of which has a key asks for no effect about that key |
| Scheduler.TickEffectsOfKey | main.py:883-1010 | in a store with one record per key, the tick's effects about a record's key are exactly that record's own tick effects, in order |
| Scheduler.WriteAllEffectOrder | main.py:889-1010 | the loop collects the effects as the records' own tick effects, one block per record, in store order |
| Scheduler.AnnounceTarget | main.py:997 | the public messages go to the record's stored channel; when no channel was stored they go to the server's system channel |
| Scheduler.CancelledNeverTouched | main.py:178-181 | after a cancel that lands between ticks, the next tick brings no record back and produces no effect for that user and guild |
| Lifecycle.Register | main.py:736-750 | after the duration guard: refused as an invalid time exactly when the time does not parse, as too long exactly when it parses and the total exceeds 28 days, and otherwise the record is written and the next run is the next local occurrence of the time |
| Lifecycle.ScheduleCommandAsWritten | main.py:730-759 | `/timeout` as written: it is refused outside a server and when both duration fields are 0; it succeeds exactly in a server, with fields not both 0, a total of at most 28 days, and a parsable time. The key then holds exactly the new record, other keys are untouched, and the next run is the next local occurrence of the time |
| Lifecycle.ZeroTotalAcceptedAsWritten | main.py:733-742 | the as-written guard accepts 1 hour and -60 minutes with any time that parses, and stores a record of 0 minutes |
| Lifecycle.ZeroTotalNeverApplies | main.py:956-968 | a record of 0 minutes is never timed out by any tick |
| Lifecycle.ScheduleCommand | main.py:730-759 | `/timeout` with the intended guard: it succeeds exactly in a server, with a total of 1 minute to 28 days, and a parsable time. The key then holds exactly the new record, other keys are untouched, and the reported next run is the next local occurrence of the time |
| Lifecycle.ZeroTotalRejected | main.py:733-735 | the intended guard turns 1 hour and -60 minutes away, whatever the time |
| Lifecycle.AsWrittenDiffersOnlyBelowOneMinute | main.py:733-735 | the as-written command and the intended one answer differently exactly for requests from a server whose fields are not both 0 but whose total is below 1 minute |
| Lifecycle.OverflowAcceptedAsWritten | main.py:733-743 | the as-written command accepts -20000000 hours and 0 minutes; the stored record's window ends before the year 1 on every day up to 2255, so a due tick of it raises |
| Lifecycle.OverflowRejected | main.py:733-735 | the intended guard turns that request away |
| Lifecycle.ScheduleCommandWritesRegistrable | main.py:736-750 | every record the command writes has a valid time, a listed offset and a duration of 1 minute to 28 days, so the scheduler can tick it |
| Lifecycle.RegistrableFits | main.py:956-959 | a record the intended command writes has a window that `datetime` can hold at any tick a day after the year 1 began and 29 days before the year 10000, so its tick gets through |
| Lifecycle.CancelCommand | main.py:761-772 | `/timeout_cancel`: outside a server it is refused; it is refused for lack of a record exactly when the key has none; otherwise it removes the key and keeps the rest |
| Lifecycle.ListAll | main.py:786-812 | one listing line per record, in order |
| Lifecycle.ListCommand | main.py:774-817 | `/timeouts`: it is refused outside a server, and for lack of records exactly when the key has none. Otherwise there is one line per record, in store order, whose time is the five-character `HH:MM` and reads back as the record's, whose duration reads back as the record's, and whose next run falls within the coming day at the record's wall-clock time |
| Lifecycle.ListReadsBack | main.py:786-812 | each listed time is the five-character `HH:MM`; each listed time and duration parses back to the record's own, and each next run falls within the coming day at the record's wall-clock time in its offset |
| Triggers.IsEnabled | main.py:108-111 | fixes the decision table only: a trigger the guild disabled server-wide is off in every channel; otherwise it is on exactly when the channel has not disabled it. `Triggers.SetEnabled`, `Triggers.EnableChannelIff` and `Triggers.EnableServerWide` relate it to the settings writer |
| Triggers.RemoveFirst | main.py:117-118 | `list.remove` drops one occurrence of a present id and leaves the list alone otherwise |
| Triggers.RemoveFirstNoDup | main.py:117-118 | removing from a duplicate-free list keeps it duplicate-free and takes the id out entirely |
| Triggers.AddAbsent | main.py:120-121 | adding an id that is not present appends it once; a present id leaves the list as it is |
| Triggers.Switch | main.py:114-129 | enabling takes the id out, disabling puts it in once; a duplicate-free list stays so |
| Triggers.SetEnabled | main.py:113-130 | only the list of the chosen scope and trigger changes; afterwards a disabled trigger reports disabled, for every channel of the guild when server-wide; duplicate-free settings stay so |
| Triggers.EnableChannelIff | main.py:108-126 | after enabling in a channel, the trigger reports enabled there exactly when the guild has not disabled it server-wide |
| Triggers.EnableServerWide | main.py:108-118 | after enabling server-wide, the trigger reports enabled in a channel exactly when that channel has not disabled it |
| Triggers.DisableThenEnable | main.py:113-130 | disabling a trigger that was on in a scope, then enabling it again, restores that trigger's lists |
| Rps.Other | main.py:287-288 | the other player is never the player asked about |
| Rps.Beats | main.py:313 | no move beats itself |
| Rps.BeatsCycle | main.py:313-328 | `beats` is a three-cycle, and of two distinct moves exactly one beats the other |
| Rps.ClampBestOf | main.py:274 | fixes the clamp only: the series length is the request clamped to 1..10 |
| Rps.WinsNeeded | main.py:278 | the wins needed are the least strict majority of the series length |
| Rps.NewGame | main.py:270-278 | a new game is valid, at round 1, with no scores and no picks |
| Rps.RoundWinner | main.py:321-328 | no round winner exactly on equal picks; the first picker wins exactly when their move beats the other; the other player wins exactly when the other move beats the first |
| Rps.Resolve | main.py:304-351 | closing a round adds one point to its winner and none to anyone else, moves to the next round and clears the picks; the series ends exactly when a score reaches the target, with the player ahead as champion (player 2 on a level score); an open valid game stays valid, and a series that ends with the round is won by that round's winner |
| Rps.Choose | main.py:336-366 | a pick keeps a valid game valid; a finished series takes no picks; the first pick of a round (or a changed one) is held and nothing else moves; the other player's pick scores the round against the held pick, one point to its winner, and moves to the next round, keeping the series length and target; the series stays open while both scores are below the target and, once one reaches it, the player ahead is champion, player 2 on a level score; a series it ends is won by that round's winner |
| Rps.Bail | main.py:294-302 | a bail ends an open series with the other player as champion and the scores as they were |
| Rps.PickOrderIrrelevant | main.py:306-328 | the outcome of a round does not depend on who picked first |
| Rps.FinishedOnScore | main.py:339-348 | a series won on score took at most `2 * wins_needed - 1` decisive rounds, and the champion leads |
| VpCalc.BundlesDescending | vpcalc.py:2-3 | the table has six sizes in strictly decreasing order, all at least 475 and all with a positive price |
| VpCalc.PriceOfTable | vpcalc.py:2 | the price of each table size is its table entry |
| VpCalc.Render | vpcalc.py:29 | a cart line's text is never empty |
| VpCalc.RenderAll | vpcalc.py:29 | one text per cart line, in cart order |
| VpCalc.Details | vpcalc.py:29-31 | the details text is empty exactly for an empty cart, and a single line is the whole text |
| VpCalc.Bump | vpcalc.py:25 | `cart[v] = cart.get(v, 0) + 1`: a size not in the cart is appended with count 1; a size in the cart keeps the cart's length, its first entry counts one more and every other entry stays as it was |
| VpCalc.BumpAtEnd | vpcalc.py:25 | when the size sits in the last entry only, that entry's count goes up by one |
| VpCalc.BumpSmallest | vpcalc.py:23-26 | the top-up keeps the cart well formed, adds 475 points and the smallest price, counts one more smallest bundle, and changes nothing larger |
| VpCalc.LoopStep | vpcalc.py:17-21 | buying `remaining // vp` bundles of a size keeps the loop facts and adds their points and price |
| VpCalc.LoopSkip | vpcalc.py:15-18 | a size larger than what is missing is skipped without breaking the loop facts |
| VpCalc.TakeSize | vpcalc.py:14-21 | one pass of the loop keeps the loop facts, the remaining points and the running total |
| VpCalc.TakeLargestFirst | vpcalc.py:11-21 | after the loop, every tried size left less than itself uncovered and nothing was overpaid; the total is the cart's price; either nothing is missing or every size was tried |
| VpCalc.Settled | vpcalc.py:14-23 | a loop that covered the shortfall exactly leaves a cart of the greedy shape |
| VpCalc.TopUp | vpcalc.py:23-26 | a positive rest after the loop: one more smallest bundle covers the shortfall, overshoots by less than 475, adds its price and gives the greedy shape |
| VpCalc.TopUpCount | vpcalc.py:23-25 | after the top-up, the smallest size is bought the ceiling of `rest / 475` times |
| VpCalc.Cover | vpcalc.py:11-26 | a positive shortfall is covered by a well-formed cart of the greedy shape, with overshoot below 475 and a total equal to the cart's price |
| VpCalc.CalculateVp | vpcalc.py:1-31 | nothing missing gives an empty text and 0. Otherwise the shortfall is covered with overshoot below 475, the total is the sum of count times price, every larger size leaves less than itself uncovered, the smallest is bought just often enough, and the text lists the cart |

## Left out

- Discord: messages, member lookup, `member.timeout`, channels and the log channel. They
  are inputs of the tick (`Scheduler.Observation`), or effects it returns, or they are
  left out.
- JSON persistence (`load_*` / `save_*`). The store is an in-memory sequence. A file that
  cannot be read is not modelled.
- The polling loop itself (`tasks.loop`). One tick is a fold over the store, and `Run` is
  any sequence of ticks over one record.
- The named-time-zone branch of the tick (main.py:891-897). It depends on daylight
  saving time, so only the fixed GMT offset is modelled.
- Microseconds and ISO date strings. Instants are whole seconds and dates are local day
  numbers. A stored end time that does not parse is not modelled.
- Scheduler.Tick: ticks the source raises out of are outside the precondition
  (`TickDefined`): a record whose time or offset `datetime` rejects, and a due tick
  whose window end falls outside the years 1 to 9999 (the `OverflowError` of
  main.py:958-959). The source stops the whole loop for them. `now` is taken to be
  an instant `datetime` can hold.
- Scheduler.CancelledNeverTouched: only covers a cancel between ticks. The loop loads
  the store once (main.py:885) and awaits the platform per record (main.py:905, 935,
  974); a cancel that lands meanwhile is undone when the loop writes the stale record
  back (`Scheduler.CancelMidTickUndone`). Interleaved commands are not modelled.
- Scheduler.WriteAll: its own contract speaks only of the store. The order of the
  collected effects is stated by `Scheduler.WriteAllEffectOrder`, and their split by
  key by `Scheduler.TickAll`.
- Lifecycle.ListCommand: it requires the caller's records to have a valid time and a
  duration of at least 0 minutes. The listing of a negative stored duration (which
  only the as-written `/timeout` can store) is not modelled.
- Reply wording, emoji, the time-zone label and the `/timeouts_user` variant. Its logic
  is the same as `/timeouts`.
- Clock.ParseTime: the pattern's `\d` is taken as the ASCII digits only. Python also
  accepts other Unicode decimal digits.
- VpCalc.CalculateVp: it also returns the cart it priced, as an extra output. Prices and
  balances are integers, because the slash command's floats are not modelled.
- Rps: the buttons, the messages, the challenge view and the coin flip. That only the two players may pick is built into the `Seat` type.
- Randomness (8-ball, `/random`, coin flip, the 20% "shut up" reply), text to speech and
  its usage accounting, mimic, snipe, the other auto-replies, and `temp.py`: these are
  network, file or random behaviour with no invariants of their own.

## Findings

| source | as written | input that shows it | evidently intended | confidence | as-written member | corrected member |
|---|---|---|---|---|---|---|
| main.py:733 | `/timeout` rejects the request only when both duration fields are 0 | 1 hour and -60 minutes: the total is 0, so a 0-minute record is stored, and every day it is skipped as already elapsed | reject any request whose total is below 1 minute, as the reply text says | not executed | Lifecycle.ZeroTotalAcceptedAsWritten | Lifecycle.ZeroTotalRejected |
| main.py:733-743 | a negative total passes both the zero guard and the 28-day cap | -20000000 hours and 0 minutes: the stored window ends before the year 1, so the first due tick raises `OverflowError` at main.py:958-959 and the scheduler loop stops for every user | reject any total below 1 minute, which keeps every window within the years `datetime` holds | not executed | Lifecycle.OverflowAcceptedAsWritten | Lifecycle.RegistrableFits |

The end notice sets the record's "notified" flag even when sending the notice fails
(main.py:933-938). The model does the same.
