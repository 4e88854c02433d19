/** One pass of the time-me-out scheduler (`timeout_scheduler_task`) as a pure
    function. For each stored record it decides whether to send the "timeout is
    over" notice, whether today's timeout is not yet due, already handled, missed
    altogether, or to be applied for the rest of today's window; it returns the
    updated record, the side effects asked of the chat platform, and whether the
    record is written back.

    What the platform does is an input (`Observation`): whether the member could be
    resolved, the member's live timeout end before the tick, whether applying the
    timeout succeeded, and the live end read right after applying it. */
module Scheduler {
  import opened Wrappers
  import opened Clock
  import opened ScheduleStore
  import opened Durations

  datatype Observation =
    | Unresolved
    | Resolved(liveEnd: Option<int>, applyOk: bool, liveEndAfterApply: Option<int>)

  /** Where announcements go: the record's channel, or the guild's system channel
      when the record has none (channel id 0). */
  datatype Target = Channel(id: int) | SystemChannel

  datatype Effect =
    | EndNotice(key: Key, target: Target)
    | ApplyTimeout(key: Key, seconds: int)
    | StartNotice(key: Key, target: Target, duration: string)

  datatype Kind = NoticeKind | ApplyKind | StartKind

  function KindOf(e: Effect): Kind {
    match e
    case EndNotice(_, _) => NoticeKind
    case ApplyTimeout(_, _) => ApplyKind
    case StartNotice(_, _, _) => StartKind
  }

  /** Number of effects of one kind. */
  function Count(effs: seq<Effect>, kind: Kind): nat {
    if |effs| == 0 then 0
    else (if KindOf(effs[0]) == kind then 1 else 0) + Count(effs[1..], kind)
  }

  lemma {:induction false} CountAppend(a: seq<Effect>, b: seq<Effect>, kind: Kind)
    ensures Count(a + b, kind) == Count(a, kind) + Count(b, kind)
  {
    if |a| == 0 {
      assert a + b == b;
    } else {
      assert (a + b)[1..] == a[1..] + b;
      CountAppend(a[1..], b, kind);
    }
  }

  /** The effects about key `k`, in their order. */
  function EffectsFor(effs: seq<Effect>, k: Key): (r: seq<Effect>)
    ensures |r| <= |effs|
    ensures forall j :: 0 <= j < |r| ==> r[j].key == k
  {
    if |effs| == 0 then []
    else (if effs[0].key == k then [effs[0]] else []) + EffectsFor(effs[1..], k)
  }

  lemma {:induction false} EffectsForAppend(a: seq<Effect>, b: seq<Effect>, k: Key)
    ensures EffectsFor(a + b, k) == EffectsFor(a, k) + EffectsFor(b, k)
  {
    if |a| == 0 {
      assert a + b == b;
    } else {
      assert (a + b)[1..] == a[1..] + b;
      EffectsForAppend(a[1..], b, k);
    }
  }

  /** Filtering effects that are all about `k` keeps them all; filtering effects
      none of which is about `k` keeps none. */
  lemma {:induction false} EffectsForUniform(effs: seq<Effect>, k: Key)
    ensures (forall j :: 0 <= j < |effs| ==> effs[j].key == k) ==> EffectsFor(effs, k) == effs
    ensures (forall j :: 0 <= j < |effs| ==> effs[j].key != k) ==> EffectsFor(effs, k) == []
  {
    if |effs| > 0 {
      EffectsForUniform(effs[1..], k);
      assert forall j :: 0 <= j < |effs| - 1 ==> effs[1..][j] == effs[j + 1];
      assert effs == [effs[0]] + effs[1..];
    }
  }

  datatype Outcome = Outcome(record: Schedule, effects: seq<Effect>, persisted: bool)

  /** The record's clock fields are ones `datetime.time` and `timezone` accept;
      otherwise the source raises out of the tick. */
  predicate TickReady(s: Schedule) {
    ValidTime(s.hour, s.minute) && ValidOffset(s.gmtOffset)
  }

  /** Local seconds of 0001-01-01T00:00 and of 10000-01-01T00:00: `datetime` holds
      exactly the wall clocks from the first up to (not including) the second. */
  const FirstLocalSecond: int := -62135596800
  const EndLocalSecond: int := 253402300800

  /** Today's window ends at a wall clock `datetime` can hold; otherwise adding the
      duration to the scheduled start raises `OverflowError` out of the tick. */
  predicate WindowFits(s: Schedule, now: int)
    requires TickReady(s)
  {
    FirstLocalSecond <= LocalSeconds(WindowEnd(s, now), s.gmtOffset) < EndLocalSecond
  }

  /** The source gets through the record's tick: its clock fields are valid and,
      when the tick goes on to compute today's window, that window fits. */
  predicate TickDefined(s: Schedule, now: int, obs: Observation) {
    TickReady(s) && (obs.Resolved? && Due(s, now) ==> WindowFits(s, now))
  }

  /** Where the tick's public messages go: the record's own channel, or the
      server's system channel when no channel was stored. */
  function AnnounceTarget(s: Schedule): (r: Target)
    ensures r == SystemChannel <==> s.channelId == 0
    ensures r.Channel? ==> r.id == s.channelId
  {
    if s.channelId != 0 then Channel(s.channelId) else SystemChannel
  }

  /** The notice flag as the tick reads it: a missing entry counts as "already
      notified" exactly when no end time was ever stored. */
  function EffectiveNotified(s: Schedule): bool {
    s.endNotified.GetOr(s.lastEndAt.None?)
  }

  /** The end time the notice step trusts: the live one, else the stored one. */
  function KnownEnd(s: Schedule, liveEnd: Option<int>): Option<int> {
    if liveEnd.Some? then liveEnd else s.lastEndAt
  }

  predicate NoticeDue(s: Schedule, now: int, liveEnd: Option<int>) {
    KnownEnd(s, liveEnd).Some? && !EffectiveNotified(s) && now >= KnownEnd(s, liveEnd).value
  }

  function Today(s: Schedule, now: int): int {
    LocalDay(now, s.gmtOffset)
  }

  function WindowStart(s: Schedule, now: int): int
    requires TickReady(s)
  {
    ScheduledToday(now, s.hour, s.minute, s.gmtOffset)
  }

  function WindowEnd(s: Schedule, now: int): int
    requires TickReady(s)
  {
    WindowStart(s, now) + SecondsPerMinute * s.durationMinutes
  }

  /** One record's share of a tick. */
  function Tick(s: Schedule, now: int, obs: Observation): (o: Outcome)
    requires TickDefined(s, now, obs)
    // only the three stamping fields ever change
    ensures o.record.(lastApplyDate := s.lastApplyDate, lastEndAt := s.lastEndAt, endNotified := s.endNotified) == s
    ensures forall i :: 0 <= i < |o.effects| ==> o.effects[i].key == s.KeyOf()
    ensures !o.persisted ==> o.record == s
    ensures obs.Unresolved? ==> o == Outcome(s, [], false)
    // a timeout is only ever requested for part of today's window
    ensures forall i :: 0 <= i < |o.effects| && o.effects[i].ApplyTimeout? ==>
              o.effects[i].seconds == WindowEnd(s, now) - now
              && 0 < o.effects[i].seconds <= SecondsPerMinute * s.durationMinutes
  {
    match obs
    case Unresolved => Outcome(s, [], false)
    case Resolved(liveEnd, applyOk, liveEndAfterApply) =>
      var due := NoticeDue(s, now, liveEnd);
      var s1 := if due then s.(endNotified := Some(true)) else s;
      var notices := if due then [EndNotice(s.KeyOf(), AnnounceTarget(s))] else [];
      var today := Today(s, now);
      var start := WindowStart(s, now);
      var end := WindowEnd(s, now);
      if now < start || s1.lastApplyDate == Some(today) then
        Outcome(s1, notices, due)
      else if now >= end then
        Outcome(s1.(lastApplyDate := Some(today)), notices, true)
      else
        var remaining := end - now;
        var request := notices + [ApplyTimeout(s.KeyOf(), remaining)];
        if !applyOk then
          Outcome(s1, request, due)
        else
          var started := StartNotice(s.KeyOf(), AnnounceTarget(s), AnnouncedDuration(remaining / 60));
          Outcome(s1.(lastApplyDate := Some(today),
                      lastEndAt := Some(liveEndAfterApply.GetOr(now + remaining)),
                      endNotified := Some(false)),
                  request + [started], true)
  }

  // ------------------------------------------------------------ decision table

  /** Today's timeout is due: the scheduled time has come and today is not yet handled. */
  predicate Due(s: Schedule, now: int)
    requires TickReady(s)
  {
    WindowStart(s, now) <= now && s.lastApplyDate != Some(Today(s, now))
  }

  /** Due, and today's window has not yet elapsed. */
  predicate InWindow(s: Schedule, now: int)
    requires TickReady(s)
  {
    Due(s, now) && now < WindowEnd(s, now)
  }

  /** Due, but the whole window already elapsed (the bot was down through it). */
  predicate Missed(s: Schedule, now: int)
    requires TickReady(s)
  {
    Due(s, now) && now >= WindowEnd(s, now)
  }

  predicate Started(s: Schedule, now: int, obs: Observation)
    requires TickReady(s)
  {
    obs.Resolved? && InWindow(s, now) && obs.applyOk
  }

  lemma CountSingle(e: Effect, kind: Kind)
    ensures Count([e], kind) == if KindOf(e) == kind then 1 else 0
  {
    assert [e][1..] == [];
  }

  lemma CountAppendOne(a: seq<Effect>, e: Effect)
    ensures forall kind :: Count(a + [e], kind) == Count(a, kind) + (if KindOf(e) == kind then 1 else 0)
  {
    forall kind
      ensures Count(a + [e], kind) == Count(a, kind) + (if KindOf(e) == kind then 1 else 0)
    {
      CountAppend(a, [e], kind);
      CountSingle(e, kind);
    }
  }

  /** Which effects a tick asks for: one end notice exactly when it is due, one
      timeout request exactly when the record is inside today's window, and one
      start announcement exactly when that request succeeded. */
  lemma TickEffectCounts(s: Schedule, now: int, obs: Observation)
    requires TickDefined(s, now, obs)
    ensures var o := Tick(s, now, obs);
      && Count(o.effects, NoticeKind) == (if obs.Resolved? && NoticeDue(s, now, obs.liveEnd) then 1 else 0)
      && Count(o.effects, ApplyKind) == (if obs.Resolved? && InWindow(s, now) then 1 else 0)
      && Count(o.effects, StartKind) == (if Started(s, now, obs) then 1 else 0)
  {
    if obs.Resolved? {
      var o := Tick(s, now, obs);
      var notices := if NoticeDue(s, now, obs.liveEnd) then [EndNotice(s.KeyOf(), AnnounceTarget(s))] else [];
      forall kind
        ensures Count(notices, kind) == (if NoticeDue(s, now, obs.liveEnd) && kind == NoticeKind then 1 else 0)
      {
        if NoticeDue(s, now, obs.liveEnd) { CountSingle(notices[0], kind); }
      }
      if InWindow(s, now) {
        var apply := ApplyTimeout(s.KeyOf(), WindowEnd(s, now) - now);
        CountAppendOne(notices, apply);
        if obs.applyOk {
          var started := StartNotice(s.KeyOf(), AnnounceTarget(s), AnnouncedDuration((WindowEnd(s, now) - now) / 60));
          assert o.effects == (notices + [apply]) + [started];
          CountAppendOne(notices + [apply], started);
        } else {
          assert o.effects == notices + [apply];
        }
      } else {
        assert o.effects == notices;
      }
    }
  }

  /** How a tick stamps the record: the applied date moves to today on a missed day
      or a successful start; a start records the end time (live, else the window's
      end) and arms the notice flag; a due notice sets the flag; nothing else moves. */
  lemma TickStamps(s: Schedule, now: int, obs: Observation)
    requires TickDefined(s, now, obs)
    ensures var r := Tick(s, now, obs).record;
      && r.lastApplyDate
         == (if obs.Resolved? && (Missed(s, now) || Started(s, now, obs)) then Some(Today(s, now))
             else s.lastApplyDate)
      && r.lastEndAt
         == (if Started(s, now, obs) then Some(obs.liveEndAfterApply.GetOr(WindowEnd(s, now)))
             else s.lastEndAt)
      && r.endNotified
         == (if Started(s, now, obs) then Some(false)
             else if obs.Resolved? && NoticeDue(s, now, obs.liveEnd) then Some(true)
             else s.endNotified)
  {
  }

  // ------------------------------------------------------------ per-case rules

  /** Before today's scheduled time nothing is applied and the apply state is kept. */
  lemma TickNotYetDue(s: Schedule, now: int, obs: Observation)
    requires TickDefined(s, now, obs) && now < WindowStart(s, now)
    ensures var o := Tick(s, now, obs);
      && Count(o.effects, ApplyKind) == 0
      && o.record.lastApplyDate == s.lastApplyDate && o.record.lastEndAt == s.lastEndAt
  {
    TickEffectCounts(s, now, obs);
    TickStamps(s, now, obs);
  }

  /** Once today is stamped, nothing more is applied today. */
  lemma TickAlreadyHandled(s: Schedule, now: int, obs: Observation)
    requires TickDefined(s, now, obs) && s.lastApplyDate == Some(Today(s, now))
    ensures var o := Tick(s, now, obs);
      && Count(o.effects, ApplyKind) == 0
      && o.record.lastApplyDate == s.lastApplyDate && o.record.lastEndAt == s.lastEndAt
  {
    TickEffectCounts(s, now, obs);
    TickStamps(s, now, obs);
  }

  /** A day whose whole window has elapsed is stamped as handled without applying anything. */
  lemma TickMissedDay(s: Schedule, now: int, obs: Observation)
    requires TickDefined(s, now, obs) && obs.Resolved? && Missed(s, now)
    ensures var o := Tick(s, now, obs);
      && Count(o.effects, ApplyKind) == 0
      && o.record.lastApplyDate == Some(Today(s, now))
      && o.record.lastEndAt == s.lastEndAt
      && o.persisted
  {
    TickEffectCounts(s, now, obs);
    TickStamps(s, now, obs);
  }

  /** Inside today's window exactly one timeout is requested, for what is left of the
      window, which is positive and at most the full duration. On success the day is
      stamped, the end time recorded and the notice armed; on failure the apply state
      is kept so the next tick retries. */
  lemma TickInsideWindow(s: Schedule, now: int, obs: Observation)
    requires TickDefined(s, now, obs) && obs.Resolved? && InWindow(s, now)
    ensures var o := Tick(s, now, obs);
      && Count(o.effects, ApplyKind) == 1
      && o.effects[|o.effects| - (if obs.applyOk then 2 else 1)]
         == ApplyTimeout(s.KeyOf(), WindowEnd(s, now) - now)
      && 0 < WindowEnd(s, now) - now <= SecondsPerMinute * s.durationMinutes
      && (obs.applyOk ==>
            && o.record.lastApplyDate == Some(Today(s, now))
            && o.record.lastEndAt == Some(obs.liveEndAfterApply.GetOr(now + (WindowEnd(s, now) - now)))
            && o.record.endNotified == Some(false)
            && o.persisted)
      && (!obs.applyOk ==>
            o.record.lastApplyDate == s.lastApplyDate && o.record.lastEndAt == s.lastEndAt)
    ensures obs.applyOk ==>
              var o := Tick(s, now, obs);
              var last := o.effects[|o.effects| - 1];
              && last.StartNotice?
              && last.target == AnnounceTarget(s)
              && ReadDuration(last.duration) == Some((WindowEnd(s, now) - now) / 60)
  {
    TickEffectCounts(s, now, obs);
    TickStamps(s, now, obs);
  }

  /** The end notice goes out exactly when an end time is known (live preferred),
      the record is not yet notified and that time has passed; afterwards the record
      reads as notified unless the same tick started a new timeout. A record that
      never stored an end time reads as notified. */
  lemma TickEndNotice(s: Schedule, now: int, obs: Observation)
    requires TickDefined(s, now, obs) && obs.Resolved?
    ensures var o := Tick(s, now, obs);
      && (Count(o.effects, NoticeKind) == 1 <==>
            && KnownEnd(s, obs.liveEnd).Some?
            && !EffectiveNotified(s)
            && now >= KnownEnd(s, obs.liveEnd).value)
      && (Count(o.effects, NoticeKind) == 1 ==>
            o.effects[0] == EndNotice(s.KeyOf(), AnnounceTarget(s)) && o.persisted)
      && (!Started(s, now, obs) && Count(o.effects, NoticeKind) == 1 ==> EffectiveNotified(o.record))
    ensures s.lastEndAt.None? && s.endNotified.None? ==> EffectiveNotified(s)
  {
    TickEffectCounts(s, now, obs);
    TickStamps(s, now, obs);
  }

  /** "Not notified" always comes with a stored end time, and ticks keep it so. */
  lemma TickKeepsArmedWithEnd(s: Schedule, now: int, obs: Observation)
    requires TickDefined(s, now, obs)
    requires s.endNotified == Some(false) ==> s.lastEndAt.Some?
    ensures var r := Tick(s, now, obs).record;
      && (r.endNotified == Some(false) ==> r.lastEndAt.Some?)
      && (!EffectiveNotified(r) ==> r.lastEndAt.Some?)
  {
    TickStamps(s, now, obs);
  }

  /** A record whose stored duration is not positive is never timed out. */
  lemma NonPositiveDurationNeverApplies(s: Schedule, now: int, obs: Observation)
    requires TickDefined(s, now, obs) && s.durationMinutes <= 0
    ensures Count(Tick(s, now, obs).effects, ApplyKind) == 0
  {
    TickEffectCounts(s, now, obs);
  }

  // ------------------------------------------------------------ runs of ticks

  datatype TickInput = TickInput(now: int, obs: Observation)

  /** Every tick of the run gets through (see `TickDefined`). */
  predicate RunDefined(s: Schedule, ts: seq<TickInput>)
    decreases |ts|
  {
    && TickReady(s)
    && (|ts| > 0 ==>
          && TickDefined(s, ts[0].now, ts[0].obs)
          && RunDefined(Tick(s, ts[0].now, ts[0].obs).record, ts[1..]))
  }

  /** Successive ticks over one record: the final record and every effect, in order. */
  function Run(s: Schedule, ts: seq<TickInput>): (r: (Schedule, seq<Effect>))
    requires RunDefined(s, ts)
    ensures r.0.KeyOf() == s.KeyOf() && r.0.gmtOffset == s.gmtOffset && TickReady(r.0)
    decreases |ts|
  {
    if |ts| == 0 then (s, [])
    else
      var o := Tick(s, ts[0].now, ts[0].obs);
      var rest := Run(o.record, ts[1..]);
      (rest.0, o.effects + rest.1)
  }

  /** However many ticks fall on one local day, at most one of them starts a
      timeout; and once the day is stamped none of them even requests one. */
  lemma {:induction false} AtMostOncePerDay(s: Schedule, ts: seq<TickInput>, day: int)
    requires RunDefined(s, ts)
    requires forall i :: 0 <= i < |ts| ==> LocalDay(ts[i].now, s.gmtOffset) == day
    ensures Count(Run(s, ts).1, StartKind) <= 1
    ensures s.lastApplyDate == Some(day) ==>
              Count(Run(s, ts).1, ApplyKind) == 0 && Count(Run(s, ts).1, StartKind) == 0
    decreases |ts|
  {
    if |ts| > 0 {
      var o := Tick(s, ts[0].now, ts[0].obs);
      TickEffectCounts(s, ts[0].now, ts[0].obs);
      TickStamps(s, ts[0].now, ts[0].obs);
      AtMostOncePerDay(o.record, ts[1..], day);
      var rest := Run(o.record, ts[1..]);
      CountAppend(o.effects, rest.1, StartKind);
      CountAppend(o.effects, rest.1, ApplyKind);
    }
  }

  /** Between two starts the end notice goes out at most once, and not at all if
      the record already reads as notified. */
  lemma {:induction false} NoticeOncePerTimeout(s: Schedule, ts: seq<TickInput>)
    requires RunDefined(s, ts)
    requires Count(Run(s, ts).1, StartKind) == 0
    ensures Count(Run(s, ts).1, NoticeKind) <= 1
    ensures EffectiveNotified(s) ==> Count(Run(s, ts).1, NoticeKind) == 0
    decreases |ts|
  {
    if |ts| > 0 {
      var o := Tick(s, ts[0].now, ts[0].obs);
      var rest := Run(o.record, ts[1..]);
      CountAppend(o.effects, rest.1, StartKind);
      CountAppend(o.effects, rest.1, NoticeKind);
      TickEffectCounts(s, ts[0].now, ts[0].obs);
      TickStamps(s, ts[0].now, ts[0].obs);
      NoticeOncePerTimeout(o.record, ts[1..]);
    }
  }

  // ------------------------------------------------------------ a whole tick

  /** Every record's tick gets through; `obs[i]` is what the platform shows for `st[i]`. */
  predicate AllDefined(st: Store, now: int, obs: seq<Observation>) {
    |obs| == |st| && forall i :: 0 <= i < |st| ==> TickDefined(st[i], now, obs[i])
  }

  /** The tick of each record loaded at the start of the loop. A record's tick does
      not look at the store, so the loop can be read as computing these first and
      then writing them back in order. `obs[i]` is what the platform shows for
      `pending[i]`. */
  function Outcomes(pending: Store, now: int, obs: seq<Observation>): (r: seq<Outcome>)
    requires AllDefined(pending, now, obs)
    ensures |r| == |pending|
    decreases |pending|
  {
    if |pending| == 0 then []
    else [Tick(pending[0], now, obs[0])] + Outcomes(pending[1..], now, obs[1..])
  }

  lemma {:induction false} OutcomeAt(pending: Store, now: int, obs: seq<Observation>, i: int)
    requires AllDefined(pending, now, obs) && 0 <= i < |pending|
    ensures Outcomes(pending, now, obs)[i] == Tick(pending[i], now, obs[i])
    decreases |pending|
  {
    if i > 0 {
      OutcomeAt(pending[1..], now, obs[1..], i - 1);
    }
  }

  /** Outcome `o` belongs to record `s`: same key, effects only about that key,
      and the record itself when nothing is to be written. */
  predicate OutcomeOf(s: Schedule, o: Outcome) {
    && o.record.KeyOf() == s.KeyOf()
    && (!o.persisted ==> o.record == s)
    && forall j :: 0 <= j < |o.effects| ==> o.effects[j].key == s.KeyOf()
  }

  predicate OutcomesOf(pending: Store, outs: seq<Outcome>) {
    |outs| == |pending| && forall i :: 0 <= i < |pending| ==> OutcomeOf(pending[i], outs[i])
  }

  lemma OutcomesOfTail(pending: Store, outs: seq<Outcome>)
    requires OutcomesOf(pending, outs) && |outs| > 0
    ensures OutcomesOf(pending[1..], outs[1..]) && OutcomeOf(pending[0], outs[0])
  {
    assert forall i :: 0 <= i < |pending| - 1 ==> pending[1..][i] == pending[i + 1] && outs[1..][i] == outs[i + 1];
  }

  lemma OutcomesBelong(pending: Store, now: int, obs: seq<Observation>)
    requires AllDefined(pending, now, obs)
    ensures OutcomesOf(pending, Outcomes(pending, now, obs))
  {
    forall i | 0 <= i < |pending|
      ensures OutcomeOf(pending[i], Outcomes(pending, now, obs)[i])
    {
      OutcomeAt(pending, now, obs, i);
    }
  }

  /** Reference order of a whole tick's effects: each record's own effects, as one
      block, in store order. */
  function TickEffects(pending: Store, now: int, obs: seq<Observation>): seq<Effect>
    requires AllDefined(pending, now, obs)
    decreases |pending|
  {
    if |pending| == 0 then []
    else Tick(pending[0], now, obs[0]).effects + TickEffects(pending[1..], now, obs[1..])
  }

  /** Effects of records none of which has key `k` are not about `k`. */
  lemma {:induction false} TickEffectsAbsent(pending: Store, now: int, obs: seq<Observation>, k: Key)
    requires AllDefined(pending, now, obs)
    requires forall j :: 0 <= j < |pending| ==> pending[j].KeyOf() != k
    ensures EffectsFor(TickEffects(pending, now, obs), k) == []
    decreases |pending|
  {
    if |pending| > 0 {
      var t := Tick(pending[0], now, obs[0]);
      assert forall j :: 0 <= j < |pending| - 1 ==> pending[1..][j] == pending[j + 1];
      TickEffectsAbsent(pending[1..], now, obs[1..], k);
      EffectsForAppend(t.effects, TickEffects(pending[1..], now, obs[1..]), k);
      EffectsForUniform(t.effects, k);
    }
  }

  /** In a unique store, the effects of the whole tick about one record's key are
      exactly that record's own tick effects, in order. */
  lemma {:induction false} TickEffectsOfKey(pending: Store, now: int, obs: seq<Observation>, i: int)
    requires AllDefined(pending, now, obs) && Unique(pending) && 0 <= i < |pending|
    ensures EffectsFor(TickEffects(pending, now, obs), pending[i].KeyOf()) == Tick(pending[i], now, obs[i]).effects
    decreases |pending|
  {
    var k := pending[i].KeyOf();
    var k0 := pending[0].KeyOf();
    var tail := pending[1..];
    var t := Tick(pending[0], now, obs[0]);
    var rest := TickEffects(tail, now, obs[1..]);
    assert forall j :: 0 <= j < |tail| ==> tail[j] == pending[j + 1];
    assert AllDefined(tail, now, obs[1..]);
    UniqueTail(pending);
    EffectsForAppend(t.effects, rest, k);
    EffectsForUniform(t.effects, k);
    if i == 0 {
      forall j | 0 <= j < |tail|
        ensures tail[j].KeyOf() != k0
      {
        ListForHas(tail, k0, tail[j]);
      }
      TickEffectsAbsent(tail, now, obs[1..], k0);
    } else {
      assert pending[i] == tail[i - 1] && obs[i] == obs[1..][i - 1];
      assert k != k0 by { ListForHas(tail, k0, tail[i - 1]); }
      TickEffectsOfKey(tail, now, obs[1..], i - 1);
    }
  }

  /** Writing the outcomes back collects the effects in the reference order. */
  lemma {:induction false} WriteAllEffectOrder(cur: Store, pending: Store, now: int, obs: seq<Observation>)
    requires AllDefined(pending, now, obs)
    ensures WriteAll(cur, Outcomes(pending, now, obs)).1 == TickEffects(pending, now, obs)
    decreases |pending|
  {
    if |pending| > 0 {
      var outs := Outcomes(pending, now, obs);
      var tail := pending[1..];
      assert forall j :: 0 <= j < |tail| ==> tail[j] == pending[j + 1];
      assert AllDefined(tail, now, obs[1..]);
      assert outs[1..] == Outcomes(tail, now, obs[1..]);
      WriteAllEffectOrder(WriteBack(cur, outs[0]), tail, now, obs[1..]);
    }
  }

  /** Writing an outcome back: the record replaces its key's entry when the tick
      changed it, otherwise the store is left as it is. */
  function WriteBack(cur: Store, o: Outcome): (r: Store)
    ensures ListFor(r, o.record.KeyOf()) == if o.persisted then [o.record] else ListFor(cur, o.record.KeyOf())
    ensures forall k :: k != o.record.KeyOf() ==> ListFor(r, k) == ListFor(cur, k)
  {
    if o.persisted then Upsert(cur, o.record) else cur
  }

  /** The loop of `timeout_scheduler_task`: each changed record is written into the
      current store by replace-by-key, and the effects are collected in order. */
  function WriteAll(cur: Store, outs: seq<Outcome>): (r: (Store, seq<Effect>))
    // a key no outcome is about keeps its records
    ensures forall k :: (forall i :: 0 <= i < |outs| ==> outs[i].record.KeyOf() != k) ==> ListFor(r.0, k) == ListFor(cur, k)
    decreases |outs|
  {
    if |outs| == 0 then (cur, [])
    else
      var rest := WriteAll(WriteBack(cur, outs[0]), outs[1..]);
      assert forall i :: 0 <= i < |outs| - 1 ==> outs[1..][i] == outs[i + 1];
      (rest.0, outs[0].effects + rest.1)
  }

  /** The write-back puts a changed record back under its key whatever the current
      store holds for it: a `remove_timeout_schedule` that lands between the loop's
      load and this write is undone. */
  lemma CancelMidTickUndone(cur: Store, o: Outcome)
    requires o.persisted
    ensures Get(WriteBack(Remove(cur, o.record.userId, o.record.guildId), o), o.record.KeyOf()) == Some(o.record)
  {
  }

  /** Writing back keeps a unique store unique. */
  lemma {:induction false} WriteAllUnique(cur: Store, outs: seq<Outcome>)
    requires Unique(cur)
    ensures Unique(WriteAll(cur, outs).0)
    decreases |outs|
  {
    if |outs| > 0 {
      if outs[0].persisted { UpsertKeepsUnique(cur, outs[0].record); }
      WriteAllUnique(WriteBack(cur, outs[0]), outs[1..]);
    }
  }

  /** Every effect written back concerns one of the records the outcomes belong to. */
  lemma {:induction false} WriteAllEffects(cur: Store, pending: Store, outs: seq<Outcome>)
    requires OutcomesOf(pending, outs)
    ensures forall i :: 0 <= i < |WriteAll(cur, outs).1| ==> Get(pending, WriteAll(cur, outs).1[i].key).Some?
    decreases |outs|
  {
    if |outs| > 0 {
      var o := outs[0];
      var rest := WriteAll(WriteBack(cur, o), outs[1..]);
      OutcomesOfTail(pending, outs);
      WriteAllEffects(WriteBack(cur, o), pending[1..], outs[1..]);
      var effects := o.effects + rest.1;
      assert OutcomeOf(pending[0], o);
      forall i | 0 <= i < |effects|
        ensures Get(pending, effects[i].key).Some?
      {
        if i >= |o.effects| {
          assert effects[i] == rest.1[i - |o.effects|];
        }
      }
    }
  }

  /** Keys none of the outcomes belongs to keep whatever the current store holds. */
  lemma {:induction false} WriteAllOthers(cur: Store, pending: Store, outs: seq<Outcome>)
    requires OutcomesOf(pending, outs)
    ensures forall k :: Get(pending, k).None? ==> Get(WriteAll(cur, outs).0, k) == Get(cur, k)
    decreases |outs|
  {
    if |outs| > 0 {
      var next := WriteBack(cur, outs[0]);
      OutcomesOfTail(pending, outs);
      WriteAllOthers(next, pending[1..], outs[1..]);
      assert OutcomeOf(pending[0], outs[0]);
      forall k | Get(pending, k).None?
        ensures Get(next, k) == Get(cur, k) && Get(pending[1..], k).None?
      {
        assert k != pending[0].KeyOf();
      }
    }
  }

  /** Writing back the first outcome leaves the rest of a unique batch as the
      preconditions of writing back the rest require. */
  lemma WriteBackFirst(cur: Store, pending: Store, o: Outcome)
    requires |pending| > 0 && Unique(pending) && OutcomeOf(pending[0], o)
    requires forall i :: 0 <= i < |pending| ==> Get(cur, pending[i].KeyOf()) == Some(pending[i])
    ensures Unique(pending[1..]) && Get(pending[1..], pending[0].KeyOf()).None?
    ensures Get(WriteBack(cur, o), pending[0].KeyOf()) == Some(o.record)
    ensures forall j :: 0 <= j < |pending[1..]| ==>
              Get(WriteBack(cur, o), pending[1..][j].KeyOf()) == Some(pending[1..][j])
  {
    var k0 := pending[0].KeyOf();
    var tail := pending[1..];
    var next := WriteBack(cur, o);
    UniqueTail(pending);
    forall j | 0 <= j < |tail|
      ensures Get(next, tail[j].KeyOf()) == Some(tail[j])
    {
      ListForHas(tail, k0, tail[j]);
      assert pending[j + 1] == tail[j];
    }
  }

  /** Over a unique batch whose records are what the store holds, each record ends
      up as its own outcome left it. */
  lemma {:induction false} WriteAllRecords(cur: Store, pending: Store, outs: seq<Outcome>)
    requires OutcomesOf(pending, outs) && Unique(pending)
    requires forall i :: 0 <= i < |pending| ==> Get(cur, pending[i].KeyOf()) == Some(pending[i])
    ensures forall i :: 0 <= i < |pending| ==> Get(WriteAll(cur, outs).0, pending[i].KeyOf()) == Some(outs[i].record)
    decreases |outs|
  {
    if |outs| > 0 {
      var k0 := pending[0].KeyOf();
      var tail := pending[1..];
      var next := WriteBack(cur, outs[0]);
      OutcomesOfTail(pending, outs);
      assert OutcomeOf(pending[0], outs[0]);
      WriteBackFirst(cur, pending, outs[0]);
      var rest := WriteAll(next, outs[1..]);
      assert WriteAll(cur, outs).0 == rest.0;
      assert Get(rest.0, k0) == Some(outs[0].record) by {
        WriteAllOthers(next, tail, outs[1..]);
      }
      assert forall i :: 0 < i < |pending| ==> Get(rest.0, pending[i].KeyOf()) == Some(outs[i].record) by {
        WriteAllRecords(next, tail, outs[1..]);
        forall i | 0 < i < |pending|
          ensures Get(rest.0, pending[i].KeyOf()) == Some(outs[i].record)
        {
          assert pending[i] == tail[i - 1] && outs[i] == outs[1..][i - 1];
        }
      }
    }
  }

  /** One whole tick over a unique store: afterwards the store is still unique,
      every record is exactly what its own `Tick` made of it, no key appears that
      was not there, and every effect concerns a stored record. */
  function TickAll(st: Store, now: int, obs: seq<Observation>): (r: (Store, seq<Effect>))
    requires AllDefined(st, now, obs)
    ensures Unique(st) ==> Unique(r.0)
    ensures Unique(st) ==>
              forall i :: 0 <= i < |st| ==> Get(r.0, st[i].KeyOf()) == Some(Tick(st[i], now, obs[i]).record)
    ensures Unique(st) ==> forall k :: Get(st, k).None? ==> Get(r.0, k).None?
    ensures Unique(st) ==> forall i :: 0 <= i < |r.1| ==> Get(st, r.1[i].key).Some?
    ensures r.1 == TickEffects(st, now, obs)
    ensures Unique(st) ==>
              forall i :: 0 <= i < |st| ==> EffectsFor(r.1, st[i].KeyOf()) == Tick(st[i], now, obs[i]).effects
  {
    var outs := Outcomes(st, now, obs);
    TickAllSpec(st, now, obs);
    WriteAll(st, outs)
  }

  lemma TickAllSpec(st: Store, now: int, obs: seq<Observation>)
    requires AllDefined(st, now, obs)
    ensures Unique(st) ==> Unique(WriteAll(st, Outcomes(st, now, obs)).0)
    ensures Unique(st) ==> forall i :: 0 <= i < |st| ==>
              Get(WriteAll(st, Outcomes(st, now, obs)).0, st[i].KeyOf()) == Some(Tick(st[i], now, obs[i]).record)
    ensures Unique(st) ==> forall k :: Get(st, k).None? ==> Get(WriteAll(st, Outcomes(st, now, obs)).0, k).None?
    ensures Unique(st) ==> forall i :: 0 <= i < |WriteAll(st, Outcomes(st, now, obs)).1| ==>
              Get(st, WriteAll(st, Outcomes(st, now, obs)).1[i].key).Some?
    ensures WriteAll(st, Outcomes(st, now, obs)).1 == TickEffects(st, now, obs)
    ensures Unique(st) ==> forall i :: 0 <= i < |st| ==>
              EffectsFor(WriteAll(st, Outcomes(st, now, obs)).1, st[i].KeyOf()) == Tick(st[i], now, obs[i]).effects
  {
    WriteAllEffectOrder(st, st, now, obs);
    if Unique(st) {
      var outs := Outcomes(st, now, obs);
      forall i | 0 <= i < |st|
        ensures Get(st, st[i].KeyOf()) == Some(st[i])
      {
        GetOfUnique(st, i);
      }
      OutcomesBelong(st, now, obs);
      WriteAllUnique(st, outs);
      WriteAllOthers(st, st, outs);
      WriteAllEffects(st, st, outs);
      forall i | 0 <= i < |st|
        ensures Get(WriteAll(st, outs).0, st[i].KeyOf()) == Some(Tick(st[i], now, obs[i]).record)
      {
        WriteAllRecords(st, st, outs);
        OutcomeAt(st, now, obs, i);
      }
      forall i | 0 <= i < |st|
        ensures EffectsFor(TickEffects(st, now, obs), st[i].KeyOf()) == Tick(st[i], now, obs[i]).effects
      {
        TickEffectsOfKey(st, now, obs, i);
      }
    }
  }

  /** After `remove_timeout_schedule` no later tick touches that user and guild:
      no record comes back and no effect concerns them. */
  lemma CancelledNeverTouched(st: Store, userId: int, guildId: int, now: int, obs: seq<Observation>)
    requires Unique(st)
    requires AllDefined(Remove(st, userId, guildId), now, obs)
    ensures var r := TickAll(Remove(st, userId, guildId), now, obs);
      && Get(r.0, Key(userId, guildId)) == None
      && forall i :: 0 <= i < |r.1| ==> r.1[i].key != Key(userId, guildId)
  {
    RemoveKeepsUnique(st, userId, guildId);
  }
}
