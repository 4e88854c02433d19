/** The schedule lifecycle as the `/timeout`, `/timeout_cancel` and `/timeouts`
    commands drive it: input validation, the write to the store, and what the reply
    reports. Chat transport and message wording are not part of this model; each
    command returns either its result or which rejection it replies with. */
module Lifecycle {
  import opened Wrappers
  import opened Text
  import opened Clock
  import opened ScheduleStore
  import opened Durations
  import Scheduler

  /** The platform's longest timeout, 28 days. */
  const MaxTimeoutMinutes: int := 40320

  datatype CommandError =
    | NotInServer   // "Use this command in a server."
    | ZeroDuration  // "Duration must be at least 1 hour or 1 minute ..."
    | InvalidTime   // "Invalid time. Use 24h format ..."
    | TooLong       // "Duration cannot exceed 28 days."
    | NoSchedule    // "You don't have a time-me-out schedule in this server."

  /** A successful `/timeout`: the new store and the "Next run" instant in the reply. */
  datatype Scheduled = Scheduled(store: Store, nextRun: int)

  /** The offsets of the command's time-zone choice list, GMT-12 to GMT+12. */
  predicate GmtChoice(offset: int) {
    -12 <= offset <= 12
  }

  /** What a successful `/timeout` reports for the record `hour:minute`: the key
      holds exactly the new record, every other key is untouched, and the next run
      is the next local occurrence of the requested time. */
  ghost predicate Registered(st: Store, sch: Scheduled, userId: int, guildId: int, channelId: int,
                             total: int, hour: int, minute: int, offset: int, now: int) {
    && ListFor(sch.store, Key(userId, guildId))
       == [NewSchedule(userId, guildId, channelId, total, hour, minute, offset)]
    && (forall k :: k != Key(userId, guildId) ==> ListFor(sch.store, k) == ListFor(st, k))
    && now < sch.nextRun <= now + SecondsPerDay
    && SecondOfDay(sch.nextRun, offset) == WallSeconds(hour, minute)
  }

  /** The part of `/timeout` after the duration guard: parse the time, cap the
      duration, write the record and compute the next run. */
  function Register(st: Store, userId: int, guildId: int, channelId: int, timeText: string,
                    offset: int, total: int, now: int): (r: Result<Scheduled, CommandError>)
    requires GmtChoice(offset)
    ensures r == Err(InvalidTime) <==> ParseTime(timeText).None?
    ensures r == Err(TooLong) <==> ParseTime(timeText).Some? && total > MaxTimeoutMinutes
    ensures r.Ok? <==> ParseTime(timeText).Some? && total <= MaxTimeoutMinutes
    ensures r.Ok? ==>
              var t := ParseTime(timeText).value;
              Registered(st, r.value, userId, guildId, channelId, total, t.0, t.1, offset, now)
  {
    match ParseTime(timeText)
    case None => Err(InvalidTime)
    case Some(t) =>
      if total > MaxTimeoutMinutes then Err(TooLong)
      else Ok(Scheduled(Set(st, userId, guildId, channelId, total, t.0, t.1, offset),
                        NextOccurrence(now, t.0, t.1, offset)))
  }

  /** `/timeout` exactly as written: it rejects only the case where both duration
      fields are zero, so e.g. 1 hour and -60 minutes gets through with a total of 0,
      and any negative total gets through as well. */
  function ScheduleCommandAsWritten(st: Store, guild: Option<int>, userId: int, channelId: int,
                                    timeText: string, offset: int, hours: int, minutes: int,
                                    now: int): (r: Result<Scheduled, CommandError>)
    requires GmtChoice(offset)
    ensures guild.None? ==> r == Err(NotInServer)
    ensures guild.Some? && hours == 0 && minutes == 0 ==> r == Err(ZeroDuration)
    ensures r.Ok? <==>
              && guild.Some?
              && !(hours == 0 && minutes == 0)
              && hours * 60 + minutes <= MaxTimeoutMinutes
              && ParseTime(timeText).Some?
    ensures r.Ok? ==>
              var t := ParseTime(timeText).value;
              Registered(st, r.value, userId, guild.value, channelId, hours * 60 + minutes, t.0, t.1, offset, now)
  {
    if guild.None? then Err(NotInServer)
    else if hours == 0 && minutes == 0 then Err(ZeroDuration)
    else Register(st, userId, guild.value, channelId, timeText, offset, hours * 60 + minutes, now)
  }

  /** The as-written command accepts 1 hour and -60 minutes with any time that
      parses, and stores a record of 0 minutes... */
  lemma ZeroTotalAcceptedAsWritten(st: Store, guildId: int, userId: int, channelId: int,
                                   timeText: string, offset: int, now: int)
    requires GmtChoice(offset) && ParseTime(timeText).Some?
    ensures var r := ScheduleCommandAsWritten(st, Some(guildId), userId, channelId, timeText, offset, 1, -60, now);
      var t := ParseTime(timeText).value;
      && r.Ok?
      && Get(r.value.store, Key(userId, guildId)) == Some(NewSchedule(userId, guildId, channelId, 0, t.0, t.1, offset))
  {
  }

  /** ... such as `14:30`. */
  lemma SampleTimeParses()
    ensures ParseTime("14:30") == Some((14, 30))
  {
    assert FormatTime(14, 30) == "14:30";
    FormatParseRoundTrip(14, 30);
  }

  /** ... and a record of 0 minutes is never timed out by any tick: every day is
      skipped as already elapsed. */
  lemma ZeroTotalNeverApplies(s: Schedule, now: int, obs: Scheduler.Observation)
    requires Scheduler.TickDefined(s, now, obs) && s.durationMinutes == 0
    ensures Scheduler.Count(Scheduler.Tick(s, now, obs).effects, Scheduler.ApplyKind) == 0
  {
    Scheduler.NonPositiveDurationNeverApplies(s, now, obs);
  }

  /** `/timeout` with the duration guard the reply text describes: at least one
      minute in total. A request is accepted exactly when it comes from a server,
      its total is between 1 minute and 28 days and its time parses. */
  function ScheduleCommand(st: Store, guild: Option<int>, userId: int, channelId: int,
                           timeText: string, offset: int, hours: int, minutes: int,
                           now: int): (r: Result<Scheduled, CommandError>)
    requires GmtChoice(offset)
    ensures guild.None? ==> r == Err(NotInServer)
    ensures guild.Some? && hours * 60 + minutes < 1 ==> r == Err(ZeroDuration)
    ensures r.Ok? <==>
              && guild.Some?
              && 1 <= hours * 60 + minutes <= MaxTimeoutMinutes
              && ParseTime(timeText).Some?
    ensures r.Ok? ==>
              var t := ParseTime(timeText).value;
              Registered(st, r.value, userId, guild.value, channelId, hours * 60 + minutes, t.0, t.1, offset, now)
  {
    if guild.None? then Err(NotInServer)
    else if hours * 60 + minutes < 1 then Err(ZeroDuration)
    else Register(st, userId, guild.value, channelId, timeText, offset, hours * 60 + minutes, now)
  }

  /** The two commands answer differently exactly on requests from a server whose
      fields are not both zero but whose total is below one minute. */
  lemma AsWrittenDiffersOnlyBelowOneMinute(st: Store, guild: Option<int>, userId: int, channelId: int,
                                           timeText: string, offset: int, hours: int, minutes: int, now: int)
    requires GmtChoice(offset)
    ensures ScheduleCommandAsWritten(st, guild, userId, channelId, timeText, offset, hours, minutes, now)
            != ScheduleCommand(st, guild, userId, channelId, timeText, offset, hours, minutes, now)
            <==> guild.Some? && hours * 60 + minutes < 1 && !(hours == 0 && minutes == 0)
  {
  }

  /** The corrected command turns the request above away. */
  lemma ZeroTotalRejected(st: Store, guildId: int, userId: int, channelId: int,
                          timeText: string, offset: int, now: int)
    requires GmtChoice(offset)
    ensures ScheduleCommand(st, Some(guildId), userId, channelId, timeText, offset, 1, -60, now) == Err(ZeroDuration)
  {
  }

  /** A record the corrected command can write: a valid clock, a GMT choice and a
      duration of 1 minute to 28 days. */
  predicate Registrable(s: Schedule) {
    && ValidTime(s.hour, s.minute) && GmtChoice(s.gmtOffset)
    && 1 <= s.durationMinutes <= MaxTimeoutMinutes
  }

  /** Every record written by the corrected command is registrable, so the
      scheduler can tick it. */
  lemma ScheduleCommandWritesRegistrable(st: Store, guild: Option<int>, userId: int, channelId: int,
                                         timeText: string, offset: int, hours: int, minutes: int, now: int)
    requires GmtChoice(offset)
    requires ScheduleCommand(st, guild, userId, channelId, timeText, offset, hours, minutes, now).Ok?
    ensures var rec := Get(ScheduleCommand(st, guild, userId, channelId, timeText, offset, hours, minutes, now)
                             .value.store, Key(userId, guild.value));
      rec.Some? && Registrable(rec.value) && Scheduler.TickReady(rec.value)
  {
  }

  /** The as-written command also accepts -20000000 hours with any time that
      parses. The record it stores has a window ending before the year 1 on every
      day up to the year 2255, so the first tick that reaches the window
      computation raises `OverflowError` and stops the scheduler loop. */
  lemma OverflowAcceptedAsWritten(st: Store, guildId: int, userId: int, channelId: int,
                                  timeText: string, offset: int, now: int, t: int, obs: Scheduler.Observation)
    requires GmtChoice(offset) && ParseTime(timeText).Some?
    requires 0 <= t <= 9_000_000_000
    ensures var r := ScheduleCommandAsWritten(st, Some(guildId), userId, channelId, timeText, offset, -20000000, 0, now);
      var p := ParseTime(timeText).value;
      var rec := NewSchedule(userId, guildId, channelId, -1200000000, p.0, p.1, offset);
      && r.Ok?
      && Get(r.value.store, Key(userId, guildId)) == Some(rec)
      && Scheduler.TickReady(rec)
      && !Scheduler.WindowFits(rec, t)
      && (obs.Resolved? && Scheduler.Due(rec, t) ==> !Scheduler.TickDefined(rec, t, obs))
  {
    var p := ParseTime(timeText).value;
    var rec := NewSchedule(userId, guildId, channelId, -1200000000, p.0, p.1, offset);
    ScheduledTodayNear(t, p.0, p.1, offset);
  }

  /** The corrected command turns that request away. */
  lemma OverflowRejected(st: Store, guildId: int, userId: int, channelId: int,
                         timeText: string, offset: int, now: int)
    requires GmtChoice(offset)
    ensures ScheduleCommand(st, Some(guildId), userId, channelId, timeText, offset, -20000000, 0, now) == Err(ZeroDuration)
  {
  }

  /** A registrable record's window always fits: at any tick whose local time is a
      day after the year 1 began and 29 days before the year 10000, the window ends
      at a wall clock `datetime` can hold, so its tick never raises. */
  lemma RegistrableFits(s: Schedule, t: int, obs: Scheduler.Observation)
    requires Registrable(s)
    requires Scheduler.FirstLocalSecond + SecondsPerDay <= LocalSeconds(t, s.gmtOffset)
    requires LocalSeconds(t, s.gmtOffset) < Scheduler.EndLocalSecond - 29 * SecondsPerDay
    ensures Scheduler.TickReady(s) && Scheduler.WindowFits(s, t)
    ensures Scheduler.TickDefined(s, t, obs)
  {
    ScheduledTodayNear(t, s.hour, s.minute, s.gmtOffset);
  }

  /** `/timeout_cancel`: removes the caller's record, or reports that there is none. */
  function CancelCommand(st: Store, guild: Option<int>, userId: int): (r: Result<Store, CommandError>)
    ensures guild.None? ==> r == Err(NotInServer)
    ensures guild.Some? ==> (r == Err(NoSchedule) <==> ListFor(st, Key(userId, guild.value)) == [])
    ensures r.Ok? ==>
              && guild.Some?
              && ListFor(r.value, Key(userId, guild.value)) == []
              && forall k :: k != Key(userId, guild.value) ==> ListFor(r.value, k) == ListFor(st, k)
  {
    if guild.None? then Err(NotInServer)
    else if Get(st, Key(userId, guild.value)).None? then Err(NoSchedule)
    else Ok(Remove(st, userId, guild.value))
  }

  /** One line of the `/timeouts` reply, without its wording. */
  datatype Listing = Listing(time: string, duration: string, nextRun: int)

  function ListOne(s: Schedule, now: int): Listing
    requires ValidTime(s.hour, s.minute) && s.durationMinutes >= 0
  {
    Listing(FormatTime(s.hour, s.minute), ListedDuration(s.durationMinutes),
            NextOccurrence(now, s.hour, s.minute, s.gmtOffset))
  }

  function ListAll(rs: seq<Schedule>, now: int): (r: seq<Listing>)
    requires forall x :: x in rs ==> ValidTime(x.hour, x.minute) && x.durationMinutes >= 0
    ensures |r| == |rs|
    ensures forall i :: 0 <= i < |rs| ==> r[i] == ListOne(rs[i], now)
  {
    if |rs| == 0 then [] else [ListOne(rs[0], now)] + ListAll(rs[1..], now)
  }

  /** `/timeouts`: one line per record of the caller in this server, in store order;
      each line's time and duration read back as the record's own, and its next run
      lies within the coming day. No records is the "don't have any" reply. */
  function ListCommand(st: Store, guild: Option<int>, userId: int, now: int): (r: Result<seq<Listing>, CommandError>)
    requires guild.Some? ==>
               forall x :: x in ListFor(st, Key(userId, guild.value)) ==> ValidTime(x.hour, x.minute) && x.durationMinutes >= 0
    ensures guild.None? ==> r == Err(NotInServer)
    ensures guild.Some? ==> (r == Err(NoSchedule) <==> ListFor(st, Key(userId, guild.value)) == [])
    ensures r.Ok? ==>
              var rs := ListFor(st, Key(userId, guild.value));
              && |r.value| == |rs|
              && forall i :: 0 <= i < |rs| ==>
                   && |r.value[i].time| == 5
                   && ParseTime(r.value[i].time) == Some((rs[i].hour, rs[i].minute))
                   && ReadDuration(r.value[i].duration) == Some(rs[i].durationMinutes)
                   && now < r.value[i].nextRun <= now + SecondsPerDay
                   && SecondOfDay(r.value[i].nextRun, rs[i].gmtOffset) == WallSeconds(rs[i].hour, rs[i].minute)
  {
    if guild.None? then Err(NotInServer)
    else
      var rs := ListFor(st, Key(userId, guild.value));
      if rs == [] then Err(NoSchedule)
      else
        var lines := ListAll(rs, now);
        ListReadsBack(rs, lines, now);
        Ok(lines)
  }

  lemma ListReadsBack(rs: seq<Schedule>, lines: seq<Listing>, now: int)
    requires forall x :: x in rs ==> ValidTime(x.hour, x.minute) && x.durationMinutes >= 0
    requires lines == ListAll(rs, now)
    ensures forall i :: 0 <= i < |rs| ==>
              && |lines[i].time| == 5
              && ParseTime(lines[i].time) == Some((rs[i].hour, rs[i].minute))
              && ReadDuration(lines[i].duration) == Some(rs[i].durationMinutes)
              && now < lines[i].nextRun <= now + SecondsPerDay
              && SecondOfDay(lines[i].nextRun, rs[i].gmtOffset) == WallSeconds(rs[i].hour, rs[i].minute)
  {
    forall i | 0 <= i < |rs|
      ensures |lines[i].time| == 5
      ensures ParseTime(lines[i].time) == Some((rs[i].hour, rs[i].minute))
      ensures ReadDuration(lines[i].duration) == Some(rs[i].durationMinutes)
      ensures now < lines[i].nextRun <= now + SecondsPerDay
      ensures SecondOfDay(lines[i].nextRun, rs[i].gmtOffset) == WallSeconds(rs[i].hour, rs[i].minute)
    {
      assert rs[i] in rs;
      FormatParseRoundTrip(rs[i].hour, rs[i].minute);
    }
  }
}
