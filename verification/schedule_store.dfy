/** The time-me-out schedule store: a list of records keyed by (user id, guild id),
    with the replace-by-key write the bot uses everywhere (drop every record with the
    key, then append the new one) and the two lookups of the command surface. */
module ScheduleStore {
  import opened Wrappers

  datatype Key = Key(userId: int, guildId: int)

  /** One stored schedule. `lastApplyDate` is a local day number (`Clock.LocalDay`),
      `lastEndAt` an instant in seconds; `endNotified` is `None` when the record has no
      `last_timeout_end_notified` entry at all. */
  datatype Schedule = Schedule(
    userId: int,
    guildId: int,
    channelId: int,
    durationMinutes: int,
    hour: int,
    minute: int,
    gmtOffset: int,
    lastApplyDate: Option<int>,
    lastEndAt: Option<int>,
    endNotified: Option<bool>)
  {
    function KeyOf(): Key {
      Key(userId, guildId)
    }
  }

  type Store = seq<Schedule>

  /** At most one record per key. */
  ghost predicate Unique(st: Store) {
    forall k :: |ListFor(st, k)| <= 1
  }


  /** `get_timeout_schedules_for_user`: the records with key `k`, in store order. */
  function ListFor(st: Store, k: Key): (r: seq<Schedule>)
    ensures |r| <= |st|
    ensures forall i :: 0 <= i < |r| ==> r[i].KeyOf() == k && r[i] in st
    // every record with key `k`, as many times as the store holds it, and nothing else
    ensures forall x :: multiset(r)[x] == if x.KeyOf() == k then multiset(st)[x] else 0
  {
    if |st| == 0 then []
    else
      assert st == [st[0]] + st[1..];
      if st[0].KeyOf() == k then [st[0]] + ListFor(st[1..], k)
      else ListFor(st[1..], k)
  }

  /** Completeness of `ListFor`, as membership. */
  lemma ListForHas(st: Store, k: Key, x: Schedule)
    ensures x in ListFor(st, k) <==> x in st && x.KeyOf() == k
  {
    assert x in ListFor(st, k) <==> multiset(ListFor(st, k))[x] > 0;
    assert x in st <==> multiset(st)[x] > 0;
  }

  lemma {:induction false} ListForMember(st: Store, x: Schedule)
    requires x in st
    ensures x in ListFor(st, x.KeyOf())
  {
    if st[0] != x {
      ListForMember(st[1..], x);
    }
  }

  /** `get_timeout_schedule`: the first record with key `k`, which is the head of `ListFor`. */
  function Get(st: Store, k: Key): (r: Option<Schedule>)
    ensures r == if ListFor(st, k) == [] then None else Some(ListFor(st, k)[0])
  {
    if |st| == 0 then None
    else if st[0].KeyOf() == k then Some(st[0])
    else Get(st[1..], k)
  }

  /** The store with every record of key `k` dropped; records of every other key
      keep their contents and their order. */
  function Without(st: Store, k: Key): (r: Store)
    ensures forall k' :: ListFor(r, k') == if k' == k then [] else ListFor(st, k')
    ensures forall i :: 0 <= i < |r| ==> r[i] in st
  {
    if |st| == 0 then []
    else if st[0].KeyOf() == k then Without(st[1..], k)
    else
      var rest := Without(st[1..], k);
      assert ([st[0]] + rest)[1..] == rest;
      [st[0]] + rest
  }

  lemma {:induction false} ListForAppend(a: Store, b: Store, k: Key)
    ensures ListFor(a + b, k) == ListFor(a, k) + ListFor(b, k)
  {
    if |a| > 0 {
      assert (a + b)[1..] == a[1..] + b;
      ListForAppend(a[1..], b, k);
    } else {
      assert a + b == b;
    }
  }

  /** Replace-by-key: the record `s` becomes the only one with its key, at the end of
      the store; the records of every other key are untouched. */
  function Upsert(st: Store, s: Schedule): (r: Store)
    ensures ListFor(r, s.KeyOf()) == [s]
    ensures forall k :: k != s.KeyOf() ==> ListFor(r, k) == ListFor(st, k)
  {
    var r := Without(st, s.KeyOf()) + [s];
    ListForAppend(Without(st, s.KeyOf()), [s], s.KeyOf());
    forall k | k != s.KeyOf()
      ensures ListFor(r, k) == ListFor(st, k)
    {
      ListForAppend(Without(st, s.KeyOf()), [s], k);
    }
    r
  }

  /** Replace-by-key keeps a unique store unique. */
  lemma UpsertKeepsUnique(st: Store, s: Schedule)
    requires Unique(st)
    ensures Unique(Upsert(st, s))
  {
  }

  lemma OnlyElement(l: seq<Schedule>, x: Schedule)
    requires |l| <= 1 && x in l
    ensures l == [x]
  {
  }

  /** In a unique store, looking up the key of a stored record finds that record. */
  lemma GetOfUnique(st: Store, i: int)
    requires Unique(st) && 0 <= i < |st|
    ensures Get(st, st[i].KeyOf()) == Some(st[i])
  {
    var k := st[i].KeyOf();
    var l := ListFor(st, k);
    assert |l| <= 1;
    assert st[i] in l by { ListForMember(st, st[i]); }
    OnlyElement(l, st[i]);
  }

  /** Dropping the first record of a unique store leaves a unique store without
      that record's key. */
  lemma UniqueTail(st: Store)
    requires Unique(st) && |st| > 0
    ensures Unique(st[1..]) && ListFor(st[1..], st[0].KeyOf()) == []
  {
    var k0 := st[0].KeyOf();
    assert ListFor(st, k0) == [st[0]] + ListFor(st[1..], k0);
    forall k ensures |ListFor(st[1..], k)| <= 1 {
      assert |ListFor(st[1..], k)| <= |ListFor(st, k)|;
    }
  }

  /** Writing two versions of the same record in a row leaves only the second:
      the scheduler's two writes within one tick amount to one write of the last. */
  lemma UpsertTwice(st: Store, a: Schedule, b: Schedule)
    requires a.KeyOf() == b.KeyOf()
    ensures forall k :: ListFor(Upsert(Upsert(st, a), b), k) == ListFor(Upsert(st, b), k)
  {
  }

  /** A fresh record as `set_timeout_schedule` writes it: nothing applied yet and no
      end time or notice flag stored. */
  function NewSchedule(userId: int, guildId: int, channelId: int, durationMinutes: int,
                       hour: int, minute: int, gmtOffset: int): Schedule
  {
    Schedule(userId, guildId, channelId, durationMinutes, hour, minute, gmtOffset, None, None, None)
  }

  /** `set_timeout_schedule`: afterwards the key has exactly one record, holding the
      submitted fields with `lastApplyDate == None`, and every other key is untouched. */
  function Set(st: Store, userId: int, guildId: int, channelId: int, durationMinutes: int,
               hour: int, minute: int, gmtOffset: int): (r: Store)
    ensures ListFor(r, Key(userId, guildId))
            == [Schedule(userId, guildId, channelId, durationMinutes, hour, minute, gmtOffset, None, None, None)]
    ensures forall k :: k != Key(userId, guildId) ==> ListFor(r, k) == ListFor(st, k)
  {
    Upsert(st, NewSchedule(userId, guildId, channelId, durationMinutes, hour, minute, gmtOffset))
  }

  /** `remove_timeout_schedule`: afterwards the key has no record and every other
      key is untouched. */
  function Remove(st: Store, userId: int, guildId: int): (r: Store)
    ensures ListFor(r, Key(userId, guildId)) == []
    ensures forall k :: k != Key(userId, guildId) ==> ListFor(r, k) == ListFor(st, k)
  {
    Without(st, Key(userId, guildId))
  }

  /** Setting then getting returns exactly the submitted record. */
  lemma SetThenGet(st: Store, userId: int, guildId: int, channelId: int, durationMinutes: int,
                   hour: int, minute: int, gmtOffset: int)
    ensures Get(Set(st, userId, guildId, channelId, durationMinutes, hour, minute, gmtOffset), Key(userId, guildId))
            == Some(NewSchedule(userId, guildId, channelId, durationMinutes, hour, minute, gmtOffset))
  {
  }

  /** Removing then getting finds nothing. */
  lemma RemoveThenGet(st: Store, userId: int, guildId: int)
    ensures Get(Remove(st, userId, guildId), Key(userId, guildId)) == None
  {
  }

  /** Removal keeps a unique store unique. */
  lemma RemoveKeepsUnique(st: Store, userId: int, guildId: int)
    requires Unique(st)
    ensures Unique(Remove(st, userId, guildId))
  {
  }
}
