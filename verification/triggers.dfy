/** Per-channel and server-wide switches for the message triggers (`dad`, `sus`, ...).
    Each trigger name maps to a list of disabled channel ids and a list of disabled
    guild ids; a trigger with no list has nothing disabled. */
module Triggers {

  datatype Settings = Settings(channels: map<string, seq<int>>, guilds: map<string, seq<int>>)

  const ServerWide: string := "server_wide"

  /** `d.get(trigger, [])`. */
  function Lookup(m: map<string, seq<int>>, trigger: string): seq<int> {
    if trigger in m then m[trigger] else []
  }

  predicate NoDup(xs: seq<int>) {
    forall i, j :: 0 <= i < j < |xs| ==> xs[i] != xs[j]
  }

  /** No id list holds an id twice. */
  ghost predicate Clean(st: Settings) {
    && (forall t :: t in st.channels ==> NoDup(st.channels[t]))
    && (forall t :: t in st.guilds ==> NoDup(st.guilds[t]))
  }

  /** `is_trigger_enabled`: off when the guild disabled it server-wide, otherwise off
      exactly when the channel disabled it. */
  function IsEnabled(st: Settings, channelId: int, guildId: int, trigger: string): (r: bool)
    // a server-wide switch wins over every channel
    ensures trigger in st.guilds && guildId in st.guilds[trigger] ==> !r
    ensures !(trigger in st.guilds && guildId in st.guilds[trigger]) ==>
              (r <==> !(trigger in st.channels && channelId in st.channels[trigger]))
  {
    guildId !in Lookup(st.guilds, trigger) && channelId !in Lookup(st.channels, trigger)
  }

  /** `list.remove(x)`: drops the first occurrence of `x`, if any. */
  function RemoveFirst(xs: seq<int>, x: int): (r: seq<int>)
    ensures x in xs ==> multiset(r) == multiset(xs) - multiset{x}
    ensures x !in xs ==> r == xs
  {
    if |xs| == 0 then []
    else
      assert xs == [xs[0]] + xs[1..];
      assert multiset(xs) == multiset{xs[0]} + multiset(xs[1..]);
      if xs[0] == x then xs[1..]
      else
        var rest := RemoveFirst(xs[1..], x);
        assert multiset([xs[0]] + rest) == multiset{xs[0]} + multiset(rest);
        [xs[0]] + rest
  }

  lemma NoDupCons(a: int, s: seq<int>)
    ensures NoDup([a] + s) <==> a !in s && NoDup(s)
  {
    var t := [a] + s;
    if a !in s && NoDup(s) {
      forall i, j | 0 <= i < j < |t| ensures t[i] != t[j] {
        if i == 0 { assert t[j] == s[j - 1]; } else { assert t[i] == s[i - 1] && t[j] == s[j - 1]; }
      }
    }
    if NoDup(t) {
      forall i, j | 0 <= i < j < |s| ensures s[i] != s[j] {
        assert s[i] == t[i + 1] && s[j] == t[j + 1];
      }
      forall j | 0 <= j < |s| ensures s[j] != a {
        assert t[0] == a && s[j] == t[j + 1];
      }
    }
  }

  /** Removal keeps only ids the list had. */
  lemma {:induction false} RemoveFirstSubset(xs: seq<int>, x: int, y: int)
    requires y in RemoveFirst(xs, x)
    ensures y in xs
  {
    if |xs| > 0 && xs[0] != x && y != xs[0] {
      RemoveFirstSubset(xs[1..], x, y);
    }
  }

  /** Removing from a list without repeats leaves no copy behind and no repeats. */
  lemma {:induction false} RemoveFirstNoDup(xs: seq<int>, x: int)
    requires NoDup(xs)
    ensures NoDup(RemoveFirst(xs, x)) && x !in RemoveFirst(xs, x)
  {
    if |xs| > 0 {
      assert xs == [xs[0]] + xs[1..];
      NoDupCons(xs[0], xs[1..]);
      if xs[0] != x {
        RemoveFirstNoDup(xs[1..], x);
        var rest := RemoveFirst(xs[1..], x);
        if xs[0] in rest {
          RemoveFirstSubset(xs[1..], x, xs[0]);
        }
        NoDupCons(xs[0], rest);
      }
    }
  }

  /** `append(x)` unless already present. */
  function AddAbsent(xs: seq<int>, x: int): (r: seq<int>)
    ensures x in r
    ensures x !in xs ==> multiset(r) == multiset(xs) + multiset{x}
    ensures x in xs ==> r == xs
    ensures NoDup(xs) ==> NoDup(r)
  {
    if x in xs then xs else xs + [x]
  }

  /** One id list switched: enabling removes the id, disabling adds it once.
      Either the list gains or loses exactly that one id, or it already was as asked. */
  function Switch(xs: seq<int>, id: int, enabled: bool): (r: seq<int>)
    ensures enabled && id in xs ==> multiset(r) == multiset(xs) - multiset{id}
    ensures !enabled && id !in xs ==> multiset(r) == multiset(xs) + multiset{id}
    ensures (enabled && id !in xs) || (!enabled && id in xs) ==> r == xs
    ensures !enabled ==> id in r
    ensures NoDup(xs) ==> NoDup(r) && (enabled ==> id !in r)
  {
    if enabled then RemoveFirstNoDupIf(xs, id); RemoveFirst(xs, id) else AddAbsent(xs, id)
  }

  lemma RemoveFirstNoDupIf(xs: seq<int>, x: int)
    ensures NoDup(xs) ==> NoDup(RemoveFirst(xs, x)) && x !in RemoveFirst(xs, x)
  {
    if NoDup(xs) { RemoveFirstNoDup(xs, x); }
  }

  /** `set_trigger_enabled`: switches `guildId` in the trigger's guild list when the
      scope is server-wide, else `channelId` in its channel list; the other scope and
      every other trigger are untouched. Afterwards a disabled trigger reports
      disabled (server-wide: in every channel of the guild), and clean settings stay
      clean. */
  function SetEnabled(st: Settings, channelId: int, guildId: int, trigger: string,
                      enabled: bool, scope: string): (r: Settings)
    ensures scope == ServerWide ==>
              r.channels == st.channels
              && Lookup(r.guilds, trigger) == Switch(Lookup(st.guilds, trigger), guildId, enabled)
    ensures scope != ServerWide ==>
              r.guilds == st.guilds
              && Lookup(r.channels, trigger) == Switch(Lookup(st.channels, trigger), channelId, enabled)
    ensures forall t :: t != trigger ==>
              Lookup(r.channels, t) == Lookup(st.channels, t) && Lookup(r.guilds, t) == Lookup(st.guilds, t)
    ensures !enabled ==> !IsEnabled(r, channelId, guildId, trigger)
    ensures !enabled && scope == ServerWide ==> forall c :: !IsEnabled(r, c, guildId, trigger)
    ensures Clean(st) ==> Clean(r)
  {
    if scope == ServerWide then
      st.(guilds := st.guilds[trigger := Switch(Lookup(st.guilds, trigger), guildId, enabled)])
    else
      st.(channels := st.channels[trigger := Switch(Lookup(st.channels, trigger), channelId, enabled)])
  }

  /** On clean settings, enabling a trigger in a channel makes it report enabled
      there exactly when the guild has not disabled it server-wide. */
  lemma EnableChannelIff(st: Settings, channelId: int, guildId: int, trigger: string, scope: string)
    requires Clean(st) && scope != ServerWide
    ensures IsEnabled(SetEnabled(st, channelId, guildId, trigger, true, scope), channelId, guildId, trigger)
            <==> guildId !in Lookup(st.guilds, trigger)
  {
  }

  /** On clean settings, enabling a trigger server-wide lifts the guild's switch:
      every channel it had not disabled reports enabled again. */
  lemma EnableServerWide(st: Settings, channelId: int, guildId: int, trigger: string)
    requires Clean(st)
    ensures IsEnabled(SetEnabled(st, channelId, guildId, trigger, true, ServerWide), channelId, guildId, trigger)
            <==> channelId !in Lookup(st.channels, trigger)
  {
  }

  /** Appending an absent id and then removing it gives the list back. */
  lemma {:induction false} RemoveAppended(xs: seq<int>, x: int)
    requires x !in xs
    ensures RemoveFirst(xs + [x], x) == xs
  {
    if |xs| > 0 {
      assert (xs + [x])[1..] == xs[1..] + [x];
      RemoveAppended(xs[1..], x);
    }
  }

  /** Disabling a trigger that was on in that scope and enabling it again restores
      the trigger's id lists as they were (every other trigger is untouched by
      either call). */
  lemma DisableThenEnable(st: Settings, channelId: int, guildId: int, trigger: string, scope: string)
    requires scope == ServerWide ==> guildId !in Lookup(st.guilds, trigger)
    requires scope != ServerWide ==> channelId !in Lookup(st.channels, trigger)
    ensures var r := SetEnabled(SetEnabled(st, channelId, guildId, trigger, false, scope),
                                channelId, guildId, trigger, true, scope);
            Lookup(r.channels, trigger) == Lookup(st.channels, trigger)
            && Lookup(r.guilds, trigger) == Lookup(st.guilds, trigger)
  {
    if scope == ServerWide {
      RemoveAppended(Lookup(st.guilds, trigger), guildId);
    } else {
      RemoveAppended(Lookup(st.channels, trigger), channelId);
    }
  }
}
