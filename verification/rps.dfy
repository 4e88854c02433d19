/** A best-of-N rock-paper-scissors series between two seated players. A round
    closes when both players have picked; the first pick of the round is the one
    compared against the second. */
module Rps {
  import opened Wrappers

  datatype Move = Rock | Paper | Scissors
  datatype Seat = Player1 | Player2

  function Other(s: Seat): (r: Seat)
    ensures r != s
  {
    if s == Player1 then Player2 else Player1
  }

  /** The move that `m` defeats: rock beats scissors, scissors beat paper, paper beats rock. */
  function Beats(m: Move): (r: Move)
    ensures r != m
  {
    match m
    case Rock => Scissors
    case Scissors => Paper
    case Paper => Rock
  }

  /** The relation is a three-cycle: every move beats one move and loses to one
      other, so two distinct moves always have a winner. */
  lemma BeatsCycle(a: Move, b: Move)
    ensures Beats(Beats(Beats(a))) == a
    ensures a != b ==> (Beats(a) == b) != (Beats(b) == a)
  {
  }

  /** The series length the game actually uses: the requested one, clamped to 1..10. */
  function ClampBestOf(requested: int): (r: int)
    ensures 1 <= r <= 10
    ensures 1 <= requested <= 10 ==> r == requested
    ensures requested < 1 ==> r == 1
    ensures requested > 10 ==> r == 10
  {
    if requested < 1 then 1 else if requested > 10 then 10 else requested
  }

  /** Round wins that end the series: the least strict majority of `bestOf`. */
  function WinsNeeded(bestOf: int): (r: int)
    requires 1 <= bestOf
    ensures 2 * r > bestOf && 2 * (r - 1) <= bestOf
  {
    bestOf / 2 + 1
  }

  /** `result` is the series champion once the series is over (won on score or
      forfeited by a bail); `pending` is the first pick of the open round. */
  datatype Game = Game(bestOf: int, winsNeeded: int, score1: nat, score2: nat, round: nat,
                       pending: Option<(Seat, Move)>, result: Option<Seat>)
  {
    function Score(s: Seat): nat {
      if s == Player1 then score1 else score2
    }
  }

  /** Scores never pass the target, an open series has nobody at the target, and a
      series won on score names the player at the target as champion. */
  predicate Valid(g: Game) {
    && 1 <= g.bestOf <= 10
    && g.winsNeeded == WinsNeeded(g.bestOf)
    && 1 <= g.round
    && g.score1 <= g.winsNeeded && g.score2 <= g.winsNeeded
    && (g.result.None? ==> g.score1 < g.winsNeeded && g.score2 < g.winsNeeded)
    && (g.score1 == g.winsNeeded ==> g.result == Some(Player1))
    && (g.score2 == g.winsNeeded ==> g.result == Some(Player2))
  }

  function NewGame(requested: int): (g: Game)
    ensures Valid(g)
    ensures g.bestOf == ClampBestOf(requested)
    ensures g.score1 == 0 && g.score2 == 0 && g.round == 1 && g.pending.None? && g.result.None?
  {
    var b := ClampBestOf(requested);
    Game(b, WinsNeeded(b), 0, 0, 1, None, None)
  }

  /** The winner of one round in which `first` picked `c1` and the other player `c2`:
      none on equal picks, `first` when `c1` beats `c2`, the other player otherwise. */
  function RoundWinner(first: Seat, c1: Move, c2: Move): (r: Option<Seat>)
    ensures r.None? <==> c1 == c2
    ensures r == Some(first) <==> Beats(c1) == c2
    ensures r == Some(Other(first)) <==> Beats(c2) == c1
  {
    if c1 == c2 then None
    else if Beats(c1) == c2 then Some(first)
    else Some(Other(first))
  }

  /** Closes the round: credits the round winner, moves to the next round, clears the
      picks and, once a score reaches the target, names the player ahead as champion. */
  function Resolve(g: Game, first: Seat, c1: Move, c2: Move): (r: Game)
    // exactly the round winner gains one point
    ensures forall s :: r.Score(s) == g.Score(s) + (if RoundWinner(first, c1, c2) == Some(s) then 1 else 0)
    ensures r.round == g.round + 1 && r.pending.None?
    ensures r.bestOf == g.bestOf && r.winsNeeded == g.winsNeeded
    // the series ends exactly when a score reaches the target; the champion is the
    // player ahead, player 2 on a level score
    ensures r.score1 < g.winsNeeded && r.score2 < g.winsNeeded ==> r.result == g.result
    ensures r.score1 >= g.winsNeeded || r.score2 >= g.winsNeeded ==>
              r.result == Some(if r.score1 > r.score2 then Player1 else Player2)
    // on an open valid game: still valid, and a deciding round's winner is champion
    ensures Valid(g) && g.result.None? ==> Valid(r)
    ensures Valid(g) && g.result.None? && r.result.Some? ==> r.result == RoundWinner(first, c1, c2)
  {
    var w := RoundWinner(first, c1, c2);
    var s1 := if w == Some(Player1) then g.score1 + 1 else g.score1;
    var s2 := if w == Some(Player2) then g.score2 + 1 else g.score2;
    var over := s1 >= g.winsNeeded || s2 >= g.winsNeeded;
    g.(score1 := s1, score2 := s2, round := g.round + 1, pending := None,
       result := if over then Some(if s1 > s2 then Player1 else Player2) else g.result)
  }

  /** A pick by `seat`. The first pick of a round is held (a player may change it
      until the other has picked); the other player's pick closes the round. A
      finished series takes no more picks. */
  function Choose(g: Game, seat: Seat, m: Move): (r: Game)
    ensures Valid(g) ==> Valid(r)
    ensures g.result.Some? ==> r == g
    // the first pick of a round (or a changed one) is only held
    ensures g.result.None? && (g.pending.None? || g.pending.value.0 == seat) ==>
              r.pending == Some((seat, m)) && r.(pending := g.pending) == g
    // the other seat's pick scores the round against the held pick
    ensures g.result.None? && g.pending.Some? && g.pending.value.0 != seat ==>
              && (forall s :: r.Score(s) == g.Score(s) + (if RoundWinner(g.pending.value.0, g.pending.value.1, m) == Some(s) then 1 else 0))
              && r.round == g.round + 1 && r.pending.None?
              && r.bestOf == g.bestOf && r.winsNeeded == g.winsNeeded
              && (r.score1 < g.winsNeeded && r.score2 < g.winsNeeded ==> r.result == g.result)
              && (r.score1 >= g.winsNeeded || r.score2 >= g.winsNeeded ==>
                    r.result == Some(if r.score1 > r.score2 then Player1 else Player2))
    ensures Valid(g) && g.result.None? && r.result.Some? ==>
              r.result == RoundWinner(g.pending.value.0, g.pending.value.1, m)
  {
    if g.result.Some? then g
    else match g.pending
      case None => g.(pending := Some((seat, m)))
      case Some((s, c)) =>
        if s == seat then g.(pending := Some((seat, m)))
        else Resolve(g, s, c, m)
  }

  /** A bail ends an open series at once, with the other player as champion. */
  function Bail(g: Game, seat: Seat): (r: Game)
    ensures Valid(g) ==> Valid(r)
    ensures g.result.None? ==> r.result == Some(Other(seat)) && r.score1 == g.score1 && r.score2 == g.score2
    ensures g.result.Some? ==> r == g
  {
    if g.result.Some? then g else g.(result := Some(Other(seat)))
  }

  /** Who picked first does not matter: the round outcome depends only on which
      move each seat picked. */
  lemma PickOrderIrrelevant(g: Game, a: Move, b: Move)
    ensures Resolve(g, Player1, a, b) == Resolve(g, Player2, b, a)
  {
  }

  /** A series won on score is decided after at most `2 * winsNeeded - 1` decisive
      rounds, and the champion leads the other player. */
  lemma FinishedOnScore(g: Game)
    requires Valid(g) && (g.score1 == g.winsNeeded || g.score2 == g.winsNeeded)
    ensures g.score1 + g.score2 <= 2 * g.winsNeeded - 1
    ensures g.result.Some? && g.Score(g.result.value) > g.Score(Other(g.result.value))
  {
  }
}
