/**
 * Rounds played through the controller's contracts alone: what a caller of
 * Game can conclude about concrete sequences of operations.
 */
module Scenarios {
  import opened DiceGame

  /** A roster in which everyone has total k is its own group of total k. */
  lemma {:induction false} AllWithScore(ps: seq<Player>, k: int)
    requires forall i :: 0 <= i < |ps| ==> ps[i].totalScore == k
    ensures PlayersWithScore(ps, k) == ps
  {
    if ps != [] {
      AllWithScore(ps[1..], k);
      assert ps == [ps[0]] + ps[1..];
    }
  }

  /** A ranking of two players with different totals puts the higher one first. */
  lemma TwoRanked(ranking: seq<Player>, a: Player, b: Player)
    requires multiset(ranking) == multiset([a, b])
    requires forall i, j :: 0 <= i < j < |ranking| ==> ranking[i].totalScore >= ranking[j].totalScore
    requires a.totalScore > b.totalScore
    ensures ranking == [a, b]
  {
    assert |ranking| == 2 by {
      assert |multiset(ranking)| == 2;
    }
    assert ranking == [ranking[0], ranking[1]];
    assert ranking[0].totalScore >= ranking[1].totalScore;
    assert multiset([ranking[0], ranking[1]]) == multiset([a, b]);
  }

  /** A ranking of players who all have the same total is the roster order. */
  lemma TiedRanked(ranking: seq<Player>, ps: seq<Player>, k: int)
    requires multiset(ranking) == multiset(ps)
    requires forall i :: 0 <= i < |ps| ==> ps[i].totalScore == k
    requires PlayersWithScore(ranking, k) == PlayersWithScore(ps, k)
    ensures ranking == ps
  {
    forall i | 0 <= i < |ranking| ensures ranking[i].totalScore == k {
      assert ranking[i] in multiset(ps);
    }
    AllWithScore(ranking, k);
    AllWithScore(ps, k);
  }

  /** A new game after n additions: n players with ids 1..n and no score. */
  method NewGame(n: nat) returns (g: Game)
    requires n <= MaxPlayers
    ensures fresh(g) && g.Valid()
    ensures |g.players| == n && g.counter == n + 1
    ensures forall i :: 0 <= i < n ==> g.players[i].name == DefaultName(i + 1) && g.players[i].totalScore == 0
    ensures forall i :: 0 <= i < n ==> fresh(g.players[i]) && fresh(g.players[i].dice)
  {
    g := new Game();
    var i := 0;
    while i < n
      invariant 0 <= i <= n
      invariant fresh(g) && g.Valid() && |g.players| == i && g.counter == i + 1
      invariant forall k :: 0 <= k < i ==> g.players[k].name == DefaultName(k + 1) && g.players[k].totalScore == 0
      invariant forall k :: 0 <= k < i ==> fresh(g.players[k]) && fresh(g.players[k].dice)
      modifies g
    {
      ghost var before := g.players;
      var added := g.AddPlayer();
      assert g.players == before + [g.players[i]];
      i := i + 1;
    }
  }

  /** Two players drawing 6 and 3: the first leads the ranking. */
  method TwoPlayerRound() returns (p1: Player, p2: Player, ranking: seq<Player>)
    ensures p1.name == DefaultName(1) && p2.name == DefaultName(2)
    ensures p1.totalScore == 6 && p2.totalScore == 3
    ensures ranking == [p1, p2]
  {
    var g := NewGame(2);
    p1, p2 := g.players[0], g.players[1];
    var rolled := g.RollAll([6, 3]);
    ranking := g.ShowResult();
    assert g.players == [p1, p2];
    TwoRanked(ranking, p1, p2);
  }

  /**
   * n new players who all draw the same value v end with total v each and are
   * ranked in the order they were added.
   */
  method TiedRound(n: nat, v: int) returns (roster: seq<Player>, ranking: seq<Player>)
    requires 1 <= n <= MaxPlayers && 1 <= v <= 6
    ensures |roster| == n && Distinct(roster)
    ensures forall i :: 0 <= i < n ==> roster[i].name == DefaultName(i + 1) && roster[i].totalScore == v
    ensures ranking == roster
  {
    var g := NewGame(n);
    roster := g.players;
    var rolled := g.RollAll(seq(n, _ => v));
    ranking := g.ShowResult();
    TiedRanked(ranking, roster, v);
  }

  /** The seventh player is refused and the roster stays at six. */
  method SeventhPlayerRefused() returns (g: Game, added: bool)
    ensures !added && |g.players| == MaxPlayers
  {
    g := NewGame(MaxPlayers);
    added := g.AddPlayer();
  }

  /** A player removed from any valid game does not appear in the ranking shown afterwards. */
  method RemovedPlayerNotRanked(g: Game, p: Player) returns (ranking: seq<Player>)
    requires g.Valid()
    modifies g
    ensures g.Valid() && p !in g.players
    ensures p !in ranking
  {
    ghost var before := g.players;
    g.RemovePlayer(p);
    WithoutMembers(before, p);
    ranking := g.ShowResult();
    assert p !in multiset(g.players);
  }

  /** Rolling with nobody on the roster does nothing. */
  method EmptyRollRefused() returns (rolled: bool)
    ensures !rolled
  {
    var g := new Game();
    rolled := g.RollAll([]);
  }
}
