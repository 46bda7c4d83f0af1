/**
 * The roster and score bookkeeping of the dice game: players with a running
 * total and their last roll, and the controller that adds, removes and
 * renames players, rolls for everyone, resets the scores and ranks the
 * roster. The random draws and the answer to the reset confirmation are
 * parameters.
 */
module DiceGame {
  import opened Wrappers
  import Text
  import opened Ranking
  import opened Dice

  /** Most players the roster holds at once. */
  const MaxPlayers := 6

  const InfoSeparator := " | Total Skor: "

  /** The name a player is created with. */
  function DefaultName(id: int): (r: string)
  {
    "Player " + Text.IntToString(id)
  }

  /** Players created with different ids start with different names. */
  lemma DefaultNamesDistinct(a: int, b: int)
    requires a != b
    ensures DefaultName(a) != DefaultName(b)
  {
    Text.IntToStringInjective(a, b);
    assert DefaultName(a)[7..] == Text.IntToString(a);
    assert DefaultName(b)[7..] == Text.IntToString(b);
  }

  class Player {
    var name: string
    var totalScore: int
    var lastRoll: int
    var dice: Dice3D?

    constructor (id: int)
      ensures name == DefaultName(id) && totalScore == 0 && lastRoll == 0 && dice == null
    {
      name := DefaultName(id);
      totalScore := 0;
      lastRoll := 0;
      dice := null;
    }

    /** Records a roll: the last roll becomes value and the total grows by it. */
    method AddScore(value: int)
      modifies this
      ensures lastRoll == value && totalScore == old(totalScore) + value
      ensures name == old(name) && dice == old(dice)
    {
      lastRoll := value;
      totalScore := totalScore + value;
    }

    function Info(): string
      reads this
    {
      name + InfoSeparator + Text.IntToString(totalScore)
    }
  }

  /** Reads the total score back out of the info text of a player with the given name. */
  function ScoreOfInfo(name: string, s: string): (r: Option<int>)
  {
    var prefix := name + InfoSeparator;
    if |prefix| <= |s| && s[..|prefix|] == prefix then Text.ParseInt(s[|prefix|..]) else None
  }

  /** A player's info text names the player's total score. */
  lemma InfoNamesScore(p: Player)
    ensures ScoreOfInfo(p.name, p.Info()) == Some(p.totalScore)
  {
    var prefix := p.name + InfoSeparator;
    assert p.Info()[..|prefix|] == prefix;
    assert p.Info()[|prefix|..] == Text.IntToString(p.totalScore);
    Text.ParseIntToString(p.totalScore);
  }

  predicate Distinct<T(==)>(s: seq<T>)
  {
    forall i, j :: 0 <= i < j < |s| ==> s[i] != s[j]
  }

  /** s with every occurrence of x filtered out, the rest in order. */
  function Without<T(==)>(s: seq<T>, x: T): (r: seq<T>)
  {
    if s == [] then [] else (if s[0] == x then [] else [s[0]]) + Without(s[1..], x)
  }

  /** Filtering out x keeps exactly the elements other than x. */
  lemma {:induction false} WithoutMembers<T>(s: seq<T>, x: T)
    ensures forall i :: 0 <= i < |Without(s, x)| ==> Without(s, x)[i] in s && Without(s, x)[i] != x
    ensures forall i :: 0 <= i < |s| && s[i] != x ==> s[i] in Without(s, x)
    ensures |Without(s, x)| <= |s|
  {
    if s != [] {
      WithoutMembers(s[1..], x);
      var head := if s[0] == x then [] else [s[0]];
      assert Without(s, x) == head + Without(s[1..], x);
      forall i | 0 <= i < |s| && s[i] != x ensures s[i] in Without(s, x) {
        if i > 0 {
          assert s[i] == s[1..][i - 1];
        }
      }
    }
  }

  /** Filtering out an element that is not there changes nothing. */
  lemma {:induction false} WithoutAbsent<T>(s: seq<T>, x: T)
    requires x !in s
    ensures Without(s, x) == s
  {
    if s != [] {
      WithoutAbsent(s[1..], x);
      assert s == [s[0]] + s[1..];
    }
  }

  /** In a sequence without repeats, filtering out s[i] removes exactly position i. */
  lemma {:induction false} WithoutAt<T>(s: seq<T>, i: nat)
    requires Distinct(s) && i < |s|
    ensures Without(s, s[i]) == s[..i] + s[i + 1..]
  {
    var tail := s[1..];
    assert Distinct(tail) by {
      forall a, b | 0 <= a < b < |tail| ensures tail[a] != tail[b] {
        assert tail[a] == s[a + 1] && tail[b] == s[b + 1];
      }
    }
    if i == 0 {
      assert s[0] !in tail by {
        forall b | 0 <= b < |tail| ensures tail[b] != s[0] {
          assert tail[b] == s[b + 1];
        }
      }
      WithoutAbsent(tail, s[0]);
      assert Without(s, s[0]) == Without(tail, s[0]);
    } else {
      assert s[0] != s[i];
      assert Without(s, s[i]) == [s[0]] + Without(tail, s[i]);
      assert tail[i - 1] == s[i];
      WithoutAt(tail, i - 1);
      assert tail[..i - 1] + tail[i..] == s[1..i] + s[i + 1..];
      assert s[..i] == [s[0]] + s[1..i];
    }
  }

  /** Filtering keeps a sequence free of repeats. */
  lemma {:induction false} WithoutDistinct<T>(s: seq<T>, x: T)
    requires Distinct(s)
    ensures Distinct(Without(s, x))
  {
    if s != [] {
      WithoutDistinct(s[1..], x);
      var r := Without(s, x);
      var tail := Without(s[1..], x);
      if s[0] != x {
        assert r == [s[0]] + tail;
        WithoutMembers(s[1..], x);
        assert s[0] !in tail by {
          assert s[0] !in s[1..];
        }
      }
    }
  }

  /** The entries the ranking sorts: each player paired with its current total. */
  function Scored(ps: seq<Player>): (r: seq<Entry<Player>>)
    reads ps
    ensures |r| == |ps|
    ensures forall i :: 0 <= i < |ps| ==> r[i] == Entry(ps[i], ps[i].totalScore)
  {
    if ps == [] then [] else [Entry(ps[0], ps[0].totalScore)] + Scored(ps[1..])
  }

  /** The players of ps whose total is k, in roster order. */
  ghost function PlayersWithScore(ps: seq<Player>, k: int): seq<Player>
    reads ps
  {
    if ps == [] then []
    else (if ps[0].totalScore == k then [ps[0]] else []) + PlayersWithScore(ps[1..], k)
  }

  lemma {:induction false} ItemsOfScoredWithScore(ps: seq<Player>, k: int)
    ensures Items(WithScore(Scored(ps), k)) == PlayersWithScore(ps, k)
  {
    if ps != [] {
      ItemsOfScoredWithScore(ps[1..], k);
      assert Scored(ps)[1..] == Scored(ps[1..]);
      ItemsAppend(if ps[0].totalScore == k then [Entry(ps[0], k)] else [], WithScore(Scored(ps[1..]), k));
    }
  }

  lemma ScoredOfItems(r: seq<Entry<Player>>)
    requires forall i :: 0 <= i < |r| ==> r[i].score == r[i].item.totalScore
    ensures Scored(Items(r)) == r
  {
  }

  /** Each ranked entry carries its player's current total. */
  lemma RankedScoresCurrent(ps: seq<Player>)
    ensures forall i :: 0 <= i < |Rank(Scored(ps))| ==>
      Rank(Scored(ps))[i].score == Rank(Scored(ps))[i].item.totalScore
  {
    var ranked := Rank(Scored(ps));
    RankPermutation(Scored(ps));
    forall i | 0 <= i < |ranked| ensures ranked[i].score == ranked[i].item.totalScore {
      assert ranked[i] in multiset(Scored(ps));
    }
  }

  /** What the ranking of a roster is: a permutation, sorted by total, ties in roster order. */
  lemma RankingOfRoster(ps: seq<Player>)
    ensures var ranking := Items(Rank(Scored(ps)));
      && multiset(ranking) == multiset(ps)
      && (forall i, j :: 0 <= i < j < |ranking| ==> ranking[i].totalScore >= ranking[j].totalScore)
      && (forall k :: PlayersWithScore(ranking, k) == PlayersWithScore(ps, k))
  {
    var ranked := Rank(Scored(ps));
    var ranking := Items(ranked);
    RankItemsPermutation(Scored(ps));
    assert Items(Scored(ps)) == ps;
    RankSorted(Scored(ps));
    RankedScoresCurrent(ps);
    ScoredOfItems(ranked);
    forall k ensures PlayersWithScore(ranking, k) == PlayersWithScore(ps, k) {
      RankStable(Scored(ps));
      assert WithScore(ranked, k) == WithScore(Scored(ps), k);
      ItemsOfScoredWithScore(ranking, k);
      ItemsOfScoredWithScore(ps, k);
    }
  }

  /**
   * Every die on the roster of a valid game shows a face, so the rotation
   * lookup that ends a roll always finds one.
   */
  lemma RosterDiceHaveRotations(g: Game)
    requires g.Valid()
    ensures forall i :: 0 <= i < |g.players| ==> GetRotation(g.players[i].dice.value).Some?
  {
  }

  class Game {
    var players: seq<Player>
    var counter: int
    /** How many players have ever been added. */
    ghost var additions: nat

    /**
     * At most MaxPlayers players, none listed twice, each with a die of its
     * own; counter is 1 plus the number of players ever added, and the
     * roster is no longer than that number. Every total is at least 0, every
     * last roll is 0 (no roll yet) or a face, and every die shows a face.
     */
    ghost predicate Valid()
      reads this, players, Dice()
    {
      && |players| <= MaxPlayers
      && counter == additions + 1
      && |players| <= additions
      && Distinct(players)
      && (forall i :: 0 <= i < |players| ==> players[i].dice != null)
      && (forall i, j :: 0 <= i < j < |players| ==> players[i].dice != players[j].dice)
      && (forall i :: 0 <= i < |players| ==>
            && players[i].totalScore >= 0
            && 0 <= players[i].lastRoll <= 6
            && 1 <= players[i].dice.value <= 6)
    }

    /** The dice of the players on the roster. */
    ghost function Dice(): set<Dice3D?>
      reads this, players
    {
      set i | 0 <= i < |players| :: players[i].dice
    }

    constructor ()
      ensures Valid()
      ensures players == [] && counter == 1 && additions == 0
    {
      players := [];
      counter := 1;
      additions := 0;
    }

    /**
     * On a full roster nothing changes (the source shows a notice). Otherwise
     * a player with the next id, its default name, no score and a die showing
     * 1 is appended.
     */
    method AddPlayer() returns (added: bool)
      requires Valid()
      modifies this
      ensures Valid()
      ensures added <==> |old(players)| < MaxPlayers
      ensures !added ==> players == old(players) && counter == old(counter) && additions == old(additions)
      ensures added ==>
        && |players| == |old(players)| + 1
        && players[..|old(players)|] == old(players)
        && counter == old(counter) + 1
        && additions == old(additions) + 1
        && var p := players[|old(players)|];
           fresh(p) && p.name == DefaultName(old(counter)) && p.totalScore == 0 && p.lastRoll == 0
           && p.dice != null && fresh(p.dice) && p.dice.value == 1
    {
      if |players| >= MaxPlayers {
        return false;
      }
      var player := new Player(counter);
      counter := counter + 1;
      player.dice := new Dice3D();
      players := players + [player];
      additions := additions + 1;
      added := true;
    }

    /** The delete button of player p: the roster filtered to everyone but p. */
    method RemovePlayer(p: Player)
      requires Valid()
      modifies this
      ensures Valid()
      ensures players == Without(old(players), p)
      ensures counter == old(counter) && additions == old(additions)
    {
      var kept := Without(players, p);
      WithoutDistinct(players, p);
      WithoutMembers(players, p);
      forall i, j | 0 <= i < j < |kept| ensures kept[i].dice != kept[j].dice {
        var a :| 0 <= a < |players| && players[a] == kept[i];
        var b :| 0 <= b < |players| && players[b] == kept[j];
        assert a != b;
      }
      players := kept;
    }

    /** The name field of player p: overwrites the name and nothing else. */
    method RenamePlayer(p: Player, newName: string)
      requires Valid()
      modifies p
      ensures Valid()
      ensures p.name == newName
      ensures p.totalScore == old(p.totalScore) && p.lastRoll == old(p.lastRoll) && p.dice == old(p.dice)
    {
      p.name := newName;
    }

    /**
     * Rolls for every player: player k adds draws[k] to its total, records it
     * as its last roll and its die shows it. On an empty roster nothing
     * changes (the source shows a notice).
     */
    method RollAll(draws: seq<int>) returns (rolled: bool)
      requires Valid()
      requires |draws| == |players|
      requires forall k :: 0 <= k < |draws| ==> 1 <= draws[k] <= 6
      modifies players, Dice()
      ensures Valid()
      ensures rolled <==> |players| > 0
      ensures forall k :: 0 <= k < |players| ==>
        && players[k].totalScore == old(players[k].totalScore) + draws[k]
        && players[k].lastRoll == draws[k]
        && players[k].name == old(players[k].name)
        && players[k].dice == old(players[k].dice)
        && players[k].dice.value == draws[k]
    {
      if |players| == 0 {
        return false;
      }
      for i := 0 to |players|
        invariant forall k :: 0 <= k < |players| ==>
          players[k].name == old(players[k].name) && players[k].dice == old(players[k].dice)
        invariant forall k :: 0 <= k < i ==>
          && players[k].totalScore == old(players[k].totalScore) + draws[k]
          && players[k].lastRoll == draws[k]
          && players[k].dice.value == draws[k]
        invariant forall k :: i <= k < |players| ==>
          && players[k].totalScore == old(players[k].totalScore)
          && players[k].lastRoll == old(players[k].lastRoll)
      {
        players[i].AddScore(draws[i]);
        players[i].dice.Roll(draws[i]);
      }
      rolled := true;
    }

    /**
     * Zeroes every total when the roster is not empty and the user confirms;
     * last rolls, names and the roster itself are left alone. Otherwise
     * nothing changes.
     */
    method ResetGame(confirmed: bool)
      requires Valid()
      modifies players
      ensures Valid()
      ensures forall k :: 0 <= k < |players| ==>
        && players[k].totalScore == (if confirmed then 0 else old(players[k].totalScore))
        && players[k].lastRoll == old(players[k].lastRoll)
        && players[k].name == old(players[k].name)
        && players[k].dice == old(players[k].dice)
    {
      if |players| == 0 {
        return;
      }
      if confirmed {
        for i := 0 to |players|
          invariant forall k :: 0 <= k < |players| ==>
            && players[k].totalScore == (if k < i then 0 else old(players[k].totalScore))
            && players[k].lastRoll == old(players[k].lastRoll)
            && players[k].name == old(players[k].name)
            && players[k].dice == old(players[k].dice)
        {
          players[i].totalScore := 0;
        }
      }
    }

    /**
     * The ranking: a copy of the roster sorted by total, highest first, with
     * players of equal total in roster order. The roster is not reordered.
     */
    method ShowResult() returns (ranking: seq<Player>)
      requires Valid()
      ensures multiset(ranking) == multiset(players)
      ensures forall i, j :: 0 <= i < j < |ranking| ==> ranking[i].totalScore >= ranking[j].totalScore
      ensures forall k :: PlayersWithScore(ranking, k) == PlayersWithScore(players, k)
    {
      ranking := Items(Rank(Scored(players)));
      RankingOfRoster(players);
    }
  }
}
