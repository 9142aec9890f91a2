/** What numWinningCombos counts, stated independently of the counting:
    the games that can still be played out from a board, as sequences
    of cell indices, and among them those that X does not win. */
module Continuations {
  import opened Board
  import opened GameStatus
  import opened Search

  /** p plays out the game from g, `next` moving first and the marks
      alternating: every move goes to an empty cell while the game is in
      play, the game ends exactly when p does, and X has not won. */
  ghost predicate IsNonLossGame(g: Grid, next: Cell, p: seq<int>)
    decreases |p|
  {
    if Evaluate(g) != Playing then
      p == [] && Evaluate(g) != XWins
    else
      |p| > 0 && 0 <= p[0] < 9 && g[p[0]] == Empty &&
      IsNonLossGame(g[p[0] := next], Other(next), p[1..])
  }

  /** The sequences of S, each with k put in front. */
  ghost function Prefixed(k: int, S: set<seq<int>>): set<seq<int>>
  {
    set p | p in S :: [k] + p
  }

  /** The games counted by Count, collected cell by cell as Count sums. */
  ghost function Games(g: Grid, next: Cell): set<seq<int>>
    decreases EmptyCount(g), Rank(next), 1, 0
  {
    match Evaluate(g)
    case Playing => GamesTo(g, next, 9)
    case OWins => {[]}
    case Tie => {[]}
    case XWins => {}
  }

  /** The games whose first move is one of the first k cells. */
  ghost function GamesTo(g: Grid, next: Cell, k: nat): set<seq<int>>
    requires k <= 9
    decreases EmptyCount(g), Rank(next), 0, k
  {
    if k == 0 then {}
    else
      GamesTo(g, next, k - 1) +
      if g[k - 1] == Empty then
        PlaceDecreases(g, k - 1, next);
        Prefixed(k - 1, Games(g[k - 1 := next], Other(next)))
      else {}
  }

  lemma PrefixedMember(k: int, S: set<seq<int>>, q: seq<int>)
    ensures q in Prefixed(k, S) <==> |q| > 0 && q[0] == k && q[1..] in S
  {
    if |q| > 0 && q[0] == k && q[1..] in S {
      assert [k] + q[1..] == q;
    }
  }

  /** Putting k in front is one-to-one, so it keeps the size of a set. */
  lemma {:induction false} PrefixedSize(k: int, S: set<seq<int>>)
    ensures |Prefixed(k, S)| == |S|
    decreases |S|
  {
    if S != {} {
      var p :| p in S;
      var rest := S - {p};
      PrefixedSize(k, rest);
      assert Prefixed(k, S) == Prefixed(k, rest) + {[k] + p} by {
        forall q | q in Prefixed(k, S)
          ensures q in Prefixed(k, rest) + {[k] + p}
        {
          PrefixedMember(k, S, q);
          PrefixedMember(k, rest, q);
          if q != [k] + p {
            assert q[1..] != p by {
              assert q == [k] + q[1..];
            }
          }
        }
      }
      assert [k] + p !in Prefixed(k, rest) by {
        PrefixedMember(k, rest, [k] + p);
        assert ([k] + p)[1..] == p;
      }
    }
  }

  /** A member of GamesTo(g, next, k) starts with an empty cell before k
      and goes on with a game of the board after that move. */
  lemma {:induction false} GamesToMember(g: Grid, next: Cell, k: nat, q: seq<int>)
    requires k <= 9
    ensures q in GamesTo(g, next, k) <==>
      |q| > 0 && 0 <= q[0] < k && g[q[0]] == Empty &&
      q[1..] in Games(g[q[0] := next], Other(next))
  {
    if k > 0 {
      GamesToMember(g, next, k - 1, q);
      if g[k - 1] == Empty {
        PrefixedMember(k - 1, Games(g[k - 1 := next], Other(next)), q);
      }
    }
  }

  /** The collected games are exactly the games X does not win. */
  lemma {:induction false} GamesAreNonLossGames(g: Grid, next: Cell, p: seq<int>)
    ensures p in Games(g, next) <==> IsNonLossGame(g, next, p)
    decreases |p|
  {
    if Evaluate(g) == Playing {
      GamesToMember(g, next, 9, p);
      if |p| > 0 && 0 <= p[0] < 9 && g[p[0]] == Empty {
        GamesAreNonLossGames(g[p[0] := next], Other(next), p[1..]);
      }
    }
  }

  /** Count is the number of collected games. */
  lemma {:induction false} CountIsGamesSize(g: Grid, next: Cell)
    ensures |Games(g, next)| == Count(g, next)
    decreases EmptyCount(g), Rank(next), 1, 0
  {
    if Evaluate(g) == Playing {
      SizeTo(g, next, 9);
    }
  }

  /** The first k cells contribute as many games as SumTo counts. */
  lemma {:induction false} SizeTo(g: Grid, next: Cell, k: nat)
    requires k <= 9
    ensures |GamesTo(g, next, k)| == SumTo(g, next, k)
    decreases EmptyCount(g), Rank(next), 0, k
  {
    if k > 0 {
      SizeTo(g, next, k - 1);
      if g[k - 1] == Empty {
        var child := g[k - 1 := next];
        PlaceDecreases(g, k - 1, next);
        var later := Prefixed(k - 1, Games(child, Other(next)));
        CountIsGamesSize(child, Other(next));
        PrefixedSize(k - 1, Games(child, Other(next)));
        assert GamesTo(g, next, k - 1) * later == {} by {
          forall q | q in GamesTo(g, next, k - 1) && q in later
            ensures false
          {
            GamesToMember(g, next, k - 1, q);
            PrefixedMember(k - 1, Games(child, Other(next)), q);
          }
        }
        assert GamesTo(g, next, k) == GamesTo(g, next, k - 1) + later;
      }
    }
  }

  /** numWinningCombos counts exactly the ways the game can still be
      played out, from g with `next` to move, that do not end in a win
      for X: every such game is one of the Count(g, next) games collected
      by Games, and every collected game is such a game. */
  lemma CountIsNumberOfNonLossGames(g: Grid, next: Cell)
    ensures Count(g, next) == |Games(g, next)|
    ensures forall p :: p in Games(g, next) <==> IsNonLossGame(g, next, p)
  {
    CountIsGamesSize(g, next);
    forall p
      ensures p in Games(g, next) <==> IsNonLossGame(g, next, p)
    {
      GamesAreNonLossGames(g, next, p);
    }
  }
}
