/** `Node<TMove>` of the Monte Carlo tree search, over the Gomoku game: the
    moves not yet tried, the children, and the win and visit accumulators.
    The UCB1 value and the win ratio the selections order by are supplied as
    one score per child. */
module Mcts {
  import opened Tiles
  import opened GameSpec
  import opened Game

  /** The position of the first occurrence of m in xs. */
  function IndexOf(xs: seq<Move>, m: Move): (i: nat)
    requires m in xs
    ensures i < |xs| && xs[i] == m && m !in xs[..i]
  {
    if xs[0] == m then 0
    else
      var i := 1 + IndexOf(xs[1..], m);
      assert xs[..i] == [xs[0]] + xs[1..][..i - 1];
      i
  }

  /** `List.Remove`: the first occurrence of m taken out, if there is one. */
  function RemoveFirst(xs: seq<Move>, m: Move): seq<Move> {
    if |xs| == 0 then []
    else if xs[0] == m then xs[1..]
    else [xs[0]] + RemoveFirst(xs[1..], m)
  }

  /** `List.Remove` removes exactly the first occurrence of m, and leaves a
      list without m as it is. */
  lemma {:induction false} RemoveFirstSpec(xs: seq<Move>, m: Move)
    ensures m in xs ==> RemoveFirst(xs, m) == xs[..IndexOf(xs, m)] + xs[IndexOf(xs, m) + 1..]
    ensures m !in xs ==> RemoveFirst(xs, m) == xs
  {
    if |xs| > 0 && xs[0] != m {
      RemoveFirstSpec(xs[1..], m);
      if m in xs {
        assert m in xs[1..];
        var i := IndexOf(xs[1..], m);
        assert xs[1..][..i] == xs[1..i + 1];
        assert xs[1..][i + 1..] == xs[i + 2..];
      } else {
        assert m !in xs[1..];
      }
    }
  }

  /** One move fewer, and the same moves otherwise. */
  lemma RemoveFirstCount(xs: seq<Move>, m: Move)
    requires m in xs
    ensures |RemoveFirst(xs, m)| == |xs| - 1
    ensures multiset(RemoveFirst(xs, m)) == multiset(xs) - multiset{m}
  {
    RemoveFirstSpec(xs, m);
    var i := IndexOf(xs, m);
    var front, back := xs[..i], xs[i + 1..];
    assert xs == front + [m] + back;
    assert RemoveFirst(xs, m) == front + back;
    assert multiset(xs) == multiset(front) + multiset{m} + multiset(back);
  }

  /** k is the first position of a largest score. */
  predicate IsFirstMax(scores: seq<real>, k: int) {
    && 0 <= k < |scores|
    && (forall j :: 0 <= j < |scores| ==> scores[j] <= scores[k])
    && (forall j :: 0 <= j < k ==> scores[j] < scores[k])
  }

  /** There is one first largest score. */
  lemma FirstMaxUnique(scores: seq<real>, k1: int, k2: int)
    requires IsFirstMax(scores, k1) && IsFirstMax(scores, k2)
    ensures k1 == k2
  {
    var first, second := scores[k1], scores[k2];
    assert first <= second && second <= first;
  }

  /** The position `OrderByDescending(...).First()` picks: the sort is stable,
      so among equal largest scores the earliest comes first. */
  function FirstMax(scores: seq<real>): (k: nat)
    requires |scores| > 0
    ensures IsFirstMax(scores, k)
  {
    if |scores| == 1 then 0
    else
      var k := FirstMax(scores[..|scores| - 1]);
      if scores[|scores| - 1] > scores[k] then |scores| - 1 else k
  }

  class Node {
    /** `Parent`: null at the root. */
    const parent: Node?
    /** `Children`, in the order they were added. */
    var children: seq<Node>
    /** `UntriedMoves`. */
    var untriedMoves: seq<Move>
    /** `MoveMade`: the move that led here. */
    const moveMade: Move
    /** `_wins`. */
    var wins: real
    /** `_visits`. */
    var visits: int

    /** `new Node(gameState, move, parent)`: the game's legal moves are the
        untried ones; no children, no wins, no visits. */
    constructor(gameState: GomokuGame, move: Move, parent: Node?)
      requires gameState.Valid()
      ensures this.parent == parent && moveMade == move
      ensures children == [] && untriedMoves == LegalMoves(gameState.State())
      ensures wins == 0.0 && visits == 0
    {
      var moves := gameState.GetLegalMoves();
      this.parent := parent;
      children := [];
      untriedMoves := moves;
      moveMade := move;
      wins := 0.0;
      visits := 0;
    }

    /** `AddChild`: a new node for the move, below this one, appended to the
        children; the move leaves the untried moves. */
    method AddChild(move: Move, gameState: GomokuGame) returns (childNode: Node)
      requires gameState.Valid()
      modifies this
      ensures fresh(childNode) && childNode.parent == this && childNode.moveMade == move
      ensures childNode.children == [] && childNode.untriedMoves == LegalMoves(gameState.State())
      ensures childNode.wins == 0.0 && childNode.visits == 0
      ensures children == old(children) + [childNode]
      ensures untriedMoves == RemoveFirst(old(untriedMoves), move)
      ensures wins == old(wins) && visits == old(visits)
      ensures move in old(untriedMoves) ==> |children| + |untriedMoves| == old(|children| + |untriedMoves|)
    {
      childNode := new Node(gameState, move, this);
      if move in untriedMoves {
        RemoveFirstCount(untriedMoves, move);
      }
      untriedMoves := RemoveFirst(untriedMoves, move);
      children := children + [childNode];
    }

    /** `SelectChild`, with the UCB1 value of each child given in scores:
        the first child of largest score. */
    function SelectChild(scores: seq<real>): (c: Node)
      reads this
      requires |scores| == |children| > 0
      ensures exists k :: IsFirstMax(scores, k) && c == children[k]
    {
      children[FirstMax(scores)]
    }

    /** `Update`: one more visit, result more wins. */
    method Update(result: real)
      modifies this
      ensures visits == old(visits) + 1 && wins == old(wins) + result
      ensures children == old(children) && untriedMoves == old(untriedMoves)
    {
      visits := visits + 1;
      wins := wins + result;
    }

    /** `GetBestMove`, with the win ratio of each child given in scores:
        `default` without children, otherwise the move of the first child of
        largest ratio. */
    function GetBestMove(scores: seq<real>): (m: Move)
      reads this
      requires |scores| == |children|
      ensures children == [] ==> m == DefaultMove
      ensures children != [] ==> exists k :: IsFirstMax(scores, k) && m == children[k].moveMade
    {
      if |children| == 0 then DefaultMove else children[FirstMax(scores)].moveMade
    }
  }
}
