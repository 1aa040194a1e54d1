/** The tree node of the AlphaZero-style search (`Node` in mcts.py): a state
    seen from the side to move, the action and prior that led to it, the
    children, and the visit count and total value that backpropagation
    accumulates. The exploration term of the UCB score comes from the
    network's prior and a square root; selection takes the scores of the
    children as given. */
module AlphaMcts {
  import opened Grid
  import opened Rules
  import Mcts

  /** What `expand` fails with when no action has a positive probability:
      `return child` reads a variable that was never bound. */
  const ChildUnbound := "UnboundLocalError: child"

  /** The value as seen i plies above: unchanged at even distances, negated
      at odd ones. */
  function Alternate(i: nat, v: real): (w: real)
    ensures i % 2 == 0 ==> w == v
    ensures i % 2 == 1 ==> w == -v
  {
    if i % 2 == 0 then v else -v
  }

  /** The cell of the action is free. */
  predicate Vacant(g: Cells, n: int, a: int)
    requires n > 0 && IsSquare(g, n) && 0 <= a < n * n
  {
    CellRoundTrip(n, a);
    g[a / n][a % n] == EMPTY
  }

  /** The state of the child for action a: PLAYER1 plays a, then the board is
      seen from the other side. */
  function ChildState(g: Cells, n: int, a: int): (h: Cells)
    requires n > 0 && IsSquare(g, n) && 0 <= a < n * n
    ensures IsSquare(h, n)
  {
    CellRoundTrip(n, a);
    ChangePerspective(Set(g, n, a / n, a % n, PLAYER1), n, PLAYER2)
  }

  /** In the child's state the new stone belongs to the opponent (PLAYER2)
      and every other cell is the parent's, negated: the side to move is
      always PLAYER1. */
  lemma ChildStateCells(g: Cells, n: int, a: int)
    requires n > 0 && IsSquare(g, n) && 0 <= a < n * n
    ensures InBounds(n, a / n, a % n)
    ensures forall r, c :: InBounds(n, r, c) ==>
      ChildState(g, n, a)[r][c] == if (r, c) == (a / n, a % n) then PLAYER2 else -g[r][c]
  {
    CellRoundTrip(n, a);
  }

  /** The actions below k with a positive probability, in increasing order. */
  function Positives(policy: seq<real>, k: nat): (acts: seq<int>)
    requires k <= |policy|
    ensures forall i :: 0 <= i < |acts| ==> 0 <= acts[i] < k && policy[acts[i]] > 0.0
    ensures forall i, j :: 0 <= i < j < |acts| ==> acts[i] < acts[j]
  {
    if k == 0 then []
    else Positives(policy, k - 1) + if policy[k - 1] > 0.0 then [k - 1] else []
  }

  /** Every action below k with a positive probability is listed. */
  lemma {:induction false} PositivesComplete(policy: seq<real>, k: nat, a: int)
    requires k <= |policy| && 0 <= a < k && policy[a] > 0.0
    ensures a in Positives(policy, k)
  {
    if a < k - 1 {
      PositivesComplete(policy, k - 1, a);
    }
  }

  /** The list below k is the start of the list below any m >= k. */
  lemma {:induction false} PositivesPrefix(policy: seq<real>, k: nat, m: nat)
    requires k <= m <= |policy|
    ensures |Positives(policy, k)| <= |Positives(policy, m)|
    ensures Positives(policy, m)[..|Positives(policy, k)|] == Positives(policy, k)
  {
    if k < m {
      PositivesPrefix(policy, k, m - 1);
    }
  }

  /** A positive action a is listed right after the actions below it. */
  lemma PositivesNext(policy: seq<real>, a: int)
    requires 0 <= a < |policy| && policy[a] > 0.0
    ensures |Positives(policy, a)| < |Positives(policy, |policy|)|
    ensures Positives(policy, |policy|)[|Positives(policy, a)|] == a
  {
    var pre := Positives(policy, a + 1);
    assert pre == Positives(policy, a) + [a];
    PositivesPrefix(policy, a + 1, |policy|);
    assert Positives(policy, |policy|)[..|pre|][|Positives(policy, a)|] == a;
  }

  /** `get_ucb`'s exploitation term: 0 for an unvisited child, otherwise the
      child's mean value mapped from [-1, 1] onto [1, 0]. */
  function QValue(visits: int, total: real): real {
    if visits == 0 then 0.0 else 1.0 - (total / visits as real + 1.0) / 2.0
  }

  /** With values in [-1, 1] the q-value lies in [0, 1]; a child that always
      won (from its own side) is worth 0 to the parent, one that always lost
      is worth 1. */
  lemma QValueRange(visits: int, total: real)
    requires visits > 0 && -(visits as real) <= total <= visits as real
    ensures 0.0 <= QValue(visits, total) <= 1.0
    ensures total == visits as real ==> QValue(visits, total) == 0.0
    ensures total == -(visits as real) ==> QValue(visits, total) == 1.0
  {
    var mean := total / visits as real;
    assert -1.0 <= mean <= 1.0 by {
      assert mean * visits as real == total;
    }
  }

  /** The larger a visited child's total, the smaller its q-value. */
  lemma QValueAntitone(visits: int, total0: real, total1: real)
    requires visits > 0 && total0 <= total1
    ensures QValue(visits, total1) <= QValue(visits, total0)
  {
    var v := visits as real;
    assert total0 / v <= total1 / v by {
      assert total1 / v - total0 / v == (total1 - total0) / v;
    }
  }

  /** `state.copy()`: a new array with the same cells. */
  method Copy(a: array2<int>) returns (b: array2<int>)
    requires a.Length0 == a.Length1
    ensures fresh(b) && b.Length0 == a.Length0 && b.Length1 == a.Length0
    ensures View(b) == View(a)
  {
    var n := a.Length0;
    b := new int[n, n]((i, j) requires 0 <= i < n && 0 <= j < n reads a => a[i, j]);
    SameCells(View(b), View(a), n);
  }

  /** `change_perspective(state, player)` on an array: a new array of the
      cells multiplied by player. */
  method Perspective(a: array2<int>, player: int) returns (b: array2<int>)
    requires a.Length0 == a.Length1
    ensures fresh(b) && b.Length0 == a.Length0 && b.Length1 == a.Length0
    ensures View(b) == ChangePerspective(View(a), a.Length0, player)
  {
    var n := a.Length0;
    b := new int[n, n]((i, j) requires 0 <= i < n && 0 <= j < n reads a => a[i, j] * player);
    SameCells(View(b), ChangePerspective(View(a), n, player), n);
  }

  class AlphaNode {
    /** `game.size`: the side of the board. */
    const size: nat
    /** `state`, from the side to move. */
    const state: array2<int>
    /** `parent`: null at the root. */
    const parent: AlphaNode?
    /** `action`: None at the root. */
    const action: Option<int>
    /** `prior`. */
    const prior: real
    /** `children`, in the order `expand` appended them. */
    var children: seq<AlphaNode>
    /** `visit_count`. */
    var visitCount: int
    /** `total_value`. */
    var totalValue: real

    /** The distance to the root. */
    ghost const depth: nat
    /** The parent, its parent, and so on up to the root. */
    ghost const ancestors: seq<AlphaNode>

    /** The parent links end at a root, depth one less at every step. */
    ghost predicate Linked()
      decreases depth
    {
      && |ancestors| == depth
      && (parent == null ==> depth == 0)
      && (parent != null ==>
            parent.depth + 1 == depth && ancestors == [parent] + parent.ancestors && parent.Linked())
    }

    /** The i-th ancestor is i + 1 levels up, so no node is its own ancestor
        and no ancestor appears twice. */
    lemma AncestorDepths()
      requires Linked()
      ensures forall i :: 0 <= i < |ancestors| ==> ancestors[i].depth == depth - 1 - i
      ensures forall i :: 0 <= i < |ancestors| ==> ancestors[i].Linked()
      decreases depth
    {
      if parent != null {
        parent.AncestorDepths();
        forall i | 1 <= i < |ancestors|
          ensures ancestors[i] == parent.ancestors[i - 1]
        {
        }
      }
    }

    /** `Node(game, args, state, parent, action, prior)`: no children, no
        visits, no value. */
    constructor(size: nat, state: array2<int>, parent: AlphaNode?, action: Option<int>, prior: real)
      requires parent != null ==> parent.Linked()
      ensures this.size == size && this.state == state && this.parent == parent
      ensures this.action == action && this.prior == prior
      ensures children == [] && visitCount == 0 && totalValue == 0.0
      ensures Linked()
    {
      this.size := size;
      this.state := state;
      this.parent := parent;
      this.action := action;
      this.prior := prior;
      children := [];
      visitCount := 0;
      totalValue := 0.0;
      depth := if parent == null then 0 else parent.depth + 1;
      ancestors := if parent == null then [] else [parent] + parent.ancestors;
    }

    /** `is_fully_expanded`: some child has been added. */
    function IsFullyExpanded(): bool
      reads this
    {
      |children| > 0
    }

    /** `select`, with the UCB score of each child given in scores: the scan
        keeps the first child whose score beats every earlier one, so it
        returns the first child of largest score, and None without
        children. */
    method Select(scores: seq<real>) returns (best: AlphaNode?)
      requires |scores| == |children|
      ensures best == null <==> !IsFullyExpanded()
      ensures best != null ==> exists k :: Mcts.IsFirstMax(scores, k) && best == children[k]
    {
      best := null;
      var bestIndex := -1;
      for i := 0 to |children|
        invariant -1 <= bestIndex < i
        invariant bestIndex == -1 <==> i == 0
        invariant bestIndex >= 0 ==> best == children[bestIndex] && Mcts.IsFirstMax(scores[..i], bestIndex)
        invariant bestIndex == -1 ==> best == null
      {
        if bestIndex == -1 || scores[i] > scores[bestIndex] {
          bestIndex := i;
          best := children[i];
        }
      }
      if best != null {
        assert scores[..|children|] == scores;
      }
    }

    /** A child of this node for action a, with prior p. */
    ghost predicate Born(child: AlphaNode, g: Cells, a: int, p: real) {
      && child.parent == this && child.action == Some(a) && child.prior == p
      && child.size == size && child.Linked()
      && child.state.Length0 == size && child.state.Length1 == size
      && size > 0 && IsSquare(g, size) && 0 <= a < size * size
    }

    /** A child as `expand` leaves it on the parent's board g: its state is
        `ChildState` of g for its action, and it has no children, no visits
        and no value. */
    ghost predicate Unexplored(child: AlphaNode, g: Cells)
      reads child, child.state
    {
      && child.action.Some? && size > 0 && IsSquare(g, size) && 0 <= child.action.value < size * size
      && child.state.Length0 == size && child.state.Length1 == size
      && View(child.state) == ChildState(g, size, child.action.value)
      && child.children == [] && child.visitCount == 0 && child.totalValue == 0.0
    }

    /** The nodes are the children `expand` makes on board g for the first
        |added| of the actions acts, each on a free cell. */
    ghost predicate Grown(added: seq<AlphaNode>, g: Cells, policy: seq<real>, acts: seq<int>) {
      && |added| <= |acts|
      && forall i :: 0 <= i < |added| ==>
           && 0 <= acts[i] < |policy| && size > 0 && IsSquare(g, size) && acts[i] < size * size
           && Vacant(g, size, acts[i]) && Born(added[i], g, acts[i], policy[acts[i]])
    }

    /** The children made for a list of actions are made for any list that
        starts with it. */
    lemma GrownExtends(added: seq<AlphaNode>, g: Cells, policy: seq<real>, short: seq<int>, long: seq<int>)
      requires Grown(added, g, policy, short)
      requires |short| <= |long| && long[..|short|] == short
      ensures Grown(added, g, policy, long)
    {
      forall i | 0 <= i < |added|
        ensures && 0 <= long[i] < |policy| && size > 0 && IsSquare(g, size) && long[i] < size * size
                && Vacant(g, size, long[i]) && Born(added[i], g, long[i], policy[long[i]])
      {
        assert long[i] == long[..|short|][i] == short[i];
      }
    }

    /** One more child, for the next action of the list. */
    lemma GrownSnoc(added: seq<AlphaNode>, node: AlphaNode, g: Cells, policy: seq<real>, acts: seq<int>)
      requires Grown(added, g, policy, acts) && |added| < |acts|
      requires 0 <= acts[|added|] < |policy| && size > 0 && IsSquare(g, size) && acts[|added|] < size * size
      requires Vacant(g, size, acts[|added|]) && Born(node, g, acts[|added|], policy[acts[|added|]])
      ensures Grown(added + [node], g, policy, acts)
    {
    }

    /** One step of the loop of `expand`: a child for the positive action a
        on a free cell. */
    lemma GrownStep(added: seq<AlphaNode>, node: AlphaNode, g: Cells, policy: seq<real>, a: int)
      requires 0 <= a < |policy| && policy[a] > 0.0
      requires Grown(added, g, policy, Positives(policy, a)) && |added| == |Positives(policy, a)|
      requires size > 0 && IsSquare(g, size) && a < size * size
      requires Vacant(g, size, a) && Born(node, g, a, policy[a])
      ensures Grown(added + [node], g, policy, Positives(policy, a + 1))
      ensures |added + [node]| == |Positives(policy, a + 1)|
    {
      var acts := Positives(policy, a + 1);
      assert acts == Positives(policy, a) + [a];
      GrownExtends(added, g, policy, Positives(policy, a), acts);
      GrownSnoc(added, node, g, policy, acts);
    }

    /** What `expand(policy)` leaves behind on board g: the new children
        `added` are made for the first |added| actions of positive
        probability; it stops with `ValueError` exactly when it reaches an
        action on an occupied cell, fails to bind its result exactly when no
        action has a positive probability, and otherwise returns the last
        child. */
    ghost predicate ExpandResult(added: seq<AlphaNode>, g: Cells, policy: seq<real>, r: Result<AlphaNode>) {
      var acts := Positives(policy, |policy|);
      && Grown(added, g, policy, acts)
      && (|added| < |acts| <==> r == Failure(InvalidAction))
      && (|added| < |acts| ==>
            size > 0 && IsSquare(g, size) && acts[|added|] < size * size && !Vacant(g, size, acts[|added|]))
      && (acts == [] <==> r == Failure(ChildUnbound))
      && (r.Success? ==> |added| > 0 && r.value == added[|added| - 1])
    }

    /** `expand` stops at the first positive action a on an occupied cell. */
    lemma ExpandStops(added: seq<AlphaNode>, g: Cells, policy: seq<real>, a: int)
      requires 0 <= a < |policy| && policy[a] > 0.0
      requires Grown(added, g, policy, Positives(policy, a)) && |added| == |Positives(policy, a)|
      requires size > 0 && IsSquare(g, size) && a < size * size && !Vacant(g, size, a)
      ensures ExpandResult(added, g, policy, Failure(InvalidAction))
    {
      PositivesNext(policy, a);
      PositivesPrefix(policy, a, |policy|);
      GrownExtends(added, g, policy, Positives(policy, a), Positives(policy, |policy|));
      assert InvalidAction != ChildUnbound by {
        assert |InvalidAction| != |ChildUnbound|;
      }
    }

    /** `expand` runs through every action. */
    lemma ExpandEnds(added: seq<AlphaNode>, g: Cells, policy: seq<real>)
      requires Grown(added, g, policy, Positives(policy, |policy|))
      requires |added| == |Positives(policy, |policy|)|
      ensures added == [] ==> ExpandResult(added, g, policy, Failure(ChildUnbound))
      ensures added != [] ==> ExpandResult(added, g, policy, Success(added[|added| - 1]))
    {
    }

    /** `expand(policy)`: a child for every action of positive probability,
        in increasing order, each on a copy of the state, so the node's own
        state is left as it was. The first action on an occupied cell raises
        `ValueError` with the children for the earlier actions already
        added; with no positive action at all, `return child` fails. The
        last child added is returned. */
    method Expand(policy: seq<real>) returns (r: Result<AlphaNode>)
      requires Linked() && size > 0 && state.Length0 == size && state.Length1 == size
      requires |policy| == size * size
      modifies this
      ensures View(state) == old(View(state))
      ensures visitCount == old(visitCount) && totalValue == old(totalValue)
      ensures |children| >= old(|children|) && children[..old(|children|)] == old(children)
      ensures forall x :: x in children[old(|children|)..] ==> fresh(x) && Unexplored(x, old(View(state)))
      ensures ExpandResult(children[old(|children|)..], old(View(state)), policy, r)
    ensures r.Success? ==> IsFullyExpanded()
    {
      var added;
      added, r := Grow(policy);
      children := children + added;
      assert children[old(|children|)..] == added;
    }

    /** The loop of `expand`: the children it makes, in order, and how it
        ends. */
    method Grow(policy: seq<real>) returns (added: seq<AlphaNode>, r: Result<AlphaNode>)
      requires Linked() && size > 0 && state.Length0 == size && state.Length1 == size
      requires |policy| == size * size
      ensures forall x :: x in added ==> fresh(x) && Unexplored(x, View(state))
      ensures ExpandResult(added, View(state), policy, r)
    {
      ghost var g := View(state);
      added := [];
      for a := 0 to |policy|
        invariant View(state) == g
        invariant |added| == |Positives(policy, a)|
        invariant forall x :: x in added ==> fresh(x) && Unexplored(x, g)
        invariant Grown(added, g, policy, Positives(policy, a))
      {
        if policy[a] > 0.0 {
          var node, failed := ExpandOne(a, policy[a]);
          if failed {
            ExpandStops(added, g, policy, a);
            return added, Failure(InvalidAction);
          }
          GrownStep(added, node, g, policy, a);
          added := added + [node];
        } else {
          assert Positives(policy, a + 1) == Positives(policy, a);
        }
      }
      ExpandEnds(added, g, policy);
      if added == [] {
        r := Failure(ChildUnbound);
      } else {
        r := Success(added[|added| - 1]);
      }
    }

    /** One step of `expand`: copy the state, play PLAYER1 at a on the copy,
        and wrap the copy seen from PLAYER2 in a new child; `ValueError`
        when the cell is taken. */
    method ExpandOne(a: int, p: real) returns (node: AlphaNode, failed: bool)
      requires Linked() && size > 0 && state.Length0 == size && state.Length1 == size
      requires 0 <= a < size * size
      ensures failed <==> !Vacant(View(state), size, a)
      ensures !failed ==> fresh(node) && fresh(node.state) && Born(node, View(state), a, p)
      ensures !failed ==> Unexplored(node, View(state))
    {
      var copy := Copy(state);
      var next := GetNextState(size, copy, a, PLAYER1);
      node := this;
      failed := next.Failure?;
      if failed {
        return;
      }
      var flipped := Perspective(next.value, PLAYER2);
      node := new AlphaNode(size, flipped, this, Some(a), p);
    }

    /** What the recursion of `backpropagate` needs of the links: the node
        is none of its ancestors, and the parent's ancestors are the rest of
        its own. */
    lemma Lineage()
      requires Linked()
      ensures this !in ancestors
      ensures parent != null ==>
        && parent.Linked() && ancestors[0] == parent
        && (forall i :: 1 <= i < |ancestors| ==> ancestors[i] == parent.ancestors[i - 1])
        && (forall x :: x in parent.ancestors ==> x in ancestors)
    {
      AncestorDepths();
      if parent != null {
        forall i | 1 <= i < |ancestors|
          ensures ancestors[i] == parent.ancestors[i - 1]
        {
        }
      }
    }

    /** `backpropagate(value)`: one more visit here and at every ancestor;
        the value is added here, negated at the parent, restored at the
        grandparent, and so on up to the root. */
    method Backpropagate(value: real)
      requires Linked()
      modifies {this} + set x | x in ancestors
      decreases depth
      ensures visitCount == old(visitCount) + 1 && totalValue == old(totalValue) + value
      ensures children == old(children)
      ensures forall i :: 0 <= i < |ancestors| ==>
        && ancestors[i].visitCount == old(ancestors[i].visitCount) + 1
        && ancestors[i].totalValue == old(ancestors[i].totalValue) + Alternate(i + 1, value)
        && ancestors[i].children == old(ancestors[i].children)
    {
      Lineage();
      visitCount := visitCount + 1;
      totalValue := totalValue + value;
      if parent != null {
        parent.Lineage();
        parent.Backpropagate(OpponentValue(value));
        assert forall i :: 1 <= i < |ancestors| ==> Alternate(i, OpponentValue(value)) == Alternate(i + 1, value);
      }
    }
  }
}
