/**
 The Monte Carlo tree search agent of `search.py`. Python's linked `Node`
 objects become an arena: a sequence of nodes in which `parent` and
 `children` are indices. The root is index 0 and a node's children always sit
 after it. Every random draw of the source is an oracle parameter, the UCB1
 formula is an uninterpreted weight, and the winner of a random playout from
 an undecided state is an input; a decided state's winner is read off the
 board, as `simulate` does without moving. Every run the source could make,
 with the playout state copied as evidently intended, is one of the model's
 runs.
 */
module Mcts {
  import opened Wrappers
  import opened CheckersBoard
  import opened CheckersGame
  import opened Scores
  import opened Minimax

  /** `Node`: the state, the link to the parent and the turn that led here, and the counters. */
  datatype Node = Node(game: Game, parent: Option<nat>, move: Option<Turn>, depth: nat,
                       children: seq<nat>, wins: int, visits: nat)

  type Tree = seq<Node>

  /** UCB1 for a visited child from its wins, its visits and its parent's visits. */
  type UcbWeight = (int, nat, nat) -> real

  // ---------------------------------------------------------------- shape of the arena

  /** Every node but the root has a parent that comes before it. */
  predicate ParentsBelow(t: Tree) {
    forall k | 0 <= k < |t| :: (t[k].parent.None? <==> k == 0) && (t[k].parent.Some? ==> t[k].parent.value < k)
  }

  /** Parent and child links agree, and a child list names each child once. */
  predicate Linked(t: Tree) {
    && |t| > 0
    && ParentsBelow(t)
    && (forall n, i | 0 <= n < |t| && 0 <= i < |t[n].children| ::
          n < t[n].children[i] < |t| && t[t[n].children[i]].parent == Some(n))
    && (forall n, i, j | 0 <= n < |t| && 0 <= i < j < |t[n].children| :: t[n].children[i] != t[n].children[j])
    && (forall k | 0 < k < |t| :: t[k].parent.Some? && k in t[t[k].parent.value].children)
  }

  /** The states agree with the game: a child is its parent's successor one move deeper, and an expanded node has one child per legal turn, in order. */
  predicate Faithful(t: Tree)
    requires Linked(t)
  {
    && t[0].depth == 0 && t[0].move.None?
    && (forall k | 0 < k < |t| ::
          var p := t[k].parent.value;
          && t[k].move.Some? && t[k].move.value in Moves(t[p].game)
          && t[k].game == Successor(t[p].game, t[k].move.value)
          && t[k].depth == t[p].depth + 1)
    && (forall n | 0 <= n < |t| && t[n].children != [] :: |t[n].children| == |Moves(t[n].game)|)
    && (forall n, i | 0 <= n < |t| && 0 <= i < |t[n].children| && |t[n].children| == |Moves(t[n].game)| ::
          t[t[n].children[i]].move == Some(Moves(t[n].game)[i]))
  }

  predicate Valid(t: Tree) {
    Linked(t) && Faithful(t)
  }

  // ---------------------------------------------------------------- counters

  /** The visits of the listed nodes, added up. */
  function SumVisits(t: Tree, cs: seq<nat>): nat {
    if cs == [] then 0
    else (if cs[0] < |t| then t[cs[0]].visits else 0) + SumVisits(t, cs[1..])
  }

  /** Wins stay between zero and visits, and a node was visited at least as often as its children together. */
  predicate Counted(t: Tree) {
    forall n | 0 <= n < |t| :: 0 <= t[n].wins <= t[n].visits && SumVisits(t, t[n].children) <= t[n].visits
  }

  /** `Node(game_state=...)`: a lone root. */
  function NewTree(g: Game): (t: Tree)
    ensures Valid(t) && Counted(t)
    ensures |t| == 1 && t[0].game == g && t[0].visits == 0 && t[0].children == []
  {
    [Node(g, None, None, 0, [], 0, 0)]
  }

  // ---------------------------------------------------------------- ancestry

  /** The node and its ancestors up to the root, the chain `backpropogate` walks. */
  function Path(t: Tree, x: nat): (p: seq<nat>)
    requires ParentsBelow(t) && x < |t|
    ensures |p| > 0 && p[0] == x && p[|p| - 1] == 0
    ensures forall i | 0 <= i < |p| :: p[i] <= x
    ensures forall i | 0 <= i < |p| - 1 :: t[p[i]].parent == Some(p[i + 1])
    ensures forall i, j | 0 <= i < j < |p| :: p[j] < p[i]
    decreases x
  {
    match t[x].parent
    case None => [x]
    case Some(q) => [x] + Path(t, q)
  }

  /** A node on the path other than its start has exactly one child on the path: the path's previous node. */
  lemma PathChild(t: Tree, x: nat, c: nat)
    requires ParentsBelow(t) && x < |t|
    requires c in Path(t, x) && c < |t| && t[c].parent.Some?
    ensures t[c].parent.value in Path(t, x)
    ensures forall d | d in Path(t, x) && d < |t| && t[d].parent == t[c].parent :: d == c
  {
    var p := Path(t, x);
    var i :| 0 <= i < |p| && p[i] == c;
    assert i < |p| - 1;
    assert p[i + 1] == t[c].parent.value;
    forall d | d in p && d < |t| && t[d].parent == t[c].parent ensures d == c {
      var j :| 0 <= j < |p| && p[j] == d;
      assert j < |p| - 1;
      assert p[j + 1] == p[i + 1];
    }
  }

  lemma PathParentHasChild(t: Tree, x: nat, n: nat)
    requires ParentsBelow(t) && x < |t|
    requires n in Path(t, x) && n != x
    ensures exists c | c in Path(t, x) :: c < |t| && t[c].parent == Some(n)
  {
    var p := Path(t, x);
    var j :| 0 <= j < |p| && p[j] == n;
    assert j > 0;
    assert t[p[j - 1]].parent == Some(n);
  }

  // ---------------------------------------------------------------- backpropagation

  /** One visit recorded with credit `result`. */
  function Bump(n: Node, result: int): Node {
    n.(visits := n.visits + 1, wins := n.wins + result)
  }

  /** `backpropogate`: every node from `x` up to the root gains a visit and `result` wins; no other node changes. */
  method Backpropagate(t: Tree, x: nat, result: int) returns (r: Tree)
    requires ParentsBelow(t) && x < |t|
    ensures |r| == |t|
    ensures forall k | 0 <= k < |t| :: r[k] == if k in Path(t, x) then Bump(t[k], result) else t[k]
  {
    ghost var p := Path(t, x);
    r := t;
    var cur: Option<nat> := Some(x);
    ghost var i := 0;
    while cur.Some?
      invariant 0 <= i <= |p|
      invariant cur.Some? <==> i < |p|
      invariant cur.Some? ==> cur.value == p[i]
      invariant BumpedOn(t, r, p[..i], result)
      decreases if cur.Some? then cur.value + 1 else 0
    {
      var c := cur.value;
      assert c !in p[..i];
      BumpNext(t, r, p[..i], c, result);
      r := r[c := Bump(r[c], result)];
      cur := r[c].parent;
      assert p[..i + 1] == p[..i] + [c];
      i := i + 1;
    }
    assert p[..i] == p;
  }

  /** `r` is `t` with exactly the nodes listed in `a` bumped by `result`. */
  ghost predicate BumpedOn(t: Tree, r: Tree, a: seq<nat>, result: int) {
    |r| == |t| && forall k | 0 <= k < |t| :: r[k] == if k in a then Bump(t[k], result) else t[k]
  }

  lemma BumpNext(t: Tree, r: Tree, a: seq<nat>, c: nat, result: int)
    requires BumpedOn(t, r, a, result) && c < |t| && c !in a
    ensures BumpedOn(t, r[c := Bump(r[c], result)], a + [c], result)
  {
  }

  /** How many of the listed nodes lie in `a`. */
  function Hits(cs: seq<nat>, a: seq<nat>): nat {
    if cs == [] then 0 else (if cs[0] in a then 1 else 0) + Hits(cs[1..], a)
  }

  lemma {:induction false} SumBump(t: Tree, r: Tree, cs: seq<nat>, a: seq<nat>)
    requires |r| == |t|
    requires forall k | 0 <= k < |t| :: r[k].visits == t[k].visits + (if k in a then 1 else 0)
    requires forall i | 0 <= i < |cs| :: cs[i] < |t|
    ensures SumVisits(r, cs) == SumVisits(t, cs) + Hits(cs, a)
    decreases |cs|
  {
    if cs != [] {
      SumBump(t, r, cs[1..], a);
    }
  }

  lemma {:induction false} HitsNone(cs: seq<nat>, a: seq<nat>)
    requires forall i | 0 <= i < |cs| :: cs[i] !in a
    ensures Hits(cs, a) == 0
    decreases |cs|
  {
    if cs != [] {
      HitsNone(cs[1..], a);
    }
  }

  lemma {:induction false} HitsOne(cs: seq<nat>, a: seq<nat>, y: nat)
    requires y in cs && y in a
    requires forall i, j | 0 <= i < j < |cs| :: cs[i] != cs[j]
    requires forall c | c in cs && c in a :: c == y
    ensures Hits(cs, a) == 1
    decreases |cs|
  {
    if cs[0] == y {
      HitsNone(cs[1..], a);
    } else {
      HitsOne(cs[1..], a, y);
    }
  }

  /** Two arenas that differ at most in their counters. */
  predicate SameShape(t: Tree, r: Tree) {
    && |r| == |t|
    && forall k | 0 <= k < |t| ::
         && r[k].game == t[k].game && r[k].parent == t[k].parent && r[k].move == t[k].move
         && r[k].depth == t[k].depth && r[k].children == t[k].children
  }

  lemma SameShapeValid(t: Tree, r: Tree)
    requires SameShape(t, r) && Valid(t)
    ensures Valid(r)
  {
    SameShapeLinked(t, r);
    SameShapeFaithful(t, r);
  }

  lemma SameShapeLinked(t: Tree, r: Tree)
    requires SameShape(t, r) && Linked(t)
    ensures Linked(r)
  {
    assert ParentsBelow(r);
  }

  lemma SameShapeFaithful(t: Tree, r: Tree)
    requires SameShape(t, r) && Linked(t) && Linked(r) && Faithful(t)
    ensures Faithful(r)
  {
    forall k | 0 < k < |r|
      ensures var p := r[k].parent.value;
        && r[k].move.Some? && r[k].move.value in Moves(r[p].game)
        && r[k].game == Successor(r[p].game, r[k].move.value)
        && r[k].depth == r[p].depth + 1
    {
      var p := t[k].parent.value;
      assert r[k].parent == t[k].parent && r[k].move == t[k].move && r[k].game == t[k].game;
      assert r[p].game == t[p].game && r[p].depth == t[p].depth;
    }
    forall n, i | 0 <= n < |r| && 0 <= i < |r[n].children| && |r[n].children| == |Moves(r[n].game)|
      ensures r[r[n].children[i]].move == Some(Moves(r[n].game)[i])
    {
      assert r[n].children == t[n].children && r[n].game == t[n].game;
      var c := t[n].children[i];
      assert r[c].move == t[c].move;
    }
  }

  /** The counters of one node after a backpropagation from `x` with credit 0 or 1. */
  lemma BackpropNode(t: Tree, x: nat, result: int, r: Tree, n: nat)
    requires Linked(t) && x < |t| && n < |t| && (result == 0 || result == 1)
    requires 0 <= t[n].wins <= t[n].visits && SumVisits(t, t[n].children) <= t[n].visits
    requires |r| == |t|
    requires forall k | 0 <= k < |t| :: r[k] == if k in Path(t, x) then Bump(t[k], result) else t[k]
    ensures 0 <= r[n].wins <= r[n].visits && SumVisits(r, r[n].children) <= r[n].visits
  {
    var a := Path(t, x);
    var cs := t[n].children;
    SumBump(t, r, cs, a);
    ChildHits(t, x, n);
  }

  /** The path from `x` passes through exactly one child of each node on it above `x`, and through no child of any other node. */
  lemma ChildHits(t: Tree, x: nat, n: nat)
    requires Linked(t) && x < |t| && n < |t|
    ensures Hits(t[n].children, Path(t, x)) == if n in Path(t, x) && n != x then 1 else 0
  {
    var a := Path(t, x);
    var cs := t[n].children;
    if n !in a {
      forall i | 0 <= i < |cs| ensures cs[i] !in a {
        if cs[i] in a {
          PathChild(t, x, cs[i]);
        }
      }
      HitsNone(cs, a);
    } else if n == x {
      HitsNone(cs, a);
    } else {
      PathParentHasChild(t, x, n);
      var y :| y in a && y < |t| && t[y].parent == Some(n);
      PathChild(t, x, y);
      HitsOne(cs, a, y);
    }
  }

  /** With credit 0 or 1 a backpropagation keeps every counter invariant, and the arena's shape. */
  lemma BackpropKeepsCounts(t: Tree, x: nat, result: int, r: Tree)
    requires Valid(t) && Counted(t) && x < |t| && (result == 0 || result == 1)
    requires |r| == |t|
    requires forall k | 0 <= k < |t| :: r[k] == if k in Path(t, x) then Bump(t[k], result) else t[k]
    ensures Valid(r) && Counted(r)
  {
    assert SameShape(t, r);
    SameShapeValid(t, r);
    forall n | 0 <= n < |r| ensures 0 <= r[n].wins <= r[n].visits && SumVisits(r, r[n].children) <= r[n].visits {
      BackpropNode(t, x, result, r, n);
    }
  }

  // ---------------------------------------------------------------- expansion

  /** The arena with a fresh child of `n` appended for each turn `ms[i]`, in state `kids[i]`. */
  function Grow(t: Tree, n: nat, ms: seq<Turn>, kids: seq<Game>): (r: Tree)
    requires n < |t| && |kids| == |ms|
    ensures |r| == |t| + |ms|
    ensures forall k | 0 <= k < |t| && k != n :: r[k] == t[k]
    ensures r[n] == t[n].(children := seq(|ms|, i => |t| + i))
    ensures forall i | 0 <= i < |ms| :: r[|t| + i] == Node(kids[i], Some(n), Some(ms[i]), t[n].depth + 1, [], 0, 0)
  {
    t[n := t[n].(children := seq(|ms|, i => |t| + i))]
      + seq(|ms|, i requires 0 <= i < |ms| => Node(kids[i], Some(n), Some(ms[i]), t[n].depth + 1, [], 0, 0))
  }

  lemma GrowParents(t: Tree, n: nat, ms: seq<Turn>, kids: seq<Game>)
    requires ParentsBelow(t) && n < |t| && |kids| == |ms|
    ensures ParentsBelow(Grow(t, n, ms, kids))
  {
  }

  lemma GrowChildLinks(t: Tree, n: nat, ms: seq<Turn>, kids: seq<Game>)
    requires Linked(t) && n < |t| && |kids| == |ms|
    ensures var r := Grow(t, n, ms, kids);
      forall k, i | 0 <= k < |r| && 0 <= i < |r[k].children| ::
        k < r[k].children[i] < |r| && r[r[k].children[i]].parent == Some(k)
  {
    var r := Grow(t, n, ms, kids);
    forall k, i | 0 <= k < |r| && 0 <= i < |r[k].children|
      ensures k < r[k].children[i] < |r| && r[r[k].children[i]].parent == Some(k)
    {
      if k < |t| && k != n {
        assert r[k].children[i] < |t|;
      }
    }
  }

  lemma GrowDistinct(t: Tree, n: nat, ms: seq<Turn>, kids: seq<Game>)
    requires Linked(t) && n < |t| && |kids| == |ms|
    ensures var r := Grow(t, n, ms, kids);
      forall k, i, j | 0 <= k < |r| && 0 <= i < j < |r[k].children| :: r[k].children[i] != r[k].children[j]
  {
  }

  lemma GrowListed(t: Tree, n: nat, ms: seq<Turn>, kids: seq<Game>)
    requires Linked(t) && n < |t| && t[n].children == [] && |kids| == |ms|
    ensures var r := Grow(t, n, ms, kids);
      forall k | 0 < k < |r| :: r[k].parent.Some? && k in r[r[k].parent.value].children
  {
    var r := Grow(t, n, ms, kids);
    forall k | 0 < k < |r| ensures r[k].parent.Some? && k in r[r[k].parent.value].children {
      if k >= |t| {
        assert r[n].children[k - |t|] == k;
      } else {
        assert t[k].parent.value != n;
      }
    }
  }

  lemma GrowLinked(t: Tree, n: nat, ms: seq<Turn>, kids: seq<Game>)
    requires Linked(t) && n < |t| && t[n].children == [] && |kids| == |ms|
    ensures Linked(Grow(t, n, ms, kids))
  {
    GrowParents(t, n, ms, kids);
    GrowChildLinks(t, n, ms, kids);
    GrowDistinct(t, n, ms, kids);
    GrowListed(t, n, ms, kids);
  }

  lemma GrowStates(t: Tree, n: nat)
    requires Valid(t) && n < |t| && t[n].children == []
    ensures var r := Grow(t, n, Moves(t[n].game), Successors(t[n].game));
      forall k | 0 < k < |r| ::
        var p := r[k].parent.value;
        && p < |r|
        && r[k].move.Some? && r[k].move.value in Moves(r[p].game)
        && r[k].game == Successor(r[p].game, r[k].move.value)
        && r[k].depth == r[p].depth + 1
  {
    var ms := Moves(t[n].game);
    var r := Grow(t, n, ms, Successors(t[n].game));
    GrowParents(t, n, ms, Successors(t[n].game));
    forall k | 0 < k < |r|
      ensures var p := r[k].parent.value;
        && p < |r|
        && r[k].move.Some? && r[k].move.value in Moves(r[p].game)
        && r[k].game == Successor(r[p].game, r[k].move.value)
        && r[k].depth == r[p].depth + 1
    {
      if k >= |t| {
        assert r[k].move.value == ms[k - |t|];
      } else {
        assert r[t[k].parent.value].game == t[t[k].parent.value].game;
      }
    }
  }

  lemma GrowMoves(t: Tree, n: nat)
    requires Valid(t) && n < |t| && t[n].children == []
    ensures var r := Grow(t, n, Moves(t[n].game), Successors(t[n].game));
      && (forall k | 0 <= k < |r| && r[k].children != [] :: |r[k].children| == |Moves(r[k].game)|)
      && (forall k, i | 0 <= k < |r| && 0 <= i < |r[k].children| && |r[k].children| == |Moves(r[k].game)| ::
            r[k].children[i] < |r| && r[r[k].children[i]].move == Some(Moves(r[k].game)[i]))
  {
    var r := Grow(t, n, Moves(t[n].game), Successors(t[n].game));
    forall k | 0 <= k < |r| && r[k].children != []
      ensures |r[k].children| == |Moves(r[k].game)|
    {
      GrowMovesAt(t, n, k, 0);
    }
    forall k, i | 0 <= k < |r| && 0 <= i < |r[k].children| && |r[k].children| == |Moves(r[k].game)|
      ensures r[k].children[i] < |r| && r[r[k].children[i]].move == Some(Moves(r[k].game)[i])
    {
      GrowMovesAt(t, n, k, i);
    }
  }

  /** Child `i` of node `k` after the expansion of `n` was reached by the `i`-th legal turn. */
  lemma GrowMovesAt(t: Tree, n: nat, k: nat, i: nat)
    requires Valid(t) && n < |t| && t[n].children == []
    requires k < |t| + |Moves(t[n].game)|
    ensures var r := Grow(t, n, Moves(t[n].game), Successors(t[n].game));
      && (r[k].children != [] ==> |r[k].children| == |Moves(r[k].game)|)
      && (i < |r[k].children| && |r[k].children| == |Moves(r[k].game)| ==>
            r[k].children[i] < |r| && r[r[k].children[i]].move == Some(Moves(r[k].game)[i]))
  {
    var ms := Moves(t[n].game);
    var r := Grow(t, n, ms, Successors(t[n].game));
    if k == n {
      assert r[k].game == t[n].game;
      if i < |ms| {
        assert r[k].children[i] == |t| + i;
        assert r[|t| + i].move == Some(ms[i]);
      }
    } else if k < |t| {
      assert r[k] == t[k];
      if i < |t[k].children| && |t[k].children| == |Moves(t[k].game)| {
        var c := t[k].children[i];
        assert c < |t|;
        assert r[c].move == t[c].move;
      }
    } else {
      assert r[k].children == [];
    }
  }


  /**
   `expand_leaf_node`: one new unvisited child per legal turn of the node's
   state, appended to the arena in move order, each holding the successor
   state one move deeper.
   */
  function Expand(t: Tree, n: nat): (r: Tree)
    requires n < |t|
    ensures |r| == |t| + |Moves(t[n].game)|
    ensures forall k | 0 <= k < |t| && k != n :: r[k] == t[k]
    ensures r[n] == t[n].(children := seq(|Moves(t[n].game)|, i => |t| + i))
    ensures forall i | 0 <= i < |Moves(t[n].game)| ::
      r[|t| + i] == Node(Successor(t[n].game, Moves(t[n].game)[i]), Some(n), Some(Moves(t[n].game)[i]),
                         t[n].depth + 1, [], 0, 0)
  {
    Grow(t, n, Moves(t[n].game), Successors(t[n].game))
  }

  /**
   Expansion does not stop at a decided game: on `StuckBoard` player 1 has
   already won, yet player 1 to move still has a turn, so the root gets a child
   and the trial goes on from there.
   */
  lemma ExpandDecided()
    ensures IsGameOver(Game(StuckBoard(), 1))
    ensures Expand(NewTree(Game(StuckBoard(), 1)), 0)[0].children != []
  {
    DecidedWithMoves();
  }

  /** Expanding a leaf keeps the arena well formed. */
  lemma ExpandValid(t: Tree, n: nat)
    requires Valid(t) && n < |t| && t[n].children == []
    ensures Valid(Expand(t, n))
  {
    var ms := Moves(t[n].game);
    GrowLinked(t, n, ms, Successors(t[n].game));
    GrowStates(t, n);
    GrowMoves(t, n);
  }

  /** Expansion leaves the counters consistent: the new children start unvisited. */
  lemma ExpandKeepsCounts(t: Tree, n: nat)
    requires Linked(t) && Counted(t) && n < |t| && t[n].children == []
    ensures Counted(Expand(t, n))
  {
    GrowCounts(t, n, Moves(t[n].game), Successors(t[n].game));
  }

  lemma GrowCounts(t: Tree, n: nat, ms: seq<Turn>, kids: seq<Game>)
    requires Linked(t) && Counted(t) && n < |t| && t[n].children == [] && |kids| == |ms|
    ensures Counted(Grow(t, n, ms, kids))
  {
    var r := Grow(t, n, ms, kids);
    forall k | 0 <= k < |r| ensures 0 <= r[k].wins <= r[k].visits && SumVisits(r, r[k].children) <= r[k].visits {
      if k < |t| && k != n {
        SumKeep(t, r, t[k].children);
      } else {
        SumZero(r, r[k].children);
      }
    }
  }

  lemma {:induction false} SumKeep(t: Tree, r: Tree, cs: seq<nat>)
    requires |t| <= |r| && forall k | 0 <= k < |t| :: r[k].visits == t[k].visits
    requires forall i | 0 <= i < |cs| :: cs[i] < |t|
    ensures SumVisits(r, cs) == SumVisits(t, cs)
    decreases |cs|
  {
    if cs != [] {
      SumKeep(t, r, cs[1..]);
    }
  }

  lemma {:induction false} SumZero(r: Tree, cs: seq<nat>)
    requires forall i | 0 <= i < |cs| :: cs[i] < |r| ==> r[cs[i]].visits == 0
    ensures SumVisits(r, cs) == 0
    decreases |cs|
  {
    if cs != [] {
      SumZero(r, cs[1..]);
    }
  }

  // ---------------------------------------------------------------- selection

  /** The UCB1 weight of child `c` under `n`: `float('inf')` while `c` is unvisited, the abstract formula once it is not. */
  function Weight(t: Tree, n: nat, c: nat, ucb: UcbWeight): (w: Score)
    requires n < |t| && c < |t|
    ensures w.PosInf? <==> t[c].visits == 0
    ensures w != NegInf
  {
    if t[c].visits == 0 then PosInf else Finite(ucb(t[c].wins, t[c].visits, t[n].visits))
  }

  /** No child of `n` weighs more than `c`. */
  predicate Heaviest(t: Tree, n: nat, c: nat, ucb: UcbWeight)
    requires Linked(t) && n < |t| && c < |t|
  {
    forall i | 0 <= i < |t[n].children| :: Le(Weight(t, n, t[n].children[i], ucb), Weight(t, n, c, ucb))
  }

  /**
   `select_child_node_with_UCB1`: `best` collects, in order, exactly the
   children of largest weight, and `pick` stands for `random.choice` among them.
   An unvisited child therefore always beats every visited one.
   */
  method SelectChild(t: Tree, n: nat, ucb: UcbWeight, pick: nat) returns (c: nat, best: seq<nat>)
    requires Linked(t) && n < |t| && t[n].children != []
    ensures forall d | d in best :: d in t[n].children
    ensures forall i | 0 <= i < |t[n].children| :: t[n].children[i] in best <==> Heaviest(t, n, t[n].children[i], ucb)
    ensures |best| > 0 && c == best[pick % |best|]
    ensures c in t[n].children && n < c < |t| && Heaviest(t, n, c, ucb)
    ensures (exists i | 0 <= i < |t[n].children| :: t[t[n].children[i]].visits == 0) ==> t[c].visits == 0
  {
    var cs := t[n].children;
    var bestW;
    best, bestW := HeaviestChildren(t, n, cs, ucb);
    assert best[0] in best;
    var j :| 0 <= j < |cs| && cs[j] == best[0];
    forall k | 0 <= k < |cs| ensures cs[k] in best <==> Heaviest(t, n, cs[k], ucb) {
      if Heaviest(t, n, cs[k], ucb) {
        assert Le(Weight(t, n, cs[j], ucb), Weight(t, n, cs[k], ucb));
      }
    }
    c := best[pick % |best|];
    assert c in cs;
  }

  /** The loop of `select_child_node_with_UCB1` over the children `cs` of `n`: the largest weight seen and the children that reach it, in order. */
  method HeaviestChildren(t: Tree, n: nat, cs: seq<nat>, ucb: UcbWeight) returns (best: seq<nat>, bestW: Score)
    requires n < |t| && cs != [] && forall j | 0 <= j < |cs| :: cs[j] < |t|
    ensures best != []
    ensures forall d | d in best :: d in cs && d < |t| && Weight(t, n, d, ucb) == bestW
    ensures forall j | 0 <= j < |cs| :: Le(Weight(t, n, cs[j], ucb), bestW)
    ensures forall j | 0 <= j < |cs| :: Weight(t, n, cs[j], ucb) == bestW ==> cs[j] in best
  {
    best := [];
    bestW := NegInf;
    var i := 0;
    while i < |cs|
      invariant 0 <= i <= |cs|
      invariant i == 0 ==> bestW == NegInf
      invariant i > 0 ==> best != []
      invariant forall d | d in best :: d in cs[..i] && d < |t| && Weight(t, n, d, ucb) == bestW
      invariant forall j | 0 <= j < i :: Le(Weight(t, n, cs[j], ucb), bestW)
      invariant forall j | 0 <= j < i :: Weight(t, n, cs[j], ucb) == bestW ==> cs[j] in best
    {
      var w := Weight(t, n, cs[i], ucb);
      if Lt(bestW, w) {
        forall j | 0 <= j < i ensures Le(Weight(t, n, cs[j], ucb), w) {
          LeTransitive(Weight(t, n, cs[j], ucb), bestW, w);
        }
        best := [];
        bestW := w;
      }
      if w == bestW {
        best := best + [cs[i]];
      }
      assert cs[..i + 1] == cs[..i] + [cs[i]];
      i := i + 1;
    }
    assert cs[..i] == cs;
  }

  /** One step of the descent: `c` is a child of `a` that UCB1 may choose. */
  predicate UcbStep(t: Tree, a: nat, c: nat, ucb: UcbWeight)
    requires Linked(t)
  {
    a < c < |t| && c in t[a].children && Heaviest(t, a, c, ucb)
  }

  /**
   `select_leaf_node`: from the root, descend by UCB1 until a node without
   children; `picks(level)` is the tie-break drawn at each level.
   */
  method SelectLeaf(t: Tree, ucb: UcbWeight, picks: nat -> nat) returns (leaf: nat, path: seq<nat>)
    requires Linked(t)
    ensures leaf < |t| && t[leaf].children == []
    ensures |path| > 0 && path[0] == 0 && path[|path| - 1] == leaf
    ensures forall i | 1 <= i < |path| :: UcbStep(t, path[i - 1], path[i], ucb)
    ensures t[0].children == [] ==> leaf == 0
  {
    leaf := 0;
    path := [0];
    while t[leaf].children != []
      invariant leaf < |t| && |path| > 0 && path[0] == 0 && path[|path| - 1] == leaf
      invariant forall i | 1 <= i < |path| :: UcbStep(t, path[i - 1], path[i], ucb)
      invariant t[0].children == [] ==> leaf == 0
      decreases |t| - leaf
    {
      var c, _ := SelectChild(t, leaf, ucb, picks(|path| - 1));
      assert UcbStep(t, leaf, c, ucb);
      leaf := c;
      path := path + [c];
    }
  }

  // ---------------------------------------------------------------- choosing the move

  /** `get_win_probability`: wins over visits, `float('-inf')` for an unvisited node. */
  function WinProbability(node: Node): (p: Score)
    ensures p.NegInf? <==> node.visits == 0
    ensures p != PosInf
    ensures p.Finite? ==> p.r * node.visits as real == node.wins as real
  {
    if node.visits == 0 then NegInf else Finite(node.wins as real / node.visits as real)
  }

  /** Under the counter invariant a visited node's win probability is a probability. */
  lemma WinProbabilityBounded(t: Tree, k: nat)
    requires Counted(t) && k < |t| && t[k].visits > 0
    ensures 0.0 <= WinProbability(t[k]).r <= 1.0
  {
    var p := WinProbability(t[k]).r;
    assert p * t[k].visits as real == t[k].wins as real;
  }

  /** The win probabilities of the children of `n`, in child order. */
  function ChildProbabilities(t: Tree, n: nat): (ps: seq<Score>)
    requires Linked(t) && n < |t|
    ensures |ps| == |t[n].children|
    ensures forall i | 0 <= i < |ps| :: ps[i] == WinProbability(t[t[n].children[i]])
  {
    var cs := t[n].children;
    seq(|cs|, i requires 0 <= i < |cs| => WinProbability(t[cs[i]]))
  }

  /** The choice in `MonteCarloSearchAgent.get_action`: the move of the first root child with the highest win probability. */
  function BestMove(t: Tree): (r: Result<Turn, SearchError>)
    requires Valid(t)
    ensures r.Err? <==> t[0].children == []
    ensures r.Ok? ==> r.value in Moves(t[0].game)
    ensures r.Ok? ==> exists i | 0 <= i < |t[0].children| ::
      IsFirstMax(ChildProbabilities(t, 0), i) && t[t[0].children[i]].move == Some(r.value)
  {
    var cs := t[0].children;
    if cs == [] then Err(NoActions)
    else
      var i := FirstMax(ChildProbabilities(t, 0));
      assert 0 < cs[i] < |t|;
      Ok(t[cs[i]].move.value)
  }

  // ---------------------------------------------------------------- the search loop

  /**
   The random draws of one search, by trial: the UCB1 tie-break at each level
   of the descent, the child picked after an expansion, and the winner of the
   random playout from the chosen node's state when that state is undecided.
   */
  datatype Draws = Draws(tieBreak: (nat, nat) -> nat, childPick: nat -> nat, playout: (nat, Game) -> Player)

  /**
   One iteration of `run_MCTS`: select a leaf, expand it, move to one of its
   new children if it got any, play out, and backpropagate a win (1) or not (0)
   for the player to move at the root. The arena stays well formed and counted,
   the root gains exactly one visit, and from then on the root has children
   exactly when its state has legal turns.
   */
  method Trial(t: Tree, trial: nat, ucb: UcbWeight, draws: Draws) returns (r: Tree)
    requires Valid(t) && Counted(t)
    ensures Valid(r) && Counted(r)
    ensures r[0].game == t[0].game && r[0].visits == t[0].visits + 1
    ensures r[0].children == [] <==> Moves(t[0].game) == []
  {
    var leaf, path := SelectLeaf(t, ucb, level => draws.tieBreak(trial, level));
    var e, x := ExpandAndPick(t, leaf, draws.childPick(trial));
    var winner := Simulate(e[x].game, trial, draws);
    var result := if winner == t[0].game.current then 1 else 0;
    r := Backpropagate(e, x, result);
    BackpropKeepsCounts(e, x, result, r);
    BackpropReachesRoot(e, x, result, r);
  }

  /**
   `simulate` from a copy of `g`. On a decided state the playout loop does not
   run and the result is `get_winner`: player 2 when player 1 cannot move, else
   player 1 when player 2 cannot. On an undecided state the winner is the draw.
   */
  function Simulate(g: Game, trial: nat, draws: Draws): (w: Player)
    ensures LegalMoves(g.board, 1) == [] ==> w == 2
    ensures LegalMoves(g.board, 1) != [] && LegalMoves(g.board, 2) == [] ==> w == 1
    ensures LegalMoves(g.board, 1) != [] && LegalMoves(g.board, 2) != [] ==> w == draws.playout(trial, g)
  {
    WinnerSpec(g);
    if IsGameOver(g) then Winner(g).value else draws.playout(trial, g)
  }

  /** `expand_leaf_node` followed by `random.choice` among the new children, `pick` standing for the draw. */
  method ExpandAndPick(t: Tree, leaf: nat, pick: nat) returns (e: Tree, x: nat)
    requires Valid(t) && Counted(t) && leaf < |t| && t[leaf].children == []
    requires t[0].children == [] ==> leaf == 0
    ensures Valid(e) && Counted(e) && x < |e|
    ensures e[0].game == t[0].game && e[0].visits == t[0].visits
    ensures e[0].children == [] <==> Moves(t[0].game) == []
    ensures x == leaf || e[x].parent == Some(leaf)
  {
    ExpandValid(t, leaf);
    ExpandKeepsCounts(t, leaf);
    ExpandRoot(t, leaf);
    e := Expand(t, leaf);
    x := leaf;
    if e[leaf].children != [] {
      x := e[leaf].children[pick % |e[leaf].children|];
    }
  }

  /** Expanding a leaf keeps the root's state and counters, and leaves the root with children exactly when its state has legal turns. */
  lemma ExpandRoot(t: Tree, leaf: nat)
    requires Valid(t) && leaf < |t| && t[leaf].children == []
    requires t[0].children == [] ==> leaf == 0
    ensures |Expand(t, leaf)| >= |t|
    ensures Expand(t, leaf)[0].game == t[0].game && Expand(t, leaf)[0].visits == t[0].visits
    ensures Expand(t, leaf)[0].children == [] <==> Moves(t[0].game) == []
  {
    if leaf != 0 {
      assert |t[0].children| == |Moves(t[0].game)|;
    }
  }

  /** Every backpropagation reaches the root: it gains one visit and keeps its state and children. */
  lemma BackpropReachesRoot(t: Tree, x: nat, result: int, r: Tree)
    requires ParentsBelow(t) && x < |t|
    requires |r| == |t|
    requires forall k | 0 <= k < |t| :: r[k] == if k in Path(t, x) then Bump(t[k], result) else t[k]
    ensures r[0] == Bump(t[0], result)
  {
    var p := Path(t, x);
    assert p[|p| - 1] == 0;
  }

  /** `run_MCTS`: a fresh root and `trials` iterations; the root is visited once per trial. */
  method RunMcts(g: Game, trials: nat, ucb: UcbWeight, draws: Draws) returns (t: Tree)
    ensures Valid(t) && Counted(t)
    ensures t[0].game == g && t[0].visits == trials
    ensures trials > 0 ==> (t[0].children == [] <==> Moves(g) == [])
    ensures trials == 0 ==> t == NewTree(g)
  {
    t := NewTree(g);
    var i := 0;
    while i < trials
      invariant 0 <= i <= trials
      invariant Valid(t) && Counted(t)
      invariant t[0].game == g && t[0].visits == i
      invariant i > 0 ==> (t[0].children == [] <==> Moves(g) == [])
      invariant i == 0 ==> t == NewTree(g)
    {
      t := Trial(t, i, ucb, draws);
      i := i + 1;
    }
  }

  /**
   `MonteCarloSearchAgent.get_action`: run the search, then take the move of
   the root child with the highest win probability; with no root child the
   result is the error the source raises.
   */
  method GetAction(g: Game, trials: nat, ucb: UcbWeight, draws: Draws) returns (r: Result<Turn, SearchError>)
    ensures r.Ok? ==> r.value in Moves(g)
    ensures trials > 0 ==> (r.Err? <==> Moves(g) == [])
    ensures trials == 0 ==> r.Err?
  {
    var t := RunMcts(g, trials, ucb, draws);
    r := BestMove(t);
  }
}
