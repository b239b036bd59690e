/**
 The depth-limited minimax agent of `search.py`: the material-ratio evaluation,
 the alternating max and min layers, and the root argmax over legal turns.
 A `for` loop over `get_legal_moves()` folding `max`/`min` into `v` is a
 recursive fold over the successor list.
 */
module Minimax {
  import opened Wrappers
  import opened CheckersBoard
  import opened CheckersGame
  import opened Scores

  datatype SearchError = NoActions

  /** Men plus kings of `player`. */
  function Material(b: Board, player: Player): nat {
    PieceCount(b, player) + PieceCount(b, player + 2)
  }

  /** `get_player_piece_ratio`: own material over the opponent's, infinite when the opponent has none. */
  function PieceRatio(g: Game, player: Player): (r: Score)
    ensures r.PosInf? <==> Material(g.board, Opponent(player)) == 0
    ensures r.Finite? <==> Material(g.board, Opponent(player)) > 0
    ensures r.Finite? ==> 0.0 <= r.r
    ensures r.Finite? ==> r.r * Material(g.board, Opponent(player)) as real == Material(g.board, player) as real
  {
    var mine := Material(g.board, player);
    var theirs := Material(g.board, Opponent(player));
    if theirs == 0 then PosInf else Finite(mine as real / theirs as real)
  }

  /** Seen from the two sides the ratios are reciprocal while both sides have material; one side's ratio is zero exactly when the other's is infinite and it is not infinite itself. */
  lemma RatioReciprocal(g: Game, player: Player)
    ensures Material(g.board, player) > 0 && Material(g.board, Opponent(player)) > 0 ==>
      && PieceRatio(g, player).Finite? && PieceRatio(g, Opponent(player)).Finite?
      && PieceRatio(g, player).r * PieceRatio(g, Opponent(player)).r == 1.0
    ensures PieceRatio(g, player) == Finite(0.0) <==>
      PieceRatio(g, Opponent(player)) == PosInf && PieceRatio(g, player) != PosInf
  {
    var mine := Material(g.board, player) as real;
    var theirs := Material(g.board, Opponent(player)) as real;
    assert Opponent(Opponent(player)) == player;
    if mine > 0.0 && theirs > 0.0 {
      assert (mine / theirs) * (theirs / mine) == 1.0;
    }
  }

  /** A cutoff node: the game is decided or the search reached its depth limit. */
  predicate Cutoff(limit: nat, g: Game, depth: nat) {
    IsGameOver(g) || depth == limit
  }

  /** `MinimaxSearchAgent.max_value`; the evaluation is from the mover's side. */
  function MaxValue(limit: nat, g: Game, depth: nat): (v: Score)
    requires depth <= limit
    ensures Le(Finite(0.0), v)
    decreases limit - depth, 3
  {
    if Cutoff(limit, g, depth) then PieceRatio(g, g.current)
    else
      NotOverHasMoves(g);
      MaxOver(limit, Successors(g), depth, NegInf)
  }

  /** The body of `max_value`'s loop over the remaining successors, `v` the maximum so far. */
  function MaxOver(limit: nat, kids: seq<Game>, depth: nat, v: Score): (r: Score)
    requires depth < limit
    requires kids != [] || Le(Finite(0.0), v)
    ensures Le(Finite(0.0), r)
    decreases limit - depth, 2, |kids|
  {
    if kids == [] then v
    else MaxOver(limit, kids[1..], depth, Max(v, MinValue(limit, kids[0], depth)))
  }

  /** `MinimaxSearchAgent.min_value`; the evaluation is from the side that just moved. */
  function MinValue(limit: nat, g: Game, depth: nat): (v: Score)
    requires depth <= limit
    ensures Le(Finite(0.0), v)
    decreases limit - depth, 1
  {
    if Cutoff(limit, g, depth) then PieceRatio(g, Opponent(g.current))
    else MinOver(limit, Successors(g), depth, PosInf)
  }

  /** The body of `min_value`'s loop; the depth grows by one on the way to the next max layer. */
  function MinOver(limit: nat, kids: seq<Game>, depth: nat, v: Score): (r: Score)
    requires depth < limit
    requires Le(Finite(0.0), v)
    ensures Le(Finite(0.0), r)
    decreases limit - depth, 0, |kids|
  {
    if kids == [] then v
    else MinOver(limit, kids[1..], depth, Min(v, MaxValue(limit, kids[0], depth + 1)))
  }

  lemma {:induction false} MaxOverSpec(limit: nat, kids: seq<Game>, depth: nat, v: Score)
    requires depth < limit
    requires kids != [] || Le(Finite(0.0), v)
    ensures Le(v, MaxOver(limit, kids, depth, v))
    ensures forall i | 0 <= i < |kids| :: Le(MinValue(limit, kids[i], depth), MaxOver(limit, kids, depth, v))
    ensures MaxOver(limit, kids, depth, v) == v ||
            exists i | 0 <= i < |kids| :: MaxOver(limit, kids, depth, v) == MinValue(limit, kids[i], depth)
    decreases |kids|
  {
    if kids != [] {
      var w := Max(v, MinValue(limit, kids[0], depth));
      var r := MaxOver(limit, kids, depth, v);
      MaxOverSpec(limit, kids[1..], depth, w);
      LeTransitive(v, w, r);
      forall i | 0 <= i < |kids| ensures Le(MinValue(limit, kids[i], depth), r) {
        if i == 0 {
          LeTransitive(MinValue(limit, kids[0], depth), w, r);
        } else {
          assert kids[i] == kids[1..][i - 1];
        }
      }
      if r != w {
        var j :| 0 <= j < |kids[1..]| && r == MinValue(limit, kids[1..][j], depth);
        assert kids[j + 1] == kids[1..][j];
      }
    }
  }

  lemma {:induction false} MinOverSpec(limit: nat, kids: seq<Game>, depth: nat, v: Score)
    requires depth < limit
    requires Le(Finite(0.0), v)
    ensures Le(MinOver(limit, kids, depth, v), v)
    ensures forall i | 0 <= i < |kids| :: Le(MinOver(limit, kids, depth, v), MaxValue(limit, kids[i], depth + 1))
    ensures MinOver(limit, kids, depth, v) == v ||
            exists i | 0 <= i < |kids| :: MinOver(limit, kids, depth, v) == MaxValue(limit, kids[i], depth + 1)
    decreases |kids|
  {
    if kids != [] {
      var w := Min(v, MaxValue(limit, kids[0], depth + 1));
      var r := MinOver(limit, kids, depth, v);
      MinOverSpec(limit, kids[1..], depth, w);
      LeTransitive(r, w, v);
      forall i | 0 <= i < |kids| ensures Le(r, MaxValue(limit, kids[i], depth + 1)) {
        if i == 0 {
          LeTransitive(r, w, MaxValue(limit, kids[0], depth + 1));
        } else {
          assert kids[i] == kids[1..][i - 1];
        }
      }
      if r != w {
        var j :| 0 <= j < |kids[1..]| && r == MaxValue(limit, kids[1..][j], depth + 1);
        assert kids[j + 1] == kids[1..][j];
      }
    }
  }

  /** A max node is worth the best of its successors' min values, and some successor attains it. */
  lemma MaxValueSpec(limit: nat, g: Game, depth: nat)
    requires depth <= limit
    ensures Cutoff(limit, g, depth) ==> MaxValue(limit, g, depth) == PieceRatio(g, g.current)
    ensures !Cutoff(limit, g, depth) ==>
      forall t | t in Moves(g) :: Le(MinValue(limit, Successor(g, t), depth), MaxValue(limit, g, depth))
    ensures !Cutoff(limit, g, depth) ==>
      exists t | t in Moves(g) :: MaxValue(limit, g, depth) == MinValue(limit, Successor(g, t), depth)
  {
    if !Cutoff(limit, g, depth) {
      NotOverHasMoves(g);
      var kids := Successors(g);
      MaxOverSpec(limit, kids, depth, NegInf);
      forall t | t in Moves(g) ensures Le(MinValue(limit, Successor(g, t), depth), MaxValue(limit, g, depth)) {
        var i :| 0 <= i < |Moves(g)| && Moves(g)[i] == t;
        assert kids[i] == Successor(g, t);
      }
      var i :| 0 <= i < |kids| && MaxValue(limit, g, depth) == MinValue(limit, kids[i], depth);
      assert kids[i] == Successor(g, Moves(g)[i]);
    }
  }

  /** A min node is worth the worst of its successors' max values one level deeper, and some successor attains it. */
  lemma MinValueSpec(limit: nat, g: Game, depth: nat)
    requires depth <= limit
    ensures Cutoff(limit, g, depth) ==> MinValue(limit, g, depth) == PieceRatio(g, Opponent(g.current))
    ensures !Cutoff(limit, g, depth) ==>
      forall t | t in Moves(g) :: Le(MinValue(limit, g, depth), MaxValue(limit, Successor(g, t), depth + 1))
    ensures !Cutoff(limit, g, depth) ==>
      exists t | t in Moves(g) :: MinValue(limit, g, depth) == MaxValue(limit, Successor(g, t), depth + 1)
  {
    if !Cutoff(limit, g, depth) {
      NotOverHasMoves(g);
      var kids := Successors(g);
      MinOverSpec(limit, kids, depth, PosInf);
      forall t | t in Moves(g) ensures Le(MinValue(limit, g, depth), MaxValue(limit, Successor(g, t), depth + 1)) {
        var i :| 0 <= i < |Moves(g)| && Moves(g)[i] == t;
        assert kids[i] == Successor(g, t);
      }
      var i :| 0 <= i < |kids| && MinValue(limit, g, depth) == MaxValue(limit, kids[i], depth + 1);
      assert kids[i] == Successor(g, Moves(g)[i]);
    }
  }

  /** The root's value table: each legal turn scored by the min layer below it. */
  function ActionValues(limit: nat, g: Game): (r: seq<Score>)
    ensures |r| == |Moves(g)|
    ensures forall i | 0 <= i < |r| :: r[i] == MinValue(limit, Successor(g, Moves(g)[i]), 0)
  {
    var kids := Successors(g);
    seq(|kids|, i requires 0 <= i < |kids| => MinValue(limit, kids[i], 0))
  }

  /** Below the root's cutoff the largest entry of the value table is the max layer's value of the root. */
  lemma ActionValuesTop(limit: nat, g: Game)
    requires !Cutoff(limit, g, 0)
    ensures forall i | 0 <= i < |ActionValues(limit, g)| :: Le(ActionValues(limit, g)[i], MaxValue(limit, g, 0))
    ensures exists i | 0 <= i < |ActionValues(limit, g)| :: ActionValues(limit, g)[i] == MaxValue(limit, g, 0)
  {
    var vals := ActionValues(limit, g);
    MaxValueSpec(limit, g, 0);
    forall i | 0 <= i < |vals| ensures Le(vals[i], MaxValue(limit, g, 0)) {
      assert Moves(g)[i] in Moves(g);
    }
    var t :| t in Moves(g) && MaxValue(limit, g, 0) == MinValue(limit, Successor(g, t), 0);
    var i :| 0 <= i < |Moves(g)| && Moves(g)[i] == t;
    assert vals[i] == MaxValue(limit, g, 0);
  }

  /** `MinimaxSearchAgent.get_action`: the first legal turn whose value is largest; no turn is an error. */
  function GetAction(limit: nat, g: Game): (r: Result<Turn, SearchError>)
    ensures r.Err? <==> Moves(g) == []
    ensures r.Ok? ==> exists i | 0 <= i < |Moves(g)| :: r.value == Moves(g)[i] && IsFirstMax(ActionValues(limit, g), i)
  {
    var ms := Moves(g);
    if ms == [] then Err(NoActions)
    else
      var i := FirstMax(ActionValues(limit, g));
      Ok(ms[i])
  }

  /** Below the root's cutoff the agent's turn attains the root's minimax value. */
  lemma GetActionOptimal(limit: nat, g: Game)
    requires !Cutoff(limit, g, 0)
    ensures GetAction(limit, g).Ok? && GetAction(limit, g).value in Moves(g)
    ensures MinValue(limit, Successor(g, GetAction(limit, g).value), 0) == MaxValue(limit, g, 0)
  {
    NotOverHasMoves(g);
    var vals := ActionValues(limit, g);
    var m := MaxValue(limit, g, 0);
    ActionValuesTop(limit, g);
    var i :| 0 <= i < |Moves(g)| && GetAction(limit, g).value == Moves(g)[i] && IsFirstMax(vals, i);
    var j :| 0 <= j < |vals| && vals[j] == m;
    FirstMaxAttains(vals, i, j, m);
    assert vals[i] == MinValue(limit, Successor(g, Moves(g)[i]), 0);
  }

  /**
   At a cutoff the two layers evaluate the same state from opposite sides:
   while both sides have material the min layer's value is the reciprocal of
   the max layer's.
   */
  lemma CutoffViews(limit: nat, g: Game, depth: nat)
    requires depth <= limit && Cutoff(limit, g, depth)
    requires Material(g.board, g.current) > 0 && Material(g.board, Opponent(g.current)) > 0
    ensures MaxValue(limit, g, depth).Finite? && MinValue(limit, g, depth).Finite?
    ensures MaxValue(limit, g, depth).r * MinValue(limit, g, depth).r == 1.0
  {
    RatioReciprocal(g, g.current);
  }
}
