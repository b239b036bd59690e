/**
 `AlphaBetaMinimaxAgent` of `search.py`: fail-soft alpha-beta pruning over
 the same layers and evaluation as the plain minimax agent. A loop sweep
 returns the value reached together with the `trail` of running values after
 each explored successor; at the root the trail is the `action_values`
 dictionary in insertion order.
 */
module AlphaBeta {
  import opened Wrappers
  import opened CheckersGame
  import opened Scores
  import opened Minimax

  /** Where a max or min loop stopped: its value and the running value after each successor it explored. */
  datatype Sweep = Sweep(v: Score, trail: seq<Score>)

  /** `AlphaBetaMinimaxAgent.max_value` without `argmax`. */
  function AbMaxValue(limit: nat, g: Game, alpha: Score, beta: Score, depth: nat): (v: Score)
    requires depth <= limit
    ensures Le(Finite(0.0), v)
    decreases limit - depth, 3
  {
    if Cutoff(limit, g, depth) then PieceRatio(g, g.current)
    else
      NotOverHasMoves(g);
      AbMaxLoop(limit, Successors(g), alpha, beta, depth, NegInf, []).v
  }

  /**
   The loop of `max_value`: the running maximum `v` stops the sweep once it
   reaches `beta`, otherwise it raises `alpha` for the successors still to come.
   */
  function AbMaxLoop(limit: nat, kids: seq<Game>, alpha: Score, beta: Score, depth: nat, v: Score, trail: seq<Score>): (s: Sweep)
    requires depth < limit
    ensures Le(v, s.v)
    ensures |trail| <= |s.trail| <= |trail| + |kids| && s.trail[..|trail|] == trail
    ensures kids != [] ==> |s.trail| > |trail| && s.trail[|s.trail| - 1] == s.v
    ensures |s.trail| < |trail| + |kids| ==> Le(beta, s.v)
    ensures kids != [] ==> Le(Finite(0.0), s.v)
    decreases limit - depth, 2, |kids|
  {
    if kids == [] then Sweep(v, trail)
    else
      var v' := Max(v, AbMinValue(limit, kids[0], alpha, beta, depth));
      if Le(beta, v') then Sweep(v', trail + [v'])
      else
        var s := AbMaxLoop(limit, kids[1..], Max(alpha, v'), beta, depth, v', trail + [v']);
        LeTransitive(v, v', s.v);
        assert s.trail[..|trail|] == (trail + [v'])[..|trail|];
        s
  }

  /** `AlphaBetaMinimaxAgent.min_value`. */
  function AbMinValue(limit: nat, g: Game, alpha: Score, beta: Score, depth: nat): (v: Score)
    requires depth <= limit
    ensures Le(Finite(0.0), v)
    decreases limit - depth, 1
  {
    if Cutoff(limit, g, depth) then PieceRatio(g, Opponent(g.current))
    else
      NotOverHasMoves(g);
      AbMinLoop(limit, Successors(g), alpha, beta, depth, PosInf, []).v
  }

  /**
   The loop of `min_value`: the running minimum `v` stops the sweep once it
   falls to `alpha`, otherwise it lowers `beta` for the successors still to come.
   */
  function AbMinLoop(limit: nat, kids: seq<Game>, alpha: Score, beta: Score, depth: nat, v: Score, trail: seq<Score>): (s: Sweep)
    requires depth < limit
    requires Le(Finite(0.0), v)
    ensures Le(s.v, v)
    ensures |trail| <= |s.trail| <= |trail| + |kids| && s.trail[..|trail|] == trail
    ensures kids != [] ==> |s.trail| > |trail| && s.trail[|s.trail| - 1] == s.v
    ensures |s.trail| < |trail| + |kids| ==> Le(s.v, alpha)
    ensures Le(Finite(0.0), s.v)
    decreases limit - depth, 0, |kids|
  {
    if kids == [] then Sweep(v, trail)
    else
      var v' := Min(v, AbMaxValue(limit, kids[0], alpha, beta, depth + 1));
      if Le(v', alpha) then Sweep(v', trail + [v'])
      else
        var s := AbMinLoop(limit, kids[1..], alpha, Min(beta, v'), depth, v', trail + [v']);
        LeTransitive(s.v, v', v);
        assert s.trail[..|trail|] == (trail + [v'])[..|trail|];
        s
  }

  /** `get_action`, i.e. `max_value(..., argmax=True)` from the full window: the first turn whose recorded value is the final one. */
  function AbGetAction(limit: nat, g: Game): (t: Turn)
    requires limit >= 1 && !IsGameOver(g)
    ensures t in Moves(g)
  {
    NotOverHasMoves(g);
    var s := AbMaxLoop(limit, Successors(g), NegInf, PosInf, 0, NegInf, []);
    Moves(g)[FirstIndexOf(s.trail, s.v)]
  }

  /** One successor of a max loop: if both the value so far and the successor's value agree with minimax inside their windows, so does the new running maximum. */
  lemma MaxStep(alpha0: Score, beta: Score, v: Score, m: Score, ab: Score, mm: Score)
    requires Le(alpha0, beta) && Le(v, beta)
    requires Clamp(v, alpha0, beta) == Clamp(m, alpha0, beta)
    requires Clamp(ab, Max(alpha0, v), beta) == Clamp(mm, Max(alpha0, v), beta)
    ensures Clamp(Max(v, ab), alpha0, beta) == Clamp(Max(m, mm), alpha0, beta)
  {
  }

  /** One successor of a min loop, the mirror image of `MaxStep`. */
  lemma MinStep(alpha: Score, beta0: Score, v: Score, m: Score, ab: Score, mm: Score)
    requires Le(alpha, beta0) && Le(alpha, v)
    requires Clamp(v, alpha, beta0) == Clamp(m, alpha, beta0)
    requires Clamp(ab, alpha, Min(beta0, v)) == Clamp(mm, alpha, Min(beta0, v))
    ensures Clamp(Min(v, ab), alpha, beta0) == Clamp(Min(m, mm), alpha, beta0)
  {
  }

  /** A max loop cut off at `beta`: the rest of the true sweep can only rise, so both clamp to `beta`. */
  lemma PrunedHigh(alpha0: Score, beta: Score, v: Score, m: Score, r: Score)
    requires Le(alpha0, beta) && Le(beta, v) && Le(m, r)
    requires Clamp(v, alpha0, beta) == Clamp(m, alpha0, beta)
    ensures Clamp(v, alpha0, beta) == Clamp(r, alpha0, beta)
  {
  }

  /** A min loop cut off at `alpha`: the rest of the true sweep can only fall, so both clamp to `alpha`. */
  lemma PrunedLow(alpha: Score, beta0: Score, v: Score, m: Score, r: Score)
    requires Le(alpha, beta0) && Le(v, alpha) && Le(r, m)
    requires Clamp(v, alpha, beta0) == Clamp(m, alpha, beta0)
    ensures Clamp(v, alpha, beta0) == Clamp(r, alpha, beta0)
  {
  }

  /** One step of a max loop, of the pruned and of the true sweep. */
  lemma MaxLoopUnfold(limit: nat, kids: seq<Game>, alpha: Score, beta: Score, depth: nat, v: Score, trail: seq<Score>, m: Score)
    requires depth < limit && kids != []
    ensures var v' := Max(v, AbMinValue(limit, kids[0], alpha, beta, depth));
      AbMaxLoop(limit, kids, alpha, beta, depth, v, trail) ==
        if Le(beta, v') then Sweep(v', trail + [v'])
        else AbMaxLoop(limit, kids[1..], Max(alpha, v'), beta, depth, v', trail + [v'])
    ensures MaxOver(limit, kids, depth, m) == MaxOver(limit, kids[1..], depth, Max(m, MinValue(limit, kids[0], depth)))
  {
  }

  /** One step of a min loop, of the pruned and of the true sweep. */
  lemma MinLoopUnfold(limit: nat, kids: seq<Game>, alpha: Score, beta: Score, depth: nat, v: Score, trail: seq<Score>, m: Score)
    requires depth < limit && kids != [] && Le(Finite(0.0), v) && Le(Finite(0.0), m)
    ensures var v' := Min(v, AbMaxValue(limit, kids[0], alpha, beta, depth + 1));
      AbMinLoop(limit, kids, alpha, beta, depth, v, trail) ==
        if Le(v', alpha) then Sweep(v', trail + [v'])
        else AbMinLoop(limit, kids[1..], alpha, Min(beta, v'), depth, v', trail + [v'])
    ensures MinOver(limit, kids, depth, m) == MinOver(limit, kids[1..], depth, Min(m, MaxValue(limit, kids[0], depth + 1)))
  {
  }

  /**
   Fail-soft soundness: inside the window `[alpha, beta]` the pruned max value
   is the minimax value; below `alpha` or above `beta` both sit on the same side.
   */
  lemma {:induction false} AbMaxSound(limit: nat, g: Game, alpha: Score, beta: Score, depth: nat)
    requires depth <= limit && Le(alpha, beta)
    ensures Clamp(AbMaxValue(limit, g, alpha, beta, depth), alpha, beta) == Clamp(MaxValue(limit, g, depth), alpha, beta)
    decreases limit - depth, 3
  {
    if !Cutoff(limit, g, depth) {
      NotOverHasMoves(g);
      AbMaxLoopSound(limit, Successors(g), alpha, alpha, beta, depth, NegInf, [], NegInf);
    }
  }

  lemma {:induction false} AbMaxLoopSound(limit: nat, kids: seq<Game>, alpha0: Score, alpha: Score, beta: Score,
                                          depth: nat, v: Score, trail: seq<Score>, m: Score)
    requires depth < limit
    requires Le(alpha0, beta) && Le(v, beta) && alpha == Max(alpha0, v)
    requires Clamp(v, alpha0, beta) == Clamp(m, alpha0, beta)
    requires kids != [] || Le(Finite(0.0), m)
    ensures Clamp(AbMaxLoop(limit, kids, alpha, beta, depth, v, trail).v, alpha0, beta) ==
            Clamp(MaxOver(limit, kids, depth, m), alpha0, beta)
    decreases limit - depth, 2, |kids|
  {
    if kids != [] {
      var ab := AbMinValue(limit, kids[0], alpha, beta, depth);
      var mm := MinValue(limit, kids[0], depth);
      AbMinSound(limit, kids[0], alpha, beta, depth);
      MaxStep(alpha0, beta, v, m, ab, mm);
      var v' := Max(v, ab);
      var m' := Max(m, mm);
      MaxLoopUnfold(limit, kids, alpha, beta, depth, v, trail, m);
      if Le(beta, v') {
        MaxOverSpec(limit, kids[1..], depth, m');
        PrunedHigh(alpha0, beta, v', m', MaxOver(limit, kids[1..], depth, m'));
      } else {
        AbMaxLoopSound(limit, kids[1..], alpha0, Max(alpha, v'), beta, depth, v', trail + [v'], m');
      }
    }
  }

  /** The mirror image of `AbMaxSound` for the min layer. */
  lemma {:induction false} AbMinSound(limit: nat, g: Game, alpha: Score, beta: Score, depth: nat)
    requires depth <= limit && Le(alpha, beta)
    ensures Clamp(AbMinValue(limit, g, alpha, beta, depth), alpha, beta) == Clamp(MinValue(limit, g, depth), alpha, beta)
    decreases limit - depth, 1
  {
    if !Cutoff(limit, g, depth) {
      NotOverHasMoves(g);
      AbMinLoopSound(limit, Successors(g), alpha, beta, beta, depth, PosInf, [], PosInf);
    }
  }

  lemma {:induction false} AbMinLoopSound(limit: nat, kids: seq<Game>, alpha: Score, beta0: Score, beta: Score,
                                          depth: nat, v: Score, trail: seq<Score>, m: Score)
    requires depth < limit
    requires Le(alpha, beta0) && Le(alpha, v) && beta == Min(beta0, v)
    requires Clamp(v, alpha, beta0) == Clamp(m, alpha, beta0)
    requires Le(Finite(0.0), v) && Le(Finite(0.0), m)
    ensures Clamp(AbMinLoop(limit, kids, alpha, beta, depth, v, trail).v, alpha, beta0) ==
            Clamp(MinOver(limit, kids, depth, m), alpha, beta0)
    decreases limit - depth, 0, |kids|
  {
    if kids != [] {
      var ab := AbMaxValue(limit, kids[0], alpha, beta, depth + 1);
      var mm := MaxValue(limit, kids[0], depth + 1);
      AbMaxSound(limit, kids[0], alpha, beta, depth + 1);
      MinStep(alpha, beta0, v, m, ab, mm);
      var v' := Min(v, ab);
      var m' := Min(m, mm);
      MinLoopUnfold(limit, kids, alpha, beta, depth, v, trail, m);
      if Le(v', alpha) {
        MinOverSpec(limit, kids[1..], depth, m');
        PrunedLow(alpha, beta0, v', m', MinOver(limit, kids[1..], depth, m'));
      } else {
        AbMinLoopSound(limit, kids[1..], alpha, beta0, Min(beta, v'), depth, v', trail + [v'], m');
      }
    }
  }

  /** The values a root sweep recorded are the running maxima of the true values, and it stopped early only on `float('inf')`. */
  predicate Recorded(vals: seq<Score>, s: Sweep) {
    && |s.trail| <= |vals|
    && (forall i | 1 <= i <= |s.trail| :: s.trail[i - 1] == RunMax(vals, i))
    && s.v == RunMax(vals, |s.trail|)
    && (|s.trail| < |vals| ==> s.v == PosInf)
  }

  /**
   The state of the root sweep before successor `o`: `vals` are the true
   minimax values of the successors, `v` their running maximum so far and
   `trail` the running maxima recorded so far.
   */
  predicate RootInv(limit: nat, kids: seq<Game>, vals: seq<Score>, depth: nat, o: nat, v: Score, trail: seq<Score>) {
    && depth < limit && o <= |kids| == |vals| && |trail| == o
    && (forall i | 0 <= i < |kids| :: vals[i] == MinValue(limit, kids[i], depth))
    && v == RunMax(vals, o)
    && (forall i | 1 <= i <= o :: trail[i - 1] == RunMax(vals, i))
  }

  /**
   At the root the window is `[v, inf)` with `alpha` tracking `v`, so every
   recorded value is the running maximum of the true minimax values, and the
   sweep stops early only on `float('inf')`.
   */
  lemma {:induction false} RootSweep(limit: nat, kids: seq<Game>, vals: seq<Score>, depth: nat, o: nat, v: Score, trail: seq<Score>)
    requires RootInv(limit, kids, vals, depth, o, v, trail)
    ensures Recorded(vals, AbMaxLoop(limit, kids[o..], v, PosInf, depth, v, trail))
    decreases |kids| - o
  {
    if o < |kids| {
      RootNext(limit, kids, vals, depth, o, v, trail);
      var v' := RunMax(vals, o + 1);
      if v' == PosInf {
        RootFinal(limit, kids, vals, depth, o + 1, v', trail + [v']);
      } else {
        RootSweep(limit, kids, vals, depth, o + 1, v', trail + [v']);
      }
    } else {
      RootFinal(limit, kids, vals, depth, o, v, trail);
    }
  }

  /** One successor of the root sweep: the recorded value is the next running maximum, and the window becomes `[v', inf)`. */
  lemma RootNext(limit: nat, kids: seq<Game>, vals: seq<Score>, depth: nat, o: nat, v: Score, trail: seq<Score>)
    requires RootInv(limit, kids, vals, depth, o, v, trail) && o < |kids|
    ensures var v' := RunMax(vals, o + 1);
      && RootInv(limit, kids, vals, depth, o + 1, v', trail + [v'])
      && AbMaxLoop(limit, kids[o..], v, PosInf, depth, v, trail) ==
        if v' == PosInf then Sweep(v', trail + [v'])
        else AbMaxLoop(limit, kids[o + 1..], v', PosInf, depth, v', trail + [v'])
  {
    var v' := Max(v, AbMinValue(limit, kids[o], v, PosInf, depth));
    assert v' == RunMax(vals, o + 1) by {
      RootStep(limit, kids[o], depth, v);
    }
    var rest := kids[o..];
    assert rest[0] == kids[o];
    assert rest[1..] == kids[o + 1..];
    assert Max(v, v') == v';
    var trail' := trail + [v'];
    forall i | 1 <= i <= o + 1 ensures trail'[i - 1] == RunMax(vals, i) {
      if i <= o {
        assert trail'[i - 1] == trail[i - 1];
      }
    }
  }

  /** A sweep that covered every successor, or stopped on `float('inf')`, recorded the running maxima. */
  lemma RootFinal(limit: nat, kids: seq<Game>, vals: seq<Score>, depth: nat, o: nat, v: Score, trail: seq<Score>)
    requires RootInv(limit, kids, vals, depth, o, v, trail)
    requires o == |kids| || v == PosInf
    ensures Recorded(vals, Sweep(v, trail))
    ensures o == |kids| ==> AbMaxLoop(limit, kids[o..], v, PosInf, depth, v, trail) == Sweep(v, trail)
  {
    if o == |kids| {
      assert kids[o..] == [];
    }
  }

  /** With the window `[v, inf)` the pruned min value raises `v` exactly as the true one does. */
  lemma RootStep(limit: nat, kid: Game, depth: nat, v: Score)
    requires depth <= limit
    ensures Max(v, AbMinValue(limit, kid, v, PosInf, depth)) == Max(v, MinValue(limit, kid, depth))
  {
    AbMinSound(limit, kid, v, PosInf, depth);
  }

  /** The first recorded value equal to the sweep's final value marks the first largest true value. */
  lemma RecordedChoice(vals: seq<Score>, s: Sweep)
    requires Recorded(vals, s) && s.trail != []
    requires forall j | 0 <= j < |vals| :: vals[j] != NegInf
    ensures s.v in s.trail
    ensures IsFirstMax(vals, FirstIndexOf(s.trail, s.v))
  {
    assert s.trail[|s.trail| - 1] == s.v;
    var k := FirstIndexOf(s.trail, s.v);
    assert s.trail[k] == RunMax(vals, k + 1);
    forall j | 1 <= j <= k ensures RunMax(vals, j) != RunMax(vals, |s.trail|) {
      assert s.trail[j - 1] != s.v;
    }
    FirstReachIsFirstMax(vals, |s.trail|, k);
  }

  /** Pruning never changes the agent's choice: the alpha-beta agent picks the same turn as plain minimax. */
  lemma AlphaBetaAgrees(limit: nat, g: Game)
    requires limit >= 1 && !IsGameOver(g)
    ensures GetAction(limit, g) == Ok(AbGetAction(limit, g))
  {
    NotOverHasMoves(g);
    var vals := ActionValues(limit, g);
    var s := AbMaxLoop(limit, Successors(g), NegInf, PosInf, 0, NegInf, []);
    RootRecorded(limit, g);
    SweepChoice(vals, s);
    MinimaxChoice(limit, g);
  }

  /** The root sweep of `get_action` records the running maxima of the value table. */
  lemma RootRecorded(limit: nat, g: Game)
    requires limit >= 1
    ensures Recorded(ActionValues(limit, g), AbMaxLoop(limit, Successors(g), NegInf, PosInf, 0, NegInf, []))
  {
    RootStart(limit, g);
    RootSweep(limit, Successors(g), ActionValues(limit, g), 0, 0, NegInf, []);
  }

  /** A recorded sweep's choice is the index `max(..., key=...)` picks. */
  lemma SweepChoice(vals: seq<Score>, s: Sweep)
    requires Recorded(vals, s) && s.trail != []
    requires forall j | 0 <= j < |vals| :: vals[j] != NegInf
    ensures s.v in s.trail && FirstIndexOf(s.trail, s.v) == FirstMax(vals)
  {
    RecordedChoice(vals, s);
    FirstMaxUnique(vals, FirstMax(vals), FirstIndexOf(s.trail, s.v));
  }

  /** The root sweep starts from the table of true values with nothing recorded. */
  lemma RootStart(limit: nat, g: Game)
    requires limit >= 1
    ensures Successors(g)[0..] == Successors(g)
    ensures RootInv(limit, Successors(g), ActionValues(limit, g), 0, 0, NegInf, [])
  {
  }

  /** The plain agent's turn is the one at the first largest entry of the value table. */
  lemma MinimaxChoice(limit: nat, g: Game)
    requires Moves(g) != []
    ensures GetAction(limit, g) == Ok(Moves(g)[FirstMax(ActionValues(limit, g))])
  {
  }
}
