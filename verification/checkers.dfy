/**
 The game state of `CheckersGame` in checkers.py: legal-turn generation with
 forced capture and recursive jump chains, applying a whole turn, the
 successor used by the search agents, and the winner test.
 */
module CheckersGame {
  import opened Wrappers
  import opened CheckersBoard

  type Player = p: int | p == 1 || p == 2 witness 1

  /** A game state: the board and the player to move. */
  datatype Game = Game(board: Board, current: Player)

  /** A turn is the sequence of legs a player makes in one ply. */
  type Turn = seq<Leg>

  /** `other_player` raises `ValueError` for an id other than 1 or 2. */
  datatype PlayerError = InvalidPlayer

  function Opponent(p: Player): Player {
    if p == 1 then 2 else 1
  }

  /**
   `other_player(who)`: the opponent of `who`; an absent `who`, or 0 (which
   Python treats as absent too), stands for the player to move.
   */
  function OtherPlayer(g: Game, who: Option<int>): (r: Result<Player, PlayerError>)
    ensures (who.None? || who.value == 0) ==> r.Ok? && r.value != g.current
    ensures who.Some? && who.value != 0 ==> (r.Ok? <==> who.value == 1 || who.value == 2)
    ensures r.Ok? && who.Some? && who.value != 0 ==> r.value != who.value
  {
    var p := if who.None? || who.value == 0 then g.current else who.value;
    if p == 1 then Ok(2) else if p == 2 then Ok(1) else Err(InvalidPlayer)
  }

  /** Asking twice gives back the player asked about. */
  lemma OtherPlayerInvolution(g: Game, p: int)
    requires p != 0 && OtherPlayer(g, Some(p)).Ok?
    ensures OtherPlayer(g, Some(OtherPlayer(g, Some(p)).value)) == Ok(p)
  {
  }

  /** A piece is the player's when it is the player's man or king (`piece in [player, player + 2]`). */
  predicate Owned(piece: Piece, player: Player) {
    piece == player || piece == player + 2
  }

  /** Men may not move toward their own side: a man 1 never decreases y, a man 2 never increases it. */
  predicate Backward(piece: Piece, dy: int) {
    (piece == Man1 && dy < 0) || (piece == Man2 && dy > 0)
  }

  predicate IsEnemy(piece: Piece, other: Piece) {
    Owner(piece) != 0 && Owner(other) != 0 && Owner(piece) != Owner(other)
  }

  const StepDirections: seq<(int, int)> := [(1, 1), (1, -1), (-1, 1), (-1, -1)]
  const JumpDirections: seq<(int, int)> := [(2, 2), (2, -2), (-2, 2), (-2, -2)]

  function Toward(p: Pos, d: (int, int)): Pos {
    Pos(p.x + d.0, p.y + d.1)
  }

  // ---------------------------------------------------------------- single steps

  /** A single move: a unit diagonal onto an empty square, not backward for a man. */
  predicate StepAllowed(b: Board, m: Leg) {
    && InBounds(b, m.start)
    && InBounds(b, m.end)
    && (m.end.x - m.start.x == 1 || m.end.x - m.start.x == -1)
    && (m.end.y - m.start.y == 1 || m.end.y - m.start.y == -1)
    && !Backward(At(b, m.start), m.end.y - m.start.y)
    && At(b, m.end) == Empty
  }

  function StepsAlong(b: Board, from: Pos, dirs: seq<(int, int)>): (r: seq<Turn>)
    requires InBounds(b, from)
    ensures forall t: Turn | t in r :: |t| == 1 && t[0].start == from && StepAllowed(b, t[0])
    ensures forall i | 0 <= i < |dirs| && StepAllowed(b, Leg(from, Toward(from, dirs[i]))) ::
      [Leg(from, Toward(from, dirs[i]))] in r
  {
    if dirs == [] then []
    else
      var leg := Leg(from, Toward(from, dirs[0]));
      var rest := StepsAlong(b, from, dirs[1..]);
      assert forall i | 1 <= i < |dirs| :: dirs[i] == dirs[1..][i - 1];
      if !StepAllowed(b, leg) then rest else [[leg]] + rest
  }

  /** `get_single_moves`: the one-leg turns of the piece at `from`. */
  function SingleMoves(b: Board, from: Pos): (r: seq<Turn>)
    requires InBounds(b, from)
    ensures forall t: Turn :: t in r <==> |t| == 1 && t[0].start == from && StepAllowed(b, t[0])
  {
    var r := StepsAlong(b, from, StepDirections);
    forall t: Turn | |t| == 1 && t[0].start == from && StepAllowed(b, t[0])
      ensures t in r
    {
      var d := (t[0].end.x - from.x, t[0].end.y - from.y);
      assert t[0] == Leg(from, Toward(from, d));
      assert d == StepDirections[0] || d == StepDirections[1] || d == StepDirections[2] || d == StepDirections[3];
      assert t == [t[0]];
    }
    r
  }

  // ---------------------------------------------------------------- jumps

  /** The test `get_jump_moves` applies to one jump leg: a +-2 diagonal, not backward
      for a man, onto an empty in-bounds square, over an enemy piece. */
  predicate JumpAllowed(b: Board, m: Leg) {
    && InBounds(b, m.start)
    && InBounds(b, m.end)
    && (m.end.x - m.start.x == 2 || m.end.x - m.start.x == -2)
    && (m.end.y - m.start.y == 2 || m.end.y - m.start.y == -2)
    && At(b, m.start) != Empty
    && !Backward(At(b, m.start), m.end.y - m.start.y)
    && At(b, m.end) == Empty
    && (MidpointInBounds(b, m); IsEnemy(At(b, m.start), At(b, Midpoint(m))))
  }

  /** The piece at `p` has at least one jump. */
  ghost predicate CanJump(b: Board, p: Pos) {
    exists q :: JumpAllowed(b, Leg(p, q))
  }

  /** The board after an allowed jump leg; the leg always applies and removes one piece. */
  function Jump(b: Board, m: Leg): (r: Board)
    requires JumpAllowed(b, m)
    ensures Occupied(r) == Occupied(b) - 1
    ensures |r| == |b|
  {
    MidpointInBounds(b, m);
    CheckersBoard.MakeMove(b, m).value
  }

  lemma JumpIsMakeMove(b: Board, m: Leg)
    requires JumpAllowed(b, m)
    ensures CheckersBoard.MakeMove(b, m) == Ok(Jump(b, m))
  {
    MidpointInBounds(b, m);
  }

  function Prepend(m: Leg, ts: seq<Turn>): (r: seq<Turn>)
    ensures |r| == |ts|
    ensures forall i | 0 <= i < |ts| :: r[i] == [m] + ts[i]
  {
    seq(|ts|, i requires 0 <= i < |ts| => [m] + ts[i])
  }

  /**
   `get_jump_moves`: every jump chain of the piece at `from`. Each leg is tried
   on a fresh board after the previous one, so a man crowned mid-chain goes on
   jumping as a king; a chain stops only where no further jump exists. The
   recursion terminates because every leg removes a piece.
   */
  function JumpMoves(b: Board, from: Pos): seq<Turn>
    requires InBounds(b, from)
    decreases Occupied(b), 2, 0
  {
    if At(b, from) == Empty then [] else JumpsAlong(b, from, JumpDirections)
  }

  /** The chains whose first leg goes in one of `dirs`, in the order of `dirs`. */
  function JumpsAlong(b: Board, from: Pos, dirs: seq<(int, int)>): seq<Turn>
    requires InBounds(b, from)
    decreases Occupied(b), 1, |dirs|
  {
    if dirs == [] then []
    else
      var leg := Leg(from, Toward(from, dirs[0]));
      var rest := JumpsAlong(b, from, dirs[1..]);
      if JumpAllowed(b, leg) then Continuations(b, leg) + rest else rest
  }

  /** The chains that begin with the allowed jump `leg`: the leg alone when the piece
      cannot jump on, otherwise the leg followed by each chain from its landing square. */
  function Continuations(b: Board, leg: Leg): seq<Turn>
    requires JumpAllowed(b, leg)
    decreases Occupied(b), 0, 0
  {
    var further := JumpMoves(Jump(b, leg), leg.end);
    if further == [] then [[leg]] else Prepend(leg, further)
  }

  /**
   A jump turn from the board `b`: its first leg is an allowed jump, every later
   leg starts where the previous one ended and is allowed on the board as left
   by the earlier legs, and after the last leg the piece has no jump left.
   */
  ghost predicate JumpChain(b: Board, t: Turn)
    decreases |t|
  {
    && |t| > 0
    && JumpAllowed(b, t[0])
    && if |t| == 1 then !CanJump(Jump(b, t[0]), t[0].end)
       else t[1].start == t[0].end && JumpChain(Jump(b, t[0]), t[1..])
  }

  lemma {:induction false} JumpsAlongEmpty(b: Board, from: Pos, dirs: seq<(int, int)>)
    requires InBounds(b, from)
    ensures JumpsAlong(b, from, dirs) == [] <==>
      forall i | 0 <= i < |dirs| :: !JumpAllowed(b, Leg(from, Toward(from, dirs[i])))
    decreases |dirs|
  {
    if dirs != [] {
      JumpsAlongEmpty(b, from, dirs[1..]);
      assert forall i | 1 <= i < |dirs| :: dirs[i] == dirs[1..][i - 1];
    }
  }

  /** Every jump leg goes in one of the four jump directions. */
  lemma JumpDirection(b: Board, m: Leg)
    requires JumpAllowed(b, m)
    ensures (m.end.x - m.start.x, m.end.y - m.start.y) in JumpDirections
    ensures m == Leg(m.start, Toward(m.start, (m.end.x - m.start.x, m.end.y - m.start.y)))
  {
    var d := (m.end.x - m.start.x, m.end.y - m.start.y);
    assert d == JumpDirections[0] || d == JumpDirections[1] || d == JumpDirections[2] || d == JumpDirections[3];
  }

  /** A piece has jump turns exactly when it has a jump leg. */
  lemma JumpMovesEmpty(b: Board, from: Pos)
    requires InBounds(b, from)
    ensures JumpMoves(b, from) == [] <==> !CanJump(b, from)
  {
    JumpsAlongEmpty(b, from, JumpDirections);
    if CanJump(b, from) {
      var q :| JumpAllowed(b, Leg(from, q));
      JumpDirection(b, Leg(from, q));
    }
  }

  /**
   Soundness and completeness of `get_jump_moves`: the generated turns are
   exactly the jump chains that start at `from`.
   */
  lemma {:induction false} JumpMovesSpec(b: Board, from: Pos)
    requires InBounds(b, from)
    ensures forall t: Turn :: t in JumpMoves(b, from) <==> |t| > 0 && t[0].start == from && JumpChain(b, t)
    decreases Occupied(b), 2, 0
  {
    if At(b, from) != Empty {
      JumpsAlongSpec(b, from, JumpDirections);
      JumpMovesOfPiece(b, from);
    } else {
      NoJumpsFromEmpty(b, from);
    }
  }

  /** From an occupied square the chains are those over the four jump directions. */
  lemma JumpMovesOfPiece(b: Board, from: Pos)
    requires InBounds(b, from) && At(b, from) != Empty
    requires AlongSpec(b, from, JumpDirections)
    ensures forall t: Turn :: t in JumpMoves(b, from) <==> |t| > 0 && t[0].start == from && JumpChain(b, t)
  {
    forall t: Turn | |t| > 0 && t[0].start == from && JumpChain(b, t)
      ensures (t[0].end.x - from.x, t[0].end.y - from.y) in JumpDirections
    {
      JumpDirection(b, t[0]);
    }
  }

  /** An empty square starts no chain. */
  lemma NoJumpsFromEmpty(b: Board, from: Pos)
    requires InBounds(b, from) && At(b, from) == Empty
    ensures JumpMoves(b, from) == []
    ensures forall t: Turn | |t| > 0 && t[0].start == from :: !JumpChain(b, t)
  {
    forall t: Turn | |t| > 0 && t[0].start == from
      ensures !JumpChain(b, t)
    {
      assert !JumpAllowed(b, t[0]);
    }
  }

  /** The chains over `dirs` are exactly the chains from `from` whose first leg goes one of those ways. */
  ghost predicate AlongSpec(b: Board, from: Pos, dirs: seq<(int, int)>)
    requires InBounds(b, from)
  {
    forall t: Turn :: t in JumpsAlong(b, from, dirs) <==>
      && |t| > 0
      && t[0].start == from
      && (t[0].end.x - from.x, t[0].end.y - from.y) in dirs
      && JumpChain(b, t)
  }

  /** The chains built from `leg` are exactly the chains whose first leg is `leg`. */
  ghost predicate ContinuationsFit(b: Board, leg: Leg)
    requires JumpAllowed(b, leg)
  {
    forall t: Turn :: t in Continuations(b, leg) <==> |t| > 0 && t[0] == leg && JumpChain(b, t)
  }

  lemma {:induction false} JumpsAlongSpec(b: Board, from: Pos, dirs: seq<(int, int)>)
    requires InBounds(b, from)
    ensures forall t: Turn :: t in JumpsAlong(b, from, dirs) <==>
      && |t| > 0
      && t[0].start == from
      && (t[0].end.x - from.x, t[0].end.y - from.y) in dirs
      && JumpChain(b, t)
    decreases Occupied(b), 1, |dirs|
  {
    if dirs != [] {
      var leg := Leg(from, Toward(from, dirs[0]));
      JumpsAlongSpec(b, from, dirs[1..]);
      if JumpAllowed(b, leg) {
        ContinuationsSpec(b, leg);
      }
      AlongSound(b, from, dirs);
      AlongComplete(b, from, dirs);
    }
  }

  /** A first leg from `from` is the leg in direction `d` exactly when it goes that way. */
  lemma LegOfDirection(from: Pos, d: (int, int))
    ensures forall t: Turn | |t| > 0 && t[0].start == from ::
      t[0] == Leg(from, Toward(from, d)) <==> (t[0].end.x - from.x, t[0].end.y - from.y) == d
  {
  }

  lemma AlongSound(b: Board, from: Pos, dirs: seq<(int, int)>)
    requires InBounds(b, from) && dirs != [] && AlongSpec(b, from, dirs[1..])
    requires JumpAllowed(b, Leg(from, Toward(from, dirs[0]))) ==> ContinuationsFit(b, Leg(from, Toward(from, dirs[0])))
    ensures forall t: Turn | t in JumpsAlong(b, from, dirs) ::
      && |t| > 0
      && t[0].start == from
      && (t[0].end.x - from.x, t[0].end.y - from.y) in dirs
      && JumpChain(b, t)
  {
    LegOfDirection(from, dirs[0]);
  }

  lemma AlongComplete(b: Board, from: Pos, dirs: seq<(int, int)>)
    requires InBounds(b, from) && dirs != [] && AlongSpec(b, from, dirs[1..])
    requires JumpAllowed(b, Leg(from, Toward(from, dirs[0]))) ==> ContinuationsFit(b, Leg(from, Toward(from, dirs[0])))
    ensures forall t: Turn |
      && |t| > 0
      && t[0].start == from
      && (t[0].end.x - from.x, t[0].end.y - from.y) in dirs
      && JumpChain(b, t)
      :: t in JumpsAlong(b, from, dirs)
  {
    LegOfDirection(from, dirs[0]);
  }

  lemma {:induction false} ContinuationsSpec(b: Board, leg: Leg)
    requires JumpAllowed(b, leg)
    ensures forall t: Turn :: t in Continuations(b, leg) <==> |t| > 0 && t[0] == leg && JumpChain(b, t)
    decreases Occupied(b), 0, 0
  {
    JumpMovesSpec(Jump(b, leg), leg.end);
    ContinuationsSound(b, leg);
    ContinuationsComplete(b, leg);
  }

  /** The chains from the landing square of `leg`, on the board after it. */
  ghost predicate FurtherSpec(b: Board, leg: Leg)
    requires JumpAllowed(b, leg)
  {
    var after := Jump(b, leg);
    forall t: Turn :: t in JumpMoves(after, leg.end) <==> |t| > 0 && t[0].start == leg.end && JumpChain(after, t)
  }

  lemma ContinuationsSound(b: Board, leg: Leg)
    requires JumpAllowed(b, leg) && FurtherSpec(b, leg)
    ensures forall t: Turn | t in Continuations(b, leg) :: |t| > 0 && t[0] == leg && JumpChain(b, t)
  {
    forall t: Turn | t in Continuations(b, leg)
      ensures |t| > 0 && t[0] == leg && JumpChain(b, t)
    {
      ContinuationSound(b, leg, t);
    }
  }

  lemma ContinuationSound(b: Board, leg: Leg, t: Turn)
    requires JumpAllowed(b, leg) && FurtherSpec(b, leg)
    requires t in Continuations(b, leg)
    ensures |t| > 0 && t[0] == leg && JumpChain(b, t)
  {
    var further := JumpMoves(Jump(b, leg), leg.end);
    if further == [] {
      OneLegChain(b, leg);
    } else {
      ContinuationsOfChains(b, leg);
      var i :| 0 <= i < |further| && Prepend(leg, further)[i] == t;
      assert further[i] in further;
      FurtherChain(b, leg, further[i]);
      ChainExtends(b, leg, further[i]);
    }
  }

  /** A jump after which the piece cannot jump on is a chain by itself. */
  lemma OneLegChain(b: Board, leg: Leg)
    requires JumpAllowed(b, leg) && JumpMoves(Jump(b, leg), leg.end) == []
    ensures Continuations(b, leg) == [[leg]]
    ensures JumpChain(b, [leg])
  {
    JumpMovesEmpty(Jump(b, leg), leg.end);
  }

  lemma FurtherChain(b: Board, leg: Leg, tail: Turn)
    requires JumpAllowed(b, leg) && FurtherSpec(b, leg)
    requires tail in JumpMoves(Jump(b, leg), leg.end)
    ensures |tail| > 0 && tail[0].start == leg.end && JumpChain(Jump(b, leg), tail)
  {
  }

  /** An allowed jump followed by a chain from its landing square is a chain. */
  lemma ChainExtends(b: Board, leg: Leg, tail: Turn)
    requires JumpAllowed(b, leg)
    requires |tail| > 0 && tail[0].start == leg.end && JumpChain(Jump(b, leg), tail)
    ensures JumpChain(b, [leg] + tail)
  {
    var t := [leg] + tail;
    assert t[0] == leg && t[1] == tail[0];
    assert t[1..] == tail;
  }

  lemma ContinuationsComplete(b: Board, leg: Leg)
    requires JumpAllowed(b, leg) && FurtherSpec(b, leg)
    ensures forall t: Turn | |t| > 0 && t[0] == leg && JumpChain(b, t) :: t in Continuations(b, leg)
  {
    forall t: Turn | |t| > 0 && t[0] == leg && JumpChain(b, t)
      ensures t in Continuations(b, leg)
    {
      ContinuationComplete(b, leg, t);
    }
  }

  lemma ContinuationComplete(b: Board, leg: Leg, t: Turn)
    requires JumpAllowed(b, leg) && FurtherSpec(b, leg)
    requires |t| > 0 && t[0] == leg && JumpChain(b, t)
    ensures t in Continuations(b, leg)
  {
    var after := Jump(b, leg);
    JumpMovesEmpty(after, leg.end);
    if |t| == 1 {
      assert t == [leg];
    } else {
      LongContinuation(b, leg, t);
    }
  }

  lemma LongContinuation(b: Board, leg: Leg, t: Turn)
    requires JumpAllowed(b, leg) && FurtherSpec(b, leg)
    requires |t| > 1 && t[0] == leg && JumpChain(b, t)
    ensures t in Continuations(b, leg)
  {
    JumpChainTail(b, t);
    FurtherListed(b, leg, t[1..]);
    ContinuationListed(b, leg, t);
  }

  /** The legs after the first of a jump chain form a chain on the board after the first leg. */
  lemma JumpChainTail(b: Board, t: Turn)
    requires |t| > 1 && JumpChain(b, t)
    ensures JumpAllowed(b, t[0])
    ensures |t[1..]| > 0 && t[1..][0].start == t[0].end && JumpChain(Jump(b, t[0]), t[1..])
  {
    assert t[1..][0] == t[1];
  }

  lemma FurtherListed(b: Board, leg: Leg, tail: Turn)
    requires JumpAllowed(b, leg) && FurtherSpec(b, leg)
    requires |tail| > 0 && tail[0].start == leg.end && JumpChain(Jump(b, leg), tail)
    ensures tail in JumpMoves(Jump(b, leg), leg.end)
  {
  }

  lemma ContinuationListed(b: Board, leg: Leg, t: Turn)
    requires JumpAllowed(b, leg)
    requires |t| > 1 && t[0] == leg && t[1..] in JumpMoves(Jump(b, leg), leg.end)
    ensures t in Continuations(b, leg)
  {
    var further := JumpMoves(Jump(b, leg), leg.end);
    var tail := t[1..];
    var i :| 0 <= i < |further| && further[i] == tail;
    PrependListed(leg, further, i);
    ContinuationsOfChains(b, leg);
    assert t == [leg] + tail;
  }

  /** Where the piece jumps on, the chains are the first leg followed by each further chain. */
  lemma ContinuationsOfChains(b: Board, leg: Leg)
    requires JumpAllowed(b, leg) && JumpMoves(Jump(b, leg), leg.end) != []
    ensures Continuations(b, leg) == Prepend(leg, JumpMoves(Jump(b, leg), leg.end))
  {
  }

  lemma PrependListed(m: Leg, ts: seq<Turn>, i: nat)
    requires i < |ts|
    ensures [m] + ts[i] in Prepend(m, ts)
  {
    assert Prepend(m, ts)[i] == [m] + ts[i];
  }

  // ---------------------------------------------------------------- legal turns

  /** The scan of `get_legal_moves`: rows in order, cells in order within a row. Jumps
      accumulate; a piece's single moves are added only while no jump has been found;
      jumps win if any were found. */
  function Scan(b: Board, player: Player, y: nat, x: nat, jumps: seq<Turn>, singles: seq<Turn>): seq<Turn>
    requires y <= |b| && x <= |b|
    decreases |b| - y, |b| - x
  {
    if y == |b| then (if jumps != [] then jumps else singles)
    else if x == |b| then Scan(b, player, y + 1, 0, jumps, singles)
    else
      var p := Pos(x, y);
      if !Owned(At(b, p), player) then Scan(b, player, y, x + 1, jumps, singles)
      else
        var jumps' := jumps + JumpMoves(b, p);
        var singles' := if jumps' == [] then singles + SingleMoves(b, p) else singles;
        Scan(b, player, y, x + 1, jumps', singles')
  }

  /** `get_legal_moves(player)`. */
  function LegalMoves(b: Board, player: Player): seq<Turn> {
    Scan(b, player, 0, 0, [], [])
  }

  /** `get_legal_moves()`: the turns of the player to move. */
  function Moves(g: Game): seq<Turn> {
    LegalMoves(g.board, g.current)
  }

  /** A jump turn of one of the player's pieces. */
  ghost predicate IsJumpTurn(b: Board, player: Player, t: Turn) {
    |t| > 0 && InBounds(b, t[0].start) && Owned(At(b, t[0].start), player) && JumpChain(b, t)
  }

  /** A single-step turn of one of the player's pieces. */
  predicate IsStepTurn(b: Board, player: Player, t: Turn) {
    |t| == 1 && InBounds(b, t[0].start) && Owned(At(b, t[0].start), player) && StepAllowed(b, t[0])
  }

  /** Some piece of the player can jump, so capturing is compulsory. */
  ghost predicate MustCapture(b: Board, player: Player) {
    exists p :: InBounds(b, p) && Owned(At(b, p), player) && CanJump(b, p)
  }

  /** Position `p` comes before cell `(x, y)` in the scan order. */
  predicate Before(p: Pos, y: int, x: int) {
    p.y < y || (p.y == y && p.x < x)
  }

  /** What the scan has gathered when it reaches cell `(x, y)`: the jump turns of the
      player's pieces before that cell, and, while none exists, their single steps. */
  ghost predicate ScanInv(b: Board, player: Player, y: int, x: int, jumps: seq<Turn>, singles: seq<Turn>) {
    && (forall t: Turn :: t in jumps <==> IsJumpTurn(b, player, t) && Before(t[0].start, y, x))
    && (jumps == [] ==> forall t: Turn :: t in singles <==> IsStepTurn(b, player, t) && Before(t[0].start, y, x))
  }

  /** The turns forced capture allows: the jump chains if any piece can jump, the single steps otherwise. */
  ghost predicate ForcedCapture(b: Board, player: Player, ts: seq<Turn>) {
    forall t: Turn :: t in ts <==>
      if MustCapture(b, player) then IsJumpTurn(b, player, t) else IsStepTurn(b, player, t)
  }

  lemma ScanFinish(b: Board, player: Player, x: int, jumps: seq<Turn>, singles: seq<Turn>)
    requires ScanInv(b, player, |b|, x, jumps, singles)
    ensures ForcedCapture(b, player, if jumps != [] then jumps else singles)
  {
    if MustCapture(b, player) {
      ScanFinishCapture(b, player, x, jumps, singles);
    } else {
      ScanFinishSteps(b, player, x, jumps, singles);
    }
  }

  /** When a capture exists the scan has found a jump, and its jumps are all the player's jump turns. */
  lemma ScanFinishCapture(b: Board, player: Player, x: int, jumps: seq<Turn>, singles: seq<Turn>)
    requires ScanInv(b, player, |b|, x, jumps, singles) && MustCapture(b, player)
    ensures jumps != [] && ForcedCapture(b, player, jumps)
  {
    var p :| InBounds(b, p) && Owned(At(b, p), player) && CanJump(b, p);
    JumpMovesEmpty(b, p);
    JumpMovesSpec(b, p);
    var t := JumpMoves(b, p)[0];
    assert IsJumpTurn(b, player, t) && Before(t[0].start, |b|, x);
  }

  /** Without a capture the scan has found no jump, and its steps are all the player's steps. */
  lemma ScanFinishSteps(b: Board, player: Player, x: int, jumps: seq<Turn>, singles: seq<Turn>)
    requires ScanInv(b, player, |b|, x, jumps, singles) && !MustCapture(b, player)
    ensures jumps == [] && ForcedCapture(b, player, singles)
  {
    if jumps != [] {
      var t := jumps[0];
      ghost var listed := t in jumps;
      assert false;
    }
  }

  lemma ScanWrap(b: Board, player: Player, y: int, jumps: seq<Turn>, singles: seq<Turn>)
    requires ScanInv(b, player, y, |b|, jumps, singles)
    ensures ScanInv(b, player, y + 1, 0, jumps, singles)
  {
  }

  lemma ScanSkip(b: Board, player: Player, y: int, x: int, jumps: seq<Turn>, singles: seq<Turn>)
    requires InBounds(b, Pos(x, y)) && !Owned(At(b, Pos(x, y)), player)
    requires ScanInv(b, player, y, x, jumps, singles)
    ensures ScanInv(b, player, y, x + 1, jumps, singles)
  {
  }

  lemma ScanTake(b: Board, player: Player, y: int, x: int, jumps: seq<Turn>, singles: seq<Turn>)
    requires InBounds(b, Pos(x, y)) && Owned(At(b, Pos(x, y)), player)
    requires ScanInv(b, player, y, x, jumps, singles)
    ensures var jumps' := jumps + JumpMoves(b, Pos(x, y));
            var singles' := if jumps' == [] then singles + SingleMoves(b, Pos(x, y)) else singles;
            ScanInv(b, player, y, x + 1, jumps', singles')
  {
    JumpMovesSpec(b, Pos(x, y));
  }

  /** The state of the scan after cell `(x, y)`, or after the end of row `y`. */
  ghost function ScanNext(b: Board, player: Player, y: nat, x: nat, jumps: seq<Turn>, singles: seq<Turn>): (r: (nat, nat, seq<Turn>, seq<Turn>))
    requires y < |b| && x <= |b|
    ensures r.0 <= |b| && r.1 <= |b|
    ensures r.0 > y || (r.0 == y && r.1 > x)
    ensures Scan(b, player, y, x, jumps, singles) == Scan(b, player, r.0, r.1, r.2, r.3)
  {
    if x == |b| then (y + 1, 0, jumps, singles)
    else
      var p := Pos(x, y);
      if !Owned(At(b, p), player) then (y, x + 1, jumps, singles)
      else
        var jumps' := jumps + JumpMoves(b, p);
        var singles' := if jumps' == [] then singles + SingleMoves(b, p) else singles;
        (y, x + 1, jumps', singles')
  }

  lemma ScanAdvance(b: Board, player: Player, y: nat, x: nat, jumps: seq<Turn>, singles: seq<Turn>)
    requires y < |b| && x <= |b|
    requires ScanInv(b, player, y, x, jumps, singles)
    ensures var r := ScanNext(b, player, y, x, jumps, singles); ScanInv(b, player, r.0, r.1, r.2, r.3)
  {
    if x == |b| {
      ScanWrap(b, player, y, jumps, singles);
    } else if !Owned(At(b, Pos(x, y)), player) {
      ScanSkip(b, player, y, x, jumps, singles);
    } else {
      ScanTake(b, player, y, x, jumps, singles);
    }
  }

  lemma {:induction false} ScanSpec(b: Board, player: Player, y: nat, x: nat, jumps: seq<Turn>, singles: seq<Turn>)
    requires y <= |b| && x <= |b|
    requires ScanInv(b, player, y, x, jumps, singles)
    ensures ForcedCapture(b, player, Scan(b, player, y, x, jumps, singles))
    decreases |b| - y, |b| - x
  {
    if y == |b| {
      ScanFinish(b, player, x, jumps, singles);
    } else {
      var r := ScanNext(b, player, y, x, jumps, singles);
      ScanAdvance(b, player, y, x, jumps, singles);
      ScanSpec(b, player, r.0, r.1, r.2, r.3);
    }
  }

  /**
   Forced capture: the legal turns are exactly the player's jump chains when any
   of the player's pieces can jump, and exactly the player's single steps
   otherwise. Every turn starts on one of the player's pieces and the two kinds
   are never mixed.
   */
  lemma LegalMovesSpec(b: Board, player: Player)
    ensures forall t: Turn :: t in LegalMoves(b, player) <==>
      if MustCapture(b, player) then IsJumpTurn(b, player, t) else IsStepTurn(b, player, t)
  {
    ScanSpec(b, player, 0, 0, [], []);
  }

  /** Every legal turn starts on a piece of the player. */
  lemma LegalMovesOwned(b: Board, player: Player, t: Turn)
    requires t in LegalMoves(b, player)
    ensures |t| > 0 && InBounds(b, t[0].start) && Owned(At(b, t[0].start), player)
    ensures Contains(b, At(b, t[0].start))
  {
    LegalMovesSpec(b, player);
    var s := t[0].start;
    assert b[s.y][s.x] == At(b, s);
  }

  /** A player without pieces has no legal turn. */
  lemma NoPiecesNoMoves(b: Board, player: Player)
    requires !Contains(b, player) && !Contains(b, player + 2)
    ensures LegalMoves(b, player) == []
  {
    if LegalMoves(b, player) != [] {
      LegalMovesOwned(b, player, LegalMoves(b, player)[0]);
      assert false;
    }
  }

  /** On the 4 x 4 test board player 1's only turn is the step from (3, 0) to (2, 1). */
  lemma TestBoardOpening()
    ensures forall t: Turn :: t in LegalMoves(TestBoard(), 1) <==> t == [Leg(Pos(3, 0), Pos(2, 1))]
  {
    LegalMovesSpec(TestBoard(), 1);
    TestBoardNoCapture();
    TestBoardSteps();
  }

  /** The lone man of player 1 on the test board has no man of player 2 to jump. */
  lemma TestBoardNoCapture()
    ensures !MustCapture(TestBoard(), 1)
  {
    var b := TestBoard();
    forall p | InBounds(b, p) && Owned(At(b, p), 1)
      ensures !CanJump(b, p)
    {
      assert p == Pos(3, 0);
      forall q ensures !JumpAllowed(b, Leg(p, q)) {
        if InBounds(b, q) && (q.x - p.x == 2 || q.x - p.x == -2) && (q.y - p.y == 2 || q.y - p.y == -2) {
          assert q == Pos(1, 2);
          MidpointInBounds(b, Leg(p, q));
          assert Midpoint(Leg(p, q)) == Pos(2, 1);
        }
      }
    }
  }

  /** The only single step of player 1 on the test board. */
  lemma TestBoardSteps()
    ensures forall t: Turn :: IsStepTurn(TestBoard(), 1, t) <==> t == [Leg(Pos(3, 0), Pos(2, 1))]
  {
    var b := TestBoard();
    forall t: Turn | IsStepTurn(b, 1, t)
      ensures t == [Leg(Pos(3, 0), Pos(2, 1))]
    {
      assert t[0].start == Pos(3, 0);
      assert t == [t[0]];
    }
    assert IsStepTurn(b, 1, [Leg(Pos(3, 0), Pos(2, 1))]);
  }


  // ---------------------------------------------------------------- applying turns

  /** The legs of a turn applied in order to the board. */
  function ApplyLegs(b: Board, t: Turn): (r: Result<Board, MoveError>)
    ensures r.Ok? ==> |r.value| == |b|
    decreases |t|
  {
    if t == [] then Ok(b)
    else match CheckersBoard.MakeMove(b, t[0])
      case Err(e) => Err(e)
      case Ok(next) => ApplyLegs(next, t[1..])
  }

  /** `CheckersGame.make_move`: apply every leg, then hand the turn over, once. */
  function MakeMove(g: Game, t: Turn): (r: Result<Game, MoveError>)
    ensures r.Ok? <==> ApplyLegs(g.board, t).Ok?
    ensures r.Err? ==> r.error == ApplyLegs(g.board, t).error
    ensures r.Ok? ==> r.value.board == ApplyLegs(g.board, t).value
    ensures r.Ok? ==> r.value.current != g.current
  {
    match ApplyLegs(g.board, t)
    case Err(e) => Err(e)
    case Ok(b) => Ok(Game(b, Opponent(g.current)))
  }

  /**
   `generate_successor`: a new state. Without a turn it keeps the board and the
   player to move; otherwise its board is the old one with the turn's legs
   applied in order. A legal turn always applies, hands the move over and
   removes one piece per captured leg; only an illegal turn can fail.
   */
  function GenerateSuccessor(g: Game, move: Option<Turn>): (r: Result<Game, MoveError>)
    ensures move.Some? && move.value != [] ==>
      && (r.Ok? <==> ApplyLegs(g.board, move.value).Ok?)
      && (r.Ok? ==> r.value.board == ApplyLegs(g.board, move.value).value)
    ensures r.Ok? ==> (r.value.current == g.current <==> move.None? || move.value == [])
    ensures (move.None? || move.value == []) ==> r.Ok? && r.value.board == g.board
    ensures r.Err? ==> move.Some? && move.value !in Moves(g)
    ensures move.Some? && move.value in Moves(g) ==>
      && r.Ok? && r.value.current == Opponent(g.current)
      && Occupied(r.value.board) == Occupied(g.board) - if MustCapture(g.board, g.current) then |move.value| else 0
  {
    if move.None? || move.value == [] then
      LegalTurnsNonEmpty(g);
      Ok(g)
    else
      LegalTurnsApply(g, move.value);
      MakeMove(g, move.value)
  }

  /** No legal turn is empty. */
  lemma LegalTurnsNonEmpty(g: Game)
    ensures forall t | t in Moves(g) :: |t| > 0
  {
    forall t | t in Moves(g) ensures |t| > 0 {
      LegalMovesOwned(g.board, g.current, t);
    }
  }

  /** `LegalTurnApplies` for a turn that may or may not be legal. */
  lemma LegalTurnsApply(g: Game, t: Turn)
    ensures t in Moves(g) ==>
      && MakeMove(g, t).Ok? && MakeMove(g, t).value.current == Opponent(g.current)
      && Occupied(MakeMove(g, t).value.board) == Occupied(g.board) - if MustCapture(g.board, g.current) then |t| else 0
  {
    if t in Moves(g) {
      LegalTurnApplies(g, t);
    }
  }

  /** A jump chain applies leg by leg and removes one piece per leg. */
  lemma {:induction false} JumpChainApplies(b: Board, t: Turn)
    requires JumpChain(b, t)
    ensures ApplyLegs(b, t).Ok?
    ensures Occupied(ApplyLegs(b, t).value) == Occupied(b) - |t|
    decreases |t|
  {
    var after := Jump(b, t[0]);
    if |t| == 1 {
      assert ApplyLegs(after, t[1..]) == Ok(after);
    } else {
      JumpChainApplies(after, t[1..]);
    }
  }

  /**
   Every legal turn applies without error: a jump turn removes one piece per
   leg, a single step keeps the number of pieces, and the player changes.
   */
  lemma LegalTurnApplies(g: Game, t: Turn)
    requires t in Moves(g)
    ensures MakeMove(g, t).Ok?
    ensures MakeMove(g, t).value.current == Opponent(g.current)
    ensures Occupied(MakeMove(g, t).value.board) ==
      Occupied(g.board) - if MustCapture(g.board, g.current) then |t| else 0
  {
    LegalMovesSpec(g.board, g.current);
    if MustCapture(g.board, g.current) {
      JumpChainApplies(g.board, t);
    } else {
      var next := CheckersBoard.MakeMove(g.board, t[0]);
      assert next.Ok?;
      assert ApplyLegs(next.value, t[1..]) == Ok(next.value);
    }
  }

  /** The successor the search agents build for a legal turn. */
  function Successor(g: Game, t: Turn): (r: Game)
    requires t in Moves(g)
    ensures GenerateSuccessor(g, Some(t)) == Ok(r)
    ensures ApplyLegs(g.board, t) == Ok(r.board) && r.current == Opponent(g.current)
  {
    LegalTurnApplies(g, t);
    LegalMovesSpec(g.board, g.current);
    MakeMove(g, t).value
  }

  /** The successors of a state, in the order of its legal turns. */
  function Successors(g: Game): (r: seq<Game>)
    ensures |r| == |Moves(g)|
    ensures forall i | 0 <= i < |r| :: r[i] == Successor(g, Moves(g)[i])
    ensures forall i | 0 <= i < |r| :: GenerateSuccessor(g, Some(Moves(g)[i])) == Ok(r[i]) && r[i].current == Opponent(g.current)
  {
    var ms := Moves(g);
    seq(|ms|, i requires 0 <= i < |ms| => Successor(g, ms[i]))
  }

  // ---------------------------------------------------------------- end of game

  /**
   `get_winner`: player 1 is examined first, whatever the player to move, so a
   position where neither side can move is a win for player 2.
   */
  function Winner(g: Game): Option<Player> {
    var b := g.board;
    if !(Contains(b, Man1) || Contains(b, King1)) || LegalMoves(b, 1) == [] then Some(2)
    else if !(Contains(b, Man2) || Contains(b, King2)) || LegalMoves(b, 2) == [] then Some(1)
    else None
  }

  /** `is_game_over`. */
  predicate IsGameOver(g: Game) {
    Winner(g).Some?
  }

  /** The winner depends only on which players have legal turns. */
  lemma WinnerSpec(g: Game)
    ensures Winner(g) == Some(2) <==> LegalMoves(g.board, 1) == []
    ensures Winner(g) == Some(1) <==> LegalMoves(g.board, 1) != [] && LegalMoves(g.board, 2) == []
    ensures Winner(g) == None <==> LegalMoves(g.board, 1) != [] && LegalMoves(g.board, 2) != []
    ensures IsGameOver(g) <==> LegalMoves(g.board, 1) == [] || LegalMoves(g.board, 2) == []
  {
    if !(Contains(g.board, Man1) || Contains(g.board, King1)) {
      NoPiecesNoMoves(g.board, 1);
    }
    if !(Contains(g.board, Man2) || Contains(g.board, King2)) {
      NoPiecesNoMoves(g.board, 2);
    }
  }

  /** A game that is not over offers the player to move at least one turn. */
  lemma NotOverHasMoves(g: Game)
    requires !IsGameOver(g)
    ensures Moves(g) != []
  {
    WinnerSpec(g);
  }

  /** A 2 x 2 board: a man 2 on its home row at `(0, 0)` and a man 1 beside it at `(1, 0)`. */
  function StuckBoard(): Board {
    [[Man2, Man1], [Empty, Empty]]
  }

  lemma StuckBoardNoCapture()
    ensures !MustCapture(StuckBoard(), 1) && !MustCapture(StuckBoard(), 2)
  {
    var b := StuckBoard();
    forall p | InBounds(b, p) ensures !CanJump(b, p) {
      forall q ensures !JumpAllowed(b, Leg(p, q)) {
      }
    }
  }

  lemma StuckBoardSteps()
    ensures forall t: Turn :: !IsStepTurn(StuckBoard(), 2, t)
    ensures forall t: Turn :: IsStepTurn(StuckBoard(), 1, t) <==> t == [Leg(Pos(1, 0), Pos(0, 1))]
  {
    var b := StuckBoard();
    forall t: Turn ensures !IsStepTurn(b, 2, t) {
      if |t| == 1 && InBounds(b, t[0].start) && Owned(At(b, t[0].start), 2) {
        assert t[0].start == Pos(0, 0);
      }
    }
    forall t: Turn ensures IsStepTurn(b, 1, t) <==> t == [Leg(Pos(1, 0), Pos(0, 1))] {
      if IsStepTurn(b, 1, t) {
        assert t[0].start == Pos(1, 0);
        assert t == [t[0]];
      }
    }
  }

  lemma NoneListed(ts: seq<Turn>)
    ensures (forall t: Turn :: t !in ts) ==> ts == []
  {
    if |ts| > 0 {
      assert ts[0] in ts;
    }
  }

  /**
   The game can be decided while the player to move still has turns: on
   `StuckBoard` the man 2 cannot step or jump, so player 1 has won, yet
   player 1 to move has the step `(1, 0) -> (0, 1)`.
   */
  lemma DecidedWithMoves()
    ensures IsGameOver(Game(StuckBoard(), 1)) && Winner(Game(StuckBoard(), 1)) == Some(1)
    ensures [Leg(Pos(1, 0), Pos(0, 1))] in Moves(Game(StuckBoard(), 1))
    ensures forall t | t in Moves(Game(StuckBoard(), 1)) :: t == [Leg(Pos(1, 0), Pos(0, 1))]
  {
    StuckFirstPlayer();
    StuckSecondPlayer();
    WinnerSpec(Game(StuckBoard(), 1));
  }

  lemma StuckFirstPlayer()
    ensures [Leg(Pos(1, 0), Pos(0, 1))] in LegalMoves(StuckBoard(), 1)
    ensures forall t | t in LegalMoves(StuckBoard(), 1) :: t == [Leg(Pos(1, 0), Pos(0, 1))]
  {
    StuckBoardNoCapture();
    StuckBoardSteps();
    LegalMovesSpec(StuckBoard(), 1);
  }

  lemma StuckSecondPlayer()
    ensures LegalMoves(StuckBoard(), 2) == []
  {
    StuckBoardNoCapture();
    StuckBoardSteps();
    LegalMovesSpec(StuckBoard(), 2);
    NoneListed(LegalMoves(StuckBoard(), 2));
  }

  // ---------------------------------------------------------------- no turn listed twice

  /** No element occurs twice. */
  predicate Distinct<T(==)>(s: seq<T>) {
    forall i, j | 0 <= i < j < |s| :: s[i] != s[j]
  }

  lemma DistinctConcat<T>(a: seq<T>, c: seq<T>)
    requires Distinct(a) && Distinct(c)
    requires forall u | u in a :: u !in c
    ensures Distinct(a + c)
  {
    forall i, j | 0 <= i < j < |a + c| ensures (a + c)[i] != (a + c)[j] {
      if j < |a| {
        assert (a + c)[i] == a[i] && (a + c)[j] == a[j];
      } else if i < |a| {
        assert (a + c)[i] == a[i] && (a + c)[j] == c[j - |a|];
        assert a[i] in a;
      } else if |a| <= i {
        assert (a + c)[i] == c[i - |a|] && (a + c)[j] == c[j - |a|];
      }
    }
  }

  /** The direction a leg goes in. */
  function Heading(m: Leg): (int, int) {
    (m.end.x - m.start.x, m.end.y - m.start.y)
  }

  lemma DirectionsDistinct()
    ensures Distinct(StepDirections) && Distinct(JumpDirections)
  {
  }

  /** The first of a repeat-free list of directions does not occur again. */
  lemma FirstDirectionFresh(dirs: seq<(int, int)>)
    requires dirs != [] && Distinct(dirs)
    ensures dirs[0] !in dirs[1..] && Distinct(dirs[1..])
  {
    forall k | 0 <= k < |dirs[1..]| ensures dirs[1..][k] != dirs[0] {
      assert dirs[1..][k] == dirs[k + 1];
    }
  }

  lemma {:induction false} StepsAlongDistinct(b: Board, from: Pos, dirs: seq<(int, int)>)
    requires InBounds(b, from) && Distinct(dirs)
    ensures Distinct(StepsAlong(b, from, dirs))
    ensures forall t: Turn | t in StepsAlong(b, from, dirs) :: |t| > 0 && Heading(t[0]) in dirs
    decreases |dirs|
  {
    if dirs != [] {
      var leg := Leg(from, Toward(from, dirs[0]));
      var rest := StepsAlong(b, from, dirs[1..]);
      FirstDirectionFresh(dirs);
      StepsAlongDistinct(b, from, dirs[1..]);
      assert forall k | 1 <= k < |dirs| :: dirs[k] == dirs[1..][k - 1];
      if StepAllowed(b, leg) {
        assert Heading(leg) == dirs[0];
        DistinctConcat([[leg]], rest);
      }
    }
  }

  /** `get_single_moves` lists each step once, all from `from`. */
  lemma SingleMovesDistinct(b: Board, from: Pos)
    requires InBounds(b, from)
    ensures Distinct(SingleMoves(b, from))
  {
    DirectionsDistinct();
    StepsAlongDistinct(b, from, StepDirections);
  }

  lemma PrependDistinct(m: Leg, ts: seq<Turn>)
    requires Distinct(ts)
    ensures Distinct(Prepend(m, ts))
  {
    forall i, j | 0 <= i < j < |ts| ensures Prepend(m, ts)[i] != Prepend(m, ts)[j] {
      assert Prepend(m, ts)[i][1..] == ts[i];
      assert Prepend(m, ts)[j][1..] == ts[j];
    }
  }

  /** Every chain built from `leg` starts with it. */
  lemma ContinuationsHead(b: Board, leg: Leg)
    requires JumpAllowed(b, leg)
    ensures forall t: Turn | t in Continuations(b, leg) :: |t| > 0 && t[0] == leg
  {
  }

  /** Every chain over `dirs` starts at `from` and goes first in one of `dirs`. */
  lemma {:induction false} JumpsAlongHeadings(b: Board, from: Pos, dirs: seq<(int, int)>)
    requires InBounds(b, from)
    ensures forall t: Turn | t in JumpsAlong(b, from, dirs) :: |t| > 0 && t[0].start == from && Heading(t[0]) in dirs
    decreases |dirs|
  {
    if dirs != [] {
      var leg := Leg(from, Toward(from, dirs[0]));
      JumpsAlongHeadings(b, from, dirs[1..]);
      assert forall k | 1 <= k < |dirs| :: dirs[k] == dirs[1..][k - 1];
      if JumpAllowed(b, leg) {
        ContinuationsHead(b, leg);
        assert Heading(leg) == dirs[0];
      }
    }
  }

  /** `get_jump_moves` lists each jump chain once. */
  lemma {:induction false} JumpMovesDistinct(b: Board, from: Pos)
    requires InBounds(b, from)
    ensures Distinct(JumpMoves(b, from))
    ensures forall t: Turn | t in JumpMoves(b, from) :: |t| > 0 && t[0].start == from
    decreases Occupied(b), 2, 0
  {
    if At(b, from) != Empty {
      DirectionsDistinct();
      JumpsAlongDistinct(b, from, JumpDirections);
      JumpsAlongHeadings(b, from, JumpDirections);
    }
  }

  lemma {:induction false} JumpsAlongDistinct(b: Board, from: Pos, dirs: seq<(int, int)>)
    requires InBounds(b, from) && Distinct(dirs)
    ensures Distinct(JumpsAlong(b, from, dirs))
    decreases Occupied(b), 1, |dirs|
  {
    if dirs != [] {
      var leg := Leg(from, Toward(from, dirs[0]));
      var rest := JumpsAlong(b, from, dirs[1..]);
      FirstDirectionFresh(dirs);
      JumpsAlongDistinct(b, from, dirs[1..]);
      if JumpAllowed(b, leg) {
        ContinuationsDistinct(b, leg);
        ContinuationsHead(b, leg);
        JumpsAlongHeadings(b, from, dirs[1..]);
        assert Heading(leg) == dirs[0];
        DistinctConcat(Continuations(b, leg), rest);
      }
    }
  }

  lemma {:induction false} ContinuationsDistinct(b: Board, leg: Leg)
    requires JumpAllowed(b, leg)
    ensures Distinct(Continuations(b, leg))
    decreases Occupied(b), 0, 0
  {
    var further := JumpMoves(Jump(b, leg), leg.end);
    if further != [] {
      JumpMovesDistinct(Jump(b, leg), leg.end);
      PrependDistinct(leg, further);
    }
  }

  /** Every turn in `ts` starts on a cell the scan passed before reaching `(x, y)`. */
  ghost predicate StartBefore(ts: seq<Turn>, y: int, x: int) {
    forall t: Turn | t in ts :: |t| > 0 && Before(t[0].start, y, x)
  }

  lemma StartBeforeLater(ts: seq<Turn>, y: int, x: int, y2: int, x2: int)
    requires StartBefore(ts, y, x)
    requires y < y2 || (y == y2 && x <= x2)
    ensures StartBefore(ts, y2, x2)
  {
  }

  /** Adding the turns of the piece at `(x, y)`, all starting there, to turns from earlier cells. */
  lemma AppendCell(ts: seq<Turn>, more: seq<Turn>, y: int, x: int)
    requires Distinct(ts) && Distinct(more) && StartBefore(ts, y, x)
    requires forall t: Turn | t in more :: |t| > 0 && t[0].start == Pos(x, y)
    ensures Distinct(ts + more) && StartBefore(ts + more, y, x + 1)
  {
    DistinctConcat(ts, more);
  }

  /** The turns gathered at an owned cell keep the scan's invariant. */
  lemma ScanCell(b: Board, player: Player, y: nat, x: nat, jumps: seq<Turn>, singles: seq<Turn>)
    requires y < |b| && x < |b|
    requires Distinct(jumps) && Distinct(singles) && StartBefore(jumps, y, x) && StartBefore(singles, y, x)
    ensures Distinct(jumps + JumpMoves(b, Pos(x, y))) && StartBefore(jumps + JumpMoves(b, Pos(x, y)), y, x + 1)
    ensures Distinct(singles + SingleMoves(b, Pos(x, y))) && StartBefore(singles + SingleMoves(b, Pos(x, y)), y, x + 1)
    ensures StartBefore(singles, y, x + 1)
  {
    var p := Pos(x, y);
    JumpMovesDistinct(b, p);
    AppendCell(jumps, JumpMoves(b, p), y, x);
    SingleMovesDistinct(b, p);
    AppendCell(singles, SingleMoves(b, p), y, x);
    StartBeforeLater(singles, y, x, y, x + 1);
  }

  lemma {:induction false} ScanDistinct(b: Board, player: Player, y: nat, x: nat, jumps: seq<Turn>, singles: seq<Turn>)
    requires y <= |b| && x <= |b|
    requires Distinct(jumps) && Distinct(singles) && StartBefore(jumps, y, x) && StartBefore(singles, y, x)
    ensures Distinct(Scan(b, player, y, x, jumps, singles))
    decreases |b| - y, |b| - x, 1
  {
    if y == |b| {
    } else if x == |b| {
      StartBeforeLater(jumps, y, x, y + 1, 0);
      StartBeforeLater(singles, y, x, y + 1, 0);
      ScanDistinct(b, player, y + 1, 0, jumps, singles);
    } else if !Owned(At(b, Pos(x, y)), player) {
      StartBeforeLater(jumps, y, x, y, x + 1);
      StartBeforeLater(singles, y, x, y, x + 1);
      ScanDistinct(b, player, y, x + 1, jumps, singles);
    } else {
      ScanDistinctOwned(b, player, y, x, jumps, singles);
    }
  }

  lemma {:induction false} ScanDistinctOwned(b: Board, player: Player, y: nat, x: nat, jumps: seq<Turn>, singles: seq<Turn>)
    requires y < |b| && x < |b| && Owned(At(b, Pos(x, y)), player)
    requires Distinct(jumps) && Distinct(singles) && StartBefore(jumps, y, x) && StartBefore(singles, y, x)
    ensures Distinct(Scan(b, player, y, x, jumps, singles))
    decreases |b| - y, |b| - x, 0
  {
    ScanCell(b, player, y, x, jumps, singles);
    var jumps' := jumps + JumpMoves(b, Pos(x, y));
    var singles' := if jumps' == [] then singles + SingleMoves(b, Pos(x, y)) else singles;
    ScanDistinct(b, player, y, x + 1, jumps', singles');
    ScanOwnedStep(b, player, y, x, jumps, singles);
  }

  /** One owned cell of the scan. */
  lemma ScanOwnedStep(b: Board, player: Player, y: nat, x: nat, jumps: seq<Turn>, singles: seq<Turn>)
    requires y < |b| && x < |b| && Owned(At(b, Pos(x, y)), player)
    ensures var jumps' := jumps + JumpMoves(b, Pos(x, y));
      Scan(b, player, y, x, jumps, singles) ==
      Scan(b, player, y, x + 1, jumps', if jumps' == [] then singles + SingleMoves(b, Pos(x, y)) else singles)
  {
  }

  /** `get_legal_moves` never lists a turn twice, so a table keyed by turn keeps one entry per listed turn. */
  lemma LegalMovesDistinct(b: Board, player: Player)
    ensures Distinct(LegalMoves(b, player))
  {
    ScanDistinct(b, player, 0, 0, [], []);
  }
}
