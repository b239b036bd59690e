/**
 The checkers board of `CheckersBoard` in checkers.py: a square grid of piece
 codes, the one-leg move that relocates a piece (removing a jumped piece and
 crowning a man that reaches the far row), and counting over the grid.

 Cells are addressed as in the source: a position is `(x, y)` with `x` the
 column and `y` the row, and the cell is `cells[y][x]`.
 */
module CheckersBoard {
  import opened Wrappers

  /** Piece codes: 0 empty, 1 and 2 the men of players 1 and 2, 3 and 4 their kings. */
  type Piece = p: int | 0 <= p <= 4

  const Empty: Piece := 0
  const Man1: Piece := 1
  const Man2: Piece := 2
  const King1: Piece := 3
  const King2: Piece := 4

  /** The codes of occupied cells. */
  const OccupiedCodes: set<int> := {1, 2, 3, 4}

  predicate IsSquare(cells: seq<seq<Piece>>) {
    forall r | 0 <= r < |cells| :: |cells[r]| == |cells|
  }

  /** A board is an N x N grid; N is `dim` in the source and never changes. */
  type Board = cells: seq<seq<Piece>> | IsSquare(cells) witness []

  datatype Pos = Pos(x: int, y: int)

  /** One leg of a turn: a step or a single jump, `((x, y), (nx, ny))` in the source. */
  datatype Leg = Leg(start: Pos, end: Pos)

  /** The three ways `make_move` refuses a leg (the source's failing assertions and indexing). */
  datatype MoveError = OffBoard | JumpOverEmpty | DestinationOccupied

  predicate InBounds(b: Board, p: Pos) {
    0 <= p.x < |b| && 0 <= p.y < |b|
  }

  function At(b: Board, p: Pos): Piece
    requires InBounds(b, p)
  {
    b[p.y][p.x]
  }

  /** The board with one cell overwritten. */
  function Put(b: Board, p: Pos, v: Piece): (r: Board)
    requires InBounds(b, p)
    ensures |r| == |b|
    ensures At(r, p) == v
    ensures forall q | InBounds(b, q) && q != p :: At(r, q) == At(b, q)
  {
    var row: seq<Piece> := b[p.y][p.x := v];
    b[p.y := row]
  }

  /** The player a piece belongs to: 1 for codes 1 and 3, 2 for codes 2 and 4, 0 for an empty cell. */
  function Owner(p: Piece): int {
    if p == Man1 || p == King1 then 1
    else if p == Man2 || p == King2 then 2
    else 0
  }

  /** A leg whose columns differ by two is treated as a jump (`abs(x - nx) == 2`). */
  predicate IsJumpLeg(m: Leg) {
    m.start.x - m.end.x == 2 || m.end.x - m.start.x == 2
  }

  /** The jumped cell, `((x + nx) // 2, (y + ny) // 2)`. */
  function Midpoint(m: Leg): Pos {
    Pos((m.start.x + m.end.x) / 2, (m.start.y + m.end.y) / 2)
  }

  lemma MidpointInBounds(b: Board, m: Leg)
    requires InBounds(b, m.start) && InBounds(b, m.end)
    ensures InBounds(b, Midpoint(m))
    ensures IsJumpLeg(m) ==> Midpoint(m) != m.start && Midpoint(m) != m.end
  {
  }

  /** What `make_move` demands of a leg before it writes anything. */
  predicate LegOk(b: Board, m: Leg) {
    && InBounds(b, m.start)
    && InBounds(b, m.end)
    && (IsJumpLeg(m) ==> (MidpointInBounds(b, m); At(b, Midpoint(m)) != Empty))
    && At(b, m.end) == Empty
  }

  /** The crowning rule: a man 1 landing on row N-1 or a man 2 landing on row 0 becomes a king. */
  function Promote(b: Board, p: Pos, piece: Piece): Board
    requires InBounds(b, p)
  {
    if piece == Man1 && p.y == |b| - 1 then Put(b, p, King1)
    else if piece == Man2 && p.y == 0 then Put(b, p, King2)
    else b
  }

  /** The unchecked board modification of `make_move`: pick the piece up, put it down,
      remove the jumped piece, crown. */
  function Relocate(b: Board, m: Leg): Board
    requires InBounds(b, m.start) && InBounds(b, m.end)
  {
    MidpointInBounds(b, m);
    var piece := At(b, m.start);
    var lifted := Put(b, m.start, Empty);
    var placed := Put(lifted, m.end, piece);
    var cleared := if IsJumpLeg(m) then Put(placed, Midpoint(m), Empty) else placed;
    Promote(cleared, m.end, piece)
  }

  /**
   `CheckersBoard.make_move`: apply one leg. A jump needs an occupied midpoint
   (any piece, as the source asserts) and every leg needs an empty destination;
   the checks run before any write, so a refused leg leaves no trace.
   */
  function MakeMove(b: Board, m: Leg): (r: Result<Board, MoveError>)
    ensures r.Ok? <==> LegOk(b, m)
    ensures r == Err(OffBoard) <==> !(InBounds(b, m.start) && InBounds(b, m.end))
    ensures r == Err(JumpOverEmpty) <==>
      InBounds(b, m.start) && InBounds(b, m.end) && IsJumpLeg(m) && (MidpointInBounds(b, m); At(b, Midpoint(m)) == Empty)
    ensures r.Ok? ==> |r.value| == |b|
    // the moved piece lands on the destination, crowned when a man reaches the far row
    ensures r.Ok? && At(b, m.start) == Man1 ==>
      At(r.value, m.end) == if m.end.y == |b| - 1 then King1 else Man1
    ensures r.Ok? && At(b, m.start) == Man2 ==>
      At(r.value, m.end) == if m.end.y == 0 then King2 else Man2
    ensures r.Ok? && At(b, m.start) != Man1 && At(b, m.start) != Man2 ==>
      At(r.value, m.end) == At(b, m.start)
    ensures r.Ok? && m.start != m.end ==> At(r.value, m.start) == Empty
    ensures r.Ok? && IsJumpLeg(m) ==> At(r.value, Midpoint(m)) == Empty
    // nothing else changes
    ensures r.Ok? ==> forall q | InBounds(b, q) && q != m.start && q != m.end && !(IsJumpLeg(m) && q == Midpoint(m)) ::
      At(r.value, q) == At(b, q)
    // a step keeps the number of occupied cells, a jump removes exactly one piece
    ensures r.Ok? ==> Occupied(r.value) == Occupied(b) - if IsJumpLeg(m) then 1 else 0
  {
    if !(InBounds(b, m.start) && InBounds(b, m.end)) then Err(OffBoard)
    else
      MidpointInBounds(b, m);
      if IsJumpLeg(m) && At(b, Midpoint(m)) == Empty then Err(JumpOverEmpty)
      else if At(b, m.end) != Empty then Err(DestinationOccupied)
      else
        RelocateLanding(b, m);
        RelocateVacates(b, m);
        RelocateElsewhere(b, m);
        RelocateOccupancy(b, m);
        Ok(Relocate(b, m))
  }

  lemma RelocateLanding(b: Board, m: Leg)
    requires LegOk(b, m)
    ensures |Relocate(b, m)| == |b|
    ensures At(b, m.start) == Man1 ==> At(Relocate(b, m), m.end) == if m.end.y == |b| - 1 then King1 else Man1
    ensures At(b, m.start) == Man2 ==> At(Relocate(b, m), m.end) == if m.end.y == 0 then King2 else Man2
    ensures At(b, m.start) != Man1 && At(b, m.start) != Man2 ==> At(Relocate(b, m), m.end) == At(b, m.start)
  {
    MidpointInBounds(b, m);
  }

  lemma RelocateVacates(b: Board, m: Leg)
    requires LegOk(b, m)
    ensures m.start != m.end ==> At(Relocate(b, m), m.start) == Empty
    ensures IsJumpLeg(m) ==> (MidpointInBounds(b, m); At(Relocate(b, m), Midpoint(m)) == Empty)
  {
    MidpointInBounds(b, m);
  }

  lemma RelocateElsewhere(b: Board, m: Leg)
    requires LegOk(b, m)
    ensures forall q | InBounds(b, q) && q != m.start && q != m.end && !(IsJumpLeg(m) && q == Midpoint(m)) ::
      At(Relocate(b, m), q) == At(b, q)
  {
    MidpointInBounds(b, m);
  }

  // ---------------------------------------------------------------- counting

  function RowCount(row: seq<Piece>, s: set<int>): nat {
    if row == [] then 0 else (if row[0] in s then 1 else 0) + RowCount(row[1..], s)
  }

  /** The number of cells whose code lies in `s`. */
  function CountIn(rows: seq<seq<Piece>>, s: set<int>): nat {
    if rows == [] then 0 else RowCount(rows[0], s) + CountIn(rows[1..], s)
  }

  /** `piece_count`: the number of cells holding `piece`. */
  function PieceCount(b: Board, piece: int): nat {
    CountIn(b, {piece})
  }

  /** The number of occupied cells, the measure that every jump decreases. */
  function Occupied(b: Board): nat {
    CountIn(b, OccupiedCodes)
  }

  /** `__contains__`: some cell holds `item`. */
  predicate Contains(b: Board, item: int) {
    exists y, x | 0 <= y < |b| && 0 <= x < |b| :: b[y][x] == item
  }

  function Ind(c: bool): nat {
    if c then 1 else 0
  }

  lemma {:induction false} RowCountUpdate(row: seq<Piece>, i: nat, v: Piece, s: set<int>)
    requires i < |row|
    ensures RowCount(row[i := v], s) + Ind(row[i] in s) == RowCount(row, s) + Ind(v in s)
    decreases i
  {
    if i > 0 {
      assert row[i := v][1..] == row[1..][i - 1 := v];
      RowCountUpdate(row[1..], i - 1, v, s);
    } else {
      assert row[i := v][1..] == row[1..];
    }
  }

  lemma {:induction false} CountInUpdate(rows: seq<seq<Piece>>, y: nat, row: seq<Piece>, s: set<int>)
    requires y < |rows|
    ensures CountIn(rows[y := row], s) + RowCount(rows[y], s) == CountIn(rows, s) + RowCount(row, s)
    decreases y
  {
    if y > 0 {
      assert rows[y := row][1..] == rows[1..][y - 1 := row];
      CountInUpdate(rows[1..], y - 1, row, s);
    } else {
      assert rows[y := row][1..] == rows[1..];
    }
  }

  /** Overwriting one cell changes a count by what leaves and what arrives. */
  lemma CountPut(b: Board, p: Pos, v: Piece, s: set<int>)
    requires InBounds(b, p)
    ensures CountIn(Put(b, p, v), s) + Ind(At(b, p) in s) == CountIn(b, s) + Ind(v in s)
  {
    RowCountUpdate(b[p.y], p.x, v, s);
    CountInUpdate(b, p.y, b[p.y][p.x := v], s);
  }

  lemma RelocateOccupancy(b: Board, m: Leg)
    requires LegOk(b, m)
    ensures Occupied(Relocate(b, m)) == Occupied(b) - if IsJumpLeg(m) then 1 else 0
  {
    MidpointInBounds(b, m);
    var piece := At(b, m.start);
    var placed := Put(Put(b, m.start, Empty), m.end, piece);
    PlaceOccupancy(b, m);
    var cleared := if IsJumpLeg(m) then Put(placed, Midpoint(m), Empty) else placed;
    if IsJumpLeg(m) {
      assert At(placed, Midpoint(m)) != Empty;
      CountPut(placed, Midpoint(m), Empty, OccupiedCodes);
    }
    PromoteOccupancy(cleared, m.end, piece);
  }

  /** Picking the piece up and putting it down on an empty cell keeps the count. */
  lemma PlaceOccupancy(b: Board, m: Leg)
    requires InBounds(b, m.start) && InBounds(b, m.end) && At(b, m.end) == Empty
    ensures Occupied(Put(Put(b, m.start, Empty), m.end, At(b, m.start))) == Occupied(b)
  {
    var lifted := Put(b, m.start, Empty);
    CountPut(b, m.start, Empty, OccupiedCodes);
    CountPut(lifted, m.end, At(b, m.start), OccupiedCodes);
  }

  /** Crowning swaps one occupied code for another. */
  lemma PromoteOccupancy(b: Board, p: Pos, piece: Piece)
    requires InBounds(b, p) && At(b, p) == piece
    ensures Occupied(Promote(b, p, piece)) == Occupied(b)
  {
    if piece == Man1 && p.y == |b| - 1 {
      CountPut(b, p, King1, OccupiedCodes);
    } else if piece == Man2 && p.y == 0 {
      CountPut(b, p, King2, OccupiedCodes);
    }
  }

  lemma {:induction false} RowCountPositive(row: seq<Piece>, s: set<int>)
    ensures RowCount(row, s) > 0 <==> exists i | 0 <= i < |row| :: row[i] in s
  {
    if row != [] {
      RowCountPositive(row[1..], s);
      if RowCount(row[1..], s) > 0 {
        var i :| 0 <= i < |row[1..]| && row[1..][i] in s;
        assert row[i + 1] in s;
      }
      if exists i | 0 <= i < |row| :: row[i] in s {
        var i :| 0 <= i < |row| && row[i] in s;
        if i > 0 {
          assert row[1..][i - 1] in s;
        }
      }
    }
  }

  lemma {:induction false} CountInPositive(rows: seq<seq<Piece>>, s: set<int>)
    ensures CountIn(rows, s) > 0 <==> exists y, x | 0 <= y < |rows| && 0 <= x < |rows[y]| :: rows[y][x] in s
  {
    if rows != [] {
      CountInPositive(rows[1..], s);
      RowCountPositive(rows[0], s);
      if CountIn(rows[1..], s) > 0 {
        var y, x :| 0 <= y < |rows[1..]| && 0 <= x < |rows[1..][y]| && rows[1..][y][x] in s;
        assert rows[y + 1][x] in s;
      }
      if exists y, x | 0 <= y < |rows| && 0 <= x < |rows[y]| :: rows[y][x] in s {
        var y, x :| 0 <= y < |rows| && 0 <= x < |rows[y]| && rows[y][x] in s;
        if y > 0 {
          assert rows[1..][y - 1][x] in s;
        }
      }
    }
  }

  /** Membership and counting agree: a piece is on the board exactly when its count is positive. */
  lemma ContainsIffCounted(b: Board, item: int)
    ensures Contains(b, item) <==> PieceCount(b, item) > 0
  {
    CountInPositive(b, {item});
  }

  // ---------------------------------------------------------------- layouts

  /** The standard opening position of the source's 8 x 8 board. */
  function InitialBoard(): (r: Board)
    ensures |r| == 8
    // the men stand on the dark squares of the three rows at either end
    ensures forall q | InBounds(r, q) ::
      At(r, q) == if (q.x + q.y) % 2 == 0 then Empty
                  else if q.y < 3 then Man1
                  else if q.y > 4 then Man2
                  else Empty
  {
    [[0, 1, 0, 1, 0, 1, 0, 1],
     [1, 0, 1, 0, 1, 0, 1, 0],
     [0, 1, 0, 1, 0, 1, 0, 1],
     [0, 0, 0, 0, 0, 0, 0, 0],
     [0, 0, 0, 0, 0, 0, 0, 0],
     [2, 0, 2, 0, 2, 0, 2, 0],
     [0, 2, 0, 2, 0, 2, 0, 2],
     [2, 0, 2, 0, 2, 0, 2, 0]]
  }

  /** The 4 x 4 test board: a man of player 1 at (3, 0) and a man of player 2 at (2, 3). */
  function TestBoard(): (r: Board)
    ensures |r| == 4
    ensures forall q | InBounds(r, q) ::
      At(r, q) == if q == Pos(3, 0) then Man1 else if q == Pos(2, 3) then Man2 else Empty
  {
    [[0, 0, 0, 1],
     [0, 0, 0, 0],
     [0, 0, 0, 0],
     [0, 0, 2, 0]]
  }

  /** The board a fresh `CheckersBoard` holds when none is given. */
  function NewBoard(test: bool): (r: Board)
    ensures |r| == if test then 4 else 8
  {
    if test then TestBoard() else InitialBoard()
  }
}
