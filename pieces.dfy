/** Move rules of the six piece kinds of solitaire chess.

    Each rule turns the square (x, y) of a piece and the set of occupied
    squares into the sequence of candidate destination squares, in the order
    the source's generators yield them.  The rules only ever ask whether a
    square is occupied, so they are given the set of occupied squares.

    Every rule is a function (the specification, used by the solver's
    proofs); every rule the source runs as a loop exists twice, the second
    time as a method with that loop, proved equal to the function. */
module Pieces {

  type Square = (int, int)

  /** A direction of travel or a jump, added to a square. */
  type Offset = (int, int)

  datatype Piece = Pawn | King | Bishop | Rook | Queen | Knight

  /** The largest coordinate the sliding walk still steps from. */
  const GuardMax: int := 4

  /** The guard of the sliding walk, evaluated before each step. */
  predicate InGuard(sq: Square) {
    0 <= sq.0 && 0 <= sq.1 && sq.0 <= GuardMax && sq.1 <= GuardMax
  }

  predicate NonZero(dirs: seq<Offset>) {
    forall i :: 0 <= i < |dirs| ==> dirs[i] != (0, 0)
  }

  const BishopDirections: seq<Offset> := [(-1, -1), (1, 1), (-1, 1), (1, -1)]
  const RookDirections: seq<Offset> := [(-1, 0), (1, 0), (0, 1), (0, -1)]
  const KnightJumps: seq<Offset> :=
    [(-2, -1), (-2, 1), (-1, -2), (-1, 2), (1, -2), (1, 2), (2, -1), (2, 1)]

  // ---------------------------------------------------------------------
  // The sliding walk

  /** How many more steps along one axis the guard can allow. */
  function Reach(c: int, off: int): nat {
    if off > 0 then (if c <= GuardMax then GuardMax + 1 - c else 0)
    else if off < 0 then (if c >= 0 then c + 1 else 0)
    else 0
  }

  /** What the walk from (x, y) in direction (xoff, yoff) yields: while the
      current square passes the guard, step, and stop at the first occupied
      square, yielding it. */
  function Ray(x: int, y: int, xoff: int, yoff: int, occupied: set<Square>): seq<Square>
    requires (xoff, yoff) != (0, 0)
    decreases Reach(x, xoff) + Reach(y, yoff)
  {
    if !InGuard((x, y)) then []
    else if (x + xoff, y + yoff) in occupied then [(x + xoff, y + yoff)]
    else Ray(x + xoff, y + yoff, xoff, yoff, occupied)
  }

  /** The square k steps from (x, y) in direction (xoff, yoff). */
  function Point(x: int, y: int, xoff: int, yoff: int, k: nat): Square {
    (x + k * xoff, y + k * yoff)
  }

  /** Point k is occupied, no point 1..k-1 is, and the guard held at each of
      the points 0..k-1 the walk stepped from. */
  ghost predicate FirstHit(x: int, y: int, xoff: int, yoff: int, occupied: set<Square>, k: nat) {
    && 1 <= k
    && Point(x, y, xoff, yoff, k) in occupied
    && (forall j: nat :: 1 <= j < k ==> Point(x, y, xoff, yoff, j) !in occupied)
    && (forall j: nat :: j < k ==> InGuard(Point(x, y, xoff, yoff, j)))
  }

  lemma PointShift(x: int, y: int, xoff: int, yoff: int, j: nat)
    ensures Point(x + xoff, y + yoff, xoff, yoff, j) == Point(x, y, xoff, yoff, j + 1)
  {
    assert (j + 1) * xoff == j * xoff + xoff;
    assert (j + 1) * yoff == j * yoff + yoff;
  }

  lemma PointLeavesOrigin(x: int, y: int, xoff: int, yoff: int, k: nat)
    requires (xoff, yoff) != (0, 0) && 1 <= k
    ensures Point(x, y, xoff, yoff, k) != (x, y)
  {
    if xoff > 0 {
      assert k * xoff >= xoff;
    } else if xoff < 0 {
      assert k * xoff <= xoff;
    } else if yoff > 0 {
      assert k * yoff >= yoff;
    } else {
      assert k * yoff <= yoff;
    }
  }

  /** The walk yields at most one square, and it yields exactly the first
      occupied point reached before the guard fails, if there is one. */
  lemma {:induction false} RayIsFirstHit(x: int, y: int, xoff: int, yoff: int, occupied: set<Square>)
    requires (xoff, yoff) != (0, 0)
    ensures |Ray(x, y, xoff, yoff, occupied)| <= 1
    ensures Ray(x, y, xoff, yoff, occupied) != [] ==>
              exists k: nat :: FirstHit(x, y, xoff, yoff, occupied, k)
                               && Ray(x, y, xoff, yoff, occupied) == [Point(x, y, xoff, yoff, k)]
    ensures forall k: nat :: FirstHit(x, y, xoff, yoff, occupied, k) ==>
              Ray(x, y, xoff, yoff, occupied) == [Point(x, y, xoff, yoff, k)]
    decreases Reach(x, xoff) + Reach(y, yoff)
  {
    assert Point(x, y, xoff, yoff, 0) == (x, y);
    assert Point(x, y, xoff, yoff, 1) == (x + xoff, y + yoff);
    if !InGuard((x, y)) {
    } else if (x + xoff, y + yoff) in occupied {
      assert FirstHit(x, y, xoff, yoff, occupied, 1);
    } else {
      var x', y' := x + xoff, y + yoff;
      RayIsFirstHit(x', y', xoff, yoff, occupied);
      if Ray(x', y', xoff, yoff, occupied) != [] {
        var k': nat :| FirstHit(x', y', xoff, yoff, occupied, k')
                  && Ray(x', y', xoff, yoff, occupied) == [Point(x', y', xoff, yoff, k')];
        FirstHitBack(x, y, xoff, yoff, occupied, k');
      }
      forall k: nat | FirstHit(x, y, xoff, yoff, occupied, k)
        ensures Ray(x, y, xoff, yoff, occupied) == [Point(x, y, xoff, yoff, k)]
      {
        FirstHitOn(x, y, xoff, yoff, occupied, k);
      }
    }
  }

  /** Without a hit on the first step, a first hit from (x, y) is one step
      nearer from the next square. */
  lemma FirstHitOn(x: int, y: int, xoff: int, yoff: int, occupied: set<Square>, k: nat)
    requires InGuard((x, y)) && (x + xoff, y + yoff) !in occupied
    requires FirstHit(x, y, xoff, yoff, occupied, k)
    ensures 2 <= k && FirstHit(x + xoff, y + yoff, xoff, yoff, occupied, k - 1)
    ensures Point(x + xoff, y + yoff, xoff, yoff, k - 1) == Point(x, y, xoff, yoff, k)
  {
    assert Point(x, y, xoff, yoff, 1) == (x + xoff, y + yoff);
    ShiftFirstHit(x, y, xoff, yoff, occupied, k);
    PointShift(x, y, xoff, yoff, k - 1);
  }

  /** ... and a first hit from the next square is one step further from
      (x, y). */
  lemma FirstHitBack(x: int, y: int, xoff: int, yoff: int, occupied: set<Square>, k: nat)
    requires InGuard((x, y)) && (x + xoff, y + yoff) !in occupied
    requires FirstHit(x + xoff, y + yoff, xoff, yoff, occupied, k)
    ensures FirstHit(x, y, xoff, yoff, occupied, k + 1)
    ensures Point(x + xoff, y + yoff, xoff, yoff, k) == Point(x, y, xoff, yoff, k + 1)
  {
    ShiftFirstHit(x, y, xoff, yoff, occupied, k + 1);
    PointShift(x, y, xoff, yoff, k);
  }

  /** When the walk steps on from (x, y) without a hit, the first hit k from
      (x, y) is the first hit k - 1 from the next square, and back. */
  lemma ShiftFirstHit(x: int, y: int, xoff: int, yoff: int, occupied: set<Square>, k: nat)
    requires InGuard((x, y)) && (x + xoff, y + yoff) !in occupied && 2 <= k
    ensures FirstHit(x, y, xoff, yoff, occupied, k) <==> FirstHit(x + xoff, y + yoff, xoff, yoff, occupied, k - 1)
  {
    assert Point(x, y, xoff, yoff, 0) == (x, y);
    assert Point(x, y, xoff, yoff, 1) == (x + xoff, y + yoff);
    var x', y' := x + xoff, y + yoff;
    forall j: nat ensures Point(x', y', xoff, yoff, j) == Point(x, y, xoff, yoff, j + 1) {
      PointShift(x, y, xoff, yoff, j);
    }
    if FirstHit(x + xoff, y + yoff, xoff, yoff, occupied, k - 1) {
      forall j: nat | 1 <= j < k ensures Point(x, y, xoff, yoff, j) !in occupied {
        if j > 1 { assert Point(x, y, xoff, yoff, j) == Point(x + xoff, y + yoff, xoff, yoff, j - 1); }
      }
      forall j: nat | j < k ensures InGuard(Point(x, y, xoff, yoff, j)) {
        if j > 0 { assert Point(x, y, xoff, yoff, j) == Point(x + xoff, y + yoff, xoff, yoff, j - 1); }
      }
    }
  }

  /** The source's walk, step by step. */
  method UntilAPieceIsHit(x0: int, y0: int, xoff: int, yoff: int, occupied: set<Square>)
    returns (hit: seq<Square>)
    requires (xoff, yoff) != (0, 0)
    ensures hit == Ray(x0, y0, xoff, yoff, occupied)
  {
    var x, y := x0, y0;
    hit := [];
    while 0 <= x && 0 <= y && x <= GuardMax && y <= GuardMax
      invariant Ray(x, y, xoff, yoff, occupied) == Ray(x0, y0, xoff, yoff, occupied)
      invariant hit == []
      decreases Reach(x, xoff) + Reach(y, yoff)
    {
      x := x + xoff;
      y := y + yoff;
      if (x, y) in occupied {
        hit := [(x, y)];
        break;
      }
    }
  }

  /** One walk per direction, concatenated in the order of `dirs`. */
  function Slide(x: int, y: int, dirs: seq<Offset>, occupied: set<Square>): seq<Square>
    requires NonZero(dirs)
  {
    if dirs == [] then []
    else
      var d := dirs[|dirs| - 1];
      Slide(x, y, dirs[..|dirs| - 1], occupied) + Ray(x, y, d.0, d.1, occupied)
  }

  /** A sliding piece yields at most one square per direction, each of them
      occupied, none of them its own square, and each the first hit of the
      walk in some direction. */
  lemma {:induction false} SlideProperties(x: int, y: int, dirs: seq<Offset>, occupied: set<Square>)
    requires NonZero(dirs)
    ensures |Slide(x, y, dirs, occupied)| <= |dirs|
    ensures forall sq :: sq in Slide(x, y, dirs, occupied) ==>
              sq in occupied && sq != (x, y)
              && exists i, k: nat :: 0 <= i < |dirs| && FirstHit(x, y, dirs[i].0, dirs[i].1, occupied, k)
                                    && sq == Point(x, y, dirs[i].0, dirs[i].1, k)
  {
    if dirs != [] {
      var n := |dirs| - 1;
      var d := dirs[n];
      SlideProperties(x, y, dirs[..n], occupied);
      RayIsFirstHit(x, y, d.0, d.1, occupied);
      if Ray(x, y, d.0, d.1, occupied) != [] {
        var k: nat :| FirstHit(x, y, d.0, d.1, occupied, k)
                      && Ray(x, y, d.0, d.1, occupied) == [Point(x, y, d.0, d.1, k)];
        PointLeavesOrigin(x, y, d.0, d.1, k);
      }
      forall sq | sq in Slide(x, y, dirs, occupied)
        ensures exists i, k: nat :: 0 <= i < |dirs| && FirstHit(x, y, dirs[i].0, dirs[i].1, occupied, k)
                                   && sq == Point(x, y, dirs[i].0, dirs[i].1, k)
      {
        if sq in Slide(x, y, dirs[..n], occupied) {
          var i, k: nat :| 0 <= i < n && FirstHit(x, y, dirs[..n][i].0, dirs[..n][i].1, occupied, k)
                           && sq == Point(x, y, dirs[..n][i].0, dirs[..n][i].1, k);
          assert dirs[..n][i] == dirs[i];
        } else {
          var k: nat :| FirstHit(x, y, d.0, d.1, occupied, k)
                        && Ray(x, y, d.0, d.1, occupied) == [Point(x, y, d.0, d.1, k)];
          assert FirstHit(x, y, dirs[n].0, dirs[n].1, occupied, k);
        }
      }
    }
  }

  /** The source's loop over the directions of a sliding piece. */
  method SlideMoves(x: int, y: int, dirs: seq<Offset>, occupied: set<Square>) returns (moves: seq<Square>)
    requires NonZero(dirs)
    ensures moves == Slide(x, y, dirs, occupied)
  {
    moves := [];
    for i := 0 to |dirs|
      invariant moves == Slide(x, y, dirs[..i], occupied)
    {
      var hit := UntilAPieceIsHit(x, y, dirs[i].0, dirs[i].1, occupied);
      assert dirs[..i + 1][..i] == dirs[..i];
      moves := moves + hit;
    }
    assert dirs[..|dirs|] == dirs;
  }

  // ---------------------------------------------------------------------
  // The six rules

  function PawnMoves(x: int, y: int): seq<Square> {
    [(x - 1, y + 1), (x - 1, y - 1)]
  }

  function KnightMoves(x: int, y: int): seq<Square> {
    seq(|KnightJumps|, i requires 0 <= i < |KnightJumps| => (x + KnightJumps[i].0, y + KnightJumps[i].1))
  }

  /** The king's scan at one offset: nothing for the king's own square,
      the square if occupied, otherwise nothing. */
  function KingCell(x: int, y: int, xoff: int, yoff: int, occupied: set<Square>): seq<Square> {
    if xoff == 0 && yoff == 0 then []
    else if (x + xoff, y + yoff) in occupied then [(x + xoff, y + yoff)]
    else []
  }

  /** The scan of row `xoff` over the first n of the offsets -1, 0, 1. */
  function KingRow(x: int, y: int, xoff: int, n: nat, occupied: set<Square>): seq<Square> {
    if n == 0 then [] else KingRow(x, y, xoff, n - 1, occupied) + KingCell(x, y, xoff, n - 2, occupied)
  }

  /** The scan of the first n of the rows -1, 0, 1. */
  function KingRows(x: int, y: int, n: nat, occupied: set<Square>): seq<Square> {
    if n == 0 then [] else KingRows(x, y, n - 1, occupied) + KingRow(x, y, n - 2, 3, occupied)
  }

  function KingMoves(x: int, y: int, occupied: set<Square>): seq<Square> {
    KingRows(x, y, 3, occupied)
  }

  /** The source's nested loops over the king's neighbourhood. */
  method ScanKing(x: int, y: int, occupied: set<Square>) returns (moves: seq<Square>)
    ensures moves == KingMoves(x, y, occupied)
  {
    moves := [];
    for xoff := -1 to 2
      invariant moves == KingRows(x, y, xoff + 1, occupied)
    {
      for yoff := -1 to 2
        invariant moves == KingRows(x, y, xoff + 1, occupied) + KingRow(x, y, xoff, yoff + 1, occupied)
      {
        if xoff == 0 && yoff == 0 {
          continue;
        }
        if (x + xoff, y + yoff) in occupied {
          moves := moves + [(x + xoff, y + yoff)];
        }
      }
    }
  }

  function BishopMoves(x: int, y: int, occupied: set<Square>): seq<Square> {
    Slide(x, y, BishopDirections, occupied)
  }

  function RookMoves(x: int, y: int, occupied: set<Square>): seq<Square> {
    Slide(x, y, RookDirections, occupied)
  }

  function QueenMoves(x: int, y: int, occupied: set<Square>): seq<Square> {
    BishopMoves(x, y, occupied) + RookMoves(x, y, occupied)
  }

  /** The candidate destinations of piece p on (x, y). */
  function Candidates(p: Piece, x: int, y: int, occupied: set<Square>): seq<Square> {
    match p
    case Pawn => PawnMoves(x, y)
    case King => KingMoves(x, y, occupied)
    case Bishop => BishopMoves(x, y, occupied)
    case Rook => RookMoves(x, y, occupied)
    case Queen => QueenMoves(x, y, occupied)
    case Knight => KnightMoves(x, y)
  }

  /** The source's dispatch to the piece's generator. */
  method PieceMoves(p: Piece, x: int, y: int, occupied: set<Square>) returns (moves: seq<Square>)
    ensures moves == Candidates(p, x, y, occupied)
  {
    match p
    case Pawn =>
      moves := [(x - 1, y + 1), (x - 1, y - 1)];
    case King =>
      moves := ScanKing(x, y, occupied);
    case Bishop =>
      moves := SlideMoves(x, y, BishopDirections, occupied);
    case Rook =>
      moves := SlideMoves(x, y, RookDirections, occupied);
    case Queen =>
      var diagonal := SlideMoves(x, y, BishopDirections, occupied);
      var straight := SlideMoves(x, y, RookDirections, occupied);
      moves := diagonal + straight;
    case Knight =>
      moves := KnightMoves(x, y);
  }

  // ---------------------------------------------------------------------
  // Properties of the rules

  predicate IsNeighbour(from: Square, to: Square) {
    -1 <= to.0 - from.0 <= 1 && -1 <= to.1 - from.1 <= 1 && to != from
  }

  function Abs(n: int): nat { if n < 0 then -n else n }

  predicate IsKnightJump(from: Square, to: Square) {
    var dx, dy := Abs(to.0 - from.0), Abs(to.1 - from.1);
    (dx == 1 && dy == 2) || (dx == 2 && dy == 1)
  }

  /** The pawn yields the two squares one file back and one rank to either
      side, whatever the occupancy. */
  lemma PawnMovesExact(x: int, y: int)
    ensures |PawnMoves(x, y)| == 2
    ensures forall sq :: sq in PawnMoves(x, y) <==> sq.0 == x - 1 && Abs(sq.1 - y) == 1
  {
  }

  /** The knight yields each of the eight knight jumps from its square exactly
      once, and nothing else. */
  lemma KnightMovesExact(x: int, y: int)
    ensures |KnightMoves(x, y)| == 8
    ensures forall sq :: sq in KnightMoves(x, y) <==> IsKnightJump((x, y), sq)
    ensures forall i, j :: 0 <= i < j < 8 ==> KnightMoves(x, y)[i] != KnightMoves(x, y)[j]
  {
    var r := KnightMoves(x, y);
    assert r == [(x - 2, y - 1), (x - 2, y + 1), (x - 1, y - 2), (x - 1, y + 2),
                 (x + 1, y - 2), (x + 1, y + 2), (x + 2, y - 1), (x + 2, y + 1)];
  }

  /** The pawn's and the knight's candidates do not depend on the occupancy. */
  lemma FixedRulesIgnoreOccupancy(p: Piece, x: int, y: int, occupied: set<Square>, other: set<Square>)
    requires p == Pawn || p == Knight
    ensures Candidates(p, x, y, occupied) == Candidates(p, x, y, other)
  {
  }

  /** The king yields exactly its occupied neighbours, each once. */
  lemma KingMovesExact(x: int, y: int, occupied: set<Square>)
    ensures |KingMoves(x, y, occupied)| <= 8
    ensures forall sq :: sq in KingMoves(x, y, occupied) <==> sq in occupied && IsNeighbour((x, y), sq)
    ensures NoRepeats(KingMoves(x, y, occupied))
  {
    KingRowExact(x, y, -1, occupied);
    KingRowExact(x, y, 0, occupied);
    KingRowExact(x, y, 1, occupied);
    var rows := [KingRow(x, y, -1, 3, occupied), KingRow(x, y, 0, 3, occupied), KingRow(x, y, 1, 3, occupied)];
    assert KingRows(x, y, 1, occupied) == rows[0];
    assert KingRows(x, y, 2, occupied) == rows[0] + rows[1];
    assert KingMoves(x, y, occupied) == rows[0] + rows[1] + rows[2];
    NoRepeatsConcat(rows[0], rows[1]);
    NoRepeatsConcat(rows[0] + rows[1], rows[2]);
  }

  /** No square occurs twice. */
  predicate NoRepeats(s: seq<Square>) {
    forall i, j :: 0 <= i < j < |s| ==> s[i] != s[j]
  }

  /** Two sequences without repeats and without a common square concatenate
      to one without repeats. */
  lemma NoRepeatsConcat(a: seq<Square>, b: seq<Square>)
    requires NoRepeats(a) && NoRepeats(b) && forall sq :: sq in a ==> sq !in b
    ensures NoRepeats(a + b)
  {
    forall i, j | 0 <= i < j < |a + b| ensures (a + b)[i] != (a + b)[j] {
      if i < |a| && j >= |a| {
        assert (a + b)[i] in a && (a + b)[j] == b[j - |a|];
      }
    }
  }

  /** Row r of the king's scan holds the occupied squares of file x + r next
      to the king. */
  lemma KingRowExact(x: int, y: int, r: int, occupied: set<Square>)
    requires -1 <= r <= 1
    ensures |KingRow(x, y, r, 3, occupied)| <= 2 + Abs(r)
    ensures forall sq :: sq in KingRow(x, y, r, 3, occupied) <==>
              sq in occupied && sq.0 == x + r && IsNeighbour((x, y), sq)
    ensures forall i, j :: 0 <= i < j < |KingRow(x, y, r, 3, occupied)| ==>
              KingRow(x, y, r, 3, occupied)[i].1 < KingRow(x, y, r, 3, occupied)[j].1
  {
    assert KingRow(x, y, r, 1, occupied) == KingCell(x, y, r, -1, occupied);
    assert KingRow(x, y, r, 2, occupied) == KingCell(x, y, r, -1, occupied) + KingCell(x, y, r, 0, occupied);
    assert KingRow(x, y, r, 3, occupied)
        == KingCell(x, y, r, -1, occupied) + KingCell(x, y, r, 0, occupied) + KingCell(x, y, r, 1, occupied);
  }

  /** The bishop and the rook yield at most four squares and the queen at
      most eight, each occupied and none the piece's own square; the queen
      yields the bishop's squares followed by the rook's. */
  lemma SlidingMovesBounded(x: int, y: int, occupied: set<Square>)
    ensures |BishopMoves(x, y, occupied)| <= 4 && |RookMoves(x, y, occupied)| <= 4
    ensures |QueenMoves(x, y, occupied)| <= 8
    ensures forall sq :: sq in BishopMoves(x, y, occupied) ==> sq in occupied && sq != (x, y)
    ensures forall sq :: sq in RookMoves(x, y, occupied) ==> sq in occupied && sq != (x, y)
    ensures forall sq :: sq in QueenMoves(x, y, occupied) ==> sq in occupied && sq != (x, y)
    ensures QueenMoves(x, y, occupied)[..|BishopMoves(x, y, occupied)|] == BishopMoves(x, y, occupied)
    ensures QueenMoves(x, y, occupied)[|BishopMoves(x, y, occupied)|..] == RookMoves(x, y, occupied)
  {
    SlideProperties(x, y, BishopDirections, occupied);
    SlideProperties(x, y, RookDirections, occupied);
  }

  /** No piece's candidates include its own square; those of the pieces that
      look at the occupancy are all occupied. */
  lemma CandidatesLeaveOrigin(p: Piece, x: int, y: int, occupied: set<Square>)
    ensures (x, y) !in Candidates(p, x, y, occupied)
    ensures p != Pawn && p != Knight ==> forall sq :: sq in Candidates(p, x, y, occupied) ==> sq in occupied
  {
    match p
    case Pawn =>
    case King => KingMovesExact(x, y, occupied);
    case Bishop => SlidingMovesBounded(x, y, occupied);
    case Rook => SlidingMovesBounded(x, y, occupied);
    case Queen => SlidingMovesBounded(x, y, occupied);
    case Knight => KnightMovesExact(x, y);
  }
}
