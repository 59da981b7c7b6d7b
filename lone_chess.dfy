/** The board, the search state, legal-move enumeration and move
    application of solitaire chess.

    A board is modelled as its entries in insertion order, a sequence of
    (square, piece) pairs with distinct squares: that is what the source's
    dictionary holds, and its order decides the order in which moves are
    enumerated.  `ToMap` gives the board as a map; equality of boards in the
    source is equality of these maps. */
module LoneChess {
  import opened Pieces

  type Entry = (Square, Piece)

  /** No square has two entries: the first entry's square is not among the
      squares of the others, and so on down the sequence. */
  predicate DistinctKeys(b: seq<Entry>) {
    b == [] || (b[0].0 !in Squares(b[1..]) && DistinctKeys(b[1..]))
  }

  /** Two entries of a board with the same square are the same entry. */
  lemma {:induction false} SameSquareSameIndex(b: seq<Entry>, i: nat, j: nat)
    requires DistinctKeys(b) && i < |b| && j < |b|
    ensures b[i].0 == b[j].0 ==> i == j
  {
    if i == 0 && j > 0 {
      assert b[1..][j - 1] == b[j];
    } else if j == 0 && i > 0 {
      assert b[1..][i - 1] == b[i];
    } else if i > 0 && j > 0 {
      SameSquareSameIndex(b[1..], i - 1, j - 1);
      assert b[1..][i - 1] == b[i] && b[1..][j - 1] == b[j];
    }
  }

  type Board = b: seq<Entry> | DistinctKeys(b) witness []

  /** The occupied squares: the keys of the board. */
  function Squares(b: seq<Entry>): set<Square> {
    set i | 0 <= i < |b| :: b[i].0
  }

  /** The piece on square sq. */
  function Lookup(b: seq<Entry>, sq: Square): (p: Piece)
    requires sq in Squares(b)
    ensures (sq, p) in b
  {
    if b[0].0 == sq then b[0].1
    else
      assert sq in Squares(b[1..]) by { var i :| 0 <= i < |b| && b[i].0 == sq; assert b[1..][i - 1] == b[i]; }
      Lookup(b[1..], sq)
  }

  /** The board as a map from squares to pieces. */
  function ToMap(b: seq<Entry>): map<Square, Piece> {
    map sq | sq in Squares(b) :: Lookup(b, sq)
  }

  lemma ToMapAt(b: Board, e: Entry)
    requires e in b
    ensures e.0 in ToMap(b) && ToMap(b)[e.0] == e.1
  {
    var i :| 0 <= i < |b| && b[i] == e;
    var j :| 0 <= j < |b| && b[j] == (e.0, Lookup(b, e.0));
    SameSquareSameIndex(b, i, j);
  }

  /** The source compares boards as dictionaries, so two boards holding the
      same entries compare equal whatever order they were inserted in. */
  lemma EntriesDetermineMap(a: Board, b: Board)
    requires forall e :: e in a <==> e in b
    ensures ToMap(a) == ToMap(b)
  {
    forall sq | sq in Squares(a) ensures sq in Squares(b) {
      var i :| 0 <= i < |a| && a[i].0 == sq;
      assert a[i] in b;
    }
    forall sq | sq in Squares(b) ensures sq in Squares(a) {
      var i :| 0 <= i < |b| && b[i].0 == sq;
      assert b[i] in a;
    }
    forall sq | sq in ToMap(a) ensures ToMap(a)[sq] == ToMap(b)[sq] {
      var e := (sq, Lookup(a, sq));
      ToMapAt(a, e);
      ToMapAt(b, e);
    }
  }

  lemma SquaresCons(e: Entry, rest: seq<Entry>)
    ensures Squares([e] + rest) == {e.0} + Squares(rest)
  {
    var b := [e] + rest;
    assert b[0] == e;
    forall sq | sq in Squares(b) ensures sq in {e.0} + Squares(rest) {
      var i :| 0 <= i < |b| && b[i].0 == sq;
      if i > 0 { assert b[i] == rest[i - 1]; }
    }
    forall sq | sq in Squares(rest) ensures sq in Squares(b) {
      var i :| 0 <= i < |rest| && rest[i].0 == sq;
      assert b[i + 1] == rest[i];
    }
  }

  lemma DistinctCons(e: Entry, rest: seq<Entry>)
    ensures DistinctKeys([e] + rest) <==> e.0 !in Squares(rest) && DistinctKeys(rest)
  {
    var b := [e] + rest;
    assert b[0] == e && b[1..] == rest;
  }

  /** Python's `del d[k]`: the entry for k goes, the others keep their order. */
  function Delete(b: seq<Entry>, k: Square): (r: seq<Entry>)
    ensures forall e :: e in r <==> e in b && e.0 != k
  {
    if b == [] then []
    else if b[0].0 == k then Delete(b[1..], k)
    else [b[0]] + Delete(b[1..], k)
  }

  lemma {:induction false} DeleteProperties(b: Board, k: Square)
    ensures DistinctKeys(Delete(b, k))
    ensures Squares(Delete(b, k)) == Squares(b) - {k}
    ensures |Delete(b, k)| == if k in Squares(b) then |b| - 1 else |b|
  {
    if b != [] {
      assert b == [b[0]] + b[1..];
      SquaresCons(b[0], b[1..]);
      DistinctCons(b[0], b[1..]);
      DeleteProperties(b[1..], k);
      if b[0].0 != k {
        SquaresCons(b[0], Delete(b[1..], k));
        DistinctCons(b[0], Delete(b[1..], k));
      }
    }
  }

  /** Python's `d[k] = v`: an existing entry for k takes the new value in
      place, otherwise the entry is appended. */
  function Store(b: seq<Entry>, k: Square, v: Piece): (r: seq<Entry>)
    ensures |r| == if k in Squares(b) then |b| else |b| + 1
    ensures DistinctKeys(b) && k in Squares(b) ==>
              forall i :: 0 <= i < |b| ==> r[i] == if b[i].0 == k then (k, v) else b[i]
    ensures k !in Squares(b) ==> r == b + [(k, v)]
  {
    if b == [] then [(k, v)]
    else
      assert b == [b[0]] + b[1..];
      SquaresCons(b[0], b[1..]);
      DistinctCons(b[0], b[1..]);
      if b[0].0 == k then [(k, v)] + b[1..]
      else [b[0]] + Store(b[1..], k, v)
  }

  lemma {:induction false} StoreProperties(b: Board, k: Square, v: Piece)
    ensures DistinctKeys(Store(b, k, v))
    ensures Squares(Store(b, k, v)) == Squares(b) + {k}
    ensures forall e :: e in Store(b, k, v) <==> e == (k, v) || (e in b && e.0 != k)
  {
    var r := Store(b, k, v);
    if b == [] {
      SquaresCons((k, v), []);
    } else {
      assert b == [b[0]] + b[1..];
      SquaresCons(b[0], b[1..]);
      DistinctCons(b[0], b[1..]);
      if b[0].0 == k {
        SquaresCons((k, v), b[1..]);
        DistinctCons((k, v), b[1..]);
        assert forall e :: e in b[1..] ==> e.0 in Squares(b[1..]);
      } else {
        StoreProperties(b[1..], k, v);
        SquaresCons(b[0], Store(b[1..], k, v));
        DistinctCons(b[0], Store(b[1..], k, v));
      }
    }
  }

  datatype State = State(pieces: Board, history: seq<Board>)

  datatype Move = Move(fromX: int, fromY: int, toX: int, toY: int) {
    function From(): Square { (fromX, fromY) }
    function To(): Square { (toX, toY) }
  }

  /** How move application fails: the source square is empty (a KeyError
      in the source), or the piece count did not drop by one (the source's
      `assert False`). */
  datatype MoveError = MissingPiece | CountNotReduced

  datatype Result<T> = Ok(value: T) | Err(error: MoveError)

  /** The root of the search: the given board, no history. */
  function InitialState(pieces: Board): (s: State)
    ensures s.pieces == pieces && s.history == []
  {
    State(pieces, [])
  }

  /** The board after the piece on m.From() moves to m.To(): the source's
      `del` of the source square followed by the store at the destination. */
  function MovePiece(b: Board, m: Move): (r: Board)
    requires m.From() in Squares(b)
    ensures Squares(r) == (Squares(b) - {m.From()}) + {m.To()}
    ensures |r| == if m.To() in Squares(b) && m.To() != m.From() then |b| - 1 else |b|
  {
    var moving := Lookup(b, m.From());
    var rest := Delete(b, m.From());
    DeleteProperties(b, m.From());
    StoreProperties(rest, m.To(), moving);
    Store(rest, m.To(), moving)
  }

  /** As a map, deleting k drops k from the domain. */
  lemma DeleteMap(b: Board, k: Square)
    ensures DistinctKeys(Delete(b, k))
    ensures ToMap(Delete(b, k)) == ToMap(b) - {k}
  {
    DeleteProperties(b, k);
    var d: Board := Delete(b, k);
    forall sq | sq in ToMap(d) ensures ToMap(d)[sq] == ToMap(b)[sq] {
      var e := (sq, Lookup(d, sq));
      ToMapAt(d, e);
      ToMapAt(b, e);
    }
  }

  /** As a map, storing v at k updates k to v. */
  lemma StoreMap(b: Board, k: Square, v: Piece)
    ensures DistinctKeys(Store(b, k, v))
    ensures ToMap(Store(b, k, v)) == ToMap(b)[k := v]
  {
    StoreProperties(b, k, v);
    var r: Board := Store(b, k, v);
    var want := ToMap(b)[k := v];
    assert (k, v) in r;
    ToMapAt(r, (k, v));
    assert ToMap(r).Keys == want.Keys;
    forall sq | sq in want ensures ToMap(r)[sq] == want[sq] {
      if sq != k {
        var e := (sq, Lookup(r, sq));
        assert e in b;
        ToMapAt(r, e);
        ToMapAt(b, e);
      }
    }
  }

  /** As a map, the new board is the old one without the source square and
      with the moving piece on the destination. */
  lemma MovePieceMap(b: Board, m: Move)
    requires m.From() in Squares(b)
    ensures ToMap(MovePiece(b, m)) == (ToMap(b) - {m.From()})[m.To() := ToMap(b)[m.From()]]
  {
    var moving := Lookup(b, m.From());
    DeleteMap(b, m.From());
    StoreMap(Delete(b, m.From()), m.To(), moving);
    ToMapAt(b, (m.From(), moving));
  }

  /** Move application: the moving piece leaves its square and takes the
      destination, the new board is appended to the history. */
  function ApplyMove(s: State, m: Move): (r: Result<State>)
    ensures m.From() !in Squares(s.pieces) ==> r == Err(MissingPiece)
    ensures m.From() in Squares(s.pieces) ==>
              (r.Ok? <==> m.To() in Squares(s.pieces) && m.To() != m.From())
    ensures m.From() in Squares(s.pieces) && r.Err? ==> r.error == CountNotReduced
    ensures r.Ok? ==>
              && |r.value.pieces| == |s.pieces| - 1
              && r.value.pieces == MovePiece(s.pieces, m)
              && r.value.history == s.history + [r.value.pieces]
  {
    if m.From() !in Squares(s.pieces) then Err(MissingPiece)
    else
      var pieces := MovePiece(s.pieces, m);
      if |s.pieces| != |pieces| + 1 then Err(CountNotReduced)
      else Ok(State(pieces, s.history + [pieces]))
  }

  /** The source's apply_move, step by step on a copy of the state: look
      up the moving piece, delete its square, store it at the destination,
      append the new board to the history, check the piece count. */
  method MakeMove(s: State, m: Move) returns (r: Result<State>)
    ensures r == ApplyMove(s, m)
  {
    var pieces := s.pieces;
    var history := s.history;
    if m.From() !in Squares(pieces) {
      return Err(MissingPiece);
    }
    var movingPiece := Lookup(pieces, m.From());
    DeleteProperties(pieces, m.From());
    pieces := Delete(pieces, m.From());
    StoreProperties(pieces, m.To(), movingPiece);
    pieces := Store(pieces, m.To(), movingPiece);
    history := history + [pieces];
    if |s.pieces| != |pieces| + 1 {
      return Err(CountNotReduced);
    }
    r := Ok(State(pieces, history));
  }

  /** A successful move, seen on the board as a map. */
  lemma ApplyMoveMap(s: State, m: Move)
    requires ApplyMove(s, m).Ok?
    ensures ToMap(ApplyMove(s, m).value.pieces)
            == (ToMap(s.pieces) - {m.From()})[m.To() := ToMap(s.pieces)[m.From()]]
  {
    MovePieceMap(s.pieces, m);
  }

  /** A move whose both ends are occupied, distinct squares. */
  predicate IsCapture(b: Board, m: Move) {
    m.From() in Squares(b) && m.To() in Squares(b) && m.From() != m.To()
  }

  // ---------------------------------------------------------------------
  // Legal moves

  /** The candidates that are occupied squares, in order: the source's
      `valid_moves`. */
  function Captures(targets: seq<Square>, occupied: set<Square>): seq<Square> {
    if targets == [] then []
    else (if targets[0] in occupied then [targets[0]] else []) + Captures(targets[1..], occupied)
  }

  /** Exactly the occupied candidates are kept. */
  lemma {:induction false} CapturesExact(targets: seq<Square>, occupied: set<Square>)
    ensures forall sq :: sq in Captures(targets, occupied) <==> sq in targets && sq in occupied
    ensures (forall sq :: sq in targets ==> sq !in occupied) ==> Captures(targets, occupied) == []
  {
    if targets != [] {
      CapturesExact(targets[1..], occupied);
      assert targets == [targets[0]] + targets[1..];
    }
  }

  /** One move from (x, y) to each of the targets, in order. */
  function MovesTo(x: int, y: int, targets: seq<Square>): seq<Move> {
    seq(|targets|, i requires 0 <= i < |targets| => Move(x, y, targets[i].0, targets[i].1))
  }

  lemma MovesToExact(x: int, y: int, targets: seq<Square>)
    ensures |MovesTo(x, y, targets)| == |targets|
    ensures forall i :: 0 <= i < |targets| ==>
              MovesTo(x, y, targets)[i].From() == (x, y) && MovesTo(x, y, targets)[i].To() == targets[i]
  {
  }

  /** The captures of the piece of entry e on board b. */
  function EntryMoves(b: Board, e: Entry): seq<Move> {
    var occupied := Squares(b);
    MovesTo(e.0.0, e.0.1, Captures(Candidates(e.1, e.0.0, e.0.1, occupied), occupied))
  }

  /** The captures of the first n entries of b, entry by entry. */
  function MovesOfPrefix(b: Board, n: nat): seq<Move>
    requires n <= |b|
  {
    if n == 0 then [] else MovesOfPrefix(b, n - 1) + EntryMoves(b, b[n - 1])
  }

  function LegalMoves(b: Board): seq<Move> {
    MovesOfPrefix(b, |b|)
  }

  /** The source's enumeration of the legal moves of a state. */
  method GetMoves(s: State) returns (moves: seq<Move>)
    ensures moves == LegalMoves(s.pieces)
  {
    moves := [];
    var occupied := Squares(s.pieces);
    for i := 0 to |s.pieces|
      invariant moves == MovesOfPrefix(s.pieces, i)
    {
      var entry := s.pieces[i];
      var location := entry.0;
      var potential := PieceMoves(entry.1, location.0, location.1, occupied);
      var valid := Captures(potential, occupied);
      moves := moves + MovesTo(location.0, location.1, valid);
    }
  }

  /** The captures of one entry are the moves from its square to each of its
      occupied candidates. */
  lemma EntryMovesExact(b: Board, e: Entry, m: Move)
    ensures m in EntryMoves(b, e) <==>
              m.From() == e.0 && m.To() in Squares(b) && m.To() in Candidates(e.1, e.0.0, e.0.1, Squares(b))
  {
    var occupied := Squares(b);
    var targets := Captures(Candidates(e.1, e.0.0, e.0.1, occupied), occupied);
    var ms := EntryMoves(b, e);
    assert ms == MovesTo(e.0.0, e.0.1, targets);
    CapturesExact(Candidates(e.1, e.0.0, e.0.1, occupied), occupied);
    MovesToExact(e.0.0, e.0.1, targets);
    if m in ms {
      var j :| 0 <= j < |ms| && ms[j] == m;
      assert m.To() == targets[j];
    }
    if m.From() == e.0 && m.To() in targets {
      var j :| 0 <= j < |targets| && targets[j] == m.To();
      assert ms[j] == m;
    }
  }

  /** The piece found by `Lookup` on an entry's square is the entry's. */
  lemma LookupAt(b: Board, i: nat)
    requires i < |b|
    ensures b[i].0 in Squares(b) && Lookup(b, b[i].0) == b[i].1
  {
    var j :| 0 <= j < |b| && b[j] == (b[i].0, Lookup(b, b[i].0));
    SameSquareSameIndex(b, i, j);
  }

  /** The moves of the first n entries leave from one of their squares. */
  lemma {:induction false} MovesOfPrefixExact(b: Board, n: nat, m: Move)
    requires n <= |b|
    ensures m in MovesOfPrefix(b, n) <==>
              && (exists i :: 0 <= i < n && b[i].0 == m.From())
              && m.From() in Squares(b) && m.To() in Squares(b)
              && m.To() in Candidates(Lookup(b, m.From()), m.fromX, m.fromY, Squares(b))
  {
    if n > 0 {
      var e := b[n - 1];
      assert MovesOfPrefix(b, n) == MovesOfPrefix(b, n - 1) + EntryMoves(b, e);
      MovesOfPrefixExact(b, n - 1, m);
      EntryMovesExact(b, e, m);
      LookupAt(b, n - 1);
    }
  }

  /** A move is legal exactly when both its squares are occupied and the
      piece on its source square has the destination among its candidates. */
  lemma LegalMovesExact(b: Board, m: Move)
    ensures m in LegalMoves(b) <==>
              && m.From() in Squares(b) && m.To() in Squares(b)
              && m.To() in Candidates(Lookup(b, m.From()), m.fromX, m.fromY, Squares(b))
  {
    MovesOfPrefixExact(b, |b|, m);
    if m.From() in Squares(b) {
      var i :| 0 <= i < |b| && b[i].0 == m.From();
    }
  }

  /** Every legal move is a capture: both ends occupied and distinct. */
  lemma LegalMovesAreCaptures(b: Board)
    ensures forall m :: m in LegalMoves(b) ==> IsCapture(b, m)
  {
    forall m | m in LegalMoves(b) ensures IsCapture(b, m) {
      LegalMovesExact(b, m);
      CandidatesLeaveOrigin(Lookup(b, m.From()), m.fromX, m.fromY, Squares(b));
    }
  }

  /** A board with at most one piece has no legal move. */
  lemma LoneBoardHasNoMoves(b: Board)
    requires |b| <= 1
    ensures LegalMoves(b) == []
  {
    if |b| == 1 {
      var occupied := Squares(b);
      assert occupied == {b[0].0};
      CandidatesLeaveOrigin(b[0].1, b[0].0.0, b[0].0.1, occupied);
      CapturesExact(Candidates(b[0].1, b[0].0.0, b[0].0.1, occupied), occupied);
      assert MovesOfPrefix(b, 1) == EntryMoves(b, b[0]);
    }
  }

  /** A legal move always applies, and the piece count drops by one, so the
      source's assertion never fires. */
  lemma LegalMovesApply(s: State, m: Move)
    requires m in LegalMoves(s.pieces)
    ensures ApplyMove(s, m).Ok?
    ensures |ApplyMove(s, m).value.pieces| == |s.pieces| - 1
  {
    LegalMovesAreCaptures(s.pieces);
  }
}
