/** The breadth-first solver of solitaire chess.

    The search is specified by the ghost function `Level`: level 0 is the
    root, level k + 1 is every child of every state of level k, in order.
    The levels, the winners and the solver loop are written for any type of
    state, any child function, any measure of size and any view of a state's
    board, so that the facts about the search order are proved once, apart
    from the rules of the game; `GetSolutions` runs the source's loop with
    `Children`, `Size` and `BoardOf`. */
module Search {
  import opened Pieces
  import opened LoneChess

  // ---------------------------------------------------------------------
  // Children of a state

  /** The results of the steps that succeed, in order; a step that fails
      contributes nothing. */
  function Successes<M, T>(step: M -> Result<T>, ms: seq<M>): seq<T> {
    if ms == [] then []
    else (match step(ms[0]) case Ok(t) => [t] case Err(_) => []) + Successes(step, ms[1..])
  }

  /** A successful step at the head of the list gives the first result. */
  lemma SuccessesCons<M, T>(step: M -> Result<T>, ms: seq<M>)
    requires ms != [] && step(ms[0]).Ok?
    ensures Successes(step, ms) == [step(ms[0]).value] + Successes(step, ms[1..])
  {
  }

  /** When no step fails, there is one result per step, the i-th that of the
      i-th step. */
  lemma {:induction false} SuccessesExact<M(!new), T>(step: M -> Result<T>, ms: seq<M>)
    requires forall m :: m in ms ==> step(m).Ok?
    ensures |Successes(step, ms)| == |ms|
    ensures forall i :: 0 <= i < |ms| ==> step(ms[i]) == Ok(Successes(step, ms)[i])
  {
    if ms != [] {
      assert ms[0] in ms;
      SuccessesCons(step, ms);
      SuccessesExact(step, ms[1..]);
      forall i | 0 < i < |ms| ensures step(ms[i]) == Ok(Successes(step, ms)[i]) {
        assert ms[i] == ms[1..][i - 1] && Successes(step, ms)[i] == Successes(step, ms[1..])[i - 1];
      }
    }
  }

  /** The source's apply_move on state s, as a function of the move. */
  function Step(s: State): Move -> Result<State> {
    m => ApplyMove(s, m)
  }

  /** The source's get_children: the states the legal moves lead to, in move
      order (no legal move is refused, see `ChildrenExact`). */
  function Children(s: State): seq<State> {
    Successes(Step(s), LegalMoves(s.pieces))
  }

  /** There is one child per legal move, the result of that move, in order. */
  lemma ChildrenExact(s: State)
    ensures |Children(s)| == |LegalMoves(s.pieces)|
    ensures forall i :: 0 <= i < |Children(s)| ==> ApplyMove(s, LegalMoves(s.pieces)[i]) == Ok(Children(s)[i])
  {
    var ms := LegalMoves(s.pieces);
    forall m | m in ms ensures Step(s)(m).Ok? {
      LegalMovesApply(s, m);
    }
    SuccessesExact(Step(s), ms);
  }

  /** A one-move step between boards. */
  ghost predicate CaptureStep(a: Board, b: Board) {
    exists m :: m in LegalMoves(a) && IsCapture(a, m) && MovePiece(a, m) == b
  }

  /** Each child has one piece fewer, extends its parent's history by its own
      board, and is reached by a legal capture. */
  lemma ChildrenProperties(s: State)
    ensures forall c :: c in Children(s) ==>
              && |c.pieces| + 1 == |s.pieces|
              && c.history == s.history + [c.pieces]
              && CaptureStep(s.pieces, c.pieces)
  {
    var cs := Children(s);
    LegalMovesAreCaptures(s.pieces);
    ChildrenExact(s);
    forall c | c in cs
      ensures |c.pieces| + 1 == |s.pieces| && c.history == s.history + [c.pieces] && CaptureStep(s.pieces, c.pieces)
    {
      var i :| 0 <= i < |cs| && cs[i] == c;
      var m := LegalMoves(s.pieces)[i];
      assert m in LegalMoves(s.pieces);
    }
  }

  /** The size of a state: its number of pieces. */
  function Size(s: State): nat {
    |s.pieces|
  }

  /** The board of a state as the source compares it: as a dictionary. */
  function BoardOf(s: State): map<Square, Piece> {
    ToMap(s.pieces)
  }

  /** Every child is one smaller than its parent. */
  ghost predicate Shrinks<S(!new)>(children: S -> seq<S>, size: S -> nat) {
    forall s, c :: c in children(s) ==> size(c) + 1 == size(s)
  }

  /** A state of size at most one has no child. */
  ghost predicate StopsAtOne<S(!new)>(children: S -> seq<S>, size: S -> nat) {
    forall s :: size(s) <= 1 ==> children(s) == []
  }

  /** The depth of a state: the length of its history. */
  function Depth(s: State): nat {
    |s.history|
  }

  /** Every child is one deeper than its parent. */
  ghost predicate Grows<S(!new)>(children: S -> seq<S>, depth: S -> nat) {
    forall s, c :: c in children(s) ==> depth(c) == depth(s) + 1
  }

  /** The facts about `Children` the search relies on. */
  lemma ChildrenShrink()
    ensures Shrinks(Children, Size)
    ensures StopsAtOne(Children, Size)
    ensures Grows(Children, Depth)
  {
    forall s, c | c in Children(s) ensures Size(c) + 1 == Size(s) {
      ChildrenProperties(s);
    }
    forall s, c | c in Children(s) ensures Depth(c) == Depth(s) + 1 {
      ChildrenProperties(s);
    }
    forall s | Size(s) <= 1 ensures Children(s) == [] {
      LoneBoardHasNoMoves(s.pieces);
    }
  }

  // ---------------------------------------------------------------------
  // Breadth-first levels

  /** The children of every state of a frontier, frontier order first. */
  function Expand<S>(children: S -> seq<S>, frontier: seq<S>): seq<S> {
    if frontier == [] then []
    else Expand(children, frontier[..|frontier| - 1]) + children(frontier[|frontier| - 1])
  }

  /** Expanding one more state of a frontier appends its children. */
  lemma ExpandStep<S>(children: S -> seq<S>, frontier: seq<S>, i: nat)
    requires i < |frontier|
    ensures Expand(children, frontier[..i + 1]) == Expand(children, frontier[..i]) + children(frontier[i])
  {
    assert frontier[..i + 1][..i] == frontier[..i];
  }

  /** Every state of an expansion is a child of some state of the frontier. */
  lemma {:induction false} ExpandSource<S(!new)>(children: S -> seq<S>, frontier: seq<S>, c: S)
    requires c in Expand(children, frontier)
    ensures exists i :: 0 <= i < |frontier| && c in children(frontier[i])
  {
    var n := |frontier| - 1;
    if c in Expand(children, frontier[..n]) {
      ExpandSource(children, frontier[..n], c);
      var i :| 0 <= i < n && c in children(frontier[..n][i]);
      assert frontier[..n][i] == frontier[i];
    }
  }

  /** Every child of every state of the frontier is in its expansion. */
  lemma {:induction false} ExpandHas<S(!new)>(children: S -> seq<S>, frontier: seq<S>, i: nat, c: S)
    requires i < |frontier| && c in children(frontier[i])
    ensures c in Expand(children, frontier)
  {
    var n := |frontier| - 1;
    if i < n {
      assert frontier[..n][i] == frontier[i];
      ExpandHas(children, frontier[..n], i, c);
    }
  }

  /** The states k moves below the root, in the order the search meets them. */
  ghost function Level<S>(children: S -> seq<S>, root: S, k: nat): seq<S> {
    if k == 0 then [root] else Expand(children, Level(children, root, k - 1))
  }

  /** The states of size one among `states`, in order. */
  function Winners<S(==, !new)>(size: S -> nat, states: seq<S>): (r: seq<S>)
    ensures forall w :: w in r <==> w in states && size(w) == 1
  {
    if states == [] then []
    else Winners(size, states[..|states| - 1]) + (if size(states[|states| - 1]) == 1 then [states[|states| - 1]] else [])
  }

  lemma {:induction false} WinnersAppend<S(!new)>(size: S -> nat, a: seq<S>, b: seq<S>)
    ensures Winners(size, a + b) == Winners(size, a) + Winners(size, b)
  {
    if b != [] {
      var n := |b| - 1;
      assert (a + b)[..|a + b| - 1] == a + b[..n];
      WinnersAppend(size, a, b[..n]);
    } else {
      assert a + b == a;
    }
  }

  /** The states of size one of levels 1..k. */
  ghost function WinnersUpTo<S(!new)>(children: S -> seq<S>, size: S -> nat, root: S, k: nat): seq<S> {
    if k == 0 then [] else WinnersUpTo(children, size, root, k - 1) + Winners(size, Level(children, root, k))
  }

  /** The winners collected once the first i states of level k have been
      expanded: the search order, point by point. */
  ghost function WinnersSoFar<S(!new)>(children: S -> seq<S>, size: S -> nat, root: S, k: nat, i: nat): seq<S>
    requires i <= |Level(children, root, k)|
  {
    if i == 0 then WinnersUpTo(children, size, root, k)
    else WinnersSoFar(children, size, root, k, i - 1) + Winners(size, children(Level(children, root, k)[i - 1]))
  }

  /** Part-way through level k, the winners are those of the levels above
      followed by the winners among the children met so far. */
  lemma {:induction false} WinnersSoFarExpand<S(!new)>(children: S -> seq<S>, size: S -> nat, root: S, k: nat, i: nat)
    requires i <= |Level(children, root, k)|
    ensures WinnersSoFar(children, size, root, k, i)
         == WinnersUpTo(children, size, root, k) + Winners(size, Expand(children, Level(children, root, k)[..i]))
  {
    var f := Level(children, root, k);
    if i == 0 {
      assert f[..0] == [];
    } else {
      WinnersSoFarExpand(children, size, root, k, i - 1);
      ExpandStep(children, f, i - 1);
      WinnersAppend(size, Expand(children, f[..i - 1]), children(f[i - 1]));
      AppendAssoc(WinnersUpTo(children, size, root, k), Winners(size, Expand(children, f[..i - 1])), Winners(size, children(f[i - 1])));
    }
  }

  /** A level ends with its own winners added to those above it. */
  lemma WinnersSoFarEnds<S(!new)>(children: S -> seq<S>, size: S -> nat, root: S, k: nat)
    ensures WinnersSoFar(children, size, root, k, |Level(children, root, k)|) == WinnersUpTo(children, size, root, k + 1)
  {
    var f := Level(children, root, k);
    WinnersSoFarExpand(children, size, root, k, |f|);
    assert f[..|f|] == f;
  }

  /** The source's test `all(w.pieces == winners[0].pieces for w in winners)`,
      with the board of a state seen through `board`. */
  predicate AllSame<S, B(==)>(board: S -> B, ws: seq<S>) {
    forall i :: 0 <= i < |ws| ==> board(ws[i]) == board(ws[0])
  }

  /** The state is reached from the root by one or more steps. */
  ghost predicate IsDescendant<S(!new)>(children: S -> seq<S>, root: S, s: S) {
    exists k: nat :: 1 <= k && s in Level(children, root, k)
  }

  /** No state below the root has size one. */
  ghost predicate Unsolvable<S(!new)>(children: S -> seq<S>, size: S -> nat, root: S) {
    forall k: nat, s :: 1 <= k && s in Level(children, root, k) ==> size(s) != 1
  }

  /** The k-th level is k smaller than the root. */
  lemma {:induction false} LevelShape<S(!new)>(children: S -> seq<S>, size: S -> nat, root: S, k: nat)
    requires Shrinks(children, size)
    ensures forall s :: s in Level(children, root, k) ==> size(s) + k == size(root)
  {
    if k > 0 {
      LevelShape(children, size, root, k - 1);
      forall s | s in Level(children, root, k) ensures size(s) + k == size(root) {
        ExpandSource(children, Level(children, root, k - 1), s);
      }
    }
  }

  /** The k-th level is k deeper than the root. */
  lemma {:induction false} LevelDepth<S(!new)>(children: S -> seq<S>, depth: S -> nat, root: S, k: nat)
    requires Grows(children, depth)
    ensures forall s :: s in Level(children, root, k) ==> depth(s) == depth(root) + k
  {
    if k > 0 {
      LevelDepth(children, depth, root, k - 1);
      forall s | s in Level(children, root, k) ensures depth(s) == depth(root) + k {
        ExpandSource(children, Level(children, root, k - 1), s);
      }
    }
  }

  /** Under the rules of the game, every state k moves below the root has
      k more boards of history and k fewer pieces; from the initial state
      its history has exactly k boards. */
  lemma GameLevelShape(root: State, k: nat)
    ensures forall s :: s in Level(Children, root, k) ==>
              |s.history| == |root.history| + k && |s.pieces| + k == |root.pieces|
    ensures root.history == [] ==> forall s :: s in Level(Children, root, k) ==> |s.history| == k
  {
    ChildrenShrink();
    LevelShape(Children, Size, root, k);
    LevelDepth(Children, Depth, root, k);
  }

  /** The board step i of a history starts from: `start` for the first
      step, the snapshot before it otherwise; at i == |h| it is the board
      the history ends on. */
  function StepFrom<B>(start: B, h: seq<B>, i: nat): B
    requires i <= |h|
  {
    if i == 0 then start else h[i - 1]
  }

  /** Every snapshot of the history follows by one `step` from the board
      before it, the first one from `start`. */
  ghost predicate Chain<B(!new)>(step: (B, B) -> bool, start: B, h: seq<B>) {
    forall i :: 0 <= i < |h| ==> step(StepFrom(start, h, i), h[i])
  }

  /** A step from the board a chain ends on extends it. */
  lemma ChainExtend<B(!new)>(step: (B, B) -> bool, start: B, h: seq<B>, b: B)
    requires Chain(step, start, h) && step(StepFrom(start, h, |h|), b)
    ensures Chain(step, start, h + [b]) && StepFrom(start, h + [b], |h| + 1) == b
  {
    var h' := h + [b];
    forall i | 0 <= i < |h'| ensures step(StepFrom(start, h', i), h'[i]) {
      if i < |h| {
        assert h'[i] == h[i];
        assert StepFrom(start, h', i) == StepFrom(start, h, i);
      } else {
        assert StepFrom(start, h', i) == StepFrom(start, h, |h|);
      }
    }
  }

  /** Every child records its own board at the end of its parent's history. */
  ghost predicate Records<S(!new), B>(children: S -> seq<S>, history: S -> seq<B>, board: S -> B) {
    forall s, c :: c in children(s) ==> history(c) == history(s) + [board(c)]
  }

  /** Every child's board follows from its parent's by one `step`. */
  ghost predicate StepsBy<S(!new), B>(children: S -> seq<S>, board: S -> B, step: (B, B) -> bool) {
    forall s, c :: c in children(s) ==> step(board(s), board(c))
  }

  /** From a root with an empty history, a state k levels below it carries a
      history of k boards that chains from the root's board by one step per
      snapshot and ends on the state's own board. */
  lemma {:induction false} LevelChain<S(!new), B(!new)>(children: S -> seq<S>, history: S -> seq<B>, board: S -> B,
                                                        step: (B, B) -> bool, root: S, k: nat)
    requires Records(children, history, board) && StepsBy(children, board, step) && history(root) == []
    ensures forall s :: s in Level(children, root, k) ==>
              |history(s)| == k && Chain(step, board(root), history(s)) && StepFrom(board(root), history(s), k) == board(s)
  {
    if k > 0 {
      LevelChain(children, history, board, step, root, k - 1);
      var f := Level(children, root, k - 1);
      forall s | s in Level(children, root, k)
        ensures |history(s)| == k && Chain(step, board(root), history(s)) && StepFrom(board(root), history(s), k) == board(s)
      {
        ExpandSource(children, f, s);
        var i :| 0 <= i < |f| && s in children(f[i]);
        ChainExtend(step, board(root), history(f[i]), board(s));
      }
    }
  }

  /** The boards of a state's history. */
  function History(s: State): seq<Board> {
    s.history
  }

  /** The board of a state, as stored. */
  function Stored(s: State): Board {
    s.pieces
  }

  /** Under the rules of the game, every child records its board by one
      legal capture. */
  lemma ChildrenRecord()
    ensures Records(Children, History, Stored)
    ensures StepsBy(Children, Stored, CaptureStep)
  {
    forall s, c | c in Children(s) ensures History(c) == History(s) + [Stored(c)] {
      ChildrenProperties(s);
    }
    forall s, c | c in Children(s) ensures CaptureStep(Stored(s), Stored(c)) {
      ChildrenProperties(s);
    }
  }

  /** A descendant of a root with an empty history records a non-empty
      chain from the root's board that ends on its own board. */
  lemma DescendantChain<S(!new), B(!new)>(children: S -> seq<S>, history: S -> seq<B>, board: S -> B,
                                          step: (B, B) -> bool, root: S, w: S)
    requires Records(children, history, board) && StepsBy(children, board, step) && history(root) == []
    requires IsDescendant(children, root, w)
    ensures |history(w)| >= 1 && Chain(step, board(root), history(w)) && history(w)[|history(w)| - 1] == board(w)
  {
    var k: nat :| 1 <= k && w in Level(children, root, k);
    LevelChain(children, history, board, step, root, k);
  }

  /** The history of every state below a fresh root is its chain of legal
      captures from the root's board, ending on its own board. */
  lemma DescendantHistory(root: State, w: State)
    requires root.history == [] && IsDescendant(Children, root, w)
    ensures |w.history| >= 1 && Chain(CaptureStep, root.pieces, w.history) && w.history[|w.history| - 1] == w.pieces
  {
    ChildrenRecord();
    DescendantChain(Children, History, Stored, CaptureStep, root, w);
    var k: nat :| 1 <= k && w in Level(Children, root, k);
    var f := Level(Children, root, k - 1);
    ExpandSource(Children, f, w);
    var i :| 0 <= i < |f| && w in Children(f[i]);
    ChildrenProperties(f[i]);
  }

  /** The history of w is a chain of legal captures from the board start
      that ends on w's own board. */
  ghost predicate ReplaysCaptures(start: Board, w: State) {
    |w.history| >= 1 && Chain(CaptureStep, start, w.history) && w.history[|w.history| - 1] == w.pieces
  }

  /** Every state below a fresh root carries the chain of captures that
      led to it. */
  lemma DescendantsReplay(root: State)
    ensures root.history == [] ==> forall w :: IsDescendant(Children, root, w) ==> ReplaysCaptures(root.pieces, w)
  {
    if root.history == [] {
      forall w | IsDescendant(Children, root, w)
        ensures ReplaysCaptures(root.pieces, w)
      {
        DescendantHistory(root, w);
      }
    }
  }

  lemma {:induction false} ExpandEmpty<S(!new)>(children: S -> seq<S>, size: S -> nat, frontier: seq<S>)
    requires StopsAtOne(children, size)
    requires forall s :: s in frontier ==> size(s) <= 1
    ensures Expand(children, frontier) == []
  {
    if frontier != [] {
      ExpandEmpty(children, size, frontier[..|frontier| - 1]);
    }
  }

  /** Every level from max(1, size of the root) on is empty: the search
      depth is bounded by the number of pieces of the root. */
  lemma {:induction false} LevelsRunOut<S(!new)>(children: S -> seq<S>, size: S -> nat, root: S, k: nat)
    requires Shrinks(children, size) && StopsAtOne(children, size)
    requires k >= size(root) && k >= 1
    ensures Level(children, root, k) == []
  {
    if k == 1 || k - 1 < size(root) {
      LevelShape(children, size, root, k - 1);
      ExpandEmpty(children, size, Level(children, root, k - 1));
    } else {
      LevelsRunOut(children, size, root, k - 1);
    }
  }

  lemma {:induction false} EmptyLevelStaysEmpty<S>(children: S -> seq<S>, root: S, k: nat, j: nat)
    requires Level(children, root, k) == [] && k <= j
    ensures Level(children, root, j) == []
    decreases j - k
  {
    if k < j {
      EmptyLevelStaysEmpty(children, root, k + 1, j);
    }
  }

  /** Once a level is empty, every state of size one below the root is among
      the winners collected so far. */
  lemma {:induction false} WinnersUpToComplete<S(!new)>(children: S -> seq<S>, size: S -> nat, root: S, k: nat)
    requires Level(children, root, k) == []
    ensures forall j: nat, s :: 1 <= j && s in Level(children, root, j) && size(s) == 1 ==>
              s in WinnersUpTo(children, size, root, k)
  {
    forall j: nat, s | 1 <= j && s in Level(children, root, j) && size(s) == 1
      ensures s in WinnersUpTo(children, size, root, k)
    {
      if k < j {
        EmptyLevelStaysEmpty(children, root, k, j);
      } else {
        WinnersUpToHas(children, size, root, k, j, s);
      }
    }
  }

  /** The winners collected up to level k hold every state of size one of
      the levels 1 to k. */
  lemma WinnersUpToHas<S(!new)>(children: S -> seq<S>, size: S -> nat, root: S, k: nat, j: nat, s: S)
    requires 1 <= j <= k && s in Level(children, root, j) && size(s) == 1
    ensures s in WinnersUpTo(children, size, root, k)
  {
    WinnersUpToLast(children, size, root, j, s);
    WinnersUpToGrow(children, size, root, j, k);
    PrefixHas(WinnersUpTo(children, size, root, j), WinnersUpTo(children, size, root, k), s);
  }

  /** What a prefix holds, the whole sequence holds. */
  lemma PrefixHas<T>(p: seq<T>, q: seq<T>, x: T)
    requires p <= q && x in p
    ensures x in q
  {
    var i :| 0 <= i < |p| && p[i] == x;
    assert q[i] == x;
  }

  /** The winners collected up to level k hold the states of size one of
      level k itself. */
  lemma WinnersUpToLast<S(!new)>(children: S -> seq<S>, size: S -> nat, root: S, k: nat, s: S)
    requires 1 <= k && s in Level(children, root, k) && size(s) == 1
    ensures s in WinnersUpTo(children, size, root, k)
  {
    var here := Winners(size, Level(children, root, k));
    assert s in here;
    assert WinnersUpTo(children, size, root, k) == WinnersUpTo(children, size, root, k - 1) + here;
  }

  /** What the winners collected up to level k are. */
  lemma {:induction false} WinnersUpToSound<S(!new)>(children: S -> seq<S>, size: S -> nat, root: S, k: nat)
    ensures forall w :: w in WinnersUpTo(children, size, root, k) ==>
              size(w) == 1 && IsDescendant(children, root, w)
  {
    if k > 0 {
      WinnersUpToSound(children, size, root, k - 1);
    }
  }

  /** Once the search has run out of states, it found nothing exactly when
      no state below the root has size one. */
  lemma ExhaustedUnsolvable<S(!new)>(children: S -> seq<S>, size: S -> nat, root: S, k: nat)
    requires Level(children, root, k) == []
    ensures WinnersUpTo(children, size, root, k) == [] <==> Unsolvable(children, size, root)
  {
    WinnersUpToComplete(children, size, root, k);
    WinnersUpToSound(children, size, root, k);
    if WinnersUpTo(children, size, root, k) != [] {
      var w := WinnersUpTo(children, size, root, k)[0];
      assert w in WinnersUpTo(children, size, root, k);
      var j: nat :| 1 <= j && w in Level(children, root, j);
    }
  }

  /** A member of winners that are all the same board has the first one's. */
  lemma AllSameAt<S, B>(board: S -> B, ws: seq<S>, s: S)
    requires AllSame(board, ws) && s in ws
    ensures board(s) == board(ws[0])
  {
    var i :| 0 <= i < |ws| && ws[i] == s;
  }

  /** Once the search has run out of states, winners that are all the same
      board stand for every state of size one below the root. */
  lemma ExhaustedAllSame<S(!new), B>(children: S -> seq<S>, size: S -> nat, board: S -> B, root: S, k: nat)
    requires Level(children, root, k) == []
    requires WinnersUpTo(children, size, root, k) != [] && AllSame(board, WinnersUpTo(children, size, root, k))
    ensures forall j: nat, s :: 1 <= j && s in Level(children, root, j) && size(s) == 1 ==>
              board(s) == board(WinnersUpTo(children, size, root, k)[0])
  {
    var ws := WinnersUpTo(children, size, root, k);
    WinnersUpToComplete(children, size, root, k);
    forall j: nat, s | 1 <= j && s in Level(children, root, j) && size(s) == 1
      ensures board(s) == board(ws[0])
    {
      AllSameAt(board, ws, s);
    }
  }

  /** A state met in the middle of expanding level k is a descendant. */
  lemma ExpandPrefixDescends<S(!new)>(children: S -> seq<S>, root: S, k: nat, i: nat, w: S)
    requires i <= |Level(children, root, k)| && w in Expand(children, Level(children, root, k)[..i])
    ensures IsDescendant(children, root, w)
  {
    var f := Level(children, root, k);
    ExpandSource(children, f[..i], w);
    var j :| 0 <= j < i && w in children(f[..i][j]);
    assert f[..i][j] == f[j];
    ExpandHas(children, f, j, w);
    assert w in Level(children, root, k + 1);
  }

  /** A root of size at most one has no descendant at all. */
  lemma LoneRootUnsolvable<S(!new)>(children: S -> seq<S>, size: S -> nat, root: S)
    requires Shrinks(children, size) && StopsAtOne(children, size)
    requires size(root) <= 1
    ensures Unsolvable(children, size, root)
  {
    LevelsRunOut(children, size, root, 1);
    forall k: nat | 1 <= k ensures Level(children, root, k) == [] {
      EmptyLevelStaysEmpty(children, root, 1, k);
    }
  }

  lemma AppendAssoc<T>(a: seq<T>, b: seq<T>, c: seq<T>)
    ensures a + (b + c) == a + b + c
  {
  }

  /** At most one winner is trivially all the same board. */
  lemma ShortAllSame<S, B>(board: S -> B, ws: seq<S>)
    requires |ws| <= 1
    ensures AllSame(board, ws)
  {
  }

  /** What the winners collected by an exhausted search say about the tree. */
  lemma SearchExhausted<S(!new), B>(children: S -> seq<S>, size: S -> nat, board: S -> B, root: S, k: nat)
    requires Level(children, root, k) == []
    ensures forall w :: w in WinnersUpTo(children, size, root, k) ==> size(w) == 1 && IsDescendant(children, root, w)
    ensures WinnersUpTo(children, size, root, k) == [] <==> Unsolvable(children, size, root)
    ensures WinnersUpTo(children, size, root, k) != [] && AllSame(board, WinnersUpTo(children, size, root, k)) ==>
              forall j: nat, s :: 1 <= j && s in Level(children, root, j) && size(s) == 1 ==>
                board(s) == board(WinnersUpTo(children, size, root, k)[0])
  {
    WinnersUpToSound(children, size, root, k);
    ExhaustedUnsolvable(children, size, root, k);
    if WinnersUpTo(children, size, root, k) != [] && AllSame(board, WinnersUpTo(children, size, root, k)) {
      ExhaustedAllSame(children, size, board, root, k);
    }
  }

  // ---------------------------------------------------------------------
  // The solver

  /** Expanding the i-th state of level k makes the winners `ws` differ,
      where just before it they all had the same board. */
  ghost predicate StopsAt<S(!new), B>(children: S -> seq<S>, size: S -> nat, board: S -> B, root: S, k: nat, i: nat, ws: seq<S>)
    requires i < |Level(children, root, k)|
  {
    && ws == WinnersSoFar(children, size, root, k, i + 1)
    && !AllSame(board, ws)
    && AllSame(board, WinnersSoFar(children, size, root, k, i))
  }

  /** The search ran out of states at some level k, having collected at
      least one winner, and ws is the first winner collected. */
  ghost predicate FirstOfExhausted<S(!new)>(children: S -> seq<S>, size: S -> nat, root: S, ws: seq<S>) {
    exists k: nat ::
      Level(children, root, k) == [] && WinnersUpTo(children, size, root, k) != [] &&
      ws == [WinnersUpTo(children, size, root, k)[0]]
  }

  /** Some state of the search order is where the winners `ws` first differ. */
  ghost predicate FirstConflict<S(!new), B>(children: S -> seq<S>, size: S -> nat, board: S -> B, root: S, ws: seq<S>) {
    exists k: nat, i :: 0 <= i < |Level(children, root, k)| && StopsAt(children, size, board, root, k, i, ws)
  }

  /** A prefix of winners that all have the same board has that property too. */
  lemma AllSamePrefix<S, B>(board: S -> B, p: seq<S>, ws: seq<S>)
    requires p <= ws && AllSame(board, ws)
    ensures AllSame(board, p)
  {
    forall i | 0 <= i < |p| ensures board(p[i]) == board(p[0]) {
      assert p[i] == ws[i] && p[0] == ws[0];
    }
  }

  /** Within a level, the winners collected so far only grow. */
  lemma {:induction false} WinnersSoFarGrow<S(!new)>(children: S -> seq<S>, size: S -> nat, root: S, k: nat, j: nat, i: nat)
    requires j <= i <= |Level(children, root, k)|
    ensures WinnersSoFar(children, size, root, k, j) <= WinnersSoFar(children, size, root, k, i)
  {
    if j < i {
      WinnersSoFarGrow(children, size, root, k, j, i - 1);
      PrefixExtend(WinnersSoFar(children, size, root, k, j), WinnersSoFar(children, size, root, k, i - 1),
                   Winners(size, children(Level(children, root, k)[i - 1])));
    }
  }

  /** From level to level, the winners collected only grow. */
  lemma {:induction false} WinnersUpToGrow<S(!new)>(children: S -> seq<S>, size: S -> nat, root: S, j: nat, k: nat)
    requires j <= k
    ensures WinnersUpTo(children, size, root, j) <= WinnersUpTo(children, size, root, k)
  {
    if j < k {
      WinnersUpToGrow(children, size, root, j, k - 1);
      PrefixExtend(WinnersUpTo(children, size, root, j), WinnersUpTo(children, size, root, k - 1),
                   Winners(size, Level(children, root, k)));
    }
  }

  /** A prefix of a sequence is a prefix of any extension of it. */
  lemma PrefixExtend<T>(p: seq<T>, q: seq<T>, r: seq<T>)
    ensures p <= q ==> p <= q + r
  {
    if p <= q {
      assert (q + r)[..|p|] == q[..|p|];
    }
  }

  /** The point where the winners first differ is the first on its level:
      at every earlier point of level k the winners all had the same board. */
  lemma FirstConflictIsFirst<S(!new), B>(children: S -> seq<S>, size: S -> nat, board: S -> B, root: S, k: nat, i: nat, ws: seq<S>)
    requires i < |Level(children, root, k)| && StopsAt(children, size, board, root, k, i, ws)
    ensures forall j :: 0 <= j <= i ==> AllSame(board, WinnersSoFar(children, size, root, k, j))
  {
    forall j | 0 <= j <= i ensures AllSame(board, WinnersSoFar(children, size, root, k, j)) {
      WinnersSoFarGrow(children, size, root, k, j, i);
      AllSamePrefix(board, WinnersSoFar(children, size, root, k, j), WinnersSoFar(children, size, root, k, i));
    }
  }

  /** ... and it comes after every point of the levels above: there too the
      winners collected so far all had the same board. */
  lemma FirstConflictAfterAbove<S(!new), B>(children: S -> seq<S>, size: S -> nat, board: S -> B, root: S, k: nat, i: nat, ws: seq<S>)
    requires i < |Level(children, root, k)| && StopsAt(children, size, board, root, k, i, ws)
    ensures forall k', j :: 0 <= k' < k && 0 <= j <= |Level(children, root, k')| ==>
              AllSame(board, WinnersSoFar(children, size, root, k', j))
  {
    forall k', j | 0 <= k' < k && 0 <= j <= |Level(children, root, k')|
      ensures AllSame(board, WinnersSoFar(children, size, root, k', j))
    {
      EarlierLevelPrefix(children, size, root, k', j, k, i);
      AllSamePrefix(board, WinnersSoFar(children, size, root, k', j), WinnersSoFar(children, size, root, k, i));
    }
  }

  /** Every point of a level above comes before point i of level k: its
      winners are a prefix of those collected there. */
  lemma EarlierLevelPrefix<S(!new)>(children: S -> seq<S>, size: S -> nat, root: S, k': nat, j: nat, k: nat, i: nat)
    requires k' < k && j <= |Level(children, root, k')| && i <= |Level(children, root, k)|
    ensures WinnersSoFar(children, size, root, k', j) <= WinnersSoFar(children, size, root, k, i)
  {
    WinnersSoFarGrow(children, size, root, k', j, |Level(children, root, k')|);
    WinnersSoFarEnds(children, size, root, k');
    WinnersUpToGrow(children, size, root, k' + 1, k);
    WinnersSoFarGrow(children, size, root, k, 0, i);
    PrefixTrans(WinnersSoFar(children, size, root, k', j), WinnersUpTo(children, size, root, k' + 1),
                WinnersUpTo(children, size, root, k), WinnersSoFar(children, size, root, k, i));
  }

  /** Prefixes of prefixes are prefixes. */
  lemma PrefixTrans<T>(a: seq<T>, b: seq<T>, c: seq<T>, d: seq<T>)
    requires a <= b && b <= c && c <= d
    ensures a <= d
  {
  }

  /** The winners collected part-way through level k are one-piece
      descendants of the root. */
  lemma StoppedWinnersDescend<S(!new)>(children: S -> seq<S>, size: S -> nat, root: S, k: nat, i: nat)
    requires i < |Level(children, root, k)|
    ensures forall w :: w in WinnersSoFar(children, size, root, k, i + 1) ==> size(w) == 1 && IsDescendant(children, root, w)
  {
    WinnersUpToSound(children, size, root, k);
    WinnersSoFarExpand(children, size, root, k, i + 1);
    forall w | w in WinnersSoFar(children, size, root, k, i + 1) ensures size(w) == 1 && IsDescendant(children, root, w) {
      if w !in WinnersUpTo(children, size, root, k) {
        ExpandPrefixDescends(children, root, k, i + 1, w);
      }
    }
  }

  /** Expanding current[i] after current[..i], starting from winners0,
      turns winners that agreed (or were at most one) into ws, which
      disagree. */
  ghost predicate StopsWithin<S(!new), B>(children: S -> seq<S>, size: S -> nat, board: S -> B,
                                          current: seq<S>, winners0: seq<S>, i: nat, ws: seq<S>)
    requires i < |current|
  {
    var before := winners0 + Winners(size, Expand(children, current[..i]));
    && ws == before + Winners(size, children(current[i]))
    && !AllSame(board, ws)
    && (|before| <= 1 || AllSame(board, before))
  }

  /** Stopping within level k, with the winners of the levels above, is
      stopping at that point of the search; the winners met are one-piece
      descendants of the root. */
  lemma StopHere<S(!new), B>(children: S -> seq<S>, size: S -> nat, board: S -> B, root: S, k: nat, i: nat, ws: seq<S>)
    requires i < |Level(children, root, k)|
    requires StopsWithin(children, size, board, Level(children, root, k), WinnersUpTo(children, size, root, k), i, ws)
    ensures StopsAt(children, size, board, root, k, i, ws)
    ensures forall w :: w in ws ==> size(w) == 1 && IsDescendant(children, root, w)
  {
    WinnersSoFarExpand(children, size, root, k, i);
    var before := WinnersSoFar(children, size, root, k, i);
    if |before| <= 1 {
      ShortAllSame(board, before);
    }
    StoppedWinnersDescend(children, size, root, k, i);
  }

  /** One pass of the source's inner loop: the states of current are
      expanded in order, their children of size one are added to the
      winners, and the pass stops at the first state whose children make
      the winners differ. */
  method ExpandLevel<S(==, !new), B(==)>(children: S -> seq<S>, size: S -> nat, board: S -> B,
                                   current: seq<S>, winners0: seq<S>)
    returns (next: seq<S>, winners: seq<S>, stopped: bool)
    requires |winners0| <= 1 || AllSame(board, winners0)
    ensures !stopped ==> next == Expand(children, current) && winners == winners0 + Winners(size, next)
    ensures !stopped ==> |winners| <= 1 || AllSame(board, winners)
    ensures stopped ==> |winners| > 1
    ensures stopped ==> exists i :: 0 <= i < |current| && StopsWithin(children, size, board, current, winners0, i, winners)
  {
    next := [];
    winners := winners0;
    for i := 0 to |current|
      invariant next == Expand(children, current[..i])
      invariant winners == winners0 + Winners(size, next)
      invariant |winners| <= 1 || AllSame(board, winners)
    {
      var newChildren := children(current[i]);
      if |winners + Winners(size, newChildren)| > 1 && !AllSame(board, winners + Winners(size, newChildren)) {
        winners := winners + Winners(size, newChildren);
        assert StopsWithin(children, size, board, current, winners0, i, winners);
        return next, winners, true;
      }
      ExpandStep(children, current, i);
      WinnersAppend(size, next, newChildren);
      AppendAssoc(winners0, Winners(size, next), Winners(size, newChildren));
      winners := winners + Winners(size, newChildren);
      next := next + newChildren;
    }
    assert current[..|current|] == current;
    stopped := false;
  }

  /** The source's breadth-first search, for any child function that makes
      each state one smaller and stops at size one: the winners are the
      states of size one below the root, or the first of them when they all
      have the same board, or the winners met so far once two boards
      differ. */
  method BreadthFirst<S(==, !new), B(==)>(children: S -> seq<S>, size: S -> nat, board: S -> B, root: S)
    returns (winners: seq<S>)
    requires Shrinks(children, size) && StopsAtOne(children, size)
    ensures forall w :: w in winners ==> size(w) == 1 && IsDescendant(children, root, w)
    ensures |winners| <= 1 || !AllSame(board, winners)
    ensures winners == [] <==> Unsolvable(children, size, root)
    ensures |winners| == 1 ==>
              forall k: nat, s :: 1 <= k && s in Level(children, root, k) && size(s) == 1 ==>
                board(s) == board(winners[0])
    ensures size(root) <= 1 ==> winners == []
    ensures |winners| == 1 ==> FirstOfExhausted(children, size, root, winners)
    ensures |winners| > 1 ==> FirstConflict(children, size, board, root, winners)
  {
    if size(root) <= 1 {
      LoneRootUnsolvable(children, size, root);
    }
    var current := [root];
    winners := [];
    ghost var k: nat := 0;
    while current != []
      invariant current == Level(children, root, k)
      invariant winners == WinnersUpTo(children, size, root, k)
      invariant |winners| <= 1 || AllSame(board, winners)
      decreases size(root) + 1 - k
    {
      LevelShape(children, size, root, k);
      assert current[0] in Level(children, root, k);
      var next, stopped;
      ghost var above := winners;
      next, winners, stopped := ExpandLevel(children, size, board, current, winners);
      if stopped {
        ghost var i :| 0 <= i < |current| && StopsWithin(children, size, board, current, above, i, winners);
        StopHere(children, size, board, root, k, i, winners);
        assert winners[0] in winners;
        return;
      }
      current := next;
      k := k + 1;
    }
    SearchExhausted(children, size, board, root, k);
    if |winners| == 1 {
      ShortAllSame(board, winners);
    }
    if winners != [] && AllSame(board, winners) {
      assert winners[0] in winners;
      winners := [winners[0]];
    }
  }

  /** The source's get_solutions: the search under the rules of the game. */
  method GetSolutions(root: State) returns (winners: seq<State>)
    ensures forall w :: w in winners ==> Size(w) == 1 && IsDescendant(Children, root, w)
    ensures |winners| <= 1 || !AllSame(BoardOf, winners)
    ensures winners == [] <==> Unsolvable(Children, Size, root)
    ensures |winners| == 1 ==>
              forall k: nat, s :: 1 <= k && s in Level(Children, root, k) && Size(s) == 1 ==>
                BoardOf(s) == BoardOf(winners[0])
    ensures Size(root) <= 1 ==> winners == []
    ensures |winners| == 1 ==> FirstOfExhausted(Children, Size, root, winners)
    ensures |winners| > 1 ==> FirstConflict(Children, Size, BoardOf, root, winners)
    ensures root.history == [] ==> forall w :: w in winners ==> ReplaysCaptures(root.pieces, w)
  {
    ChildrenShrink();
    winners := BreadthFirst(Children, Size, BoardOf, root);
    DescendantsReplay(root);
  }
}
