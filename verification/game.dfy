/** The game state of src/Board.jsx and its transitions: `doMove` (board update,
    promotion, and the choice between continuing a capture chain, declaring a
    winner, or passing the turn) and the click handler that selects pieces and
    commits moves. The React state hooks become one immutable `State`. */
module Game {
  import opened Checkers
  import opened MoveGen

  /** `board`, `selected`, `turn` and `winner` of the component. */
  datatype State = State(board: Board, selected: Option<Square>, turn: Color, winner: Option<Color>)

  /** White moves first on the starting layout. */
  function InitialState(): State {
    State(InitialBoard(), None, White, None)
  }

  /** Every piece stands on a dark square. */
  ghost predicate OnPlayable(b: Board) {
    forall s :: At(b, s).Some? ==> Playable(s)
  }

  /** What holds of every state the click handler can reach: pieces only on dark
      squares, a selection only on a piece of the side to move, and no selection
      once there is a winner. */
  ghost predicate Wf(st: State) {
    && OnPlayable(st.board)
    && (st.selected.Some? ==> InBounds(st.selected.value) && Holds(st.board, st.selected.value, st.turn))
    && (st.winner.Some? ==> st.selected.None?)
  }

  lemma InitialWf()
    ensures Wf(InitialState())
  {
    forall s | At(InitialBoard(), s).Some? ensures Playable(s) {
      InitialLayout(s);
    }
  }

  /** The row on which a man of colour `c` is crowned. */
  function FarRow(c: Color): int {
    if c == White then 0 else Size - 1
  }

  /** The piece as it stands after landing on `to`: a man reaching its far row
      becomes a king; a king stays a king. */
  function Promote(p: Piece, to: Square): (q: Piece)
    ensures q.color == p.color
    ensures q.king <==> p.king || to.row == FarRow(p.color)
  {
    if !p.king && ((p.color == White && to.row == 0) || (p.color == Black && to.row == Size - 1))
    then p.(king := true)
    else p
  }

  /** The squares `doMove` writes are on the board and `from` holds the mover. */
  predicate Applicable(b: Board, m: Move) {
    InBounds(m.from) && At(b, m.from).Some? && InBounds(m.to) && forall c :: c in m.captured ==> InBounds(c)
  }

  /** Empties each square of `cs` in turn. */
  function ClearSquares(b: Board, cs: seq<Square>): (r: Board)
    requires forall c :: c in cs ==> InBounds(c)
    ensures forall t :: At(r, t) == if t in cs then None else At(b, t)
    decreases |cs|
  {
    if cs == [] then b else ClearSquares(Put(b, cs[0], None), cs[1..])
  }

  /** The board after `m`: `from` and the captured squares emptied, the (possibly
      crowned) mover on `to`. */
  function ApplyMove(b: Board, m: Move): (r: Board)
    requires Applicable(b, m)
    ensures forall t ::
              At(r, t) == if t == m.to then Some(Promote(At(b, m.from).value, m.to))
                          else if t == m.from || t in m.captured then None
                          else At(b, t)
  {
    var p := Promote(At(b, m.from).value, m.to);
    Put(ClearSquares(Put(b, m.from, None), m.captured), m.to, Some(p))
  }

  /** The three-way outcome of `doMove`. `view` is the board on which the
      follow-up captures and the opponent's moves are looked for. */
  function Conclude(st: State, m: Move, p: Piece, nb: Board, view: Board): State
    requires InBounds(m.to)
  {
    if |m.captured| > 0 && |MovesForPiece(view, m.to, p, true)| > 0 then
      st.(board := nb, selected := Some(m.to))
    else if |AllMoves(view, Opponent(st.turn))| == 0 then
      st.(board := nb, winner := Some(st.turn))
    else
      st.(board := nb, turn := Opponent(st.turn))
  }

  /** `doMove` as written: both follow-up checks read the board from before the move,
      because the generators close over the component's `board`, which `setBoard`
      does not change within the call. */
  function DoMove(st: State, m: Move): State
    requires Applicable(st.board, m)
  {
    Conclude(st, m, Promote(At(st.board, m.from).value, m.to), ApplyMove(st.board, m), st.board)
  }

  /** The moving piece, as crowned, can capture again from `s` on `view`. */
  ghost predicate CanCaptureFrom(view: Board, s: Square, p: Piece) {
    exists m :: PieceSpec(view, s, p, true, m)
  }

  /** No piece of colour `c` has any move on `view`. */
  ghost predicate Stuck(view: Board, c: Color) {
    forall m :: !IsCandidate(view, c, m)
  }

  lemma ConcludeOutcome(st: State, m: Move, p: Piece, nb: Board, view: Board)
    requires InBounds(m.to)
    ensures var r := Conclude(st, m, p, nb, view);
      && r.board == nb
      && (|m.captured| > 0 && CanCaptureFrom(view, m.to, p) ==>
            r.turn == st.turn && r.selected == Some(m.to) && r.winner == st.winner)
      && (!(|m.captured| > 0 && CanCaptureFrom(view, m.to, p)) && Stuck(view, Opponent(st.turn)) ==>
            r.turn == st.turn && r.selected == st.selected && r.winner == Some(st.turn))
      && (!(|m.captured| > 0 && CanCaptureFrom(view, m.to, p)) && !Stuck(view, Opponent(st.turn)) ==>
            r.turn == Opponent(st.turn) && r.selected == st.selected && r.winner == st.winner)
  {
    var follow := MovesForPiece(view, m.to, p, true);
    if |follow| > 0 {
      MovesForPieceSpec(view, m.to, p, true, follow[0]);
    }
    if CanCaptureFrom(view, m.to, p) {
      var w :| PieceSpec(view, m.to, p, true, w);
      MovesForPieceSpec(view, m.to, p, true, w);
    }
    AllMovesEmpty(view, Opponent(st.turn));
  }

  /** After a move the source keeps the turn when the move captured and the crowned
      mover can capture again from its landing square on the board from BEFORE the
      move; otherwise, when the opponent has no move on that same earlier board, the
      mover wins and the turn stays; otherwise the turn passes. */
  lemma DoMoveOutcome(st: State, m: Move)
    requires Applicable(st.board, m)
    ensures var r := DoMove(st, m);
      var p := Promote(At(st.board, m.from).value, m.to);
      var chain := |m.captured| > 0 && CanCaptureFrom(st.board, m.to, p);
      && r.board == ApplyMove(st.board, m)
      && (chain ==> r.turn == st.turn && r.selected == Some(m.to) && r.winner == st.winner)
      && (!chain && Stuck(st.board, Opponent(st.turn)) ==>
            r.turn == st.turn && r.selected == st.selected && r.winner == Some(st.turn))
      && (!chain && !Stuck(st.board, Opponent(st.turn)) ==>
            r.turn == Opponent(st.turn) && r.selected == st.selected && r.winner == st.winner)
  {
    ConcludeOutcome(st, m, Promote(At(st.board, m.from).value, m.to), ApplyMove(st.board, m), st.board);
  }

  /** `doMove` with both follow-up checks made on the board after the move, as the
      rules of the game intend: the chain continues only if the crowned mover can
      capture again there, and the mover wins when the opponent has no move left. */
  function DoMoveFixed(st: State, m: Move): State
    requires Applicable(st.board, m)
  {
    var nb := ApplyMove(st.board, m);
    Conclude(st, m, Promote(At(st.board, m.from).value, m.to), nb, nb)
  }

  lemma DoMoveFixedOutcome(st: State, m: Move)
    requires Applicable(st.board, m)
    ensures var r := DoMoveFixed(st, m);
      var p := Promote(At(st.board, m.from).value, m.to);
      var nb := ApplyMove(st.board, m);
      var chain := |m.captured| > 0 && CanCaptureFrom(nb, m.to, p);
      && r.board == nb
      && (chain ==> r.turn == st.turn && r.selected == Some(m.to) && r.winner == st.winner)
      && (!chain && Stuck(nb, Opponent(st.turn)) ==>
            r.turn == st.turn && r.selected == st.selected && r.winner == Some(st.turn))
      && (!chain && !Stuck(nb, Opponent(st.turn)) ==>
            r.turn == Opponent(st.turn) && r.selected == st.selected && r.winner == st.winner)
  {
    var nb := ApplyMove(st.board, m);
    ConcludeOutcome(st, m, Promote(At(st.board, m.from).value, m.to), nb, nb);
  }

  lemma {:induction false} PerDirectionCongruence(b1: Board, b2: Board, s: Square, p: Piece,
                                                  captureOnly: bool, ds: seq<Dir>)
    requires InBounds(s) && forall i :: 0 <= i < |ds| ==> ValidDir(ds[i])
    requires forall i :: 0 <= i < |ds| ==>
      DirMoves(b1, s, p, captureOnly, ds[i]) == DirMoves(b2, s, p, captureOnly, ds[i])
    ensures PerDirection(b1, s, p, captureOnly, ds) == PerDirection(b2, s, p, captureOnly, ds)
  {
    if ds != [] {
      assert DirMoves(b1, s, p, captureOnly, ds[0]) == DirMoves(b2, s, p, captureOnly, ds[0]);
      PerDirectionCongruence(b1, b2, s, p, captureOnly, ds[1..]);
    }
  }

  /** Boards on which `p` on `s` sees the same moves along every diagonal give it
      the same moves. */
  lemma MovesForPieceCongruence(b1: Board, b2: Board, s: Square, p: Piece, captureOnly: bool)
    requires InBounds(s)
    requires forall d :: ValidDir(d) ==> DirMoves(b1, s, p, captureOnly, d) == DirMoves(b2, s, p, captureOnly, d)
    ensures MovesForPiece(b1, s, p, captureOnly) == MovesForPiece(b2, s, p, captureOnly)
  {
    PerDirectionCongruence(b1, b2, s, p, captureOnly, Directions);
  }

  /** Seen from the landing square of a man's jump along `d0`, only the way back
      crosses a square the jump changed, and there the stale board and the updated
      one both offer no capture. */
  lemma ManDirUnaffected(b: Board, m: Move, p: Piece, d0: Dir, d: Dir)
    requires Applicable(b, m) && At(b, m.from) == Some(p) && !p.king && !Promote(p, m.to).king
    requires ValidDir(d0) && ValidDir(d)
    requires m.to == Ray(m.from, d0, 2) && m.captured == [Ray(m.from, d0, 1)]
    ensures DirMoves(b, m.to, p, true, d) == DirMoves(ApplyMove(b, m), m.to, p, true, d)
  {
    var nb := ApplyMove(b, m);
    var c := Ray(m.from, d0, 1);
    var t1 := Ray(m.to, d, 1);
    var t2 := Ray(m.to, d, 2);
    if d.dr == -d0.dr && d.dc == -d0.dc {
      assert t1 == c && t2 == m.from;
      assert At(nb, c).None?;
    } else {
      assert t1 != m.to && t1 != m.from && t1 != c && t1 !in m.captured;
      assert t2 != m.to && t2 != m.from && t2 != c && t2 !in m.captured;
      assert At(nb, t1) == At(b, t1) && At(nb, t2) == At(b, t2);
    }
  }

  /** For a jumping man that is not crowned, the stale board of `doMove` gives the
      same follow-up captures as the updated one: only kings and newly crowned men
      see a difference, which can be a phantom capture or a missed one. */
  lemma ManChainUnaffected(b: Board, c: Color, m: Move)
    requires m in AllMoves(b, c) && |m.captured| > 0
    requires At(b, m.from).Some? && !Promote(At(b, m.from).value, m.to).king
    ensures Applicable(b, m) && InBounds(m.to)
    ensures var p := Promote(At(b, m.from).value, m.to);
      MovesForPiece(b, m.to, p, true) == MovesForPiece(ApplyMove(b, m), m.to, p, true)
  {
    LegalApplicable(b, c, m);
    var p := At(b, m.from).value;
    ManMoveShape(b, m.from, p, false, m);
    var d0 :| ValidDir(d0) && m.to == Ray(m.from, d0, 2) && m.captured == [Ray(m.from, d0, 1)];
    forall d | ValidDir(d)
      ensures DirMoves(b, m.to, p, true, d) == DirMoves(ApplyMove(b, m), m.to, p, true, d)
    {
      ManDirUnaffected(b, m, p, d0, d);
    }
    MovesForPieceCongruence(b, ApplyMove(b, m), m.to, p, true);
  }

  // ---------------------------------------------------------------------------
  // The click handler

  /** The moves of `ms` that start on `s`, in order. */
  function FromSquare(ms: seq<Move>, s: Square): (r: seq<Move>)
    ensures forall m :: m in r <==> m in ms && m.from == s
  {
    if ms == [] then []
    else if ms[0].from == s then [ms[0]] + FromSquare(ms[1..], s)
    else FromSquare(ms[1..], s)
  }

  /** `find`: the first move of `ms` landing on `t`. */
  function FindTo(ms: seq<Move>, t: Square): (r: Option<Move>)
    ensures r.Some? ==> r.value in ms && r.value.to == t
    ensures r.None? ==> forall m :: m in ms ==> m.to != t
  {
    if ms == [] then None
    else if ms[0].to == t then Some(ms[0])
    else FindTo(ms[1..], t)
  }

  /** `find` returns the FIRST move of `ms` landing on `t`: every move before it lands
      elsewhere. */
  lemma {:induction false} FindToFirst(ms: seq<Move>, t: Square)
    ensures FindTo(ms, t).Some? ==>
      exists i :: 0 <= i < |ms| && ms[i] == FindTo(ms, t).value && forall j :: 0 <= j < i ==> ms[j].to != t
  {
    if ms != [] && ms[0].to != t {
      FindToFirst(ms[1..], t);
      if FindTo(ms[1..], t).Some? {
        var i :| 0 <= i < |ms[1..]| && ms[1..][i] == FindTo(ms[1..], t).value
          && forall j :: 0 <= j < i ==> ms[1..][j].to != t;
        assert ms[i + 1] == FindTo(ms, t).value;
        forall j | 0 <= j < i + 1 ensures ms[j].to != t {
          if j > 0 {
            assert ms[j] == ms[1..][j - 1];
          }
        }
      }
    } else if ms != [] {
      assert ms[0] == FindTo(ms, t).value;
    }
  }

  /** The move a click on `s` commits: the first legal move of the side to move that
      starts on the selected square and lands on `s`. */
  function ClickMove(st: State, s: Square): (r: Option<Move>)
    ensures r.Some? ==>
      r.value in AllMoves(st.board, st.turn) && st.selected == Some(r.value.from) && r.value.to == s
    ensures r.None? && st.selected.Some? ==>
      forall m :: m in AllMoves(st.board, st.turn) && m.from == st.selected.value ==> m.to != s
  {
    if st.selected.None? then None
    else FindTo(FromSquare(AllMoves(st.board, st.turn), st.selected.value), s)
  }

  /** A legal move starts on a piece of the side to move, satisfies `Sound`, and
      touches only squares of the board. */
  lemma LegalApplicable(b: Board, c: Color, m: Move)
    requires m in AllMoves(b, c)
    ensures IsCandidate(b, c, m) && Sound(b, m.from, At(b, m.from).value, false, m)
    ensures Applicable(b, m)
  {
    AllMovesSpec(b, c, m);
    MovesForPieceSound(b, m.from, At(b, m.from).value, false);
  }

  /** Every legal move lands on an empty square. */
  lemma LegalTargetsEmpty(b: Board, c: Color)
    ensures forall m :: m in AllMoves(b, c) ==> Empty(b, m.to)
  {
    forall m | m in AllMoves(b, c) ensures Empty(b, m.to) {
      LegalApplicable(b, c, m);
    }
  }

  /** The click on `s` commits exactly `mv` whenever `mv` is a legal move from the
      selected square to `s`: a piece has at most one move to each square, so the
      order in which `getAllMoves` lists the moves does not matter. */
  lemma ClickCommits(st: State, s: Square, mv: Move)
    requires mv in AllMoves(st.board, st.turn) && st.selected == Some(mv.from) && mv.to == s
    ensures ClickMove(st, s) == Some(mv)
  {
    var cm := ClickMove(st, s);
    assert cm.Some?;
    var m := cm.value;
    LegalApplicable(st.board, st.turn, m);
    LegalApplicable(st.board, st.turn, mv);
    MovesSameTarget(st.board, mv.from, At(st.board, mv.from).value, false, m, mv);
  }

  /** `handleCellClick` on square `s`. After a committed move the selection is always
      cleared: the `setSelected(null)` of the handler is applied after the
      `setSelected` that `doMove` issues when a capture chain continues. */
  function HandleClick(st: State, s: Square): (r: State)
    requires InBounds(s)
    ensures st.winner.Some? ==> r == st
    ensures st.winner.None? && r.selected.Some? ==>
      st.selected.None? && r.selected == Some(s) && Holds(st.board, s, st.turn)
      && r.board == st.board && r.turn == st.turn && r.winner == st.winner
    ensures st.winner.None? && st.selected.None? && Holds(st.board, s, st.turn) ==> r.selected == Some(s)
    ensures st.winner.None? && st.selected.Some? ==> r.selected.None?
    ensures ClickMove(st, s).None? ==> r.board == st.board && r.turn == st.turn && r.winner == st.winner
    ensures r.board != st.board ==>
      var cm := ClickMove(st, s);
      cm.Some? && Applicable(st.board, cm.value) && r.board == ApplyMove(st.board, cm.value)
    ensures st.winner.None? && ClickMove(st, s).Some? ==> Applicable(st.board, ClickMove(st, s).value)
    ensures st.winner.None? && ClickMove(st, s).Some? ==>
      r.board == ApplyMove(st.board, ClickMove(st, s).value)
  {
    if st.winner.Some? then st
    else if st.selected.Some? then
      match ClickMove(st, s)
      case Some(m) =>
        LegalApplicable(st.board, st.turn, m);
        DoMove(st, m).(selected := None)
      case None => st.(selected := None)
    else if Holds(st.board, s, st.turn) then st.(selected := Some(s))
    else st
  }

  /** A click that commits a move applies it and clears the selection; the turn stays
      with the mover when the move captured and the crowned mover can capture again,
      or when the opponent has no move, in which case the mover wins; otherwise the
      turn passes. Both conditions are judged on the board from before the move. */
  lemma HandleClickOutcome(st: State, s: Square)
    requires InBounds(s) && st.winner.None? && ClickMove(st, s).Some?
    ensures Applicable(st.board, ClickMove(st, s).value)
    ensures var m := ClickMove(st, s).value;
      var r := HandleClick(st, s);
      var p := Promote(At(st.board, m.from).value, m.to);
      var chain := |m.captured| > 0 && CanCaptureFrom(st.board, m.to, p);
      && r.board == ApplyMove(st.board, m) && r.selected.None?
      && (chain ==> r.turn == st.turn && r.winner.None?)
      && (!chain && Stuck(st.board, Opponent(st.turn)) ==> r.turn == st.turn && r.winner == Some(st.turn))
      && (!chain && !Stuck(st.board, Opponent(st.turn)) ==> r.turn == Opponent(st.turn) && r.winner.None?)
  {
    var m := ClickMove(st, s).value;
    LegalApplicable(st.board, st.turn, m);
    DoMoveOutcome(st, m);
    assert st.selected.Some?;
    assert HandleClick(st, s) == DoMove(st, m).(selected := None);
  }

  /** The click handler with `DoMoveFixed` in place of `doMove`: the same board and
      selection as the handler as written; only the turn and the winner may differ. */
  function HandleClickFixed(st: State, s: Square): (r: State)
    requires InBounds(s)
    ensures r.board == HandleClick(st, s).board && r.selected == HandleClick(st, s).selected
    ensures r.board != st.board ==> ClickMove(st, s).Some?
    ensures r.turn != st.turn ==> r.turn == Opponent(st.turn) && r.winner.None?
  {
    if st.winner.Some? then st
    else if st.selected.Some? then
      match ClickMove(st, s)
      case Some(m) =>
        LegalApplicable(st.board, st.turn, m);
        DoMoveOutcome(st, m);
        DoMoveFixedOutcome(st, m);
        DoMoveFixed(st, m).(selected := None)
      case None => st.(selected := None)
    else if Holds(st.board, s, st.turn) then st.(selected := Some(s))
    else st
  }

  /** A committed move keeps every piece on a dark square. */
  lemma ApplyMoveOnPlayable(b: Board, c: Color, m: Move)
    requires OnPlayable(b) && m in AllMoves(b, c)
    ensures Applicable(b, m) && OnPlayable(ApplyMove(b, m))
  {
    LegalApplicable(b, c, m);
    MoveParity(b, m.from, At(b, m.from).value, false, m);
  }

  /** Every state reachable by clicks from a well-formed state is well-formed. */
  lemma HandleClickWf(st: State, s: Square)
    requires InBounds(s) && Wf(st)
    ensures Wf(HandleClick(st, s))
  {
    if st.winner.None? && st.selected.Some? {
      var cm := ClickMove(st, s);
      if cm.Some? {
        var m := cm.value;
        LegalApplicable(st.board, st.turn, m);
        ApplyMoveOnPlayable(st.board, st.turn, m);
        DoMoveOutcome(st, m);
      }
    }
  }

  /** `getHints`: the squares the selected piece can move to. */
  function Hints(st: State): (h: set<Square>)
    ensures forall t :: t in h ==> Empty(st.board, t)
  {
    if st.selected.None? then {}
    else
      LegalTargetsEmpty(st.board, st.turn);
      set m | m in FromSquare(AllMoves(st.board, st.turn), st.selected.value) :: m.to
  }

  /** While the game runs, the highlighted squares are exactly the squares whose
      click commits a move. */
  lemma HintsAreClickTargets(st: State, t: Square)
    requires InBounds(t) && st.winner.None?
    ensures t in Hints(st) <==> ClickMove(st, t).Some?
  {
    if t in Hints(st) {
      var m :| m in FromSquare(AllMoves(st.board, st.turn), st.selected.value) && m.to == t;
    }
    if ClickMove(st, t).Some? {
      var m := ClickMove(st, t).value;
      assert m in FromSquare(AllMoves(st.board, st.turn), st.selected.value);
    }
  }
}
