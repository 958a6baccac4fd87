/** Plays from src/Board.jsx traced on the model: the opening move of the game
    and a forced capture. */
module Scenarios {
  import opened Checkers
  import opened MoveGen
  import opened Game

  /** `b` has the layout `initBoard` builds. */
  ghost predicate IsInitial(b: Board) {
    forall s :: InBounds(s) ==> At(b, s) == InitialCell(s.row, s.col)
  }

  lemma InitialIsInitial()
    ensures IsInitial(InitialBoard())
  {
  }

  /** On the starting layout no white man has an enemy next to it, so no white move
      captures and every white move is allowed. */
  lemma OpeningHasNoCapture(b: Board)
    requires IsInitial(b)
    ensures forall m :: m in AllMoves(b, White) <==> IsCandidate(b, White, m)
  {
    forall m | IsCandidate(b, White, m) ensures |m.captured| == 0 {
      var p := At(b, m.from).value;
      assert !p.king && m.from.row >= 5;
      ManMoveShape(b, m.from, p, false, m);
      MovesForPieceSound(b, m.from, p, false);
    }
    forall m ensures m in AllMoves(b, White) <==> IsCandidate(b, White, m) {
      AllMovesSpec(b, White, m);
    }
  }

  /** The white man on 5,0 steps to 4,1. */
  const OpeningStep := Move(Sq(5, 0), Sq(4, 1), [])

  /** Black has the step 2,1 to 3,0 in reply. */
  lemma OpeningReply(b: Board)
    requires IsInitial(b)
    ensures AllMoves(b, Black) != []
  {
    var reply := Move(Sq(2, 1), Sq(3, 0), []);
    var d := Dir(1, -1);
    assert ValidDir(d) && DirSpec(b, Sq(2, 1), Piece(Black, false), false, d, reply);
    MovesForPieceSpec(b, Sq(2, 1), Piece(Black, false), false, reply);
    assert IsCandidate(b, Black, reply);
    AllMovesEmpty(b, Black);
  }

  lemma OpeningClick(b: Board)
    requires IsInitial(b)
    ensures ClickMove(State(b, Some(Sq(5, 0)), White, None), Sq(4, 1)) == Some(OpeningStep)
  {
    var st := State(b, Some(Sq(5, 0)), White, None);
    var d := Dir(-1, 1);
    assert ValidDir(d) && DirSpec(b, Sq(5, 0), Piece(White, false), false, d, OpeningStep);
    MovesForPieceSpec(b, Sq(5, 0), Piece(White, false), false, OpeningStep);
    OpeningHasNoCapture(b);
    var m := ClickMove(st, Sq(4, 1)).value;
    ManMoveShape(b, Sq(5, 0), Piece(White, false), false, m);
  }

  /** Clicking the white man on 5,0 selects it; clicking 4,1 then moves it there and
      passes the turn to Black. */
  lemma Opening(b: Board)
    requires IsInitial(b)
    ensures var st0 := State(b, None, White, None);
      var st1 := HandleClick(st0, Sq(5, 0));
      var st2 := HandleClick(st1, Sq(4, 1));
      && st1 == st0.(selected := Some(Sq(5, 0)))
      && st2.turn == Black && st2.winner == None && st2.selected == None
      && At(st2.board, Sq(4, 1)) == Some(Piece(White, false)) && At(st2.board, Sq(5, 0)) == None
  {
    OpeningClick(b);
    OpeningReply(b);
  }

  // ---------------------------------------------------------------------------

  /** Black men on 2,1 and 0,7 and a white man on 3,2, diagonally in front of the
      first with 4,3 empty behind it. */
  ghost predicate ForcedBoard(b: Board) {
    forall u :: At(b, u) ==
      if u == Sq(2, 1) || u == Sq(0, 7) then Some(Piece(Black, false))
      else if u == Sq(3, 2) then Some(Piece(White, false))
      else None
  }

  lemma ForcedBoardExists()
    ensures ForcedBoard(Put(Put(Put(EmptyBoard(), Sq(2, 1), Some(Piece(Black, false))),
                                Sq(0, 7), Some(Piece(Black, false))),
                            Sq(3, 2), Some(Piece(White, false))))
  {
  }

  const ForcedJump := Move(Sq(2, 1), Sq(4, 3), [Sq(3, 2)])

  lemma ForcedJumpCandidate(b: Board)
    requires ForcedBoard(b)
    ensures IsCandidate(b, Black, ForcedJump)
  {
    var d := Dir(1, 1);
    assert ValidDir(d) && DirSpec(b, Sq(2, 1), Piece(Black, false), false, d, ForcedJump);
    MovesForPieceSpec(b, Sq(2, 1), Piece(Black, false), false, ForcedJump);
  }

  /** The jump is the only capture Black has. */
  lemma ForcedJumpOnly(b: Board, m: Move)
    requires ForcedBoard(b) && IsCandidate(b, Black, m) && |m.captured| > 0
    ensures m == ForcedJump
  {
    var p := At(b, m.from).value;
    ManMoveShape(b, m.from, p, false, m);
    MovesForPieceSound(b, m.from, p, false);
    var d :| ValidDir(d) && m.to == Ray(m.from, d, 2) && m.captured == [Ray(m.from, d, 1)];
    assert Ray(m.from, d, 1) == Sq(3, 2);
  }

  /** The jump is Black's only move: the steps of both men, which `getMovesForPiece`
      produces, are dropped by the capture filter. */
  /** Without the capture rule Black would also have the plain steps 2,1 to 3,0 and
      0,7 to 1,6. */
  lemma ForcedStepsCandidates(b: Board)
    requires ForcedBoard(b)
    ensures IsCandidate(b, Black, Move(Sq(2, 1), Sq(3, 0), []))
    ensures IsCandidate(b, Black, Move(Sq(0, 7), Sq(1, 6), []))
  {
    var d := Dir(1, -1);
    var m1 := Move(Sq(2, 1), Sq(3, 0), []);
    var m2 := Move(Sq(0, 7), Sq(1, 6), []);
    assert ValidDir(d) && DirSpec(b, Sq(2, 1), Piece(Black, false), false, d, m1);
    MovesForPieceSpec(b, Sq(2, 1), Piece(Black, false), false, m1);
    assert ValidDir(d) && DirSpec(b, Sq(0, 7), Piece(Black, false), false, d, m2);
    MovesForPieceSpec(b, Sq(0, 7), Piece(Black, false), false, m2);
  }

  lemma ForcedCapture(b: Board)
    requires ForcedBoard(b)
    ensures IsCandidate(b, Black, Move(Sq(2, 1), Sq(3, 0), []))
    ensures IsCandidate(b, Black, Move(Sq(0, 7), Sq(1, 6), []))
    ensures forall m :: m in AllMoves(b, Black) <==> m == ForcedJump
  {
    ForcedStepsCandidates(b);
    ForcedJumpCandidate(b);
    forall m ensures m in AllMoves(b, Black) <==> m == ForcedJump {
      AllMovesSpec(b, Black, m);
      if IsCandidate(b, Black, m) && |m.captured| > 0 {
        ForcedJumpOnly(b, m);
      }
    }
  }
}
