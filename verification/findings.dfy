/** Four positions on which `doMove` of src/Board.jsx, reading the board from
    before the move for its follow-up checks, does not do what the rules of the
    game call for; and the same positions under `DoMoveFixed`, which reads the
    updated board. */
module Findings {
  import opened Checkers
  import opened MoveGen
  import opened Game

  const WhiteMan := Piece(White, false)
  const BlackMan := Piece(Black, false)
  const WhiteKing := Piece(White, true)

  /** A board holding exactly two pieces, `p` on `s` and `q` on `t`. */
  function TwoPieces(s: Square, p: Piece, t: Square, q: Piece): (b: Board)
    requires InBounds(s) && InBounds(t) && s != t
    ensures forall u :: At(b, u) == if u == s then Some(p) else if u == t then Some(q) else None
  {
    Put(Put(EmptyBoard(), s, Some(p)), t, Some(q))
  }

  // ---------------------------------------------------------------------------
  // The winner check on the stale board

  /** A white man on 5,2 and Black's only piece, a man on 4,3, in front of it with
      3,4 empty behind. */
  ghost predicate LastPieceBoard(b: Board) {
    forall u :: At(b, u) == if u == Sq(5, 2) then Some(WhiteMan) else if u == Sq(4, 3) then Some(BlackMan) else None
  }

  /** White to move with the man on 5,2 selected. */
  function LastPieceState(b: Board): State {
    State(b, Some(Sq(5, 2)), White, None)
  }

  /** The position can be set up, on dark squares, as a state the game can be in. */
  lemma LastPieceBoardExists()
    ensures var b := TwoPieces(Sq(5, 2), WhiteMan, Sq(4, 3), BlackMan);
      LastPieceBoard(b) && Wf(LastPieceState(b))
  {
  }

  /** The jump that takes Black's last piece. */
  const LastPieceJump := Move(Sq(5, 2), Sq(3, 4), [Sq(4, 3)])

  lemma LastPieceJumpCandidate(b: Board)
    requires LastPieceBoard(b)
    ensures IsCandidate(b, White, LastPieceJump)
  {
    var d := Dir(-1, 1);
    assert ValidDir(d) && DirSpec(b, Sq(5, 2), WhiteMan, false, d, LastPieceJump);
    MovesForPieceSpec(b, Sq(5, 2), WhiteMan, false, LastPieceJump);
  }

  lemma LastPieceJumpLegal(b: Board)
    requires LastPieceBoard(b)
    ensures ClickMove(LastPieceState(b), Sq(3, 4)) == Some(LastPieceJump)
  {
    LastPieceJumpCandidate(b);
    AllMovesSpec(b, White, LastPieceJump);
    ClickCommits(LastPieceState(b), Sq(3, 4), LastPieceJump);
  }

  /** On the old board the jumping man sees its victim again, but its own starting
      square is still occupied behind it: no follow-up capture. */
  lemma LastPieceNoFollowUp(b: Board)
    requires LastPieceBoard(b)
    ensures MovesForPiece(b, Sq(3, 4), WhiteMan, true) == []
  {
    forall d | ValidDir(d)
      ensures !(EnemyAt(b, WhiteMan, Ray(Sq(3, 4), d, 1)) && Empty(b, Ray(Sq(3, 4), d, 2)))
    {
    }
    ManCanCapture(b, Sq(3, 4), WhiteMan);
  }

  /** On the old board Black still has the capture of the white man on 5,2. */
  lemma LastPieceReply(b: Board)
    requires LastPieceBoard(b)
    ensures Move(Sq(4, 3), Sq(6, 1), [Sq(5, 2)]) in AllMoves(b, Black)
    ensures AllMoves(b, Black) != []
  {
    var reply := Move(Sq(4, 3), Sq(6, 1), [Sq(5, 2)]);
    var d := Dir(1, -1);
    assert ValidDir(d) && DirSpec(b, Sq(4, 3), BlackMan, false, d, reply);
    MovesForPieceSpec(b, Sq(4, 3), BlackMan, false, reply);
    assert IsCandidate(b, Black, reply);
    AllMovesSpec(b, Black, reply);
    AllMovesEmpty(b, Black);
  }

  /** As written: after White takes Black's last piece the game is not over; the turn
      passes to Black, who has no piece left, because the opponent's moves are
      generated on the board from before the jump. */
  lemma StaleWinnerCheck(b: Board)
    requires LastPieceBoard(b)
    ensures var r := HandleClick(LastPieceState(b), Sq(3, 4));
      && (forall t :: !Holds(r.board, t, Black))
      && r.turn == Black && r.winner == None
  {
    LastPieceJumpLegal(b);
    LastPieceNoFollowUp(b);
    LastPieceReply(b);
  }

  /** Corrected: the same click wins the game for White. */
  lemma FixedWinnerCheck(b: Board)
    requires LastPieceBoard(b)
    ensures var r := HandleClickFixed(LastPieceState(b), Sq(3, 4));
      r.winner == Some(White) && r.turn == White
  {
    LastPieceJumpLegal(b);
    var nb := ApplyMove(b, LastPieceJump);
    NoEnemyNoCapture(nb, Sq(3, 4), WhiteMan);
    NoPiecesNoMoves(nb, Black);
  }

  // ---------------------------------------------------------------------------
  // The king's follow-up capture on the stale board

  /** A white king on 4,5 and Black's only piece, a man on 2,3, on the king's
      diagonal with 3,4 and 1,2 empty. */
  ghost predicate KingBoard(b: Board) {
    forall u :: At(b, u) == if u == Sq(4, 5) then Some(WhiteKing) else if u == Sq(2, 3) then Some(BlackMan) else None
  }

  /** White to move with the king selected. */
  function KingState(b: Board): State {
    State(b, Some(Sq(4, 5)), White, None)
  }

  lemma KingBoardExists()
    ensures var b := TwoPieces(Sq(4, 5), WhiteKing, Sq(2, 3), BlackMan);
      KingBoard(b) && Wf(KingState(b))
  {
  }

  /** The flying capture over 2,3 that lands on 1,2. */
  const KingJump := Move(Sq(4, 5), Sq(1, 2), [Sq(2, 3)])

  lemma KingJumpCandidate(b: Board)
    requires KingBoard(b)
    ensures IsCandidate(b, White, KingJump)
  {
    var d := Dir(-1, -1);
    RunToHere(b, Sq(4, 5), d, 3);
    FlyingJumpHere(b, Sq(4, 5), WhiteKing, d, 2, KingJump);
    FlyingJumpCons(b, Sq(4, 5), WhiteKing, d, 1, KingJump);
    assert ValidDir(d) && DirSpec(b, Sq(4, 5), WhiteKing, false, d, KingJump);
    MovesForPieceSpec(b, Sq(4, 5), WhiteKing, false, KingJump);
  }

  lemma KingJumpLegal(b: Board)
    requires KingBoard(b)
    ensures ClickMove(KingState(b), Sq(1, 2)) == Some(KingJump)
  {
    KingJumpCandidate(b);
    AllMovesSpec(b, White, KingJump);
    ClickCommits(KingState(b), Sq(1, 2), KingJump);
  }

  /** On the old board the king, landed on 1,2, sees the man on 2,3 again with 3,4
      empty behind it (and its own start square 4,5 after that). */
  lemma KingSeesVictimAgain(b: Board)
    requires KingBoard(b)
    ensures Move(Sq(1, 2), Sq(3, 4), [Sq(2, 3)]) in MovesForPiece(b, Sq(1, 2), WhiteKing, true)
  {
    var again := Move(Sq(1, 2), Sq(3, 4), [Sq(2, 3)]);
    var d := Dir(1, 1);
    RunToHere(b, Sq(1, 2), d, 2);
    FlyingJumpHere(b, Sq(1, 2), WhiteKing, d, 1, again);
    assert ValidDir(d) && DirSpec(b, Sq(1, 2), WhiteKing, true, d, again);
    MovesForPieceSpec(b, Sq(1, 2), WhiteKing, true, again);
  }

  /** As written: after the king captures Black's last piece, the follow-up check
      finds a second capture of that same piece (still on the old board), so White
      keeps the turn, no winner is declared, and the selection is dropped — although
      the king has nothing left to capture. */
  lemma StaleKingFollowUp(b: Board)
    requires KingBoard(b)
    ensures var st := KingState(b);
      var r := HandleClick(st, Sq(1, 2));
      && DoMove(st, KingJump).selected == Some(Sq(1, 2))
      && (forall t :: !Holds(r.board, t, Black))
      && MovesForPiece(r.board, Sq(1, 2), WhiteKing, true) == []
      && r.turn == White && r.winner == None && r.selected == None
  {
    KingJumpLegal(b);
    KingSeesVictimAgain(b);
    NoEnemyNoCapture(ApplyMove(b, KingJump), Sq(1, 2), WhiteKing);
  }

  /** Corrected: the same click wins the game for White. */
  lemma FixedKingFollowUp(b: Board)
    requires KingBoard(b)
    ensures var r := HandleClickFixed(KingState(b), Sq(1, 2));
      r.winner == Some(White) && r.turn == White
  {
    KingJumpLegal(b);
    var nb := ApplyMove(b, KingJump);
    NoEnemyNoCapture(nb, Sq(1, 2), WhiteKing);
    NoPiecesNoMoves(nb, Black);
  }

  // ---------------------------------------------------------------------------
  // A real capture chain cut short on the stale board

  /** A white king on 4,3 and black men on 3,2 and 6,5: after the king takes 3,2 and
      lands on 2,1, the man on 6,5 lies on the diagonal back through 3,2 and 4,3. */
  ghost predicate ChainCutBoard(b: Board) {
    forall u :: At(b, u) ==
      if u == Sq(4, 3) then Some(WhiteKing)
      else if u == Sq(3, 2) || u == Sq(6, 5) then Some(BlackMan)
      else None
  }

  /** White to move with the king selected. */
  function ChainCutState(b: Board): State {
    State(b, Some(Sq(4, 3)), White, None)
  }

  lemma ChainCutBoardExists()
    ensures var b := Put(TwoPieces(Sq(4, 3), WhiteKing, Sq(3, 2), BlackMan), Sq(6, 5), Some(BlackMan));
      ChainCutBoard(b) && Wf(ChainCutState(b))
  {
  }

  /** The capture over 3,2 that lands on 2,1. */
  const ChainCutJump := Move(Sq(4, 3), Sq(2, 1), [Sq(3, 2)])

  /** The second capture the king has once 3,2 and 4,3 are empty: over 6,5 onto 7,6. */
  const ChainCutSecond := Move(Sq(2, 1), Sq(7, 6), [Sq(6, 5)])

  lemma ChainCutJumpLegal(b: Board)
    requires ChainCutBoard(b)
    ensures ClickMove(ChainCutState(b), Sq(2, 1)) == Some(ChainCutJump)
  {
    var d := Dir(-1, -1);
    RunToHere(b, Sq(4, 3), d, 2);
    FlyingJumpHere(b, Sq(4, 3), WhiteKing, d, 1, ChainCutJump);
    assert ValidDir(d) && DirSpec(b, Sq(4, 3), WhiteKing, false, d, ChainCutJump);
    MovesForPieceSpec(b, Sq(4, 3), WhiteKing, false, ChainCutJump);
    AllMovesSpec(b, White, ChainCutJump);
    ClickCommits(ChainCutState(b), Sq(2, 1), ChainCutJump);
  }

  /** On the old board the king on 2,1 has no capture: three of its diagonals run
      off the board over empty squares, and on the fourth the man on 3,2 is backed
      by the king's own start square 4,3. */
  lemma ChainCutNoStaleCapture(b: Board)
    requires ChainCutBoard(b)
    ensures MovesForPiece(b, Sq(2, 1), WhiteKing, true) == []
  {
    var from := Sq(2, 1);
    assert KingRay(b, from, WhiteKing, true, Dir(-1, -1), 1, None) == [] by {
      assert KingRay(b, from, WhiteKing, true, Dir(-1, -1), 2, None) == [];
    }
    assert KingRay(b, from, WhiteKing, true, Dir(-1, 1), 1, None) == [] by {
      assert KingRay(b, from, WhiteKing, true, Dir(-1, 1), 3, None) == [];
      assert KingRay(b, from, WhiteKing, true, Dir(-1, 1), 2, None) == [];
    }
    assert KingRay(b, from, WhiteKing, true, Dir(1, -1), 1, None) == [] by {
      assert KingRay(b, from, WhiteKing, true, Dir(1, -1), 2, None) == [];
    }
    assert KingRay(b, from, WhiteKing, true, Dir(1, 1), 1, None) == [] by {
      assert KingRay(b, from, WhiteKing, true, Dir(1, 1), 2, Some(Sq(3, 2))) == [];
    }
    assert PerDirection(b, from, WhiteKing, true, Directions[3..]) == [];
    assert PerDirection(b, from, WhiteKing, true, Directions[2..]) == [];
    assert PerDirection(b, from, WhiteKing, true, Directions[1..]) == [];
  }

  /** On the old board Black can take the king on 4,3 with the man on 3,2. */
  lemma ChainCutReply(b: Board)
    requires ChainCutBoard(b)
    ensures AllMoves(b, Black) != []
  {
    var reply := Move(Sq(3, 2), Sq(5, 4), [Sq(4, 3)]);
    var d := Dir(1, 1);
    assert ValidDir(d) && DirSpec(b, Sq(3, 2), BlackMan, false, d, reply);
    MovesForPieceSpec(b, Sq(3, 2), BlackMan, false, reply);
    assert IsCandidate(b, Black, reply);
    AllMovesEmpty(b, Black);
  }

  /** After the jump the king on 2,1 can capture the man on 6,5. */
  lemma ChainCutSecondCapture(b: Board)
    requires ChainCutBoard(b)
    ensures Applicable(b, ChainCutJump)
    ensures ChainCutSecond in MovesForPiece(ApplyMove(b, ChainCutJump), Sq(2, 1), WhiteKing, true)
  {
    var nb := ApplyMove(b, ChainCutJump);
    var d := Dir(1, 1);
    RunToHere(nb, Sq(2, 1), d, 5);
    FlyingJumpHere(nb, Sq(2, 1), WhiteKing, d, 4, ChainCutSecond);
    FlyingJumpCons(nb, Sq(2, 1), WhiteKing, d, 3, ChainCutSecond);
    FlyingJumpCons(nb, Sq(2, 1), WhiteKing, d, 2, ChainCutSecond);
    FlyingJumpCons(nb, Sq(2, 1), WhiteKing, d, 1, ChainCutSecond);
    assert ValidDir(d) && DirSpec(nb, Sq(2, 1), WhiteKing, true, d, ChainCutSecond);
    MovesForPieceSpec(nb, Sq(2, 1), WhiteKing, true, ChainCutSecond);
  }

  /** As written: the follow-up check looks along the old board, where the king's
      own start square hides the man on 6,5, so the turn passes to Black in the
      middle of a capture chain the king could continue on the board it leaves. */
  lemma StaleChainCut(b: Board)
    requires ChainCutBoard(b)
    ensures var r := HandleClick(ChainCutState(b), Sq(2, 1));
      && ChainCutSecond in MovesForPiece(r.board, Sq(2, 1), WhiteKing, true)
      && r.turn == Black && r.winner == None
  {
    ChainCutJumpLegal(b);
    ChainCutNoStaleCapture(b);
    ChainCutReply(b);
    ChainCutSecondCapture(b);
  }

  /** Corrected: the same click keeps the turn with White so the chain can go on. */
  lemma FixedChainCut(b: Board)
    requires ChainCutBoard(b)
    ensures var r := HandleClickFixed(ChainCutState(b), Sq(2, 1));
      r.turn == White && r.winner == None
  {
    ChainCutJumpLegal(b);
    ChainCutSecondCapture(b);
  }

  // ---------------------------------------------------------------------------
  // A premature win declared on the stale board

  /** A black man on 6,1 hemmed in by white men on 7,0 and 7,2 (ahead of it) and on
      5,0 and 5,2 (behind it), with a white man on 4,3 covering the square behind
      5,2. */
  ghost predicate HemmedBoard(b: Board) {
    forall u :: At(b, u) ==
      if u == Sq(6, 1) then Some(BlackMan)
      else if u in {Sq(7, 0), Sq(7, 2), Sq(5, 0), Sq(5, 2), Sq(4, 3)} then Some(WhiteMan)
      else None
  }

  /** White to move with the man on 7,2 selected. */
  function HemmedState(b: Board): State {
    State(b, Some(Sq(7, 2)), White, None)
  }

  lemma HemmedBoardExists()
    ensures var b := Put(Put(Put(Put(TwoPieces(Sq(6, 1), BlackMan, Sq(7, 0), WhiteMan),
                                     Sq(7, 2), Some(WhiteMan)), Sq(5, 0), Some(WhiteMan)),
                             Sq(5, 2), Some(WhiteMan)), Sq(4, 3), Some(WhiteMan));
      HemmedBoard(b) && Wf(HemmedState(b))
  {
  }

  /** The step that unblocks 7,2. */
  const UnblockStep := Move(Sq(7, 2), Sq(6, 3), [])

  /** Every square next to 6,1 is occupied, so no white man can jump the black one. */
  lemma HemmedNoWhiteCapture(b: Board, m: Move)
    requires HemmedBoard(b) && IsCandidate(b, White, m)
    ensures |m.captured| == 0
  {
    var p := At(b, m.from).value;
    MovesForPieceSound(b, m.from, p, false);
    ManMoveShape(b, m.from, p, false, m);
  }

  /** The black man has neither a step nor a jump. */
  lemma HemmedBlackStuck(b: Board, m: Move)
    requires HemmedBoard(b)
    ensures !IsCandidate(b, Black, m)
  {
    if IsCandidate(b, Black, m) {
      MovesForPieceSound(b, m.from, BlackMan, false);
      ManMoveShape(b, m.from, BlackMan, false, m);
    }
  }

  lemma UnblockStepLegal(b: Board)
    requires HemmedBoard(b)
    ensures ClickMove(HemmedState(b), Sq(6, 3)) == Some(UnblockStep)
  {
    var d := Dir(-1, 1);
    assert ValidDir(d) && DirSpec(b, Sq(7, 2), WhiteMan, false, d, UnblockStep);
    MovesForPieceSpec(b, Sq(7, 2), WhiteMan, false, UnblockStep);
    forall m | IsCandidate(b, White, m) ensures |m.captured| == 0 {
      HemmedNoWhiteCapture(b, m);
    }
    AllMovesSpec(b, White, UnblockStep);
    var m := ClickMove(HemmedState(b), Sq(6, 3)).value;
    LegalApplicable(b, White, m);
    HemmedNoWhiteCapture(b, m);
  }

  /** After the step the black man still has no capture: the squares behind its
      neighbours are off the board or occupied, and 7,2 is now empty. */
  lemma UnblockedNoBlackCapture(b: Board, m: Move)
    requires HemmedBoard(b) && IsCandidate(ApplyMove(b, UnblockStep), Black, m)
    ensures |m.captured| == 0
  {
    var nb := ApplyMove(b, UnblockStep);
    MovesForPieceSound(nb, m.from, BlackMan, false);
    ManMoveShape(nb, m.from, BlackMan, false, m);
  }

  /** After the step Black can move 6,1 to 7,2. */
  lemma HemmedReply(b: Board)
    requires HemmedBoard(b)
    ensures Applicable(b, UnblockStep)
    ensures Move(Sq(6, 1), Sq(7, 2), []) in AllMoves(ApplyMove(b, UnblockStep), Black)
    ensures AllMoves(ApplyMove(b, UnblockStep), Black) != []
  {
    var nb := ApplyMove(b, UnblockStep);
    var reply := Move(Sq(6, 1), Sq(7, 2), []);
    var d := Dir(1, 1);
    assert ValidDir(d) && DirSpec(nb, Sq(6, 1), BlackMan, false, d, reply);
    MovesForPieceSpec(nb, Sq(6, 1), BlackMan, false, reply);
    assert IsCandidate(nb, Black, reply);
    forall m | IsCandidate(nb, Black, m) ensures |m.captured| == 0 {
      UnblockedNoBlackCapture(b, m);
    }
    AllMovesSpec(nb, Black, reply);
    AllMovesEmpty(nb, Black);
  }

  /** As written: the step that frees a square for the black man ends the game in
      White's favour, because Black's moves are generated on the board from before
      the step, where the man is still hemmed in; yet Black has a move. */
  lemma PrematureWin(b: Board)
    requires HemmedBoard(b)
    ensures var r := HandleClick(HemmedState(b), Sq(6, 3));
      && r.winner == Some(White) && r.board == ApplyMove(b, UnblockStep)
      && AllMoves(r.board, Black) != []
  {
    UnblockStepLegal(b);
    HemmedReply(b);
    forall m ensures !IsCandidate(b, Black, m) {
      HemmedBlackStuck(b, m);
    }
    AllMovesEmpty(b, Black);
  }

  /** Corrected: the same click passes the turn to Black and declares no winner. */
  lemma FixedPrematureWin(b: Board)
    requires HemmedBoard(b)
    ensures var r := HandleClickFixed(HemmedState(b), Sq(6, 3));
      r.winner.None? && r.turn == Black
  {
    UnblockStepLegal(b);
    HemmedReply(b);
  }
}
