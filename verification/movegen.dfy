/** Move generation of src/Board.jsx: `getMovesForPiece` (men and flying kings, with
    the `captureOnly` switch) and `getAllMoves` (all pieces of a colour, with the
    forced-capture filter). The board is an explicit parameter. */
module MoveGen {
  import opened Checkers

  /** One jump or step; `captured` lists the squares emptied by it. */
  datatype Move = Move(from: Square, to: Square, captured: seq<Square>)

  /** A diagonal direction, one row and one column per step. */
  datatype Dir = Dir(dr: int, dc: int)

  predicate ValidDir(d: Dir) {
    (d.dr == 1 || d.dr == -1) && (d.dc == 1 || d.dc == -1)
  }

  /** The four diagonals, in the order the source scans them. */
  const Directions: seq<Dir> := [Dir(-1, -1), Dir(-1, 1), Dir(1, -1), Dir(1, 1)]

  /** The square `k` steps from `from` along `d`. */
  function Ray(from: Square, d: Dir, k: int): Square {
    Sq(from.row + (if d.dr < 0 then -k else k), from.col + (if d.dc < 0 then -k else k))
  }

  /** The row step of a man's non-capturing move: white moves up, black down. */
  function Forward(c: Color): int {
    if c == White then -1 else 1
  }

  /** `s` holds a piece of the other colour than `p`. */
  predicate EnemyAt(b: Board, p: Piece, s: Square) {
    At(b, s).Some? && At(b, s).value.color != p.color
  }

  predicate SameParity(a: Square, b: Square) {
    (a.row + a.col) % 2 == (b.row + b.col) % 2
  }

  /** What every move generated for `p` standing on `from` satisfies: it starts at
      `from`, lands on an empty square, and captures at most one piece, which is an
      enemy; with `captureOnly` it always captures. */
  predicate Sound(b: Board, from: Square, p: Piece, captureOnly: bool, m: Move) {
    && m.from == from
    && Empty(b, m.to)
    && |m.captured| <= 1
    && (|m.captured| == 1 ==> EnemyAt(b, p, m.captured[0]))
    && (captureOnly ==> |m.captured| == 1)
  }

  /** The moves of a man along one diagonal: a forward step onto an empty square,
      or a jump over an adjacent enemy onto the empty square behind it (in any
      direction). */
  function ManStep(b: Board, from: Square, p: Piece, captureOnly: bool, d: Dir): (r: seq<Move>)
    requires InBounds(from) && ValidDir(d)
    ensures |r| <= 1
  {
    var t := Ray(from, d, 1);
    if !InBounds(t) then []
    else if At(b, t).None? && !captureOnly then
      if d.dr == Forward(p.color) then [Move(from, t, [])] else []
    else if EnemyAt(b, p, t) then
      var t2 := Ray(from, d, 2);
      if InBounds(t2) && At(b, t2).None? then [Move(from, t2, [t])] else []
    else []
  }

  /** The scan of a king along one diagonal from step `k` on; `captured` is the enemy
      already passed over on this ray, if any. */
  function KingRay(b: Board, from: Square, p: Piece, captureOnly: bool, d: Dir, k: int,
                   captured: Option<Square>): seq<Move>
    requires InBounds(from) && ValidDir(d) && k >= 1
    decreases Size - k
  {
    var t := Ray(from, d, k);
    if !InBounds(t) then []
    else if At(b, t).None? then
      var rest := KingRay(b, from, p, captureOnly, d, k + 1, captured);
      if captured.Some? then [Move(from, t, [captured.value])] + rest
      else if !captureOnly then [Move(from, t, [])] + rest
      else rest
    else if EnemyAt(b, p, t) && captured.None? then
      KingRay(b, from, p, captureOnly, d, k + 1, Some(t))
    else []
  }

  /** The moves of `p` along one diagonal. */
  function DirMoves(b: Board, from: Square, p: Piece, captureOnly: bool, d: Dir): seq<Move>
    requires InBounds(from) && ValidDir(d)
  {
    if p.king then KingRay(b, from, p, captureOnly, d, 1, None)
    else ManStep(b, from, p, captureOnly, d)
  }

  /** The moves of `p` along each diagonal of `ds` in turn. */
  function PerDirection(b: Board, from: Square, p: Piece, captureOnly: bool, ds: seq<Dir>): seq<Move>
    requires InBounds(from) && forall i :: 0 <= i < |ds| ==> ValidDir(ds[i])
  {
    if ds == [] then []
    else DirMoves(b, from, p, captureOnly, ds[0]) + PerDirection(b, from, p, captureOnly, ds[1..])
  }

  /** `getMovesForPiece`: every move of `p` standing on `from`. */
  function MovesForPiece(b: Board, from: Square, p: Piece, captureOnly: bool): seq<Move>
    requires InBounds(from)
  {
    PerDirection(b, from, p, captureOnly, Directions)
  }

  lemma ManStepSound(b: Board, from: Square, p: Piece, captureOnly: bool, d: Dir)
    requires InBounds(from) && ValidDir(d)
    ensures forall m :: m in ManStep(b, from, p, captureOnly, d) ==> Sound(b, from, p, captureOnly, m)
  {
  }

  /** A king's ray yields only sound moves, given that the square it carries as
      captured holds an enemy. */
  lemma {:induction false} KingRaySound(b: Board, from: Square, p: Piece, captureOnly: bool, d: Dir, k: int,
                                        captured: Option<Square>)
    requires InBounds(from) && ValidDir(d) && k >= 1
    requires captured.Some? ==> EnemyAt(b, p, captured.value)
    ensures forall m :: m in KingRay(b, from, p, captureOnly, d, k, captured) ==> Sound(b, from, p, captureOnly, m)
    decreases Size - k
  {
    var t := Ray(from, d, k);
    if InBounds(t) {
      if At(b, t).None? {
        KingRaySound(b, from, p, captureOnly, d, k + 1, captured);
      } else if EnemyAt(b, p, t) && captured.None? {
        KingRaySound(b, from, p, captureOnly, d, k + 1, Some(t));
      }
    }
  }

  lemma {:induction false} PerDirectionSound(b: Board, from: Square, p: Piece, captureOnly: bool, ds: seq<Dir>)
    requires InBounds(from) && forall i :: 0 <= i < |ds| ==> ValidDir(ds[i])
    ensures forall m :: m in PerDirection(b, from, p, captureOnly, ds) ==> Sound(b, from, p, captureOnly, m)
  {
    if ds != [] {
      if p.king {
        KingRaySound(b, from, p, captureOnly, ds[0], 1, None);
      } else {
        ManStepSound(b, from, p, captureOnly, ds[0]);
      }
      PerDirectionSound(b, from, p, captureOnly, ds[1..]);
    }
  }

  /** Every move `getMovesForPiece` yields starts on `from`, lands on an empty
      square, and captures at most one piece, an enemy; with `captureOnly` it
      always captures. */
  lemma MovesForPieceSound(b: Board, from: Square, p: Piece, captureOnly: bool)
    requires InBounds(from)
    ensures forall m :: m in MovesForPiece(b, from, p, captureOnly) ==> Sound(b, from, p, captureOnly, m)
  {
    PerDirectionSound(b, from, p, captureOnly, Directions);
  }

  // ---------------------------------------------------------------------------
  // A declarative description of the moves, independent of the scanning order.

  /** Steps `lo` up to (excluding) `hi` along `d` are all empty squares. */
  predicate Clear(b: Board, from: Square, d: Dir, lo: int, hi: int) {
    forall i :: lo <= i < hi ==> Empty(b, Ray(from, d, i))
  }

  /** `t` is reached from step `lo` on along `d` over empty squares only. */
  ghost predicate RunTo(b: Board, from: Square, d: Dir, lo: int, t: Square) {
    exists k :: lo <= k && t == Ray(from, d, k) && Clear(b, from, d, lo, k + 1)
  }

  /** A flying capture along `d`: the first piece met from step `lo` on is an enemy,
      it is the only capture, and `m` lands on an empty square past it with nothing
      in between. */
  ghost predicate FlyingJump(b: Board, from: Square, p: Piece, d: Dir, lo: int, m: Move) {
    exists e :: lo <= e && EnemyAt(b, p, Ray(from, d, e)) && Clear(b, from, d, lo, e)
      && m.captured == [Ray(from, d, e)] && RunTo(b, from, d, e + 1, m.to)
  }

  ghost predicate KingSpec(b: Board, from: Square, p: Piece, captureOnly: bool, d: Dir, m: Move) {
    m.from == from &&
    ((!captureOnly && m.captured == [] && RunTo(b, from, d, 1, m.to)) || FlyingJump(b, from, p, d, 1, m))
  }

  predicate ManSpec(b: Board, from: Square, p: Piece, captureOnly: bool, d: Dir, m: Move) {
    m.from == from &&
    ((&& !captureOnly && d.dr == Forward(p.color) && m.captured == []
      && m.to == Ray(from, d, 1) && Empty(b, m.to))
     || (&& EnemyAt(b, p, Ray(from, d, 1)) && m.captured == [Ray(from, d, 1)]
         && m.to == Ray(from, d, 2) && Empty(b, m.to)))
  }

  ghost predicate DirSpec(b: Board, from: Square, p: Piece, captureOnly: bool, d: Dir, m: Move) {
    if p.king then KingSpec(b, from, p, captureOnly, d, m) else ManSpec(b, from, p, captureOnly, d, m)
  }

  /** `m` is a move of `p` on `from` along some diagonal. */
  ghost predicate PieceSpec(b: Board, from: Square, p: Piece, captureOnly: bool, m: Move) {
    exists d :: ValidDir(d) && DirSpec(b, from, p, captureOnly, d, m)
  }

  lemma ManStepSpec(b: Board, from: Square, p: Piece, captureOnly: bool, d: Dir, m: Move)
    requires InBounds(from) && ValidDir(d)
    ensures m in ManStep(b, from, p, captureOnly, d) <==> ManSpec(b, from, p, captureOnly, d, m)
  {
  }

  /** An empty square at step `k` extends an empty run starting at `k + 1`. */
  lemma ClearCons(b: Board, from: Square, d: Dir, k: int, j: int)
    requires Empty(b, Ray(from, d, k)) && Clear(b, from, d, k + 1, j)
    ensures Clear(b, from, d, k, j)
  {
  }

  lemma RunToCons(b: Board, from: Square, d: Dir, k: int, t: Square)
    requires Empty(b, Ray(from, d, k)) && RunTo(b, from, d, k + 1, t)
    ensures RunTo(b, from, d, k, t)
  {
    var j :| k + 1 <= j && t == Ray(from, d, j) && Clear(b, from, d, k + 1, j + 1);
    ClearCons(b, from, d, k, j + 1);
  }

  lemma RunToHere(b: Board, from: Square, d: Dir, k: int)
    requires Empty(b, Ray(from, d, k))
    ensures RunTo(b, from, d, k, Ray(from, d, k))
  {
    assert Clear(b, from, d, k, k + 1);
  }

  lemma FlyingJumpCons(b: Board, from: Square, p: Piece, d: Dir, k: int, m: Move)
    requires Empty(b, Ray(from, d, k)) && FlyingJump(b, from, p, d, k + 1, m)
    ensures FlyingJump(b, from, p, d, k, m)
  {
    var e :| k + 1 <= e && EnemyAt(b, p, Ray(from, d, e)) && Clear(b, from, d, k + 1, e)
      && m.captured == [Ray(from, d, e)] && RunTo(b, from, d, e + 1, m.to);
    ClearCons(b, from, d, k, e);
  }

  lemma FlyingJumpHere(b: Board, from: Square, p: Piece, d: Dir, k: int, m: Move)
    requires EnemyAt(b, p, Ray(from, d, k)) && m.captured == [Ray(from, d, k)]
    requires RunTo(b, from, d, k + 1, m.to)
    ensures FlyingJump(b, from, p, d, k, m)
  {
    assert Clear(b, from, d, k, k);
  }

  /** Every move of the ray after the enemy on `c` was passed captures `c` and lands
      on the empty run that follows. */
  lemma {:induction false} AfterCaptureSound(b: Board, from: Square, p: Piece, captureOnly: bool,
                                             d: Dir, k: int, c: Square, m: Move)
    requires InBounds(from) && ValidDir(d) && k >= 1 && EnemyAt(b, p, c)
    requires m in KingRay(b, from, p, captureOnly, d, k, Some(c))
    ensures m.from == from && m.captured == [c] && RunTo(b, from, d, k, m.to)
    decreases Size - k
  {
    var t := Ray(from, d, k);
    var rest := KingRay(b, from, p, captureOnly, d, k + 1, Some(c));
    if m in rest {
      AfterCaptureSound(b, from, p, captureOnly, d, k + 1, c, m);
      RunToCons(b, from, d, k, m.to);
    } else {
      assert m == Move(from, t, [c]);
      RunToHere(b, from, d, k);
    }
  }

  /** After passing the enemy on `c`, every square of the empty run is a landing square. */
  lemma {:induction false} AfterCaptureComplete(b: Board, from: Square, p: Piece, captureOnly: bool,
                                                d: Dir, k: int, c: Square, j: int)
    requires InBounds(from) && ValidDir(d) && 1 <= k <= j && EnemyAt(b, p, c)
    requires Clear(b, from, d, k, j + 1)
    ensures Move(from, Ray(from, d, j), [c]) in KingRay(b, from, p, captureOnly, d, k, Some(c))
    decreases j - k
  {
    assert Empty(b, Ray(from, d, k));
    if k < j {
      AfterCaptureComplete(b, from, p, captureOnly, d, k + 1, c, j);
    }
  }

  /** An empty square at step `k` extends the moves found from step `k + 1` on. */
  lemma FromStartCons(b: Board, from: Square, p: Piece, captureOnly: bool, d: Dir, k: int, m: Move)
    requires Empty(b, Ray(from, d, k))
    requires (!captureOnly && m.captured == [] && RunTo(b, from, d, k + 1, m.to)) || FlyingJump(b, from, p, d, k + 1, m)
    ensures (!captureOnly && m.captured == [] && RunTo(b, from, d, k, m.to)) || FlyingJump(b, from, p, d, k, m)
  {
    if !captureOnly && m.captured == [] && RunTo(b, from, d, k + 1, m.to) {
      RunToCons(b, from, d, k, m.to);
    } else {
      FlyingJumpCons(b, from, p, d, k, m);
    }
  }

  /** Every move of a ray scanned from step `k` with no capture yet is a simple move
      over empty squares or a flying capture of the first piece met. */
  lemma {:induction false} FromStartSound(b: Board, from: Square, p: Piece, captureOnly: bool,
                                          d: Dir, k: int, m: Move)
    requires InBounds(from) && ValidDir(d) && k >= 1
    requires m in KingRay(b, from, p, captureOnly, d, k, None)
    ensures m.from == from
    ensures (!captureOnly && m.captured == [] && RunTo(b, from, d, k, m.to)) || FlyingJump(b, from, p, d, k, m)
    decreases Size - k
  {
    var t := Ray(from, d, k);
    if At(b, t).None? {
      var rest := KingRay(b, from, p, captureOnly, d, k + 1, None);
      if m in rest {
        FromStartSound(b, from, p, captureOnly, d, k + 1, m);
        FromStartCons(b, from, p, captureOnly, d, k, m);
      } else {
        assert m == Move(from, t, []);
        RunToHere(b, from, d, k);
      }
    } else {
      AfterCaptureSound(b, from, p, captureOnly, d, k + 1, t, m);
      FlyingJumpHere(b, from, p, d, k, m);
    }
  }

  /** Without `captureOnly`, every square of the empty run from step `k` is reached
      by a simple move. */
  lemma {:induction false} SimpleComplete(b: Board, from: Square, p: Piece, d: Dir, k: int, j: int)
    requires InBounds(from) && ValidDir(d) && 1 <= k <= j
    requires Clear(b, from, d, k, j + 1)
    ensures Move(from, Ray(from, d, j), []) in KingRay(b, from, p, false, d, k, None)
    decreases j - k
  {
    assert Empty(b, Ray(from, d, k));
    if k < j {
      SimpleComplete(b, from, p, d, k + 1, j);
    }
  }

  /** When the first piece from step `k` on is an enemy at step `e`, every square of
      the empty run behind it is reached by a capture of that enemy. */
  lemma {:induction false} JumpComplete(b: Board, from: Square, p: Piece, captureOnly: bool,
                                        d: Dir, k: int, e: int, j: int)
    requires InBounds(from) && ValidDir(d) && 1 <= k <= e < j
    requires EnemyAt(b, p, Ray(from, d, e)) && Clear(b, from, d, k, e) && Clear(b, from, d, e + 1, j + 1)
    ensures Move(from, Ray(from, d, j), [Ray(from, d, e)]) in KingRay(b, from, p, captureOnly, d, k, None)
    decreases e - k
  {
    if k == e {
      AfterCaptureComplete(b, from, p, captureOnly, d, k + 1, Ray(from, d, e), j);
    } else {
      assert Empty(b, Ray(from, d, k));
      JumpComplete(b, from, p, captureOnly, d, k + 1, e, j);
    }
  }

  lemma RunToComplete(b: Board, from: Square, p: Piece, d: Dir, m: Move)
    requires InBounds(from) && ValidDir(d)
    requires m.from == from && m.captured == [] && RunTo(b, from, d, 1, m.to)
    ensures m in KingRay(b, from, p, false, d, 1, None)
  {
    var j :| 1 <= j && m.to == Ray(from, d, j) && Clear(b, from, d, 1, j + 1);
    SimpleComplete(b, from, p, d, 1, j);
    assert m == Move(from, Ray(from, d, j), []);
  }

  lemma FlyingJumpComplete(b: Board, from: Square, p: Piece, captureOnly: bool, d: Dir, m: Move)
    requires InBounds(from) && ValidDir(d)
    requires m.from == from && FlyingJump(b, from, p, d, 1, m)
    ensures m in KingRay(b, from, p, captureOnly, d, 1, None)
  {
    var e :| 1 <= e && EnemyAt(b, p, Ray(from, d, e)) && Clear(b, from, d, 1, e)
      && m.captured == [Ray(from, d, e)] && RunTo(b, from, d, e + 1, m.to);
    var j :| e + 1 <= j && m.to == Ray(from, d, j) && Clear(b, from, d, e + 1, j + 1);
    JumpComplete(b, from, p, captureOnly, d, 1, e, j);
    assert m == Move(from, Ray(from, d, j), [Ray(from, d, e)]);
  }

  /** A king's ray yields exactly its simple moves (unless `captureOnly`) and its
      flying captures. */
  lemma KingRaySpec(b: Board, from: Square, p: Piece, captureOnly: bool, d: Dir, m: Move)
    requires InBounds(from) && ValidDir(d)
    ensures m in KingRay(b, from, p, captureOnly, d, 1, None) <==> KingSpec(b, from, p, captureOnly, d, m)
  {
    if m in KingRay(b, from, p, captureOnly, d, 1, None) {
      FromStartSound(b, from, p, captureOnly, d, 1, m);
    }
    if KingSpec(b, from, p, captureOnly, d, m) {
      if !captureOnly && m.captured == [] && RunTo(b, from, d, 1, m.to) {
        RunToComplete(b, from, p, d, m);
      } else {
        FlyingJumpComplete(b, from, p, captureOnly, d, m);
      }
    }
  }

  lemma DirMovesSpec(b: Board, from: Square, p: Piece, captureOnly: bool, d: Dir, m: Move)
    requires InBounds(from) && ValidDir(d)
    ensures m in DirMoves(b, from, p, captureOnly, d) <==> DirSpec(b, from, p, captureOnly, d, m)
  {
    if p.king {
      KingRaySpec(b, from, p, captureOnly, d, m);
    } else {
      ManStepSpec(b, from, p, captureOnly, d, m);
    }
  }

  lemma {:induction false} PerDirectionMember(b: Board, from: Square, p: Piece, captureOnly: bool,
                                              ds: seq<Dir>, m: Move)
    requires InBounds(from) && forall i :: 0 <= i < |ds| ==> ValidDir(ds[i])
    ensures m in PerDirection(b, from, p, captureOnly, ds)
        <==> exists i :: 0 <= i < |ds| && m in DirMoves(b, from, p, captureOnly, ds[i])
  {
    if ds != [] {
      PerDirectionMember(b, from, p, captureOnly, ds[1..], m);
      if m in PerDirection(b, from, p, captureOnly, ds[1..]) {
        var i :| 0 <= i < |ds[1..]| && m in DirMoves(b, from, p, captureOnly, ds[1..][i]);
        assert ds[1..][i] == ds[i + 1];
      }
      if exists i :: 0 <= i < |ds| && m in DirMoves(b, from, p, captureOnly, ds[i]) {
        var i :| 0 <= i < |ds| && m in DirMoves(b, from, p, captureOnly, ds[i]);
        if i > 0 {
          assert ds[1..][i - 1] == ds[i];
        }
      }
    }
  }

  /** `getMovesForPiece` yields exactly the moves of the declarative rules: a man
      steps one square forward or jumps an adjacent enemy in any direction; a king
      flies over empty squares and captures the first enemy on a ray from any
      distance, landing anywhere on the empty run behind it. */
  lemma MovesForPieceSpec(b: Board, from: Square, p: Piece, captureOnly: bool, m: Move)
    requires InBounds(from)
    ensures m in MovesForPiece(b, from, p, captureOnly) <==> PieceSpec(b, from, p, captureOnly, m)
  {
    PerDirectionMember(b, from, p, captureOnly, Directions, m);
    if m in MovesForPiece(b, from, p, captureOnly) {
      var i :| 0 <= i < |Directions| && m in DirMoves(b, from, p, captureOnly, Directions[i]);
      DirMovesSpec(b, from, p, captureOnly, Directions[i], m);
    }
    if PieceSpec(b, from, p, captureOnly, m) {
      var d :| ValidDir(d) && DirSpec(b, from, p, captureOnly, d, m);
      var i := if d.dr < 0 then (if d.dc < 0 then 0 else 1) else (if d.dc < 0 then 2 else 3);
      assert Directions[i] == d;
      DirMovesSpec(b, from, p, captureOnly, d, m);
    }
  }

  /** A man's move is either one diagonal step toward the opponent (never under
      `captureOnly`), or a jump of two steps along any diagonal capturing exactly the
      enemy on the square in between. */
  lemma ManMoveShape(b: Board, from: Square, p: Piece, captureOnly: bool, m: Move)
    requires InBounds(from) && !p.king
    requires m in MovesForPiece(b, from, p, captureOnly)
    ensures m.captured == [] ==>
      !captureOnly && m.to.row == from.row + Forward(p.color)
      && (m.to.col == from.col - 1 || m.to.col == from.col + 1)
    ensures m.captured != [] ==>
      exists d :: ValidDir(d) && m.to == Ray(from, d, 2) && m.captured == [Ray(from, d, 1)]
                  && EnemyAt(b, p, Ray(from, d, 1))
  {
    MovesForPieceSpec(b, from, p, captureOnly, m);
  }

  /** Distinct (direction, distance) pairs reach distinct squares. */
  lemma RayInjective(from: Square, d1: Dir, k1: int, d2: Dir, k2: int)
    requires ValidDir(d1) && ValidDir(d2) && k1 >= 1 && k2 >= 1
    requires Ray(from, d1, k1) == Ray(from, d2, k2)
    ensures d1 == d2 && k1 == k2
  {
  }

  /** Any move along `d`, of a man or a king, lands `k` steps out over a clear path;
      a capture takes the piece `e` steps out, the first piece on the path. */
  lemma MoveLine(b: Board, from: Square, p: Piece, captureOnly: bool, d: Dir, m: Move)
    returns (k: int, e: int)
    requires ValidDir(d) && DirSpec(b, from, p, captureOnly, d, m)
    ensures m.from == from && k >= 1 && m.to == Ray(from, d, k)
    ensures m.captured == [] ==> Clear(b, from, d, 1, k + 1)
    ensures m.captured != [] ==>
      && 1 <= e < k && m.captured == [Ray(from, d, e)]
      && EnemyAt(b, p, Ray(from, d, e)) && Clear(b, from, d, 1, e)
  {
    if p.king {
      if m.captured == [] {
        k :| 1 <= k && m.to == Ray(from, d, k) && Clear(b, from, d, 1, k + 1);
        e := 0;
      } else {
        e :| 1 <= e && EnemyAt(b, p, Ray(from, d, e)) && Clear(b, from, d, 1, e)
          && m.captured == [Ray(from, d, e)] && RunTo(b, from, d, e + 1, m.to);
        k :| e + 1 <= k && m.to == Ray(from, d, k);
      }
    } else {
      e := 1;
      k := if m.captured == [] then 1 else 2;
    }
  }

  /** Two moves that reach step `k` along the same diagonal capture the same piece:
      a capture takes the first piece on the path, and a plain move needs a path with
      no piece at all. */
  lemma SameLineSameCapture(b: Board, from: Square, p: Piece, d: Dir, k: int,
                            c1: seq<Square>, e1: int, c2: seq<Square>, e2: int)
    requires c1 == [] ==> Clear(b, from, d, 1, k + 1)
    requires c1 != [] ==> 1 <= e1 < k && c1 == [Ray(from, d, e1)] && EnemyAt(b, p, Ray(from, d, e1)) && Clear(b, from, d, 1, e1)
    requires c2 == [] ==> Clear(b, from, d, 1, k + 1)
    requires c2 != [] ==> 1 <= e2 < k && c2 == [Ray(from, d, e2)] && EnemyAt(b, p, Ray(from, d, e2)) && Clear(b, from, d, 1, e2)
    ensures c1 == c2
  {
  }

  /** A piece has at most one move to each square: the target fixes the diagonal,
      the distance, and the piece captured on the way. */
  lemma MovesSameTarget(b: Board, from: Square, p: Piece, captureOnly: bool, m1: Move, m2: Move)
    requires InBounds(from)
    requires m1 in MovesForPiece(b, from, p, captureOnly) && m2 in MovesForPiece(b, from, p, captureOnly)
    requires m1.to == m2.to
    ensures m1 == m2
  {
    MovesForPieceSpec(b, from, p, captureOnly, m1);
    MovesForPieceSpec(b, from, p, captureOnly, m2);
    var d1 :| ValidDir(d1) && DirSpec(b, from, p, captureOnly, d1, m1);
    var d2 :| ValidDir(d2) && DirSpec(b, from, p, captureOnly, d2, m2);
    var k1, e1 := MoveLine(b, from, p, captureOnly, d1, m1);
    var k2, e2 := MoveLine(b, from, p, captureOnly, d2, m2);
    RayInjective(from, d1, k1, d2, k2);
    SameLineSameCapture(b, from, p, d1, k1, m1.captured, e1, m2.captured, e2);
  }

  lemma RayParity(from: Square, d: Dir, k: int)
    ensures SameParity(from, Ray(from, d, k))
  {
  }

  lemma RunToParity(b: Board, from: Square, d: Dir, lo: int, t: Square)
    requires RunTo(b, from, d, lo, t)
    ensures SameParity(from, t)
  {
    var k :| lo <= k && t == Ray(from, d, k) && Clear(b, from, d, lo, k + 1);
    RayParity(from, d, k);
  }

  /** Every move stays on squares of one colour: diagonal steps keep `row + col` even
      or odd. */
  lemma MoveParity(b: Board, from: Square, p: Piece, captureOnly: bool, m: Move)
    requires InBounds(from) && m in MovesForPiece(b, from, p, captureOnly)
    ensures SameParity(from, m.to)
  {
    MovesForPieceSpec(b, from, p, captureOnly, m);
    var d :| ValidDir(d) && DirSpec(b, from, p, captureOnly, d, m);
    if p.king {
      if !captureOnly && m.captured == [] && RunTo(b, from, d, 1, m.to) {
        RunToParity(b, from, d, 1, m.to);
      } else {
        var e :| 1 <= e && EnemyAt(b, p, Ray(from, d, e)) && Clear(b, from, d, 1, e)
          && m.captured == [Ray(from, d, e)] && RunTo(b, from, d, e + 1, m.to);
        RunToParity(b, from, d, e + 1, m.to);
      }
    } else {
      RayParity(from, d, 1);
      RayParity(from, d, 2);
    }
  }

  // ---------------------------------------------------------------------------
  // getAllMoves

  /** The moves of the piece on `s`, when it has colour `c`. */
  function SquareMoves(b: Board, c: Color, s: Square): seq<Move>
    requires InBounds(s)
  {
    match At(b, s)
    case Some(p) => if p.color == c then MovesForPiece(b, s, p, false) else []
    case None => []
  }

  /** `m` is produced for a piece of colour `c`, before the capture filter. */
  predicate IsCandidate(b: Board, c: Color, m: Move) {
    InBounds(m.from) && Holds(b, m.from, c) && m in MovesForPiece(b, m.from, At(b, m.from).value, false)
  }

  /** The moves of the pieces of colour `c` in the first `n` columns of row `r`. */
  function RowCandidates(b: Board, c: Color, r: int, n: nat): seq<Move>
    requires 0 <= r < Size && n <= Size
  {
    if n == 0 then [] else RowCandidates(b, c, r, n - 1) + SquareMoves(b, c, Sq(r, n - 1))
  }

  /** The moves of the pieces of colour `c` in the first `n` rows, row by row. */
  function Candidates(b: Board, c: Color, n: nat): seq<Move>
    requires n <= Size
  {
    if n == 0 then [] else Candidates(b, c, n - 1) + RowCandidates(b, c, n - 1, Size)
  }

  /** The capturing moves of `ms`, in order. */
  function Captures(ms: seq<Move>): (r: seq<Move>)
    ensures forall m :: m in r <==> m in ms && |m.captured| > 0
  {
    if ms == [] then []
    else if |ms[0].captured| > 0 then [ms[0]] + Captures(ms[1..])
    else Captures(ms[1..])
  }

  /** `getAllMoves`: the moves of colour `c`, reduced to the captures when there are any. */
  function AllMoves(b: Board, c: Color): seq<Move> {
    var all := Candidates(b, c, Size);
    var caps := Captures(all);
    if |caps| > 0 then caps else all
  }

  /** Some piece of colour `c` can capture. */
  ghost predicate HasCapture(b: Board, c: Color) {
    exists m :: IsCandidate(b, c, m) && |m.captured| > 0
  }

  lemma SquareMovesSpec(b: Board, c: Color, s: Square, m: Move)
    requires InBounds(s)
    ensures m in SquareMoves(b, c, s) <==> IsCandidate(b, c, m) && m.from == s
  {
    if At(b, s).Some? {
      MovesForPieceSound(b, s, At(b, s).value, false);
    }
  }

  lemma {:induction false} RowCandidatesSpec(b: Board, c: Color, r: int, n: nat, m: Move)
    requires 0 <= r < Size && n <= Size
    ensures m in RowCandidates(b, c, r, n) <==> IsCandidate(b, c, m) && m.from.row == r && m.from.col < n
  {
    if n > 0 {
      RowCandidatesSpec(b, c, r, n - 1, m);
      SquareMovesSpec(b, c, Sq(r, n - 1), m);
      assert m.from == Sq(r, n - 1) <==> m.from.row == r && m.from.col == n - 1;
    }
  }

  /** The bookkeeping of one step of `CandidatesSpec`: the moves of the first `n`
      rows are those of the first `n - 1` rows and those of row `n - 1`. */
  lemma RowSplit(inAll: bool, inPrev: bool, inRow: bool, cand: bool, row: int, n: int)
    requires inAll <==> inPrev || inRow
    requires inPrev <==> cand && row < n - 1
    requires inRow <==> cand && row == n - 1
    ensures inAll <==> cand && row < n
  {
  }

  lemma {:induction false} CandidatesSpec(b: Board, c: Color, n: nat, m: Move)
    requires n <= Size
    ensures m in Candidates(b, c, n) <==> IsCandidate(b, c, m) && m.from.row < n
  {
    if n > 0 {
      CandidatesSpec(b, c, n - 1, m);
      RowCandidatesSpec(b, c, n - 1, Size, m);
      assert IsCandidate(b, c, m) ==> m.from.col < Size;
      RowSplit(m in Candidates(b, c, n), m in Candidates(b, c, n - 1), m in RowCandidates(b, c, n - 1, Size),
               IsCandidate(b, c, m), m.from.row, n);
    }
  }

  /** Forced capture: the moves of colour `c` are exactly the moves of its pieces,
      restricted to captures when any piece of that colour can capture. */
  lemma AllMovesSpec(b: Board, c: Color, m: Move)
    ensures m in AllMoves(b, c) <==> IsCandidate(b, c, m) && (HasCapture(b, c) ==> |m.captured| > 0)
  {
    var all := Candidates(b, c, Size);
    var caps := Captures(all);
    CandidatesSpec(b, c, Size, m);
    if |caps| > 0 {
      var w := caps[0];
      CandidatesSpec(b, c, Size, w);
      assert IsCandidate(b, c, w) && |w.captured| > 0;
    } else {
      forall w | IsCandidate(b, c, w) ensures |w.captured| == 0 {
        CandidatesSpec(b, c, Size, w);
        assert w !in caps;
      }
    }
  }

  /** A colour has no move at all exactly when none of its pieces has a move. */
  lemma AllMovesEmpty(b: Board, c: Color)
    ensures AllMoves(b, c) == [] <==> forall m :: !IsCandidate(b, c, m)
  {
    var ms := AllMoves(b, c);
    if ms == [] {
      forall m ensures !IsCandidate(b, c, m) {
        AllMovesSpec(b, c, m);
        if IsCandidate(b, c, m) && HasCapture(b, c) {
          var w :| IsCandidate(b, c, w) && |w.captured| > 0;
          AllMovesSpec(b, c, w);
        }
      }
    } else {
      AllMovesSpec(b, c, ms[0]);
      assert ms[0] in ms;
    }
  }

  lemma RowStep(b: Board, c: Color, r: int, col: int)
    requires 0 <= r < Size && 0 <= col < Size
    ensures RowCandidates(b, c, r, col) + SquareMoves(b, c, Sq(r, col)) == RowCandidates(b, c, r, col + 1)
  {
  }

  /** The body of the inner loop of `getAllMoves`: the moves of the piece on `s`
      are appended when it has colour `c`. */
  method ScanSquare(b: Board, c: Color, s: Square, acc: seq<Move>) returns (all: seq<Move>)
    requires InBounds(s)
    ensures all == acc + SquareMoves(b, c, s)
  {
    match At(b, s)
    case Some(p) =>
      if p.color == c {
        all := acc + MovesForPiece(b, s, p, false);
      } else {
        all := acc;
        assert acc + [] == acc;
      }
    case None =>
      all := acc;
      assert acc + [] == acc;
  }

  /** The inner loop of `getAllMoves` over the columns of row `r`. */
  method ScanRow(b: Board, c: Color, r: int) returns (row: seq<Move>)
    requires 0 <= r < Size
    ensures row == RowCandidates(b, c, r, Size)
  {
    row := [];
    var col := 0;
    while col < Size
      invariant 0 <= col <= Size
      invariant row == RowCandidates(b, c, r, col)
    {
      row := ScanSquare(b, c, Sq(r, col), row);
      RowStep(b, c, r, col);
      col := col + 1;
    }
  }

  /** The nested row/column loop of `getAllMoves`, followed by the capture filter. */
  method GetAllMoves(b: Board, c: Color) returns (moves: seq<Move>)
    ensures moves == AllMoves(b, c)
  {
    var all: seq<Move> := [];
    var r := 0;
    while r < Size
      invariant 0 <= r <= Size
      invariant all == Candidates(b, c, r)
    {
      var row := ScanRow(b, c, r);
      all := all + row;
      r := r + 1;
    }
    var caps := Captures(all);
    moves := if |caps| > 0 then caps else all;
  }

  // ---------------------------------------------------------------------------
  // Consequences used by the game rules

  /** With `captureOnly`, a man has a move exactly when an adjacent enemy has an
      empty square behind it. */
  lemma ManCanCapture(b: Board, s: Square, p: Piece)
    requires InBounds(s) && !p.king
    ensures |MovesForPiece(b, s, p, true)| > 0
        <==> exists d :: ValidDir(d) && EnemyAt(b, p, Ray(s, d, 1)) && Empty(b, Ray(s, d, 2))
  {
    var ms := MovesForPiece(b, s, p, true);
    if |ms| > 0 {
      MovesForPieceSpec(b, s, p, true, ms[0]);
      var d :| ValidDir(d) && DirSpec(b, s, p, true, d, ms[0]);
      assert EnemyAt(b, p, Ray(s, d, 1)) && Empty(b, Ray(s, d, 2));
    }
    if exists d :: ValidDir(d) && EnemyAt(b, p, Ray(s, d, 1)) && Empty(b, Ray(s, d, 2)) {
      var d :| ValidDir(d) && EnemyAt(b, p, Ray(s, d, 1)) && Empty(b, Ray(s, d, 2));
      var m := Move(s, Ray(s, d, 2), [Ray(s, d, 1)]);
      assert ManSpec(b, s, p, true, d, m);
      MovesForPieceSpec(b, s, p, true, m);
      assert m in ms;
    }
  }

  /** With no enemy on the board there is nothing to capture. */
  lemma NoEnemyNoCapture(b: Board, s: Square, p: Piece)
    requires InBounds(s) && forall t :: !EnemyAt(b, p, t)
    ensures MovesForPiece(b, s, p, true) == []
  {
    var ms := MovesForPiece(b, s, p, true);
    MovesForPieceSound(b, s, p, true);
    assert |ms| > 0 ==> Sound(b, s, p, true, ms[0]);
  }

  /** A colour with no piece on the board has no move. */
  lemma NoPiecesNoMoves(b: Board, c: Color)
    requires forall t :: !Holds(b, t, c)
    ensures AllMoves(b, c) == []
  {
    AllMovesEmpty(b, c);
  }
}
