# Checkers rule engine of `Board.jsx`, modelled in Dafny

The React component `Board` of the checkers app holds the whole rule engine of the
game. It does the following:
- builds the starting layout (`initBoard`);
- generates the moves of one piece (`getMovesForPiece`). Men step forward one square and jump an adjacent enemy in any direction. Kings fly along the diagonals and capture one enemy at any distance. A `captureOnly` switch keeps only the jumps.
- collects the moves of one side with the forced-capture rule (`getAllMoves`);
- applies a move (`doMove`). It removes the captured pieces and crowns a man on the far row. Then it either continues a capture chain, declares the mover the winner, or passes the turn.
- selects pieces and commits moves on clicks (`handleCellClick`);
- highlights the squares the selected piece can reach (`getHints`).

The model keeps the component's state (`board`, `selected`, `turn`, `winner`) as
one immutable `Game.State`. Each handler is a pure function from state to state.

- `checkers.dfy` (module `Checkers`): colours, pieces, squares and the 8×8 board. It holds the starting layout and its piece count.
- `movegen.dfy` (module `MoveGen`): the move generators in the source's scanning order. `MovesForPiece` is `getMovesForPiece`, and `AllMoves` is `getAllMoves` with the forced-capture filter. A separate declarative description (`PieceSpec`: `RunTo`, `FlyingJump`, `ManSpec`) says which moves a piece has, independent of the scan. Lemmas connect the two in both directions.
- `game.dfy` (module `Game`): `ApplyMove` and promotion. `DoMove` is `doMove` as written. `HandleClick` and `ClickMove` model the click handler, and `Hints` models `getHints`. The module also holds the corrected `DoMoveFixed` and `HandleClickFixed`.
- `findings.dfy` (module `Findings`): four positions on which `doMove` goes wrong, each with the corrected outcome.
- `scenarios.dfy` (module `Scenarios`): the opening move of the game and a forced capture, traced through the model.

Where the code and the intended rules differ, the model follows the code:
- A man jumps in all four directions, so backward captures are generated. Only its plain steps are restricted to the forward direction (lines 66-74).
- A selection after a capture does not restrict the next move to captures. `handleCellClick` filters the legal moves only by their starting square (lines 100-102).
- When a capture chain continues, the handler's `setSelected(null)` (line 105) is applied after `doMove`'s `setSelected` of the landing square (line 129). The chain therefore keeps the turn but loses the selection. `HandleClickOutcome` states this in its contract, and `Findings.StaleKingFollowUp` shows it on a concrete position.
- Both follow-up checks of `doMove` read the board from before the move (lines 127 and 134), because `setBoard` does not change the `board` that the generators read. `DoMove` models exactly that. Four consequences are listed under Findings: a missed win, a phantom capture chain, a real capture chain cut short, and a premature win.
- The game is over only when a move leaves the opponent without moves on that earlier board. Nothing checks the side to move at the start of its turn.
- The colour names are those of the code, `White` (moves first, rows 5-7) and `Black` (rows 0-2).

## Model

| member | source | states |
|---|---|---|
| Checkers.Opponent | src/Board.jsx:134-138 | the side that moves next is never the side that just moved |
| Checkers.InitialLayout | src/Board.jsx:8-23 | in the starting layout black men stand exactly on the dark squares of rows 0-2 and white men exactly on those of rows 5-7; rows 3 and 4 are empty, every piece is on a dark square, and no piece is a king |
| Checkers.InitialRowCount | src/Board.jsx:12-18 | a starting row of a side holds one piece of that side per dark square among its first n cells |
| Checkers.InitialRowEmpty | src/Board.jsx:14-17 | a starting row outside a side's rows holds none of its pieces |
| Checkers.InitialCounts | src/Board.jsx:8-23 | each side starts with twelve men |
| Game.InitialWf | src/Board.jsx:25-28 | the initial state (starting layout, nothing selected, White to move, no winner) satisfies the invariant `Wf` |
| MoveGen.ManStepSound | src/Board.jsx:62-76 | every move the man branch produces along a diagonal starts on the man, lands on an empty on-board square, and captures at most one piece, which is an enemy; under captureOnly it always captures |
| MoveGen.KingRaySound | src/Board.jsx:42-60 | the same for every move of the king's scan along one diagonal, at any distance and before or after the enemy is met |
| MoveGen.PerDirectionSound | src/Board.jsx:34-77 | the same for the moves of all the diagonals scanned |
| MoveGen.MovesForPieceSound | src/Board.jsx:32-79 | every move of `getMovesForPiece` starts on the piece, lands on an empty square, and captures at most one enemy; under captureOnly each move captures |
| MoveGen.ManStepSpec | src/Board.jsx:62-76 | a move is produced for a man along d iff it is a forward step onto an empty neighbour (not under captureOnly) or a jump over an adjacent enemy onto the empty square behind it |
| MoveGen.AfterCaptureSound | src/Board.jsx:46-52 | once the king has passed an enemy, every move it adds captures exactly that enemy and lands on an empty square reached over empty squares only |
| MoveGen.AfterCaptureComplete | src/Board.jsx:44-59 | after the enemy, every square reached over empty squares is a landing square of a capture |
| MoveGen.FromStartSound | src/Board.jsx:42-59 | every move of a king's ray is a run over empty squares (only without captureOnly) or a flying jump over the first piece met, which is an enemy |
| MoveGen.SimpleComplete | src/Board.jsx:44-52 | every square up to the first occupied one is a plain move of the king when captureOnly is off |
| MoveGen.JumpComplete | src/Board.jsx:44-59 | every empty square past the first piece met, when that piece is an enemy, is a capture landing until the next piece |
| MoveGen.KingRaySpec | src/Board.jsx:42-60 | a move is on a king's ray along d iff it is a run to an empty square over empty ones (not under captureOnly) or a flying jump whose single captured piece is the first piece met, an enemy |
| MoveGen.DirMovesSpec | src/Board.jsx:41-77 | the moves along one diagonal are exactly those the declarative description of the piece's kind allows |
| MoveGen.PerDirectionMember | src/Board.jsx:34-77 | a move is produced by scanning a list of diagonals iff it is a move along one of them |
| MoveGen.MovesForPieceSpec | src/Board.jsx:32-79 | a move is in `getMovesForPiece` iff it is a man's step or jump, or a king's run or flying jump, along one of the four diagonals |
| MoveGen.MoveLine | src/Board.jsx:41-77 | a move along a diagonal lands on a square of that diagonal; a plain move crosses only empty squares, and a capture takes the first piece on the diagonal, an enemy, with only empty squares before it |
| MoveGen.MovesSameTarget | src/Board.jsx:32-79 | a piece has at most one move to each target square |
| MoveGen.ManMoveShape | src/Board.jsx:62-76 | a man's move without capture is one step toward the opponent's side; a man's capture is a two-square jump over an adjacent enemy |
| MoveGen.ManCanCapture | src/Board.jsx:62-76 | a man has a capture-only move iff some diagonal neighbour holds an enemy with an empty on-board square behind it |
| MoveGen.MoveParity | src/Board.jsx:32-79 | every move lands on a square of the same colour as its start |
| MoveGen.NoEnemyNoCapture | src/Board.jsx:35-79 | with no enemy on the board a piece has no capture-only move |
| MoveGen.Captures | src/Board.jsx:91 | the filter keeps exactly the capturing moves |
| MoveGen.SquareMovesSpec | src/Board.jsx:85-88 | the moves gathered at a square are exactly the candidate moves of the side's piece standing there |
| MoveGen.RowCandidatesSpec | src/Board.jsx:84-89 | the moves gathered from the first n cells of row r are the candidate moves starting there |
| MoveGen.CandidatesSpec | src/Board.jsx:83-90 | the moves gathered from the first n rows are the candidate moves starting in them |
| MoveGen.AllMovesSpec | src/Board.jsx:81-93 | a move is legal iff a piece of the side produces it and, when any piece of the side can capture, it captures (forced capture) |
| MoveGen.AllMovesEmpty | src/Board.jsx:81-93 | a side has no legal move iff none of its pieces produces any move |
| MoveGen.NoPiecesNoMoves | src/Board.jsx:81-93 | a side without pieces has no legal move |
| MoveGen.ScanRow | src/Board.jsx:84-89 | the inner loop gathers a row's moves in column order |
| MoveGen.GetAllMoves | src/Board.jsx:81-93 | the nested loops and the capture filter compute exactly the legal moves |
| Game.Promote | src/Board.jsx:120-123 | the mover keeps its colour and is a king afterwards iff it was one or lands on its far row |
| Game.ClearSquares | src/Board.jsx:115-117 | emptying the captured squares changes exactly those squares |
| Game.ApplyMove | src/Board.jsx:112-118 | after a move the (possibly crowned) piece stands on the target, its start and the captured squares are empty, and every other square is unchanged |
| Game.ConcludeOutcome | src/Board.jsx:126-139 | exactly one of the three outcomes applies: a capture with a further capture keeps the turn and selects the landing square; otherwise an opponent without moves makes the mover the winner; otherwise the turn passes |
| Game.DoMoveOutcome | src/Board.jsx:111-140 | `doMove` as written installs the new board and picks the outcome, judging both conditions on the board from before the move; a continued chain selects the landing square, and the other two outcomes keep the selection |
| Game.DoMoveFixedOutcome | src/Board.jsx:126-139 | the corrected `doMove` picks the outcome on the board after the move |
| Game.PerDirectionCongruence | src/Board.jsx:34-77 | two boards that give a piece the same moves along each scanned diagonal give it the same list |
| Game.MovesForPieceCongruence | src/Board.jsx:32-79 | two boards that give a piece the same moves along every diagonal give it the same moves |
| Game.ManDirUnaffected | src/Board.jsx:62-76 | from the landing square of a man's jump, each diagonal offers the same captures on the board before and after the jump |
| Game.ManChainUnaffected | src/Board.jsx:126-131 | for a man that is not crowned, the follow-up check on the stale board finds the same captures as on the updated board, so only kings and newly crowned men see the stale-board error |
| Game.FromSquare | src/Board.jsx:100-102 | the filter keeps exactly the moves starting on the selected square |
| Game.FindTo | src/Board.jsx:103 | `find` returns a move of the list that lands on the clicked square, or nothing when none does |
| Game.FindToFirst | src/Board.jsx:103 | the move `find` returns is the first of the list landing on the clicked square: every earlier move lands elsewhere |
| Game.ClickMove | src/Board.jsx:99-103 | the committed move is a legal move from the selected square to the clicked one; when none is committed, no legal move from the selected square lands there |
| Game.ClickCommits | src/Board.jsx:99-104 | when a legal move leads from the selected square to the clicked one, the click commits exactly that move, whatever order the legal moves are listed in |
| Game.LegalApplicable | src/Board.jsx:81-93 | every legal move starts on a piece of the side to move, stays on the board, lands on an empty square and captures at most one enemy |
| Game.LegalTargetsEmpty | src/Board.jsx:32-93 | every legal move lands on an empty square |
| Game.HandleClick | src/Board.jsx:95-109 | after a win clicks do nothing. With nothing selected, a click on a piece of the side to move selects it and changes nothing else; any other click leaves the state alone. A click with a selection always clears it. A click that commits no move leaves board, turn and winner unchanged; otherwise the board changes exactly by the committed legal move |
| Game.HandleClickOutcome | src/Board.jsx:95-140 | a committing click applies the move and clears the selection; the turn stays with the mover (no winner) when the move captured and the crowned mover can capture again on the board from before the move; otherwise the mover wins when the opponent has no move on that board, and the turn passes when it has one |
| Game.HandleClickFixed | src/Board.jsx:95-109 | with the corrected `doMove`, the handler changes the board and selection exactly as the original does; the turn can only pass to the opponent and then no winner is set |
| Game.ApplyMoveOnPlayable | src/Board.jsx:111-118 | a legal move keeps every piece on a dark square |
| Game.HandleClickWf | src/Board.jsx:95-140 | clicks preserve the invariant `Wf`: pieces on dark squares, a selection only on a piece of the side to move, no selection after a win |
| Game.Hints | src/Board.jsx:142-148 | every highlighted square is empty |
| Game.HintsAreClickTargets | src/Board.jsx:142-148 | while the game runs, a square is highlighted iff clicking it commits a move |
| Findings.LastPieceNoFollowUp | src/Board.jsx:127 | on the stale board the jumping man has no follow-up capture |
| Findings.LastPieceReply | src/Board.jsx:81-93 | on the stale board the opponent's capture of the piece that has just moved, 4,3 over 5,2 to 6,1, is a legal move |
| Findings.StaleWinnerCheck | src/Board.jsx:134-138 | as written, taking the opponent's last piece passes the turn to a side with no pieces and declares no winner |
| Findings.FixedWinnerCheck | src/Board.jsx:134-136 | corrected, the same click makes White the winner |
| Findings.KingSeesVictimAgain | src/Board.jsx:127 | on the stale board the king, from its landing square, sees the piece it has just captured as a fresh capture |
| Findings.StaleKingFollowUp | src/Board.jsx:126-131 | as written, a king taking the last piece keeps the turn for a chain that does not exist, declares no winner and loses the selection |
| Findings.FixedKingFollowUp | src/Board.jsx:126-136 | corrected, the same click makes White the winner |
| Findings.HemmedNoWhiteCapture | src/Board.jsx:62-76 | with every square around the black man occupied, no white man can capture |
| Findings.HemmedBlackStuck | src/Board.jsx:62-76 | the hemmed-in black man has neither a step nor a jump |
| Findings.UnblockStepLegal | src/Board.jsx:99-104 | the click on 6,3 commits the step 7,2 to 6,3 |
| Findings.UnblockedNoBlackCapture | src/Board.jsx:62-76 | after the step the black man still has no capture |
| Findings.HemmedReply | src/Board.jsx:62-93 | after the step, 6,1 to 7,2 is a legal move of Black, so Black is not out of moves |
| Findings.ChainCutJumpLegal | src/Board.jsx:99-104 | the click on 2,1 commits the king's capture of the man on 3,2 |
| Findings.ChainCutNoStaleCapture | src/Board.jsx:42-60 | on the stale board the king on 2,1 has no capture: behind the man it has just taken stands its own start square |
| Findings.ChainCutReply | src/Board.jsx:81-93 | on the stale board Black still has a move |
| Findings.ChainCutSecondCapture | src/Board.jsx:42-60 | on the board after the jump the king on 2,1 can capture the man on 6,5, landing on 7,6 |
| Findings.StaleChainCut | src/Board.jsx:126-138 | as written, the turn passes to Black although the king can go on capturing on the new board |
| Findings.FixedChainCut | src/Board.jsx:126-131 | corrected, the same click keeps the turn with White, with no winner |
| Findings.PrematureWin | src/Board.jsx:134-136 | as written, the step ends the game in White's favour although Black has a move on the new board |
| Findings.FixedPrematureWin | src/Board.jsx:134-138 | corrected, the same click passes the turn to Black and declares no winner |
| Scenarios.OpeningHasNoCapture | src/Board.jsx:81-93 | in the starting position White has no capture, so every move of a white man is legal |
| Scenarios.Opening | src/Board.jsx:95-140 | from the start, clicking the man on 5,0 selects it, and clicking 4,1 moves it there and passes the turn to Black |
| Scenarios.ForcedJumpOnly | src/Board.jsx:62-76 | in the forced-capture position the jump 2,1 to 4,3 is Black's only capture |
| Scenarios.ForcedStepsCandidates | src/Board.jsx:62-76 | in the forced-capture position both black men have a plain step, 2,1 to 3,0 and 0,7 to 1,6 |
| Scenarios.ForcedCapture | src/Board.jsx:81-93 | in that position both black men have steps, yet the jump is Black's only legal move |

## Left out

- Rendering: the JSX tree, the banner text, and the `Cell` and `Piece` components (src/Cell.js, src/Piece.jsx) are presentation only.
- src/App.js: the wallet connection and payment are outside the game rules.
- `getHints`' strings: `Hints` is the set of target squares rather than the list of `"row,col"` strings. The order and duplicates of that list are not modelled.
- React's state updates: each handler is modelled by the state it leaves after React applies its batched updates. Where two updates of `selected` meet, the last one wins. The render that shows the state is not modelled.
- The king's `while` loop with `rr += dr; cc += dc` is modelled as recursion on a step count `k` along the diagonal (`Ray`). The loop stops at the board's edge in the same way.
- Copies of cells: `doMove`'s shallow copy of every cell is modelled by the fact that boards are values.
- `HandleClick` and `DoMove` keep the as-written behaviour. The corrected `HandleClickFixed` and `DoMoveFixed` are given beside them rather than replacing them, so that the contracts describe the code that runs.

## Findings

| source | as written | input that shows it | evidently intended | confidence | as-written member | corrected member |
|---|---|---|---|---|---|---|
| src/Board.jsx:134-138 | after a move, `getAllMoves` for the opponent reads `board` from before the move, where captured pieces are still present | a white man on 5,2 and Black's only piece, a man on 4,3, with White to move; the man on 5,2 is selected and the click is on 3,4 | taking the last piece makes White the winner | not executed | Findings.StaleWinnerCheck | Findings.FixedWinnerCheck |
| src/Board.jsx:127-131 | the follow-up check of a capture reads `board` from before the move, so a king can "capture again" the piece it has just removed | a white king on 4,5 and Black's only piece, a man on 2,3, with White to move; the king is selected and the click is on 1,2, from where the stale board shows 2,3 again with 3,4 empty behind it | the chain ends, and White wins because Black has no pieces | not executed | Findings.StaleKingFollowUp | Findings.FixedKingFollowUp |
| src/Board.jsx:134-136 | after a move, `getAllMoves` for the opponent reads `board` from before the move, where the mover still stands on its start square | a black man on 6,1 with white men on 7,0, 7,2, 5,0, 5,2 and 4,3, White to move; the man on 7,2 is selected and the click is on 6,3 | Black, who can now move 6,1 to 7,2, gets the turn | not executed | Findings.PrematureWin | Findings.FixedPrematureWin |
| src/Board.jsx:127-138 | the follow-up check of a capture reads `board` from before the move, where the mover still stands on its start square and blocks the diagonal behind the captured piece | a white king on 4,3 and black men on 3,2 and 6,5, White to move; the king is selected and the click is on 2,1 | the king, which can take 6,5 from 2,1 on the new board, keeps the turn to continue the chain | not executed | Findings.StaleChainCut | Findings.FixedChainCut |
