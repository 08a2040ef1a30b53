# Local tic-tac-toe: game state machine, stats rule and auth messages

This project models the game logic of the ATictack browser game (`script.js`). Two
players share one device. The game keeps three pieces of module-level state:

- a nine-cell board;
- the player to move, `X` or `O`;
- a flag saying whether the game is still running.

A click on a cell places the current player's mark. A result check then scans
the eight winning lines in a fixed order. It declares a win for the player who
just moved, or a tie on a full board, or passes the turn. A reset starts a new
game. Around the game sit two small pure rules. One is the counter arithmetic
applied to a signed-in player's statistics record after a game. The other is
the table that turns an authentication error code into a sentence for the player.

Files:

- `board.dfy`, module `Board`: the rules on values.
  - Cells, marks and the winning combinations.
  - `Evaluate`, the decision the result check makes.
  - `Count`, the number of marks of one player.
  - `Consistent`, the invariant of every state reachable from a reset.
  - The lemmas that one accepted move keeps that invariant and that the reported winner is the player who moved.
- `game.dfy`, module `LocalGame`: class `Game` with the fields `board: array<Cell>`, `currentPlayer` and `gameActive`.
  - The constructor gives the initial state.
  - `Click`, `CheckResult` and `Reset` update the fields in place.
  - `CheckResult` keeps the source's indexed scan with its early `break`.
- `stats.dfy`, module `Stats`: `ApplyResult`, the counter update, with lemmas.
- `auth_messages.dfy`, module `AuthMessages`: `AuthErrorMessage`, the lookup table with its fallback sentence.
- `wrappers.dfy`, module `Wrappers`: `Option`.

Modelling decisions:

- A cell is `Empty` (the empty string in the source) or `Marked(X)` / `Marked(O)`.
- A line counts as won only when its first cell is non-empty and all three cells are equal. This matches the truthiness test on `board[a]`.
- `Game.Valid()` is the class invariant: nine cells plus `Consistent`. The constructor and `Reset` establish it, and `Click` keeps it. `Click` therefore requires it. Every state the program can reach satisfies it.
- `CheckResult` requires only the nine cells. In the source it runs right after a mark is placed, when the invariant does not hold yet.
- `CheckResult` returns the outcome as an event (`Won(winner, combo)`, `Tie`, `Next(player)`). The source instead writes a status text, highlights cells and saves the result. Like the source, it leaves `gameActive` unchanged when the game goes on.
- The stats record keeps each counter as an `Option<nat>`, where `None` is a counter missing from the stored document. The source reads such a counter as `x || 0`. Every value a counter can hold here is a natural number, so `x || 0` reads `None` as 0 and `Some(n)` as `n`.
- In this file only wins and ties are ever reported, and each win is credited under the winner's symbol. The `loss` branch and the fall-through for any other result type are still modelled (`Loss`, `Unrecognized`).
- The source's lookup also falls back to the generic sentence when a table entry is empty. `AuthMessages.TableMessagesAreSpecific` proves that no entry is empty. So the model's lookup returns the table's sentence for every known code.
- The longer table sentences are written as two string literals joined with `+`. The text is the same as in the source.

## Model

| member | source | states |
|---|---|---|
| `Board.FirstWinFrom` | script.js:358-365 | The scan from position `k` returns the index of a uniform winning combination such that none between `k` and it is uniform, or returns nothing exactly when no combination from `k` on is uniform. |
| `Board.Evaluate` | script.js:353-390 | A win iff some winning combination is uniform and non-empty. The reported line is the first uniform one in list order and the reported winner is the player who moved. A tie iff no line wins and no cell is empty, so a won full board is a win. Otherwise the game goes on and the other player moves. |
| `Board.CountPlace` | script.js:343 | Marking an empty cell adds exactly one mark of the mover and leaves the other player's count unchanged. |
| `Board.EmptyBoardConsistent` | script.js:444-446 | The reset state (an empty board, `X` to move, active) satisfies the invariant: equal counts, no line, an empty cell. |
| `Board.NewLineThroughMove` | script.js:343 | A line that becomes uniform when a mark is placed on a board without one passes through the marked cell and holds the mover's mark. |
| `Board.PlayKeepsConsistent` | script.js:343-390 | From a consistent active state, an accepted move followed by the result check gives a consistent state. X's count equals O's or exceeds it by one. An active game has no winning line and an empty cell. A finished game is won or full, and every uniform line belongs to the player who moved last. |
| `Board.WinnerIsMover` | script.js:367-374 | After an accepted move from a reachable state, a reported win names the player who moved. The winning line holds that player's mark and passes through the cell just clicked. |
| `Board.TurnParity` | script.js:388 | Players alternate: in a reachable active state, `X` is to move exactly when an even number of cells is marked. |
| `LocalGame.Game.constructor` | script.js:2-4 | The initial state is an empty nine-cell board, `X` to move, and the game active. That state satisfies the class invariant. |
| `LocalGame.Game.Click` | script.js:333-350 | A click on a filled cell, or any click once the game is over, is ignored and leaves the board, the player and the flag unchanged. Otherwise cell `i` gets the current player's mark and no other cell changes. The outcome is `Evaluate` of the new board. The flag stays set only if the game goes on, and the player switches only then. A win names the mover, on a line through `i`. The class invariant is kept. |
| `LocalGame.Game.CheckResult` | script.js:353-390 | The indexed scan with early exit returns exactly `Evaluate` of the board for the current player. On a win or a tie the game stops and the player is not switched. Otherwise the player flips and the flag is untouched. |
| `LocalGame.Game.Reset` | script.js:443-456 | Whatever the prior state: a fresh empty board, `X` to move, the game active, and the class invariant holds. |
| `Stats.ApplyResult` | script.js:107-121 | The counter the result selects goes from its old value (0 when missing) to that value plus one: `winsAsX` for a win by X, `winsAsO` for a win by O, `losses` for a loss, `ties` for a tie. Every other counter is kept as it was, including whether it is missing. |
| `Stats.ExactlyOneCounter` | script.js:107-121 | A recognised result changes exactly one counter and raises the total by one. An unrecognised result type changes nothing. |
| `Stats.WinRecordedBySymbol` | script.js:109-116 | A win adds one to `winsAsX` when the winner is X and to `winsAsO` when it is O, and never touches `losses` or `ties`. |
| `AuthMessages.TableMessagesAreSpecific` | script.js:196-208 | Every sentence in the table is non-empty and does not start with the generic prefix. |
| `AuthMessages.AuthErrorMessage` | script.js:195-210 | The message is never empty. A known code gets its table sentence. A message starts with `Authentication error: ` exactly when the code is unknown, and then the rest of the message is the code itself. |

## Left out

- Firebase setup, the auth state listener, sign-in, sign-up, sign-out and the Firestore loads and writes (script.js:31-180). These are network and library calls.
- In `saveGameResult`: the signed-in guard, the `lastUpdated` server timestamp, the `update` call and its error handling (script.js:102-104, 123-130). Only the counter update `ApplyResult` is modelled.
- Stats.ApplyResult: the record is reduced to its four counters. Other fields such as `createdAt` are not modelled. A stored counter that is not a natural number (a string, a negative or fractional number) is not modelled either.
- All DOM work: cell text and classes, status text, the modal and tab switching, listener wiring, and the message timers (script.js:183-192, 213-330, 344-346, 368, 379, 389, 447-455). This is presentation.
- `highlightWinningCells` and `createExplosion` (script.js:393-440). They are visual effects built on random numbers, trigonometry and floating point, and they do not affect game state.
- `parseInt` of the cell's `data-index` (script.js:335). The index is the precondition `i < 9` of `Click`.
- AuthMessages.AuthErrorMessage: an error code naming a property inherited by every JavaScript object, such as `toString`, would select that property instead of the fallback. The model treats such codes as unknown.
