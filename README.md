# Discord bot helpers: Tic-Tac-Toe terminal check, board rendering, statistics ledger, command cooldowns

The bot (`index.js`) is mostly request/reply glue around a chat platform. This
project models the four helpers at the top of that file that hold real logic:

- `checkWinner` scans the eight winning lines of a 3x3 board (rows, columns,
  diagonals, in that order). It returns the mark of the first line whose three
  cells hold the same mark, or `null`. It is modelled twice. `TicTacToe.FirstWinFrom`
  and `TicTacToe.Winner` are the specification, a recursion over the lines.
  `TicTacToe.CheckWinner` is the `for` loop with its early return, proved equal to it.
- `renderBoard` turns the nine cells into three text rows, drawing `⬜` for an
  empty cell (`TicTacToe.RenderBoard`). `TicTacToe.ReadBoard` reads such text
  back, and is used to prove that rendering loses nothing when every mark is
  one character.
- `updateHistory` updates the `tttStats` ledger in place (`Stats.StatsLedger`).
  The method performs the source's increments one by one. Its postcondition ties the
  result to `Stats.AfterGame`, a per-player description of one game's effect.
  The scoring rules, the frame, monotonicity and the invariants
  `games == wins + losses + draws` and `points == 3 * wins + draws` are proved
  about that function, and about `Stats.Replay` over any sequence of games.
- `isOnCooldown` updates the nested `cooldowns` table in place (`Cooldown.CooldownTable`).
  Its postcondition ties the result and the new table to `Cooldown.Check`.
  The three cases, the frame, and the behaviour of two checks in a row are proved about `Check`.

Modelling choices:

- A board cell is `Empty` or `Mark(glyph)` with a non-empty string. This is the
  source's truthiness test: `undefined`, `null` and `''` all count as empty.
- A board holds exactly nine cells.
- `Date.now()` is the parameter `now: nat` (milliseconds since the epoch, never negative).
- `Math.ceil((expire - now) / 1000)` is the integer ceiling division `Cooldown.CeilDiv`.
- The JavaScript objects and `Map`s are Dafny `map`s held in a field of a class.
- `updateHistory`'s `isDraw = false` default becomes an explicit `bool` parameter.
- A configured cooldown of 0 is falsy in the source and counts as "not configured".
- `UpdateHistory` collects its increments in a local copy of the map and stores
  it back at the end. The sequence of increments is the source's.
- When `winnerId == loserId`, both increments land on the one record, as they do in
  the source (`Stats.SelfGame`). The two invariants still hold then.

## Model

| member | source | states |
|---|---|---|
| `TicTacToe.FirstWinFrom` | index.js:101-104 | scanning lines from position k yields `None` exactly when none of the remaining lines is completed; otherwise the mark of a completed line with no completed line before it |
| `TicTacToe.Winner` | index.js:95-105 | the result is `None` exactly when none of the 8 lines holds three equal marks; a returned mark is the owner of the first completed line |
| `TicTacToe.CheckWinner` | index.js:101-104 | the loop with early return computes `Winner`; it returns a mark exactly when some line is completed, and that mark is the first completed line's |
| `TicTacToe.FirstCompletedUnique` | index.js:101-102 | there is only one first completed line |
| `TicTacToe.WinnerIsFirst` | index.js:101-102 | the winner is the mark of the first completed line in scan order (rows, columns, diagonals) |
| `TicTacToe.EmptyBoardNoWinner` | index.js:102-104 | an all-empty board has no winner |
| `TicTacToe.SingleMarkWins` | index.js:101-102 | if every marked cell holds m and some line is completed, the winner is m |
| `TicTacToe.TopRowWins` | index.js:97-102 | a top row of one mark wins for that mark whatever the rest of the board holds |
| `TicTacToe.FullBoardWithoutLine` | index.js:96-104 | the full board X O X / O X O / O X O has no winner |
| `TicTacToe.RenderBoard` | index.js:87-93 | the definition of the rendered text; its properties are stated by `RenderLayout`, `RenderRoundTrip` and `RenderInjective` |
| `TicTacToe.RenderLayout` | index.js:87-93 | with one-character marks the text is 15 characters: line breaks at 0, 4, 8, 12, two trailing spaces, cell i in row-major position, `⬜` for empty cells |
| `TicTacToe.RenderRoundTrip` | index.js:88-92 | reading the rendered text back gives the board again (one-character marks other than `⬜`) |
| `TicTacToe.RenderInjective` | index.js:88-92 | two such boards that render to the same text are equal |
| `Stats.Credit` | index.js:112-117 | the definition of what one game adds to a participant's record (the increments of both branches, also at index.js:124-129); its properties are stated by `WinScoring`, `DrawScoring`, `SelfGame` and `CreditKeeps` |
| `Stats.AfterGame` | index.js:107-130 | after one game the ledger holds a record for both participants and every other record is unchanged |
| `Stats.WinScoring` | index.js:121-129 | for distinct ids the winner gains one win, one game and 3 points; the loser gains one loss and one game, points unchanged; absent records start at zero |
| `Stats.DrawScoring` | index.js:108-117 | for distinct ids each player gains one draw, one game and one point; wins and losses unchanged; absent records start at zero |
| `Stats.SelfGame` | index.js:107-130 | when the same id is winner and loser, both shares land on one record |
| `Stats.Monotone` | index.js:107-130 | no counter of any record decreases, and a newly created record is at least the zeroed one |
| `Stats.CreditKeeps` | index.js:112-129 | crediting a record that is balanced and scored keeps it balanced and scored, for every combination of winner, loser and draw |
| `Stats.PreservesConsistent` | index.js:107-130 | one game keeps `games == wins + losses + draws` and `points == 3 * wins + draws` for every record |
| `Stats.ReplayConsistent` | index.js:107-130 | after any sequence of games every record still has both invariants |
| `Stats.ReplayGames` | index.js:107-130 | a player's games counter grows by exactly the number of times the player is named as winner or loser |
| `Stats.StatsLedger.constructor` | index.js:66 | the ledger starts empty |
| `Stats.StatsLedger.UpdateHistory` | index.js:107-130 | the lazy creation and the increments leave the ledger equal to `AfterGame` of the old ledger |
| `Cooldown.CeilDiv` | index.js:81 | the result is the ceiling of n / d: `(q - 1) * d < n <= q * d` |
| `Cooldown.Arm` | index.js:75-83 | setting one user's expiry changes that entry only; the command's inner table is created if absent |
| `Cooldown.Check` | index.js:73-85 | the definition of one check as a value; its properties are stated by `UnconfiguredIsFree`, `WaitingChangesNothing`, `ExpiredRearms`, `CooldownWindow` and `Independent` |
| `Cooldown.ConfiguredCooldowns` | index.js:52-63 | every command in the configured table has a cooldown between 2 and 10 seconds, and `+poll` has the longest (10 s) |
| `Cooldown.UnconfiguredIsFree` | index.js:74 | a command whose cooldown is falsy (absent or 0) returns 0 and leaves the table unchanged |
| `Cooldown.WaitingChangesNothing` | index.js:81 | before the stored expiry the result is the remaining time in whole seconds rounded up, at least 1, and the table is unchanged |
| `Cooldown.ExpiredRearms` | index.js:81-84 | at or after the expiry the result is 0, the user's expiry becomes `now + cooldown * 1000`, and every other entry is unchanged |
| `Cooldown.CooldownWindow` | index.js:73-85 | after a check that lets a command run at t0, a check at t1 >= t0 must wait exactly when t1 < t0 + cooldown * 1000, and then waits at most the configured seconds |
| `Cooldown.Independent` | index.js:77-83 | a check for one (command, user) pair does not change what a check for any other pair returns |
| `Cooldown.TicTacToeCooldownExample` | index.js:52-63 | with the configured table, `+tictactoe` runs at 0 ms, waits 1 s at 4001 ms and runs at 5000 ms; an unconfigured command is free |
| `Cooldown.CooldownTable.constructor` | index.js:64 | the cooldown table starts empty |
| `Cooldown.CooldownTable.IsOnCooldown` | index.js:73-85 | the returned wait and the new table are those of `Check` on the old table with the configured cooldowns |

## Left out

- The chat-platform client, the slash-command and message handlers, login and logging: platform I/O.
- Bug-report forwarding, moderation, user info, avatar and help commands: thin wrappers over platform calls.
- The message dedupe set and its timer-driven deletion: asynchronous and timer-driven.
- Poll parsing and reactions, AFK/DND status: message routing glue around library calls.
- A Tic-Tac-Toe session state machine (turns, move validation, expiry, session keys): `index.js` has only a placeholder comment where it would be. The `activeGames` and `userPoints` maps are declared but never used.
- `Date.now()`: it becomes the parameter `now` of `IsOnCooldown`.
- Cooldown.CeilDiv: does not model double-precision rounding of `(expire - now) / 1000`. The operands stay far below 2^53, where the division and its ceiling are exact.
- Stats.StatsLedger.UpdateHistory: does not model JavaScript property lookup through the object prototype. A player id such as `constructor` would find an inherited value instead of a missing record. Platform user ids are numeric strings, so this cannot arise.
- Cooldown.CooldownTable.IsOnCooldown: commands are matched as map keys only. Prototype property names such as `toString`, which `commandCooldowns[cmd]` would also find, are not modelled. The callers only pass the fixed command names.
- The board is always nine cells. Out-of-range indices, which JavaScript would read as `undefined`, are not modelled.
