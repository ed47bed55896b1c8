# Spaceship turn controller — Dafny model

This project models the move controller of a tile-based space-combat game. A
request holds a rectangular grid of cell strings and a narrowing width. The
controller answers it with one command. The command alphabet is `M` (move
forward), `L` or `R` (rotate), `F` (fire), and the internal "no move" marker
`X`; the model proves that `F` is never actually returned.

The processing steps modelled, in the order the controller runs them:

1. **Parsing.** The grid of strings becomes a character array with as many
   rows as the input and as many columns as its first row. An empty string
   becomes `'_'` and any other string its first character. A row shorter
   than the first keeps Java's default `'\0'` in the cells it does not reach.
   An empty input, or a row longer than the first, fails.
2. **Player and direction.** A row-major scan finds the first `'P'`. The
   "direction" is the character of the cell just east of the player. The
   code does not read any facing letter.
3. **Narrowing zone.** The player is in the zone when it is within
   `narrowingIn` cells of an edge. The subtractions `rows - n` and `cols - n`
   are 32-bit Java arithmetic.
4. **Decision.** Inside the zone the answer is the move-or-rotate command
   toward the centre `(rows / 2, cols / 2)`. This may be `X` when the player
   already stands there or the centre is an asteroid. Outside the zone the
   controller scores coin candidates and fire candidates. It then always
   replaces the best candidate with the forward-safety command: `M` if the
   cell ahead is on the field and empty, else `R`. So the answer outside the
   zone is always `M` or `R`.

Modules: `Wrappers` (Option, Result), `Field` (grid, parsing, row-major
scans, stepping), `Tactics` (forward safety, move toward a target, Manhattan
distance, firing ray), `Controller` (zone test, candidate evaluation,
decision, endpoint). The parsed `char[][]` is an `array2<char>` that
`ParseField` fills in nested loops. Methods read the array. Specifications
read its value view `Cells(field)`, a rectangular `seq<seq<char>>`. The
Java `Action` record is the datatype `Controller.Action`. Java's
`List<int[]>` of positions is a `seq<Pos>`.

Behaviours of the code worth knowing, each stated by a member below:

- An enemy body does not stop a shot; only the border and asteroids do
  (`Tactics.RayReaches`).
- The player's direction is the east neighbour's character, not a facing
  letter (`Field.GetPlayerDirection`).
- An empty field, a row longer than the first, a missing player or a player
  in the last column makes the code throw; each becomes a
  `Controller.Failure` (`Controller.Respond`).
- The fire candidate is always overwritten by the forward-safety command
  (`Controller.EvaluateBestAction`). There is no path search.

## Model

| member | source | states |
|---|---|---|
| `Field.ParseGrid` | src/main/java/caffeine/machines/app/controller/SpaceshipController.java:20-29 | rows = input rows and columns = first-row length. A cell is its string's first character, `'_'` for an empty string, and `'\0'` past the end of a shorter row |
| `Field.ParseField` | src/main/java/caffeine/machines/app/controller/SpaceshipController.java:20-29 | fails exactly when the input is empty or some row is longer than the first. Otherwise it returns a fresh array whose contents are `ParseGrid(input)` |
| `Field.HasFirst` | src/main/java/caffeine/machines/app/controller/SpaceshipController.java:31-40 | if any cell holds a character, a row-major-first cell holding it exists (induction on row and column) |
| `Field.FirstIsUnique` | src/main/java/caffeine/machines/app/controller/SpaceshipController.java:31-40 | at most one cell is row-major-first for a character |
| `Field.FirstOf` | src/main/java/caffeine/machines/app/controller/SpaceshipController.java:31-40 | none exactly when no cell holds the character, otherwise the row-major-first cell holding it |
| `Field.FindPlayer` | src/main/java/caffeine/machines/app/controller/SpaceshipController.java:31-40 | fails exactly when no cell is `'P'`. Otherwise it returns a `'P'` cell with no `'P'` before it in row-major order |
| `Field.FindEntities` | src/main/java/caffeine/machines/app/controller/SpaceshipController.java:167-177 | lists exactly the cells equal to the character, none omitted, in strictly increasing row-major order (so no duplicates) |
| `Field.GetPlayerDirection` | src/main/java/caffeine/machines/app/controller/SpaceshipController.java:42-44 | the "direction" is the character one step east of the player. There is none (index out of bounds) exactly in the last column |
| `Tactics.FindSafeMove` | src/main/java/caffeine/machines/app/controller/SpaceshipController.java:101-120 | `M` exactly when the cell one step along the direction is on the field and `'_'`, otherwise `R`. Never `X` |
| `Tactics.SafeMoveWithoutHeading` | src/main/java/caffeine/machines/app/controller/SpaceshipController.java:101-119 | with a character other than N/S/E/W the step stays on the player's cell, so the answer is `R` unless that cell is `'_'` |
| `Tactics.MoveToTarget` | src/main/java/caffeine/machines/app/controller/SpaceshipController.java:122-138 | `X` exactly when the target is the player's cell or an asteroid. Otherwise `M` exactly when the target is strictly ahead, else a rotation toward its side. Straight behind turns `L` facing N/E and `R` facing S/W. `R` for an unknown direction |
| `Tactics.Distance` | src/main/java/caffeine/machines/app/controller/SpaceshipController.java:140-142 | Manhattan distance, zero exactly between equal positions |
| `Tactics.MoveClosesDistance` | src/main/java/caffeine/machines/app/controller/SpaceshipController.java:122-142 | when the target command is `M`, the step forward lowers the Manhattan distance to the target by exactly one |
| `Tactics.RayShape` | src/main/java/caffeine/machines/app/controller/SpaceshipController.java:153-158 | the firing ray is the straight run of open cells (on the field, not `'A'`) at steps 1, 2, … up to 4. The next cell within range is closed |
| `Tactics.RayReaches` | src/main/java/caffeine/machines/app/controller/SpaceshipController.java:153-163 | a cell at step i ≤ 4 is in the ray whenever the cells at steps 1..i are open. Enemy cells in between do not block it |
| `Tactics.RayWithoutHeading` | src/main/java/caffeine/machines/app/controller/SpaceshipController.java:144-158 | with a character other than N/S/E/W the ray never leaves the player's `'P'` cell, so no `'E'` cell is in it |
| `Tactics.EnemyInRange` | src/main/java/caffeine/machines/app/controller/SpaceshipController.java:144-165 | true exactly when some listed enemy position lies on the firing ray |
| `Controller.Wrap32` | src/main/java/caffeine/machines/app/controller/SpaceshipController.java:66-67 | 32-bit subtraction result: unchanged inside the `int` range, minus 2^32 just above it |
| `Controller.IsInNarrowingZone` | src/main/java/caffeine/machines/app/controller/SpaceshipController.java:65-68 | when `rows - n` and `cols - n` do not overflow: row < n, row ≥ rows − n, col < n or col ≥ cols − n |
| `Controller.NoZoneWithoutNarrowing` | src/main/java/caffeine/machines/app/controller/SpaceshipController.java:65-68 | with n = 0 no on-field cell is in the zone |
| `Controller.WideNarrowingCoversAll` | src/main/java/caffeine/machines/app/controller/SpaceshipController.java:65-68 | with 2n ≥ rows every on-field cell is in the zone |
| `Controller.WrappedNarrowingCoversAll` | src/main/java/caffeine/machines/app/controller/SpaceshipController.java:65-68 | whenever `rows - n` or `cols - n` overflows the 32-bit range, every on-field cell is in the zone; with the ensures of `IsInNarrowingZone` this covers every `n` |
| `Controller.NarrowingWrapsAround` | src/main/java/caffeine/machines/app/controller/SpaceshipController.java:65-68 | with n = Integer.MIN_VALUE the centre of a 13×13 field is in the zone because `13 - n` wraps, though the exact inequalities are false |
| `Controller.EvaluateBestAction` | src/main/java/caffeine/machines/app/controller/SpaceshipController.java:70-99 | whatever the coins and enemies, the result is the forward-safety command with score 5, so `M` or `R` and never `F` or `L` |
| `Controller.Decision` | src/main/java/caffeine/machines/app/controller/SpaceshipController.java:46-63 | always one of M/L/R/X and never `F`. Outside the zone only `M` or `R`. `X` exactly when in the zone and the centre is the player's cell or an asteroid |
| `Controller.NarrowingNeverMovesAway` | src/main/java/caffeine/machines/app/controller/SpaceshipController.java:55-58 | in the zone, an `M` answer moves the player one cell closer to the centre. In the game only `M` changes the position, so no answer in the zone moves the player away |
| `Controller.NoHeadingOnlyRotates` | src/main/java/caffeine/machines/app/controller/SpaceshipController.java:46-63 | with a direction character other than N/S/E/W (such as an empty east neighbour's `'_'`) the answer is `R`, or `X` in the zone |
| `Controller.MovesOutsideZoneOnlyPastLetter` | src/main/java/caffeine/machines/app/controller/SpaceshipController.java:93-120 | outside the zone the player moves only if its east neighbour's character is N, S or W. An enemy `'E'` there makes the forward cell that enemy |
| `Controller.CalculateBestMove` | src/main/java/caffeine/machines/app/controller/SpaceshipController.java:46-63 | returns `Decision` for the array's grid. The collected coins and enemies do not change the answer |
| `Controller.Respond` | src/main/java/caffeine/machines/app/controller/SpaceshipController.java:10-18 | fails with EmptyField, RowTooLong, PlayerNotFound exactly in those cases, and with NoEastNeighbour exactly when the first player stands in the last column; otherwise it returns a command, one of M/L/R/X and never `F` |
| `Controller.MakeMove` | src/main/java/caffeine/machines/app/controller/SpaceshipController.java:10-18 | parse, find the player, read the east neighbour, decide: the answer equals `Respond(input, narrowingIn)` |

## Left out

- The HTTP layer: the `@RestController`/`@PostMapping` wiring, the
  `Map.of("move", …)` response, and the `GameState` request object with its
  getters and unused `gameId`. `MakeMove` takes the field and the narrowing
  width directly.
- `HealthController` and its test: a constant health endpoint with no logic.
- Java exceptions are modelled as `Controller.Failure` values, not as
  exceptions. Spring would turn them into a server error response.
- A `null` field list, row or cell string from the request decoder is not
  modelled. Those would raise a null-pointer exception.
- Java `char` is a UTF-16 code unit and Dafny `char` a Unicode scalar value.
  The model does not handle cell strings that begin with a surrogate pair.
- Tactics.Distance: the sum is not wrapped to 32 bits, and neither is the
  coin score `10 - distance`. They could only overflow on grids with more
  than 2^31 columns plus rows. `EvaluateBestAction` shows the score never
  reaches the answer.
- Controller.MakeMove, Controller.CalculateBestMove: they require row and
  column counts below 2^31, which Java list sizes and array lengths always
  satisfy.
- Field.FindPlayer and Field.FindEntities read the array's common row length,
  where the code reads `field[i].length`. Arrays built by parsing are
  rectangular, so the two agree.
- Coin and fire candidates are evaluated as written, but nothing is proved
  about the intermediate best action. Only the final overwrite, which
  decides the answer, is specified.
