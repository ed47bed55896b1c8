/**
 * The turn decision: the narrowing-zone test, the candidate evaluation, the
 * combined decision, and the move endpoint that parses the field, locates the
 * player and answers with one command or the failure that ends the request.
 */
module Controller {
  import opened Wrappers
  import opened Field
  import opened Tactics

  /** Java's `int`. */
  type Int32 = x: int | -0x8000_0000 <= x < 0x8000_0000

  /** Integer.MIN_VALUE, the starting score of the best action. */
  const MinInt32: Int32 := -0x8000_0000

  /**
   * Two's-complement 32-bit wrap-around of an exact result: unchanged inside
   * the range, shifted down by 2^32 just above it.
   */
  function Wrap32(x: int): (r: Int32)
    ensures -0x8000_0000 <= x < 0x8000_0000 ==> r == x
    ensures 0x8000_0000 <= x < 0x1_8000_0000 ==> r == x - 0x1_0000_0000
  {
    (x + 0x8000_0000) % 0x1_0000_0000 - 0x8000_0000
  }

  // ---------------------------------------------------------------------------
  // Narrowing zone

  /**
   * The player is within `n` cells of some edge. The subtractions
   * `rows - n` and `cols - n` are 32-bit, so they wrap for very negative `n`.
   */
  function IsInNarrowingZone(p: Pos, n: Int32, rows: Int32, cols: Int32): (r: bool)
    requires rows >= 0 && cols >= 0
    ensures -0x8000_0000 <= rows - n < 0x8000_0000 && -0x8000_0000 <= cols - n < 0x8000_0000 ==>
              (r <==> p.row < n || p.row >= rows - n || p.col < n || p.col >= cols - n)
  {
    p.row < n || p.row >= Wrap32(rows - n) || p.col < n || p.col >= Wrap32(cols - n)
  }

  /** With no narrowing, no cell on the field is in the zone. */
  lemma NoZoneWithoutNarrowing(p: Pos, rows: Int32, cols: Int32)
    requires 0 <= p.row < rows && 0 <= p.col < cols
    ensures !IsInNarrowingZone(p, 0, rows, cols)
  {
  }

  /** A band at least half as wide as the field has rows covers every cell. */
  lemma WideNarrowingCoversAll(p: Pos, n: Int32, rows: Int32, cols: Int32)
    requires 0 <= n && rows <= 2 * n
    requires 0 <= p.row < rows && 0 <= p.col < cols
    ensures IsInNarrowingZone(p, n, rows, cols)
  {
  }

  /**
   * Integer.MIN_VALUE as the narrowing width puts the centre of a 13 by 13
   * field in the zone: 13 - n wraps to a negative number.
   */
  lemma NarrowingWrapsAround()
    ensures IsInNarrowingZone(Pos(6, 6), MinInt32, 13, 13)
    ensures !(6 < MinInt32 || 6 >= 13 - MinInt32)
  {
  }

  /**
   * Whenever `rows - n` or `cols - n` leaves the 32-bit range (only possible
   * for negative `n`), the wrapped difference is negative and every cell on
   * the field is in the zone.
   */
  lemma WrappedNarrowingCoversAll(p: Pos, n: Int32, rows: Int32, cols: Int32)
    requires 0 <= p.row < rows && 0 <= p.col < cols
    requires rows - n >= 0x8000_0000 || cols - n >= 0x8000_0000
    ensures IsInNarrowingZone(p, n, rows, cols)
  {
  }

  // ---------------------------------------------------------------------------
  // Candidate evaluation

  /** A candidate command with its score. */
  datatype Action = Action(command: string, score: int)

  /**
   * Scores a coin candidate per coin and a fire candidate per enemy in range,
   * then unconditionally replaces the best so far with the forward-safety
   * command (which is never "X") at score 5.
   */
  method EvaluateBestAction(field: array2<char>, p: Pos, d: char, coins: seq<Pos>, enemies: seq<Pos>)
    returns (best: Action)
    requires forall c :: c in coins ==> c == p || InBounds(Cells(field), c)
    ensures best == Action(FindSafeMove(Cells(field), p, d), 5)
    ensures best.command == "M" || best.command == "R"
  {
    best := Action("M", MinInt32);

    for c := 0 to |coins| {
      var coin := coins[c];
      var score := 10 - Distance(p, coin);
      var move := MoveToTarget(Cells(field), p, coin, d);
      if move != "X" && score > best.score {
        best := Action(move, score);
      }
    }

    for e := 0 to |enemies| {
      var inRange := EnemyInRange(p, d, [enemies[e]], field);
      if inRange {
        var score := 15;
        if score > best.score {
          best := Action("F", score);
        }
      }
    }

    var safeMove := FindSafeMove(Cells(field), p, d);
    if safeMove != "X" {
      best := Action(safeMove, 5);
    }
  }

  // ---------------------------------------------------------------------------
  // Decision

  /** The cell the player heads for while in the zone: (rows / 2, cols / 2). */
  function Centre(g: Grid): Pos {
    Pos(|g| / 2, Cols(g) / 2)
  }

  /** The field's sizes fit Java array lengths. */
  predicate JavaSizedGrid(g: Grid) {
    |g| < 0x8000_0000 && Cols(g) < 0x8000_0000
  }

  /**
   * The command chosen for a player at `p` with direction character `d`:
   * inside the zone, toward the centre (possibly "X"); outside, the
   * forward-safety command. Never "F"; never "L" or "X" outside the zone.
   */
  function Decision(g: Grid, p: Pos, d: char, n: Int32): (r: string)
    requires InBounds(g, p) && JavaSizedGrid(g)
    ensures r == "M" || r == "L" || r == "R" || r == "X"
    ensures !IsInNarrowingZone(p, n, |g|, Cols(g)) ==> r == "M" || r == "R"
    ensures r == "X" <==> IsInNarrowingZone(p, n, |g|, Cols(g)) && (Centre(g) == p || At(g, Centre(g)) == 'A')
  {
    if IsInNarrowingZone(p, n, |g|, Cols(g)) then MoveToTarget(g, p, Centre(g), d)
    else FindSafeMove(g, p, d)
  }

  /** In the zone a move forward always brings the player one cell closer to the centre. */
  lemma NarrowingNeverMovesAway(g: Grid, p: Pos, d: char, n: Int32)
    requires InBounds(g, p) && JavaSizedGrid(g)
    requires IsInNarrowingZone(p, n, |g|, Cols(g))
    requires Decision(g, p, d, n) == "M"
    ensures Distance(Offset(p, d, 1), Centre(g)) + 1 == Distance(p, Centre(g))
  {
    MoveClosesDistance(g, p, Centre(g), d);
  }

  /**
   * A direction character that is not N, S, E or W (such as the '_' of an
   * empty east neighbour) leaves the player only "R", or "X" in the zone.
   */
  lemma NoHeadingOnlyRotates(g: Grid, p: Pos, d: char, n: Int32)
    requires InBounds(g, p) && JavaSizedGrid(g) && At(g, p) == 'P'
    requires !IsHeading(d)
    ensures Decision(g, p, d, n) == "R" || Decision(g, p, d, n) == "X"
  {
    if !IsInNarrowingZone(p, n, |g|, Cols(g)) {
      SafeMoveWithoutHeading(g, p, d);
    }
  }

  /**
   * Outside the zone the player moves only when the cell east of it starts
   * with 'N', 'S' or 'W': an enemy there ('E') makes it face that enemy, and
   * anything else is no direction at all.
   */
  lemma MovesOutsideZoneOnlyPastLetter(g: Grid, p: Pos, n: Int32)
    requires InBounds(g, p) && JavaSizedGrid(g) && At(g, p) == 'P'
    requires GetPlayerDirection(g, p).Some?
    requires !IsInNarrowingZone(p, n, |g|, Cols(g))
    requires Decision(g, p, GetPlayerDirection(g, p).value, n) == "M"
    ensures GetPlayerDirection(g, p).value in {'N', 'S', 'W'}
  {
    var d := GetPlayerDirection(g, p).value;
    if !IsHeading(d) {
      SafeMoveWithoutHeading(g, p, d);
    }
  }

  /**
   * Gathers coins and enemies, then answers toward the centre inside the
   * zone, and with the best evaluated action outside it.
   */
  method CalculateBestMove(field: array2<char>, p: Pos, d: char, n: Int32) returns (move: string)
    requires InBounds(Cells(field), p) && JavaSizedGrid(Cells(field))
    ensures move == Decision(Cells(field), p, d, n)
  {
    var rows := field.Length0;
    var cols := field.Length1;

    var coins := FindEntities(field, 'C');
    var enemies := FindEntities(field, 'E');

    if IsInNarrowingZone(p, n, rows, cols) {
      var safeZone := Pos(rows / 2, cols / 2);
      return MoveToTarget(Cells(field), p, safeZone, d);
    }

    var bestAction := EvaluateBestAction(field, p, d, coins, enemies);
    return bestAction.command;
  }

  // ---------------------------------------------------------------------------
  // The move endpoint

  /** Why a request gets no command. */
  datatype Failure =
    | EmptyField        // the field has no first row
    | RowTooLong        // a row is longer than the first row
    | PlayerNotFound    // no cell is 'P'
    | NoEastNeighbour   // the first player stands in the last column

  /** Row count and first-row length fit Java's `int`. */
  predicate JavaSized(input: seq<seq<string>>) {
    |input| < 0x8000_0000 && (|input| > 0 ==> |input[0]| < 0x8000_0000)
  }

  /**
   * What the endpoint answers for a field and a narrowing width: a command,
   * or the failure that stops the request. A command is never "F".
   */
  ghost function Respond(input: seq<seq<string>>, n: Int32): (r: Result<string, Failure>)
    requires JavaSized(input)
    ensures r == Err(EmptyField) <==> |input| == 0
    ensures r == Err(RowTooLong) <==> |input| > 0 && !Parsable(input)
    ensures r == Err(PlayerNotFound) <==> Parsable(input) && Absent(ParseGrid(input), 'P')
    ensures r == Err(NoEastNeighbour) <==>
              Parsable(input) && !Absent(ParseGrid(input), 'P') &&
              FirstOf(ParseGrid(input), 'P').value.col == |input[0]| - 1
    ensures r.Ok? ==> r.value == "M" || r.value == "L" || r.value == "R" || r.value == "X"
  {
    if |input| == 0 then Err(EmptyField)
    else if !Parsable(input) then Err(RowTooLong)
    else
      var g := ParseGrid(input);
      match FirstOf(g, 'P')
      case None => Err(PlayerNotFound)
      case Some(p) =>
        match GetPlayerDirection(g, p)
        case None => Err(NoEastNeighbour)
        case Some(d) => Ok(Decision(g, p, d, n))
  }

  /** Parses the field, finds the player and its direction character, and decides the move. */
  method MakeMove(input: seq<seq<string>>, n: Int32) returns (r: Result<string, Failure>)
    requires JavaSized(input)
    ensures r == Respond(input, n)
  {
    var parsed := ParseField(input);
    if parsed.None? {
      return if |input| == 0 then Err(EmptyField) else Err(RowTooLong);
    }
    var field := parsed.value;
    var player := FindPlayer(field);
    if player.None? {
      return Err(PlayerNotFound);
    }
    var p := player.value;
    var direction := GetPlayerDirection(Cells(field), p);
    if direction.None? {
      return Err(NoEastNeighbour);
    }
    var move := CalculateBestMove(field, p, direction.value, n);
    return Ok(move);
  }
}
