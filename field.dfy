/**
 * The playing field: the request's grid of cell strings parsed into a
 * rectangular grid of characters, cell positions, straight-line stepping,
 * and the row-major scans that locate the player and the other entities.
 */
module Field {
  import opened Wrappers

  /** A cell position, row index first (the controller's `int[]{row, col}`). */
  datatype Pos = Pos(row: int, col: int)

  /** Number of columns: the length of the first row, zero for a grid without rows. */
  function Cols(g: seq<seq<char>>): nat {
    if |g| == 0 then 0 else |g[0]|
  }

  predicate IsRectangular(g: seq<seq<char>>) {
    forall i :: 0 <= i < |g| ==> |g[i]| == Cols(g)
  }

  /** A parsed field: every row as long as the first, as `new char[rows][cols]` allocates it. */
  type Grid = g: seq<seq<char>> | IsRectangular(g)

  /** The bounds test the controller applies: row against the row count, column against the first row. */
  predicate InBounds(g: Grid, q: Pos) {
    0 <= q.row < |g| && 0 <= q.col < Cols(g)
  }

  function At(g: Grid, q: Pos): char
    requires InBounds(g, q)
  {
    g[q.row][q.col]
  }

  /** Strict row-major order: an earlier row, or the same row and an earlier column. */
  predicate Before(p: Pos, q: Pos) {
    p.row < q.row || (p.row == q.row && p.col < q.col)
  }

  /** No cell of the grid holds `k`. */
  ghost predicate Absent(g: Grid, k: char) {
    forall q :: InBounds(g, q) ==> At(g, q) != k
  }

  /** `p` holds `k` and no cell before it in row-major order does. */
  ghost predicate IsFirstOf(g: Grid, p: Pos, k: char) {
    InBounds(g, p) && At(g, p) == k &&
    forall q :: InBounds(g, q) && Before(q, p) ==> At(g, q) != k
  }

  /** Two row-major-first cells holding the same character are the same cell. */
  lemma FirstIsUnique(g: Grid, p: Pos, q: Pos, k: char)
    requires IsFirstOf(g, p, k) && IsFirstOf(g, q, k)
    ensures p == q
  {
  }

  /** Any cell holding `k` is preceded (or equalled) by a row-major-first one. */
  lemma {:induction false} HasFirst(g: Grid, q: Pos, k: char)
    requires InBounds(g, q) && At(g, q) == k
    ensures exists p :: IsFirstOf(g, p, k)
    decreases q.row, q.col
  {
    if !IsFirstOf(g, q, k) {
      var q' :| InBounds(g, q') && Before(q', q) && At(g, q') == k;
      HasFirst(g, q', k);
    }
  }

  /** The first cell in row-major order holding `k`, if any cell does. */
  ghost function FirstOf(g: Grid, k: char): (r: Option<Pos>)
    ensures r.None? <==> Absent(g, k)
    ensures r.Some? ==> IsFirstOf(g, r.value, k)
  {
    if exists p :: IsFirstOf(g, p, k) then
      var p :| IsFirstOf(g, p, k); Some(p)
    else
      assert Absent(g, k) by {
        forall q | InBounds(g, q) ensures At(g, q) != k {
          if At(g, q) == k { HasFirst(g, q, k); }
        }
      }
      None
  }

  /** The grid an array holds, row by row. */
  function Cells(a: array2<char>): (g: Grid)
    reads a
    ensures |g| == a.Length0 && (a.Length0 > 0 ==> Cols(g) == a.Length1)
    ensures forall i, j :: 0 <= i < a.Length0 && 0 <= j < a.Length1 ==> g[i][j] == a[i, j]
  {
    var rows := seq(a.Length0, i requires 0 <= i < a.Length0 reads a =>
                      seq(a.Length1, j requires 0 <= j < a.Length1 reads a => a[i, j]));
    assert forall i :: 0 <= i < |rows| ==> |rows[i]| == a.Length1;
    rows
  }

  // ---------------------------------------------------------------------------
  // Parsing

  /** A cell string becomes its first character; the empty string becomes '_'. */
  function ParseCell(s: string): char {
    if |s| == 0 then '_' else s[0]
  }

  /**
   * The input can be parsed: it has a first row, and no row is longer than
   * that first row (a longer row indexes past the allocated columns).
   */
  predicate Parsable(input: seq<seq<string>>) {
    |input| > 0 && forall i :: 0 <= i < |input| ==> |input[i]| <= |input[0]|
  }

  /**
   * The parsed field: as many rows as the input, as many columns as its first
   * row; a cell a shorter row does not reach keeps the default character '\0'.
   */
  function ParseGrid(input: seq<seq<string>>): (g: Grid)
    requires Parsable(input)
    ensures |g| == |input| && Cols(g) == |input[0]|
    ensures forall i, j :: 0 <= i < |input| && 0 <= j < |input[i]| ==> g[i][j] == ParseCell(input[i][j])
    ensures forall i, j :: 0 <= i < |input| && |input[i]| <= j < |input[0]| ==> g[i][j] == '\0'
  {
    var rows := seq(|input|, i requires 0 <= i < |input| =>
                      seq(|input[0]|, j requires 0 <= j < |input[0]| =>
                            if j < |input[i]| then ParseCell(input[i][j]) else '\0'));
    assert forall i :: 0 <= i < |rows| ==> |rows[i]| == |input[0]|;
    rows
  }

  /**
   * Fills a freshly allocated rows-by-first-row-length array cell by cell;
   * fails on an empty input or on a row longer than the first.
   */
  method ParseField(input: seq<seq<string>>) returns (r: Option<array2<char>>)
    ensures r.None? <==> !Parsable(input)
    ensures r.Some? ==> fresh(r.value)
    ensures r.Some? ==> r.value.Length0 == |input| && r.value.Length1 == |input[0]|
    ensures r.Some? ==> Cells(r.value) == ParseGrid(input)
  {
    if |input| == 0 {
      return None;
    }
    var cols := |input[0]|;
    var field := new char[|input|, cols]((i, j) => '\0');
    for i := 0 to |input|
      invariant forall a :: 0 <= a < i ==> |input[a]| <= cols
      invariant forall a, b :: 0 <= a < i && 0 <= b < |input[a]| ==> field[a, b] == ParseCell(input[a][b])
      invariant forall a, b :: 0 <= a < |input| && 0 <= b < cols && (i <= a || |input[a]| <= b) ==> field[a, b] == '\0'
    {
      for j := 0 to |input[i]|
        invariant forall a, b :: 0 <= a < i && 0 <= b < |input[a]| ==> field[a, b] == ParseCell(input[a][b])
        invariant j <= cols
        invariant forall b :: 0 <= b < j ==> field[i, b] == ParseCell(input[i][b])
        invariant forall a, b :: 0 <= a < |input| && 0 <= b < cols && (i < a || |input[a]| <= b || (a == i && j <= b)) ==> field[a, b] == '\0'
      {
        if j >= cols {
          return None;
        }
        field[i, j] := ParseCell(input[i][j]);
      }
    }
    var g := ParseGrid(input);
    assert forall a :: 0 <= a < |input| ==> Cells(field)[a] == g[a];
    return Some(field);
  }

  // ---------------------------------------------------------------------------
  // Scans

  /** Row-major scan for the player's cell 'P', returning the first one found. */
  method FindPlayer(field: array2<char>) returns (r: Option<Pos>)
    ensures r.None? <==> Absent(Cells(field), 'P')
    ensures r.Some? ==> IsFirstOf(Cells(field), r.value, 'P')
    ensures r == FirstOf(Cells(field), 'P')
  {
    ghost var g := Cells(field);
    for i := 0 to field.Length0
      invariant forall q :: InBounds(g, q) && q.row < i ==> At(g, q) != 'P'
    {
      for j := 0 to field.Length1
        invariant forall q :: InBounds(g, q) && (q.row < i || (q.row == i && q.col < j)) ==> At(g, q) != 'P'
      {
        if field[i, j] == 'P' {
          assert IsFirstOf(g, Pos(i, j), 'P');
          FirstIsUnique(g, Pos(i, j), FirstOf(g, 'P').value, 'P');
          return Some(Pos(i, j));
        }
      }
    }
    return None;
  }

  /** The positions are listed in strictly increasing row-major order (hence without repeats). */
  predicate RowMajorSorted(ps: seq<Pos>) {
    forall a, b :: 0 <= a < b < |ps| ==> Before(ps[a], ps[b])
  }

  /** Row-major scan collecting every position whose cell is `k`. */
  method FindEntities(field: array2<char>, k: char) returns (ps: seq<Pos>)
    ensures forall q :: q in ps <==> InBounds(Cells(field), q) && At(Cells(field), q) == k
    ensures RowMajorSorted(ps)
  {
    ghost var g := Cells(field);
    ps := [];
    for i := 0 to field.Length0
      invariant forall q :: q in ps <==> InBounds(g, q) && q.row < i && At(g, q) == k
      invariant forall q :: q in ps ==> q.row < i
      invariant RowMajorSorted(ps)
    {
      for j := 0 to field.Length1
        invariant forall q :: q in ps <==> InBounds(g, q) && (q.row < i || (q.row == i && q.col < j)) && At(g, q) == k
        invariant forall q :: q in ps ==> Before(q, Pos(i, j))
        invariant RowMajorSorted(ps)
      {
        if field[i, j] == k {
          ps := ps + [Pos(i, j)];
        }
      }
    }
  }

  // ---------------------------------------------------------------------------
  // Stepping

  /** The controller's direction switch: (row step, column step); (0, 0) for any other character. */
  function Delta(d: char): (int, int) {
    match d
    case 'N' => (-1, 0)
    case 'S' => (1, 0)
    case 'E' => (0, 1)
    case 'W' => (0, -1)
    case _ => (0, 0)
  }

  /** The cell `i` steps from `p` along direction character `d`. */
  function Offset(p: Pos, d: char, i: int): Pos {
    Pos(p.row + i * Delta(d).0, p.col + i * Delta(d).1)
  }

  /**
   * The character the controller uses as the player's direction: the cell
   * immediately east of the player. The last column has no such cell.
   */
  function GetPlayerDirection(g: Grid, p: Pos): (r: Option<char>)
    requires InBounds(g, p)
    ensures r.None? <==> p.col == Cols(g) - 1
    ensures r.Some? ==> InBounds(g, Offset(p, 'E', 1)) && r.value == At(g, Offset(p, 'E', 1))
  {
    if p.col + 1 < Cols(g) then Some(g[p.row][p.col + 1]) else None
  }
}
