/**
 * The controller's geometric helpers: the forward-move safety test, the
 * move-or-rotate choice toward a target, Manhattan distance, and the firing
 * ray used to decide whether an enemy can be shot.
 */
module Tactics {
  import opened Field

  /** The four direction letters the controller's switches recognise. */
  predicate IsHeading(d: char) {
    d == 'N' || d == 'S' || d == 'E' || d == 'W'
  }

  /** A quarter turn clockwise (rows grow southward): N, E, S, W, N. */
  function TurnRight(d: char): char {
    match d
    case 'N' => 'E'
    case 'E' => 'S'
    case 'S' => 'W'
    case 'W' => 'N'
    case _ => d
  }

  /** How far the displacement (dr, dc) reaches in the direction `d`. */
  function Along(dr: int, dc: int, d: char): int {
    match d
    case 'N' => -dr
    case 'S' => dr
    case 'E' => dc
    case 'W' => -dc
    case _ => 0
  }

  // ---------------------------------------------------------------------------
  // Moving

  /**
   * "M" when the cell one step ahead lies on the field and is empty ('_'),
   * otherwise "R"; never "X".
   */
  function FindSafeMove(g: Grid, p: Pos, d: char): (r: string)
    ensures r == "M" || r == "R"
    ensures r == "M" <==> InBounds(g, Offset(p, d, 1)) && At(g, Offset(p, d, 1)) == '_'
  {
    var (dx, dy) := Delta(d);
    var nx, ny := p.row + dx, p.col + dy;
    if 0 <= nx < |g| && 0 <= ny < Cols(g) && g[nx][ny] == '_' then "M" else "R"
  }

  /**
   * With a character that is not a direction the step goes nowhere, so the
   * "forward" cell is the player's own; unless that cell is '_' the answer is "R".
   */
  lemma SafeMoveWithoutHeading(g: Grid, p: Pos, d: char)
    requires !IsHeading(d)
    requires InBounds(g, p) && At(g, p) != '_'
    ensures FindSafeMove(g, p, d) == "R"
  {
    assert Offset(p, d, 1) == p;
  }

  /**
   * "X" when the target is the player's own cell or an asteroid; otherwise
   * "M" exactly when the target lies strictly ahead, and else a rotation
   * toward the side it lies on. A target straight behind turns left when
   * facing N or E and right when facing S or W. Any other character: "R".
   */
  function MoveToTarget(g: Grid, p: Pos, t: Pos, d: char): (r: string)
    requires t == p || InBounds(g, t)
    ensures r == "M" || r == "L" || r == "R" || r == "X"
    ensures r == "X" <==> t == p || At(g, t) == 'A'
    ensures r != "X" && !IsHeading(d) ==> r == "R"
    ensures r != "X" && IsHeading(d) ==>
              var ahead := Along(t.row - p.row, t.col - p.col, d);
              var right := Along(t.row - p.row, t.col - p.col, TurnRight(d));
              (r == "M" <==> ahead > 0) &&
              (r == "R" <==> ahead <= 0 && (right > 0 || (right == 0 && (d == 'S' || d == 'W')))) &&
              (r == "L" <==> ahead <= 0 && (right < 0 || (right == 0 && (d == 'N' || d == 'E'))))
  {
    var dx := t.row - p.row;
    var dy := t.col - p.col;
    if dx == 0 && dy == 0 then "X"
    else if At(g, t) == 'A' then "X"
    else
      match d
      case 'N' => if dx < 0 then "M" else if dy > 0 then "R" else "L"
      case 'S' => if dx > 0 then "M" else if dy > 0 then "L" else "R"
      case 'E' => if dy > 0 then "M" else if dx > 0 then "R" else "L"
      case 'W' => if dy < 0 then "M" else if dx > 0 then "L" else "R"
      case _ => "R"
  }

  function Abs(x: int): nat {
    if x < 0 then -x else x
  }

  /** Manhattan distance; zero exactly between equal positions. */
  function Distance(a: Pos, b: Pos): (r: nat)
    ensures r == 0 <==> a == b
  {
    Abs(a.row - b.row) + Abs(a.col - b.col)
  }

  /** A step that MoveToTarget answers with "M" brings the player one cell closer to the target. */
  lemma MoveClosesDistance(g: Grid, p: Pos, t: Pos, d: char)
    requires t == p || InBounds(g, t)
    requires MoveToTarget(g, p, t, d) == "M"
    ensures Distance(Offset(p, d, 1), t) + 1 == Distance(p, t)
  {
    assert IsHeading(d);
    assert Offset(p, d, 1) == Pos(p.row + Delta(d).0, p.col + Delta(d).1);
  }

  // ---------------------------------------------------------------------------
  // Firing

  /** How many cells a shot travels. */
  const FireRange: nat := 4

  /** A cell a shot can pass: on the field and not an asteroid ('A'). Enemies do not stop it. */
  predicate Open(g: Grid, q: Pos) {
    InBounds(g, q) && At(g, q) != 'A'
  }

  /** The cells a shot passes from step `i` on, up to FireRange, stopping before the first closed cell. */
  function RayFrom(g: Grid, p: Pos, d: char, i: nat): seq<Pos>
    decreases FireRange + 1 - i
  {
    if i > FireRange || !Open(g, Offset(p, d, i)) then []
    else [Offset(p, d, i)] + RayFrom(g, p, d, i + 1)
  }

  /** The cells a shot fired from `p` toward `d` passes through. */
  function FiringRay(g: Grid, p: Pos, d: char): seq<Pos> {
    RayFrom(g, p, d, 1)
  }

  /**
   * The ray from step `i` is the run of open cells at steps i, i+1, ... in a
   * straight line, at most up to step FireRange; the cell after it, if within
   * range, is closed.
   */
  lemma {:induction false} RayShape(g: Grid, p: Pos, d: char, i: nat)
    requires 1 <= i <= FireRange + 1
    ensures |RayFrom(g, p, d, i)| <= FireRange + 1 - i
    ensures forall k :: 0 <= k < |RayFrom(g, p, d, i)| ==>
              RayFrom(g, p, d, i)[k] == Offset(p, d, i + k) && Open(g, Offset(p, d, i + k))
    ensures i + |RayFrom(g, p, d, i)| <= FireRange ==> !Open(g, Offset(p, d, i + |RayFrom(g, p, d, i)|))
    decreases FireRange + 1 - i
  {
    if i <= FireRange && Open(g, Offset(p, d, i)) {
      RayShape(g, p, d, i + 1);
      var rest := RayFrom(g, p, d, i + 1);
      assert RayFrom(g, p, d, i) == [Offset(p, d, i)] + rest;
      forall k | 0 <= k < |RayFrom(g, p, d, i)|
        ensures RayFrom(g, p, d, i)[k] == Offset(p, d, i + k) && Open(g, Offset(p, d, i + k))
      {
        if k > 0 {
          assert RayFrom(g, p, d, i)[k] == rest[k - 1];
        }
      }
    }
  }

  /**
   * A cell within range is hit when every cell up to it is open; enemies
   * standing in between do not shield it.
   */
  lemma RayReaches(g: Grid, p: Pos, d: char, i: nat)
    requires 1 <= i <= FireRange
    requires forall j :: 1 <= j <= i ==> Open(g, Offset(p, d, j))
    ensures Offset(p, d, i) in FiringRay(g, p, d)
  {
    RayShape(g, p, d, 1);
    var ray := FiringRay(g, p, d);
    assert ray[i - 1] == Offset(p, d, i);
  }

  /**
   * With a character that is not a direction the shot never leaves the
   * player's cell, so no enemy cell is in it.
   */
  lemma RayWithoutHeading(g: Grid, p: Pos, d: char, enemies: seq<Pos>)
    requires !IsHeading(d)
    requires InBounds(g, p) && At(g, p) == 'P'
    requires forall e :: e in enemies ==> InBounds(g, e) && At(g, e) == 'E'
    ensures forall e :: e in enemies ==> e !in FiringRay(g, p, d)
  {
    RayShape(g, p, d, 1);
  }

  /**
   * Steps along the direction for up to FireRange cells, stopping at the
   * border or an asteroid, and reports whether a listed enemy stands on one
   * of the cells passed.
   */
  method EnemyInRange(p: Pos, d: char, enemies: seq<Pos>, field: array2<char>) returns (hit: bool)
    ensures hit <==> exists e :: e in enemies && e in FiringRay(Cells(field), p, d)
  {
    ghost var g := Cells(field);
    RayShape(g, p, d, 1);
    ghost var ray := FiringRay(g, p, d);
    var (dx, dy) := Delta(d);
    var i := 1;
    while i <= FireRange
      invariant 1 <= i <= FireRange + 1
      invariant i - 1 <= |ray|
      invariant forall k :: 0 <= k < i - 1 ==> ray[k] !in enemies
    {
      var nx, ny := p.row + i * dx, p.col + i * dy;
      ghost var q := Offset(p, d, i);
      assert Pos(nx, ny) == q;
      if nx < 0 || nx >= field.Length0 || ny < 0 || ny >= field.Length1 || field[nx, ny] == 'A' {
        assert !Open(g, q);
        assert |ray| == i - 1;
        break;
      }
      assert Open(g, q);
      assert |ray| >= i;
      assert ray[i - 1] == q;
      for m := 0 to |enemies|
        invariant forall l :: 0 <= l < m ==> enemies[l] != q
      {
        if enemies[m] == Pos(nx, ny) {
          assert enemies[m] in ray;
          return true;
        }
      }
      assert q !in enemies;
      i := i + 1;
    }
    hit := false;
  }
}
