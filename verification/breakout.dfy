/** The brick grid that the breakout game lays out when a game state is
    created: five rows (y = 2 .. 6), and in each row every odd column x with
    5 <= x < width - 5, emitted row by row, left to right. */
module Breakout {
  import opened Primitives

  /** The bricks of one row `y`, from column `x` up to (excluding) `hi`:
      one brick for each odd column, left to right. */
  function RowBricks(y: i32, x: int, hi: i32): seq<Vec2>
    requires I32_MIN <= x
    decreases hi as int - x
  {
    if x >= hi as int then []
    else (if x % 2 != 0 then [Vec2(x as i32, y)] else []) + RowBricks(y, x + 1, hi)
  }

  /** Rows `y` .. 6 of the grid, each row spanning columns [5, hi). */
  function RowsFrom(y: int, hi: i32): seq<Vec2>
    requires 2 <= y <= 7
    decreases 7 - y
  {
    if y == 7 then [] else RowBricks(y as i32, 5, hi) + RowsFrom(y + 1, hi)
  }

  /** Whether `width - 5` can be computed in `i32` without overflow. */
  predicate WidthOk(width: i32) {
    I32_MIN + 5 <= width as int
  }

  /** Reference definition of the layout for an arena `width` columns wide. */
  function Layout(width: i32): seq<Vec2>
    requires WidthOk(width)
  {
    RowsFrom(2, width - 5)
  }

  /** The characterisation of a brick position: one of the five rows, inside
      the column margin, on an odd column. Odd means a non-zero remainder,
      which reads the same under Rust's truncating `%` and Dafny's `%`. */
  predicate IsBrick(width: int, p: Vec2) {
    2 <= p.y < 7 && 5 <= p.x as int < width - 5 && p.x % 2 != 0
  }

  /** Row-major order: an earlier row first, then the smaller column. */
  predicate Before(a: Vec2, b: Vec2) {
    a.y < b.y || (a.y == b.y && a.x < b.x)
  }

  predicate Sorted(s: seq<Vec2>) {
    forall i, j :: 0 <= i < j < |s| ==> Before(s[i], s[j])
  }

  /** The number of odd integers in [lo, hi), in closed form. */
  function OddCount(lo: int, hi: int): nat {
    if hi <= lo then 0 else (hi - lo + (if lo % 2 != 0 then 1 else 0)) / 2
  }

  lemma {:induction false} RowBricksMembers(y: i32, x: int, hi: i32, p: Vec2)
    requires I32_MIN <= x
    ensures p in RowBricks(y, x, hi) <==> p.y == y && x <= p.x as int < hi as int && p.x % 2 != 0
    decreases hi as int - x
  {
    if x < hi as int {
      var head := if x % 2 != 0 then [Vec2(x as i32, y)] else [];
      assert RowBricks(y, x, hi) == head + RowBricks(y, x + 1, hi);
      assert p in head <==> p.x as int == x && p.y == y && x % 2 != 0;
      RowBricksMembers(y, x + 1, hi, p);
    }
  }

  lemma {:induction false} RowBricksSorted(y: i32, x: int, hi: i32)
    requires I32_MIN <= x
    ensures Sorted(RowBricks(y, x, hi))
    decreases hi as int - x
  {
    if x < hi as int {
      RowBricksSorted(y, x + 1, hi);
      var rest := RowBricks(y, x + 1, hi);
      forall k | 0 <= k < |rest|
        ensures rest[k].y == y && x < rest[k].x as int
      {
        RowBricksMembers(y, x + 1, hi, rest[k]);
      }
    }
  }

  lemma {:induction false} RowBricksLength(y: i32, x: int, hi: i32)
    requires I32_MIN <= x
    ensures |RowBricks(y, x, hi)| == OddCount(x, hi as int)
    decreases hi as int - x
  {
    if x < hi as int {
      RowBricksLength(y, x + 1, hi);
    }
  }

  lemma {:induction false} RowsFromMembers(y: int, hi: i32, p: Vec2)
    requires 2 <= y <= 7
    ensures p in RowsFrom(y, hi) <==> y <= p.y as int < 7 && 5 <= p.x as int < hi as int && p.x % 2 != 0
    decreases 7 - y
  {
    if y < 7 {
      RowBricksMembers(y as i32, 5, hi, p);
      RowsFromMembers(y + 1, hi, p);
    }
  }

  lemma {:induction false} RowsFromSorted(y: int, hi: i32)
    requires 2 <= y <= 7
    ensures Sorted(RowsFrom(y, hi))
    decreases 7 - y
  {
    if y < 7 {
      var row := RowBricks(y as i32, 5, hi);
      var rest := RowsFrom(y + 1, hi);
      RowBricksSorted(y as i32, 5, hi);
      RowsFromSorted(y + 1, hi);
      forall i | 0 <= i < |row| ensures row[i].y as int == y {
        RowBricksMembers(y as i32, 5, hi, row[i]);
      }
      forall j | 0 <= j < |rest| ensures y < rest[j].y as int {
        RowsFromMembers(y + 1, hi, rest[j]);
      }
      var s := row + rest;
      forall i, j | 0 <= i < j < |s| ensures Before(s[i], s[j]) {
        if j < |row| {
          assert s[i] == row[i] && s[j] == row[j];
        } else if i >= |row| {
          assert s[i] == rest[i - |row|] && s[j] == rest[j - |row|];
        } else {
          assert s[i] == row[i] && s[j] == rest[j - |row|];
        }
      }
    }
  }

  lemma {:induction false} RowsFromLength(y: int, hi: i32)
    requires 2 <= y <= 7
    ensures |RowsFrom(y, hi)| == (7 - y) * OddCount(5, hi as int)
    decreases 7 - y
  {
    if y < 7 {
      RowBricksLength(y as i32, 5, hi);
      RowsFromLength(y + 1, hi);
    }
  }

  /** Every brick lies in rows 2..6, inside the column margin, on an odd
      column; and every such position is a brick (completeness). */
  lemma LayoutMembers(width: i32, p: Vec2)
    requires WidthOk(width)
    ensures p in Layout(width) <==> IsBrick(width as int, p)
  {
    RowsFromMembers(2, width - 5, p);
  }

  /** The layout is strictly row-major, hence free of duplicates. */
  lemma LayoutSorted(width: i32)
    requires WidthOk(width)
    ensures Sorted(Layout(width))
    ensures forall i, j :: 0 <= i < j < |Layout(width)| ==> Layout(width)[i] != Layout(width)[j]
  {
    RowsFromSorted(2, width - 5);
  }

  /** Five rows, each holding one brick per odd column in [5, width - 5);
      nothing at all when the arena is 10 columns wide or less. */
  lemma LayoutLength(width: i32)
    requires WidthOk(width)
    ensures |Layout(width)| == 5 * OddCount(5, width as int - 5)
    ensures width <= 10 ==> Layout(width) == []
  {
    RowsFromLength(2, width - 5);
  }

  lemma ConcatAssoc(a: seq<Vec2>, b: seq<Vec2>, c: seq<Vec2>)
    ensures (a + b) + c == a + (b + c)
  {
  }

  /** The inner loop for one row: append (x, y) for every odd x in [5, hi). */
  method PushRow(bricks: seq<Vec2>, y: i32, hi: i32) returns (out: seq<Vec2>)
    ensures out == bricks + RowBricks(y, 5, hi)
  {
    out := bricks;
    var x: int := 5;
    while x < hi as int
      invariant 5 <= x
      invariant x <= hi as int || x == 5
      invariant out + RowBricks(y, x, hi) == bricks + RowBricks(y, 5, hi)
      decreases hi as int - x
    {
      if x % 2 != 0 {
        out := out + [Vec2(x as i32, y)];
      }
      x := x + 1;
    }
  }

  /** The outer loop: one pass of the inner loop per row y in 2..7, each
      row spanning columns [5, hi). */
  method PushRows(hi: i32) returns (bricks: seq<Vec2>)
    ensures bricks == RowsFrom(2, hi)
  {
    bricks := [];
    var y := 2;
    while y < 7
      invariant 2 <= y <= 7
      invariant bricks + RowsFrom(y, hi) == RowsFrom(2, hi)
    {
      ghost var rowStart := bricks;
      bricks := PushRow(bricks, y as i32, hi);
      ConcatAssoc(rowStart, RowBricks(y as i32, 5, hi), RowsFrom(y + 1, hi));
      y := y + 1;
    }
  }

  /** The brick loop of the game-state constructor: for each row y in 2..7
      and each column x in 5..width-5, push (x, y) when x is odd. Only the
      width of `dimension` is read. */
  method NewBricks(dimension: Vec2) returns (bricks: seq<Vec2>)
    requires WidthOk(dimension.x)
    ensures bricks == Layout(dimension.x)
    ensures forall p :: p in bricks <==> IsBrick(dimension.x as int, p)
    ensures Sorted(bricks)
    ensures |bricks| == 5 * OddCount(5, dimension.x as int - 5)
  {
    bricks := PushRows(dimension.x - 5);
    forall p ensures p in bricks <==> IsBrick(dimension.x as int, p) {
      LayoutMembers(dimension.x, p);
    }
    LayoutSorted(dimension.x);
    LayoutLength(dimension.x);
  }
}
