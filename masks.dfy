/** Decoded luminance masks: the count of covered cells and the red alpha stencil. */
module Masks {
  import opened Raster

  /** A single-channel (luminance) mask, one row per image row. */
  type Mask = seq<seq<Byte>>

  /** The number of cells of `row` whose value is above 0. */
  function RowArea(row: seq<Byte>): nat
  {
    if row == [] then 0
    else RowArea(row[..|row| - 1]) + (if row[|row| - 1] > 0 then 1 else 0)
  }

  /** The positions (row, column) of the cells of `m` whose value is above 0. */
  function CoveredCells(m: Mask): set<(int, int)>
  {
    set y, x | 0 <= y < |m| && 0 <= x < |m[y]| && m[y][x] > 0 :: (y, x)
  }

  /** The positions, taken as row `y`, of the cells of `row` whose value is above 0. */
  function RowCells(row: seq<Byte>, y: int): set<(int, int)>
  {
    set x | 0 <= x < |row| && row[x] > 0 :: (y, x)
  }

  lemma RowCellsSnoc(row: seq<Byte>, y: int)
    requires row != []
    ensures RowCells(row, y) ==
      RowCells(row[..|row| - 1], y) + (if row[|row| - 1] > 0 then {(y, |row| - 1)} else {})
    ensures (y, |row| - 1) !in RowCells(row[..|row| - 1], y)
  {
    var n := |row| - 1;
    var init := row[..n];
    forall c | c in RowCells(row, y) ensures c in RowCells(init, y) || (row[n] > 0 && c == (y, n)) {
      var x :| 0 <= x < |row| && row[x] > 0 && c == (y, x);
      if x < n {
        assert init[x] == row[x];
      }
    }
    forall c | c in RowCells(init, y) ensures c in RowCells(row, y) {
      var x :| 0 <= x < |init| && init[x] > 0 && c == (y, x);
      assert row[x] == init[x];
    }
  }

  /** A row's cell count is the number of its positions whose cell is above 0. */
  lemma {:induction false} RowCellsCount(row: seq<Byte>, y: int)
    ensures |RowCells(row, y)| == RowArea(row)
  {
    if row != [] {
      RowCellsCount(row[..|row| - 1], y);
      RowCellsSnoc(row, y);
    }
  }

  lemma CoveredCellsSnoc(m: Mask)
    requires m != []
    ensures CoveredCells(m) == CoveredCells(m[..|m| - 1]) + RowCells(m[|m| - 1], |m| - 1)
    ensures CoveredCells(m[..|m| - 1]) * RowCells(m[|m| - 1], |m| - 1) == {}
  {
    var h := |m| - 1;
    var init, last := m[..h], m[h];
    forall c | c in CoveredCells(m) ensures c in CoveredCells(init) + RowCells(last, h) {
      var y, x :| 0 <= y < |m| && 0 <= x < |m[y]| && m[y][x] > 0 && c == (y, x);
      if y < h {
        assert init[y] == m[y];
      }
    }
    forall c | c in CoveredCells(init) ensures c in CoveredCells(m) && c.0 < h {
      var y, x :| 0 <= y < |init| && 0 <= x < |init[y]| && init[y][x] > 0 && c == (y, x);
      assert m[y] == init[y];
    }
    forall c | c in RowCells(last, h) ensures c in CoveredCells(m) && c.0 == h {
      var x :| 0 <= x < |last| && last[x] > 0 && c == (h, x);
    }
  }

  /** The area of a mask in pixels: the number of cells of `m` whose value is above 0. */
  function Area(m: Mask): nat
  {
    if m == [] then 0 else Area(m[..|m| - 1]) + RowArea(m[|m| - 1])
  }

  /** The area of a mask is the number of positions whose cell is above 0. */
  lemma {:induction false} AreaCountsCoveredCells(m: Mask)
    ensures Area(m) == |CoveredCells(m)|
  {
    if m == [] {
      assert CoveredCells(m) == {};
    } else {
      AreaCountsCoveredCells(m[..|m| - 1]);
      CoveredCellsSnoc(m);
      RowCellsCount(m[|m| - 1], |m| - 1);
    }
  }

  lemma {:induction false} RowAreaBounds(row: seq<Byte>)
    ensures RowArea(row) <= |row|
    ensures RowArea(row) == 0 <==> forall i :: 0 <= i < |row| ==> row[i] == 0
    ensures RowArea(row) == |row| <==> forall i :: 0 <= i < |row| ==> row[i] > 0
  {
    if row != [] {
      var init := row[..|row| - 1];
      RowAreaBounds(init);
      assert forall i :: 0 <= i < |init| ==> init[i] == row[i];
    }
  }

  /** A property holds of every cell of a grid exactly when it holds of every cell of the rows
      before the last and of every cell of the last row. */
  lemma SplitLastRow(m: Mask, width: nat, height: nat, init: Mask, last: seq<Byte>)
    requires IsGrid(m, width, height) && height > 0
    requires init == m[..height - 1] && last == m[height - 1]
    ensures (forall y, x :: 0 <= y < height && 0 <= x < width ==> m[y][x] == 0) <==>
            (forall y, x :: 0 <= y < height - 1 && 0 <= x < width ==> init[y][x] == 0) &&
            (forall x :: 0 <= x < width ==> last[x] == 0)
    ensures (forall y, x :: 0 <= y < height && 0 <= x < width ==> m[y][x] > 0) <==>
            (forall y, x :: 0 <= y < height - 1 && 0 <= x < width ==> init[y][x] > 0) &&
            (forall x :: 0 <= x < width ==> last[x] > 0)
  {
    assert forall y :: 0 <= y < height - 1 ==> init[y] == m[y];
  }

  lemma MulPred(width: nat, height: nat)
    requires height > 0
    ensures width * height == width * (height - 1) + width
  {
  }

  lemma {:induction false} AreaAtMost(m: Mask, width: nat, height: nat)
    requires IsGrid(m, width, height)
    ensures Area(m) <= width * height
  {
    if height > 0 {
      var init := m[..height - 1];
      assert forall y :: 0 <= y < height - 1 ==> init[y] == m[y];
      AreaAtMost(init, width, height - 1);
      RowAreaBounds(m[height - 1]);
      assert Area(m) == Area(init) + RowArea(m[height - 1]);
      MulPred(width, height);
    }
  }

  lemma {:induction false} AreaZeroIff(m: Mask, width: nat, height: nat)
    requires IsGrid(m, width, height)
    ensures Area(m) == 0 <==> forall y, x :: 0 <= y < height && 0 <= x < width ==> m[y][x] == 0
  {
    if height > 0 {
      var init, last := m[..height - 1], m[height - 1];
      assert forall y :: 0 <= y < height - 1 ==> init[y] == m[y];
      AreaZeroIff(init, width, height - 1);
      RowAreaBounds(last);
      SplitLastRow(m, width, height, init, last);
    }
  }

  lemma {:induction false} AreaFullIff(m: Mask, width: nat, height: nat)
    requires IsGrid(m, width, height)
    ensures Area(m) == width * height <==> forall y, x :: 0 <= y < height && 0 <= x < width ==> m[y][x] > 0
  {
    if height > 0 {
      var init, last := m[..height - 1], m[height - 1];
      assert forall y :: 0 <= y < height - 1 ==> init[y] == m[y];
      AreaFullIff(init, width, height - 1);
      AreaAtMost(init, width, height - 1);
      RowAreaBounds(last);
      MulPred(width, height);
      assert Area(m) == width * height <==> Area(init) == width * (height - 1) && RowArea(last) == width;
      SplitLastRow(m, width, height, init, last);
    }
  }

  /** The area of a `width` x `height` mask lies between 0 and `width * height`; it is 0
      exactly when no cell is above 0, and `width * height` exactly when every cell is. */
  lemma AreaBounds(m: Mask, width: nat, height: nat)
    requires IsGrid(m, width, height)
    ensures Area(m) <= width * height
    ensures Area(m) == 0 <==> forall y, x :: 0 <= y < height && 0 <= x < width ==> m[y][x] == 0
    ensures Area(m) == width * height <==> forall y, x :: 0 <= y < height && 0 <= x < width ==> m[y][x] > 0
  {
    AreaAtMost(m, width, height);
    AreaZeroIff(m, width, height);
    AreaFullIff(m, width, height);
  }

  /** The alpha stencil of a mask, coloured: red with alpha 128 where the mask is above 0,
      and red with alpha 0 elsewhere, whatever class the mask belongs to. */
  function Stencil(m: Mask): (s: seq<seq<Rgba>>)
    ensures SameShape(s, m)
    ensures forall y, x :: 0 <= y < |m| && 0 <= x < |m[y]| ==>
      s[y][x] == Rgba(255, 0, 0, if m[y][x] > 0 then 128 else 0)
  {
    seq(|m|, y requires 0 <= y < |m| =>
      seq(|m[y]|, x requires 0 <= x < |m[y]| => Rgba(255, 0, 0, if m[y][x] > 0 then 128 else 0)))
  }
}
