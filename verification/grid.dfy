/**
 * The stack of boxes: a `rows` by `columns` grid stored as one flat,
 * row-major sequence of boxes, each either empty or holding a coin.
 */
module Grid {
  import Arith

  /** The largest value of the source's `usize` (a 64-bit target). */
  const USIZE_MAX: nat := 0xFFFF_FFFF_FFFF_FFFF

  /** A box. */
  datatype Box = Empty | Coin {

    predicate IsCoin()
      ensures IsCoin() <==> this != Empty
    {
      this == Coin
    }
  }

  /** A stack of boxes: its dimensions and its boxes in row-major order. */
  datatype Stack = Stack(rows: nat, columns: nat, boxes: seq<Box>)

  /**
   * A stack as the generator builds it: at least one row and one column,
   * a box count that a `usize` can hold, and one box per cell.
   */
  predicate Valid(s: Stack) {
    && s.rows != 0
    && s.columns != 0
    && s.rows * s.columns <= USIZE_MAX
    && |s.boxes| == s.rows * s.columns
  }

  /**
   * The flat position of cell (`row`, `column`). It is in range, and dividing
   * it by the row length gives the cell back, so no two cells share a box.
   */
  function CellIndex(rows: nat, columns: nat, row: nat, column: nat): (i: nat)
    requires row < rows && column < columns
    ensures i < rows * columns
    ensures i / columns == row && i % columns == column
  {
    Arith.CellBound(rows, columns, row, column);
    Arith.DivModUnique(row * columns + column, columns, row, column);
    row * columns + column
  }

  /** Every flat position is the position of exactly the cell its quotient and remainder name. */
  lemma CellOfIndex(rows: nat, columns: nat, i: nat)
    requires columns != 0 && i < rows * columns
    ensures i / columns < rows
    ensures CellIndex(rows, columns, i / columns, i % columns) == i
  {
    Arith.DivBound(i, columns, rows);
  }

  /**
   * The box in cell (`row`, `column`); the source asserts both coordinates are
   * in range. It is the box whose flat position divides back to that cell.
   */
  function BoxAt(s: Stack, row: nat, column: nat): (b: Box)
    requires Valid(s) && row < s.rows && column < s.columns
    ensures forall i :: 0 <= i < |s.boxes| && i / s.columns == row && i % s.columns == column ==> b == s.boxes[i]
  {
    s.boxes[CellIndex(s.rows, s.columns, row, column)]
  }

  /** The number of boxes holding a coin. */
  function CountCoins(boxes: seq<Box>): (n: nat)
    ensures n <= |boxes|
  {
    if |boxes| == 0 then 0
    else CountCoins(boxes[..|boxes| - 1]) + (if boxes[|boxes| - 1].IsCoin() then 1 else 0)
  }

  /** Every box holds a coin exactly when the count of coins is the count of boxes. */
  lemma {:induction false} AllCoins(boxes: seq<Box>)
    ensures CountCoins(boxes) == |boxes| <==> forall i :: 0 <= i < |boxes| ==> boxes[i] == Coin
  {
    if |boxes| != 0 {
      var init := boxes[..|boxes| - 1];
      AllCoins(init);
      assert forall i :: 0 <= i < |init| ==> init[i] == boxes[i];
    }
  }

  /** No box holds a coin exactly when the count of coins is zero. */
  lemma {:induction false} NoCoins(boxes: seq<Box>)
    ensures CountCoins(boxes) == 0 <==> forall i :: 0 <= i < |boxes| ==> boxes[i] == Empty
  {
    if |boxes| != 0 {
      var init := boxes[..|boxes| - 1];
      NoCoins(init);
      assert forall i :: 0 <= i < |init| ==> init[i] == boxes[i];
    }
  }

  /** Putting a coin into an empty box raises the count by exactly one. */
  lemma {:induction false} CountAfterPlacing(boxes: seq<Box>, b: nat)
    requires b < |boxes| && boxes[b] == Empty
    ensures CountCoins(boxes[b := Coin]) == CountCoins(boxes) + 1
  {
    var last := |boxes| - 1;
    var placed := boxes[b := Coin];
    if b == last {
      assert placed[..last] == boxes[..last];
    } else {
      assert placed[..last] == boxes[..last][b := Coin];
      CountAfterPlacing(boxes[..last], b);
    }
  }

  /** Fewer coins than boxes leaves some box empty. */
  lemma SomeBoxEmpty(boxes: seq<Box>)
    requires CountCoins(boxes) < |boxes|
    ensures exists i :: 0 <= i < |boxes| && boxes[i] == Empty
  {
  }
}
