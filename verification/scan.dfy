/**
 * The two search orders over a stack. Each iterator is a cursor
 * (`row`, `column`) and a step function that yields the box under the cursor
 * and advances it; row-wise advances the column fastest, column-wise the row.
 */
module Scan {
  import opened Options
  import opened Grid
  import Arith

  /** The iterator state: the next cell to yield. */
  datatype Cursor = Cursor(row: nat, column: nat)

  /** A box together with the cell it was found in (the source's `BoxAt`). */
  datatype Located = Located(row: nat, column: nat, b: Box)

  /** What one call to `next` returns, and the cursor it leaves behind. */
  datatype Step = Step(item: Option<Located>, cursor: Cursor)

  /** The two search orders. */
  datatype Order = RowMajor | ColumnMajor

  /** Both iterators start in the top-left cell. */
  const Start := Cursor(0, 0)

  /** A cursor that points outside the grid yields nothing. */
  predicate Exhausted(s: Stack, c: Cursor) {
    c.row >= s.rows || c.column >= s.columns
  }

  /** The box under an in-range cursor. */
  function Here(s: Stack, c: Cursor): Located
    requires Valid(s) && !Exhausted(s, c)
  {
    Located(c.row, c.column, BoxAt(s, c.row, c.column))
  }

  /**
   * `RowwiseIterator::next`: yield the box under the cursor, then move one
   * column right, wrapping to the start of the next row.
   */
  function RowwiseNext(s: Stack, c: Cursor): (st: Step)
    requires Valid(s)
    ensures st.item.None? <==> Exhausted(s, c)
    ensures st.item.None? ==> st.cursor == c
    ensures st.item.Some? ==> st.item.value == Here(s, c)
    ensures st.item.Some? ==> st.cursor.column < s.columns && st.cursor.row <= s.rows
    ensures st.item.Some? ==> st.cursor.row * s.columns + st.cursor.column == c.row * s.columns + c.column + 1
  {
    if c.row >= s.rows || c.column >= s.columns then
      Step(None, c)
    else
      var item := Here(s, c);
      var column := c.column + 1;
      if column == s.columns then Step(Some(item), Cursor(c.row + 1, 0))
      else Step(Some(item), Cursor(c.row, column))
  }

  /**
   * `ColumnwiseIterator::next`: yield the box under the cursor, then move one
   * row down, wrapping to the top of the next column.
   */
  function ColumnwiseNext(s: Stack, c: Cursor): (st: Step)
    requires Valid(s)
    ensures st.item.None? <==> Exhausted(s, c)
    ensures st.item.None? ==> st.cursor == c
    ensures st.item.Some? ==> st.item.value == Here(s, c)
    ensures st.item.Some? ==> st.cursor.row < s.rows && st.cursor.column <= s.columns
    ensures st.item.Some? ==> st.cursor.column * s.rows + st.cursor.row == c.column * s.rows + c.row + 1
  {
    if c.row >= s.rows || c.column >= s.columns then
      Step(None, c)
    else
      var item := Here(s, c);
      var row := c.row + 1;
      if row == s.rows then Step(Some(item), Cursor(0, c.column + 1))
      else Step(Some(item), Cursor(row, c.column))
  }

  /** One step of the iterator of the given order. */
  function Next(s: Stack, order: Order, c: Cursor): Step
    requires Valid(s)
  {
    match order
    case RowMajor => RowwiseNext(s, c)
    case ColumnMajor => ColumnwiseNext(s, c)
  }

  /** The number of cells, which is the length of either traversal. */
  function Size(s: Stack): nat {
    s.rows * s.columns
  }

  /**
   * Where the iterator stands after `k` steps from `Start`: cell
   * (k / columns, k % columns) row-wise, (k % rows, k / rows) column-wise.
   * Before `Size(s)` steps that cell is in the grid; from then on it is not.
   */
  function CursorAt(s: Stack, order: Order, k: nat): (c: Cursor)
    requires Valid(s)
    ensures k < Size(s) <==> !Exhausted(s, c)
  {
    match order
    case RowMajor =>
      InGridIffBelow(k, s.columns, s.rows, Size(s));
      Cursor(k / s.columns, k % s.columns)
    case ColumnMajor =>
      InGridIffBelow(k, s.rows, s.columns, Size(s));
      Cursor(k % s.rows, k / s.rows)
  }

  /** Counting in blocks of `d`, the k-th slot lies in the first `m` blocks exactly when k < m * d. */
  lemma InGridIffBelow(k: nat, d: nat, m: nat, n: nat)
    requires d > 0 && (n == m * d || n == d * m)
    ensures k < n <==> k / d < m
    ensures k % d < d
  {
    if k < m * d {
      Arith.DivBound(k, d, m);
    } else {
      KthNotBelow(k, d, m);
    }
  }

  /** Past the last cell the quotient has run off the grid. */
  lemma KthNotBelow(k: nat, d: nat, m: nat)
    requires d > 0 && k >= m * d
    ensures k / d >= m
  {
    var q := k / d;
    Arith.Gap(q, m, d);
  }

  /** The k-th item of a traversal: the cell `CursorAt` names and its box. */
  function Item(s: Stack, order: Order, k: nat): Located
    requires Valid(s) && k < Size(s)
  {
    Here(s, CursorAt(s, order, k))
  }

  /** The whole traversal in the given order, as a sequence of located boxes. */
  function Traversal(s: Stack, order: Order): seq<Located>
    requires Valid(s)
  {
    seq(Size(s), k requires 0 <= k < Size(s) => Item(s, order, k))
  }

  /**
   * The step function agrees with the closed form: from the cursor after `k`
   * steps, `next` yields the k-th item and leaves the cursor after `k + 1`
   * steps; from the cursor after `Size(s)` steps it yields nothing and stays.
   */
  lemma NextFromCursorAt(s: Stack, order: Order, k: nat)
    requires Valid(s) && k <= Size(s)
    ensures k < Size(s) ==> Next(s, order, CursorAt(s, order, k)) == Step(Some(Item(s, order, k)), CursorAt(s, order, k + 1))
    ensures k == Size(s) ==> Next(s, order, CursorAt(s, order, k)) == Step(None, CursorAt(s, order, k))
  {
    if k < Size(s) {
      match order
      case RowMajor => Arith.DivModSucc(k, s.columns);
      case ColumnMajor => Arith.DivModSucc(k, s.rows);
    }
  }

  /** Both iterators begin at the top-left cell. */
  lemma StartIsCursorAtZero(s: Stack, order: Order)
    requires Valid(s)
    ensures CursorAt(s, order, 0) == Start
  {
  }

  /** The first `m` results of calling `next` repeatedly, starting from cursor `c`. */
  function Drive(s: Stack, order: Order, c: Cursor, m: nat): seq<Option<Located>>
    requires Valid(s)
    decreases m
  {
    if m == 0 then []
    else
      var st := Next(s, order, c);
      [st.item] + Drive(s, order, st.cursor, m - 1)
  }

  /** From the cursor after `k` steps, the next `m` calls yield items k .. k + m - 1. */
  lemma {:induction false} DriveYieldsItems(s: Stack, order: Order, k: nat, m: nat)
    requires Valid(s) && k + m <= Size(s)
    ensures Drive(s, order, CursorAt(s, order, k), m) == seq(m, i requires 0 <= i < m => Some(Item(s, order, k + i)))
    decreases m
  {
    if m != 0 {
      NextFromCursorAt(s, order, k);
      DriveYieldsItems(s, order, k + 1, m - 1);
    }
  }

  /** Once exhausted, every further call yields nothing. */
  lemma {:induction false} DriveExhausted(s: Stack, order: Order, c: Cursor, m: nat)
    requires Valid(s) && Exhausted(s, c)
    ensures Drive(s, order, c, m) == seq(m, _ => None)
    decreases m
  {
    if m != 0 {
      DriveExhausted(s, order, c, m - 1);
    }
  }

  /** The items of a traversal as the iterator hands them out. */
  function Yielded(items: seq<Located>): seq<Option<Located>> {
    seq(|items|, k requires 0 <= k < |items| => Some(items[k]))
  }

  /** Driven from `Start` for `Size(s)` calls, an iterator yields its whole traversal in order. */
  lemma DriveFromStart(s: Stack, order: Order)
    requires Valid(s)
    ensures Drive(s, order, Start, Size(s)) == Yielded(Traversal(s, order))
  {
    var n := Size(s);
    StartIsCursorAtZero(s, order);
    DriveYieldsItems(s, order, 0, n);
    var driven := Drive(s, order, Start, n);
    var items := Yielded(Traversal(s, order));
    assert |driven| == n == |items|;
    forall k | 0 <= k < n
      ensures driven[k] == items[k]
    {
      assert driven[k] == Some(Item(s, order, 0 + k));
    }
  }

  /**
   * Either iterator, driven from `Start`, yields exactly the `Size(s)` items
   * of its traversal, in order, and then `None` for ever after.
   */
  lemma IteratorYieldsTraversal(s: Stack, order: Order, extra: nat)
    requires Valid(s)
    ensures Drive(s, order, Start, Size(s) + extra) == Yielded(Traversal(s, order)) + seq(extra, _ => None)
  {
    var n := Size(s);
    DriveSplits(s, order, Start, n, extra);
    DriveFromStart(s, order);
    StartIsCursorAtZero(s, order);
    DriveCursorAt(s, order, 0, n);
    DriveExhausted(s, order, DriveCursor(s, order, Start, n), extra);
  }

  /** The cursor left behind after `m` calls to `next` from `c`. */
  function DriveCursor(s: Stack, order: Order, c: Cursor, m: nat): Cursor
    requires Valid(s)
    decreases m
  {
    if m == 0 then c else DriveCursor(s, order, Next(s, order, c).cursor, m - 1)
  }

  /** Driving `m` steps from the cursor after `k` steps leaves the cursor after `k + m` steps. */
  lemma {:induction false} DriveCursorAt(s: Stack, order: Order, k: nat, m: nat)
    requires Valid(s) && k + m <= Size(s)
    ensures DriveCursor(s, order, CursorAt(s, order, k), m) == CursorAt(s, order, k + m)
    decreases m
  {
    if m != 0 {
      NextFromCursorAt(s, order, k);
      DriveCursorAt(s, order, k + 1, m - 1);
    }
  }

  /** Driving `m + extra` steps is driving `m` steps and then `extra` more from where that left off. */
  lemma {:induction false} DriveSplits(s: Stack, order: Order, c: Cursor, m: nat, extra: nat)
    requires Valid(s)
    ensures Drive(s, order, c, m + extra) == Drive(s, order, c, m) + Drive(s, order, DriveCursor(s, order, c, m), extra)
    decreases m
  {
    if m != 0 {
      var st := Next(s, order, c);
      DriveSplits(s, order, st.cursor, m - 1, extra);
    }
  }

  /** The step at which the given order reaches cell (`row`, `column`). */
  function Rank(s: Stack, order: Order, row: nat, column: nat): (k: nat)
    requires Valid(s) && row < s.rows && column < s.columns
    ensures k < Size(s)
    ensures CursorAt(s, order, k) == Cursor(row, column)
  {
    match order
    case RowMajor => CellIndex(s.rows, s.columns, row, column)
    case ColumnMajor =>
      assert s.columns * s.rows == Size(s);
      CellIndex(s.columns, s.rows, column, row)
  }

  /** Each traversal reaches cell (`row`, `column`) at step `Rank`, carrying that cell's box. */
  lemma VisitsEveryCell(s: Stack, order: Order, row: nat, column: nat)
    requires Valid(s) && row < s.rows && column < s.columns
    ensures var item := Traversal(s, order)[Rank(s, order, row, column)];
      item.row == row && item.column == column && item.b == BoxAt(s, row, column)
  {
  }

  /** No step of a traversal other than `Rank` reaches cell (`row`, `column`): no cell is visited twice. */
  lemma VisitsEachCellOnce(s: Stack, order: Order, row: nat, column: nat, k: nat)
    requires Valid(s) && row < s.rows && column < s.columns && k < Size(s)
    ensures (Traversal(s, order)[k].row == row && Traversal(s, order)[k].column == column)
              <==> k == Rank(s, order, row, column)
  {
    var c := CursorAt(s, order, k);
    assert Traversal(s, order)[k] == Here(s, c);
    if c.row == row && c.column == column {
      match order
      case RowMajor =>
        Arith.DivModUnique(k, s.columns, row, column);
      case ColumnMajor =>
        Arith.DivModUnique(k, s.rows, column, row);
    }
  }

  /** Both traversals begin in the top-left cell and end in the bottom-right one. */
  lemma FirstAndLastCells(s: Stack, order: Order)
    requires Valid(s)
    ensures Traversal(s, order)[0].row == 0 && Traversal(s, order)[0].column == 0
    ensures var last := Traversal(s, order)[Size(s) - 1];
      last.row == s.rows - 1 && last.column == s.columns - 1
  {
    var n := Size(s);
    match order
    case RowMajor =>
      assert n - 1 == (s.rows - 1) * s.columns + (s.columns - 1);
      Arith.DivModUnique(n - 1, s.columns, s.rows - 1, s.columns - 1);
    case ColumnMajor =>
      assert n - 1 == (s.columns - 1) * s.rows + (s.rows - 1);
      Arith.DivModUnique(n - 1, s.rows, s.columns - 1, s.rows - 1);
  }

  /** With a single row or a single column the two orders visit the cells identically. */
  lemma ThinGridOrdersAgree(s: Stack)
    requires Valid(s) && (s.rows == 1 || s.columns == 1)
    ensures Traversal(s, RowMajor) == Traversal(s, ColumnMajor)
  {
  }
}
