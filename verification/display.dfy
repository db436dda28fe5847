/**
 * The text form of a stack: one line per row, `X` for a box with a coin and
 * `O` for an empty one, each line ended by a newline.
 */
module Display {
  import opened Grid
  import Arith

  /** The character that shows one box. */
  function Glyph(b: Box): char {
    match b
    case Coin => 'X'
    case Empty => 'O'
  }

  /** Row `row` of the stack as one line of text. */
  function Line(s: Stack, row: nat): (line: string)
    requires Valid(s) && row < s.rows
  {
    seq(s.columns, c requires 0 <= c < s.columns => Glyph(BoxAt(s, row, c))) + "\n"
  }

  /** The first `n` rows of the stack as text. */
  function Lines(s: Stack, n: nat): (text: string)
    requires Valid(s) && n <= s.rows
    ensures |text| == n * (s.columns + 1)
  {
    if n == 0 then "" else Lines(s, n - 1) + Line(s, n - 1)
  }

  /** The whole stack as text (the source's `Display` implementation). */
  function Render(s: Stack): string
    requires Valid(s)
  {
    Lines(s, s.rows)
  }

  /**
   * Within the first `n` rows, line `row` holds the glyph of each box of that
   * row in column order, followed by a newline.
   */
  lemma {:induction false} LinesLayout(s: Stack, n: nat, row: nat, column: nat)
    requires Valid(s) && n <= s.rows && row < n && column <= s.columns
    ensures row * (s.columns + 1) + column < |Lines(s, n)|
    ensures Lines(s, n)[row * (s.columns + 1) + column] ==
              if column < s.columns then Glyph(BoxAt(s, row, column)) else '\n'
    decreases n
  {
    var w := s.columns + 1;
    Arith.CellBound(n, w, row, column);
    if row < n - 1 {
      LinesLayout(s, n - 1, row, column);
    } else {
      assert row * w + column == |Lines(s, n - 1)| + column;
    }
  }

  /**
   * The rendered text has `rows` lines of `columns + 1` characters; the
   * character for cell (`row`, `column`) is `X` exactly when that box holds a
   * coin, and each line ends in a newline.
   */
  lemma RenderLayout(s: Stack, row: nat, column: nat)
    requires Valid(s) && row < s.rows && column < s.columns
    ensures |Render(s)| == s.rows * (s.columns + 1)
    ensures row * (s.columns + 1) + s.columns < |Render(s)|
    ensures Render(s)[row * (s.columns + 1) + column] == 'X' <==> BoxAt(s, row, column) == Coin
    ensures Render(s)[row * (s.columns + 1) + s.columns] == '\n'
  {
    LinesLayout(s, s.rows, row, column);
    LinesLayout(s, s.rows, row, s.columns);
  }
}
