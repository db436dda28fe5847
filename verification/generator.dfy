/**
 * Building a stack: a grid of `rows * columns` boxes of which exactly
 * `numCoins` hold a coin, chosen at random.
 */
module Generator {
  import opened Grid

  /**
   * One accepted draw of the placement loop: the drawn box was empty and now
   * holds a coin, and no other box changes, so a coin is never taken away.
   */
  function PlaceCoin(boxes: seq<Box>, b: nat): (placed: seq<Box>)
    requires b < |boxes| && boxes[b] == Empty
    ensures |placed| == |boxes| && placed[b] == Coin
    ensures forall i :: 0 <= i < |boxes| && i != b ==> placed[i] == boxes[i]
    ensures forall i :: 0 <= i < |boxes| && boxes[i] == Coin ==> placed[i] == Coin
    ensures CountCoins(placed) == CountCoins(boxes) + 1
  {
    CountAfterPlacing(boxes, b);
    boxes[b := Coin]
  }

  /**
   * The boxes of a new stack. A grid that is all coins or no coins is built
   * directly; otherwise coins are placed one at a time into a randomly drawn
   * box that is still empty, until `numCoins` have been placed.
   */
  method StackBoxes(rows: nat, columns: nat, numCoins: nat) returns (boxes: seq<Box>)
    requires rows != 0 && columns != 0
    requires rows * columns <= USIZE_MAX
    requires numCoins <= rows * columns
    ensures |boxes| == rows * columns
    ensures CountCoins(boxes) == numCoins
    ensures numCoins == rows * columns ==> forall i :: 0 <= i < |boxes| ==> boxes[i] == Coin
    ensures numCoins == 0 ==> forall i :: 0 <= i < |boxes| ==> boxes[i] == Empty
  {
    var numBoxes := rows * columns;
    if numCoins == numBoxes {
      boxes := seq(numBoxes, _ => Coin);
      AllCoins(boxes);
      return;
    }

    boxes := seq(numBoxes, _ => Empty);
    NoCoins(boxes);
    if numCoins == 0 {
      return;
    }

    var remaining := numCoins;
    while remaining > 0
      invariant |boxes| == numBoxes
      invariant CountCoins(boxes) + remaining == numCoins
    {
      // The source draws any box and retries when it already holds a coin;
      // only the accepted draw changes the grid, so the model draws an empty one.
      SomeBoxEmpty(boxes);
      var b :| 0 <= b < numBoxes && boxes[b] == Empty;
      boxes := PlaceCoin(boxes, b);
      remaining := remaining - 1;
    }
  }

  /** A new stack of the given shape holding exactly `numCoins` coins. */
  method NewStack(rows: nat, columns: nat, numCoins: nat) returns (s: Stack)
    requires rows != 0 && columns != 0
    requires rows * columns <= USIZE_MAX
    requires numCoins <= rows * columns
    ensures Valid(s) && s.rows == rows && s.columns == columns
    ensures CountCoins(s.boxes) == numCoins
  {
    var boxes := StackBoxes(rows, columns, numCoins);
    s := Stack(rows, columns, boxes);
  }
}
