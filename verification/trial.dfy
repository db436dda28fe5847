/**
 * One trial: search the same stack in both orders, note where each search
 * first finds a coin, and declare the earlier one the winner.
 */
module Trial {
  import opened Options
  import opened Grid
  import opened Scan

  /** Who found a coin first. */
  datatype Outcome = RowWins | ColumnWins | Tie

  /**
   * The index of the first item at or after `from` that holds a coin, if any
   * (Rust's `position(|b| b.is_coin())` started at `from`).
   */
  function PositionFrom(items: seq<Located>, from: nat): (p: Option<nat>)
    requires from <= |items|
    ensures p.None? <==> forall j :: from <= j < |items| ==> !items[j].b.IsCoin()
    ensures p.Some? ==> from <= p.value < |items| && items[p.value].b.IsCoin()
    ensures p.Some? ==> forall j :: from <= j < p.value ==> !items[j].b.IsCoin()
    decreases |items| - from
  {
    if from == |items| then None
    else if items[from].b.IsCoin() then Some(from)
    else PositionFrom(items, from + 1)
  }

  /** The index of the first item holding a coin, if any. */
  function Position(items: seq<Located>): Option<nat> {
    PositionFrom(items, 0)
  }

  /**
   * Drives the iterator of the given order from `Start` until it yields a
   * coin or runs out, counting the items it has seen.
   */
  method Search(s: Stack, order: Order) returns (p: Option<nat>)
    requires Valid(s)
    ensures p == Position(Traversal(s, order))
  {
    ghost var t := Traversal(s, order);
    ghost var n := |t|;
    var c := Start;
    var k := 0;
    StartIsCursorAtZero(s, order);
    while true
      invariant k <= n && c == CursorAt(s, order, k)
      invariant forall j :: 0 <= j < k ==> !t[j].b.IsCoin()
      decreases n - k
    {
      NextFromCursorAt(s, order, k);
      var st := Next(s, order, c);
      match st.item {
        case None =>
          assert k == n;
          return None;
        case Some(located) =>
          assert located == t[k];
          if located.b.IsCoin() {
            FoundAt(t, k);
            return Some(k);
          }
      }
      c := st.cursor;
      k := k + 1;
    }
  }

  /** A coin at `k` with none before it is the first coin. */
  lemma FoundAt(items: seq<Located>, k: nat)
    requires k < |items| && items[k].b.IsCoin()
    requires forall j :: 0 <= j < k ==> !items[j].b.IsCoin()
    ensures Position(items) == Some(k)
  {
  }

  /**
   * Where the search in the given order first finds a coin, with `USIZE_MAX`
   * standing for "never": every real position lies below that sentinel.
   */
  function FirstCoin(s: Stack, order: Order): (p: nat)
    requires Valid(s)
    ensures p == USIZE_MAX <==> forall k :: 0 <= k < Size(s) ==> !Traversal(s, order)[k].b.IsCoin()
    ensures p != USIZE_MAX ==> p < Size(s) && Traversal(s, order)[p].b.IsCoin()
    ensures p != USIZE_MAX ==> forall k :: 0 <= k < p ==> !Traversal(s, order)[k].b.IsCoin()
  {
    Position(Traversal(s, order)).GetOr(USIZE_MAX)
  }

  /** The comparison of the two search lengths; equal lengths tie. */
  function Decide(alice: nat, bob: nat): (o: Outcome)
    ensures o == Tie <==> alice == bob
    ensures o == RowWins <==> alice < bob
    ensures o == ColumnWins <==> bob < alice
  {
    if alice < bob then RowWins
    else if bob < alice then ColumnWins
    else Tie
  }

  /** The outcome of one trial on stack `s`. */
  function TrialOutcome(s: Stack): Outcome
    requires Valid(s)
  {
    Decide(FirstCoin(s, RowMajor), FirstCoin(s, ColumnMajor))
  }

  /**
   * The row-wise search wins exactly when it meets a coin at some step `k`
   * while the column-wise search has met no coin in its first `k + 1` steps.
   */
  lemma RowWinsIff(s: Stack)
    requires Valid(s)
    ensures TrialOutcome(s) == RowWins <==>
              exists k :: 0 <= k < Size(s) && Traversal(s, RowMajor)[k].b.IsCoin()
                       && forall j :: 0 <= j <= k ==> !Traversal(s, ColumnMajor)[j].b.IsCoin()
  {
  }

  /**
   * The column-wise search wins exactly when it meets a coin at some step `k`
   * while the row-wise search has met no coin in its first `k + 1` steps.
   */
  lemma ColumnWinsIff(s: Stack)
    requires Valid(s)
    ensures TrialOutcome(s) == ColumnWins <==>
              exists k :: 0 <= k < Size(s) && Traversal(s, ColumnMajor)[k].b.IsCoin()
                       && forall j :: 0 <= j <= k ==> !Traversal(s, RowMajor)[j].b.IsCoin()
  {
  }

  /** Without coins neither search finds one, both report `USIZE_MAX`, and the trial ties. */
  lemma NoCoinsTie(s: Stack)
    requires Valid(s) && CountCoins(s.boxes) == 0
    ensures FirstCoin(s, RowMajor) == USIZE_MAX && FirstCoin(s, ColumnMajor) == USIZE_MAX
    ensures TrialOutcome(s) == Tie
  {
    NoCoins(s.boxes);
    forall order: Order, k | 0 <= k < Size(s)
      ensures !Traversal(s, order)[k].b.IsCoin()
    {
      var c := CursorAt(s, order, k);
      assert Traversal(s, order)[k].b == s.boxes[CellIndex(s.rows, s.columns, c.row, c.column)];
    }
  }

  /** A coin in the top-left box is the first item of both searches, so the trial ties. */
  lemma CornerCoinTie(s: Stack)
    requires Valid(s) && BoxAt(s, 0, 0) == Coin
    ensures FirstCoin(s, RowMajor) == 0 && FirstCoin(s, ColumnMajor) == 0
    ensures TrialOutcome(s) == Tie
  {
  }

  /** When every box holds a coin both searches succeed at once, at position 0, so the trial ties. */
  lemma AllCoinsTie(s: Stack)
    requires Valid(s) && CountCoins(s.boxes) == Size(s)
    ensures FirstCoin(s, RowMajor) == 0 && FirstCoin(s, ColumnMajor) == 0
    ensures TrialOutcome(s) == Tie
  {
    AllCoins(s.boxes);
    assert BoxAt(s, 0, 0) == s.boxes[0];
    CornerCoinTie(s);
  }

  /** With a single row or a single column both searches are the same search, so the trial ties. */
  lemma ThinGridTie(s: Stack)
    requires Valid(s) && (s.rows == 1 || s.columns == 1)
    ensures TrialOutcome(s) == Tie
  {
    ThinGridOrdersAgree(s);
  }
}
