/**
 * An experiment: a fixed configuration run for a number of trials, each on a
 * freshly generated stack, tallying row-wise wins, column-wise wins and ties.
 */
module Experiment {
  import opened Options
  import opened Grid
  import opened Scan
  import opened Trial
  import Generator

  /** The parameters of an experiment. */
  datatype Config = Config(trials: nat, rows: nat, columns: nat, coins: nat)

  /** The running counts of an experiment. */
  datatype Tally = Tally(rowWins: nat, columnWins: nat, ties: nat)

  /**
   * A configuration whose trials can run to completion: a non-empty grid
   * whose box count and trial count fit in a `usize`, with no more coins
   * than boxes.
   */
  predicate Runnable(e: Config) {
    && e.rows != 0
    && e.columns != 0
    && e.rows * e.columns <= USIZE_MAX
    && e.coins <= e.rows * e.columns
    && e.trials <= USIZE_MAX
  }

  /**
   * A configuration `run` can complete: any `usize` trial count, and a
   * runnable grid whenever at least one trial builds a stack.
   */
  predicate Completes(e: Config) {
    e.trials <= USIZE_MAX && (e.trials != 0 ==> Runnable(e))
  }

  /** A configuration in which no trial can have a winner. */
  predicate AlwaysTies(e: Config) {
    e.coins == 0 || e.coins == e.rows * e.columns || e.rows == 1 || e.columns == 1
  }

  /** A stack the generator may produce for configuration `e`. */
  predicate Generated(e: Config, s: Stack) {
    Valid(s) && s.rows == e.rows && s.columns == e.columns && CountCoins(s.boxes) == e.coins
  }

  /** How many of the outcomes equal `o`. */
  function Count(outcomes: seq<Outcome>, o: Outcome): (n: nat)
    ensures n <= |outcomes|
  {
    if |outcomes| == 0 then 0
    else Count(outcomes[..|outcomes| - 1], o) + (if outcomes[|outcomes| - 1] == o then 1 else 0)
  }

  /** The tally a list of outcomes determines, each kind counted directly. */
  function TallyOf(outcomes: seq<Outcome>): Tally {
    Tally(Count(outcomes, RowWins), Count(outcomes, ColumnWins), Count(outcomes, Tie))
  }

  /** Every outcome is exactly one of the three kinds. */
  lemma {:induction false} CountsPartition(outcomes: seq<Outcome>)
    ensures Count(outcomes, RowWins) + Count(outcomes, ColumnWins) + Count(outcomes, Tie) == |outcomes|
  {
    if |outcomes| != 0 {
      CountsPartition(outcomes[..|outcomes| - 1]);
    }
  }

  /** Counting one more outcome raises the count of its kind by one and leaves the others alone. */
  lemma CountAppend(outcomes: seq<Outcome>, next: Outcome, o: Outcome)
    ensures Count(outcomes + [next], o) == Count(outcomes, o) + (if next == o then 1 else 0)
  {
  }

  /**
   * The body of one trial: generate a stack and search it in both orders,
   * reporting each search's first-coin position with `USIZE_MAX` for "none".
   */
  method Play(e: Config) returns (alice: nat, bob: nat, s: Stack)
    requires Runnable(e)
    ensures Generated(e, s)
    ensures Decide(alice, bob) == TrialOutcome(s)
    ensures alice == FirstCoin(s, RowMajor) && bob == FirstCoin(s, ColumnMajor)
  {
    s := Generator.NewStack(e.rows, e.columns, e.coins);
    var rowwise := Search(s, RowMajor);
    var colwise := Search(s, ColumnMajor);
    alice := rowwise.GetOr(USIZE_MAX);
    bob := colwise.GetOr(USIZE_MAX);
  }

  /**
   * Runs `e.trials` trials. Each trial generates a stack, searches it in both
   * orders and credits the strictly shorter search; the ties are whatever is
   * left. The returned ghost values record the stacks generated and their
   * outcomes.
   */
  method Run(e: Config) returns (t: Tally, ghost grids: seq<Stack>, ghost outcomes: seq<Outcome>)
    requires Completes(e)
    ensures |grids| == |outcomes| == e.trials
    ensures forall i :: 0 <= i < e.trials ==> Generated(e, grids[i]) && outcomes[i] == TrialOutcome(grids[i])
    ensures t == TallyOf(outcomes)
    ensures t.rowWins + t.columnWins <= e.trials
    ensures t.rowWins + t.columnWins + t.ties == e.trials
    ensures AlwaysTies(e) ==> t.rowWins == 0 && t.columnWins == 0 && t.ties == e.trials
  {
    var aliceWins := 0;
    var bobWins := 0;
    grids, outcomes := [], [];

    for i := 0 to e.trials
      invariant |grids| == |outcomes| == i
      invariant forall j :: 0 <= j < i ==> Generated(e, grids[j]) && outcomes[j] == TrialOutcome(grids[j])
      invariant aliceWins == Count(outcomes, RowWins) && bobWins == Count(outcomes, ColumnWins)
      invariant aliceWins + bobWins <= i
      invariant AlwaysTies(e) ==> aliceWins == 0 && bobWins == 0
    {
      var alice, bob, boxes := Play(e);
      ghost var o := Decide(alice, bob);
      DegenerateTies(e, boxes);
      assert AlwaysTies(e) ==> alice == bob;

      if alice < bob {
        aliceWins := aliceWins + 1;
      } else if bob < alice {
        bobWins := bobWins + 1;
      }

      CountAppend(outcomes, o, RowWins);
      CountAppend(outcomes, o, ColumnWins);
      Record(e, grids, outcomes, boxes, o);
      grids, outcomes := grids + [boxes], outcomes + [o];
    }

    CountsPartition(outcomes);
    var ties := e.trials - (aliceWins + bobWins);
    t := Tally(aliceWins, bobWins, ties);
  }

  /** Appending one more trial keeps the record of stacks and their outcomes. */
  lemma Record(e: Config, grids: seq<Stack>, outcomes: seq<Outcome>, s: Stack, o: Outcome)
    requires |grids| == |outcomes|
    requires forall j :: 0 <= j < |grids| ==> Generated(e, grids[j]) && outcomes[j] == TrialOutcome(grids[j])
    requires Generated(e, s) && o == TrialOutcome(s)
    ensures var gs, os := grids + [s], outcomes + [o];
      forall j :: 0 <= j < |gs| ==> Generated(e, gs[j]) && os[j] == TrialOutcome(gs[j])
  {
  }

  /** Every stack of a configuration that always ties does tie. */
  lemma DegenerateTies(e: Config, s: Stack)
    requires Generated(e, s)
    ensures AlwaysTies(e) ==> TrialOutcome(s) == Tie
  {
    if !AlwaysTies(e) {
    } else if e.coins == 0 {
      NoCoinsTie(s);
    } else if e.coins == e.rows * e.columns {
      AllCoinsTie(s);
    } else {
      ThinGridTie(s);
    }
  }
}
