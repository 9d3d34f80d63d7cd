/**
 * `main` (src/time_eval.py): the chronological backtest. The loaded rows
 * are sorted by date, cut into four contiguous blocks, and for windows
 * i = 1, 2, 3 a classifier trained on every block before i is scored on
 * block i, after which block i joins the training rows.
 */
module Backtest {
  import opened Options
  import opened Calendar
  import opened DateHeader
  import opened Sorting
  import opened Loader
  import opened Metrics
  import opened Splitting

  /** The decision threshold `main` passes to `fit_predict`. */
  const THRESHOLD: real := 0.5

  // ---------------------------------------------------------------------------
  // The sort key: UTC date-times
  // ---------------------------------------------------------------------------

  /** The order in which `sorted(rows, key=lambda x: x["date"])` puts two rows. */
  predicate ByDate(r: Row, r': Row) {
    DateLe(r.date, r'.date)
  }

  lemma ByDateIsTotalPreorder()
    ensures TotalPreorder(ByDate)
  {
    forall r: Row, r': Row ensures ByDate(r, r') || ByDate(r', r) {
      DateLtTotal(r.date, r'.date);
    }
  }

  /** `sorted(rows, key=lambda x: x["date"])`. */
  function Chronological(rows: seq<Row>): seq<Row> {
    SortBy(rows, ByDate)
  }

  /**
   * The sorted rows are the loaded rows rearranged, in date order, and rows
   * with the same date keep the order the loader gave them.
   */
  lemma ChronologicalOrder(rows: seq<Row>)
    ensures multiset(Chronological(rows)) == multiset(rows)
    ensures SortedBy(Chronological(rows), ByDate)
    ensures forall r :: TiedWith(Chronological(rows), ByDate, r) == TiedWith(rows, ByDate, r)
  {
    ByDateIsTotalPreorder();
    SortByIsSorted(rows, ByDate);
    forall r ensures TiedWith(Chronological(rows), ByDate, r) == TiedWith(rows, ByDate, r) {
      SortByIsStable(rows, ByDate, r);
    }
  }

  // ---------------------------------------------------------------------------
  // The expanding windows
  // ---------------------------------------------------------------------------

  /** The rows window i trains on: every row before block i. */
  function TrainingRows(sorted: seq<Row>, i: nat): seq<Row>
    requires i <= SECTIONS
  {
    BlockStartMonotone(|sorted|, i, SECTIONS);
    sorted[..BlockStart(|sorted|, i)]
  }

  /** The report of window i: train on the earlier blocks, test on block i. */
  function WindowReport(sorted: seq<Row>, i: nat, fit: Fit): Metrics
    requires 1 <= i < SECTIONS
  {
    FitPredict(TrainingRows(sorted, i), ArraySplit(sorted)[i], THRESHOLD, fit)
  }

  /**
   * The loop of `main`: `train_accum` starts as block 0, each test block is
   * scored with the rows accumulated so far, then appended to them. Report
   * i - 1 is window i's.
   */
  method Backtest(sorted: seq<Row>, fit: Fit) returns (reports: seq<Metrics>)
    ensures |reports| == SECTIONS - 1
    ensures forall i :: 1 <= i < SECTIONS ==> reports[i - 1] == WindowReport(sorted, i, fit)
  {
    var blocks := ArraySplit(sorted);
    var trainAccum := blocks[0];
    assert blocks[..1] == [blocks[0]] && [blocks[0]][..0] == [];
    reports := [];
    for i := 1 to SECTIONS
      invariant trainAccum == Concat(blocks[..i])
      invariant |reports| == i - 1
      invariant forall j :: 1 <= j < i ==> reports[j - 1] == WindowReport(sorted, j, fit)
    {
      var testBlock := blocks[i];
      var metrics := FitPredict(trainAccum, testBlock, THRESHOLD, fit);
      NextWindow(sorted, fit, i, reports, trainAccum);
      reports := reports + [metrics];
      trainAccum := trainAccum + testBlock;
    }
  }

  /** One turn of the loop: the report it appends is window i's, and the accumulated rows grow to window i + 1's. */
  lemma NextWindow(sorted: seq<Row>, fit: Fit, i: nat, reports: seq<Metrics>, trainAccum: seq<Row>)
    requires 1 <= i < SECTIONS
    requires trainAccum == Concat(ArraySplit(sorted)[..i])
    requires |reports| == i - 1 && forall j :: 1 <= j < i ==> reports[j - 1] == WindowReport(sorted, j, fit)
    ensures var reports' := reports + [FitPredict(trainAccum, ArraySplit(sorted)[i], THRESHOLD, fit)];
      |reports'| == i && forall j :: 1 <= j < i + 1 ==> reports'[j - 1] == WindowReport(sorted, j, fit)
    ensures trainAccum + ArraySplit(sorted)[i] == Concat(ArraySplit(sorted)[..i + 1])
  {
    AccumulatedWindow(sorted, i);
  }

  /** The accumulated rows are window i's training rows, and taking in block i gives window i + 1's. */
  lemma AccumulatedWindow(sorted: seq<Row>, i: nat)
    requires 1 <= i < SECTIONS
    ensures Concat(ArraySplit(sorted)[..i]) == TrainingRows(sorted, i)
    ensures Concat(ArraySplit(sorted)[..i + 1]) == Concat(ArraySplit(sorted)[..i]) + ArraySplit(sorted)[i]
  {
    ArraySplitPrefix(sorted, i);
    assert ArraySplit(sorted)[..i + 1][..i] == ArraySplit(sorted)[..i];
  }

  /**
   * `main` without its printing: load the two folders, sort the rows by
   * date, run the three windows. Returns the `Loaded rows` count and the
   * window reports.
   */
  method Evaluate(easyHam: seq<FileEntry>, spam2: seq<FileEntry>, parse: Parser, fit: Fit)
    returns (loaded: nat, reports: seq<Metrics>)
    ensures var sorted := Chronological(LoadedRows(easyHam, spam2, DateOf(parse)));
      && loaded == |sorted| && |reports| == SECTIONS - 1
      && forall i :: 1 <= i < SECTIONS ==> reports[i - 1] == WindowReport(sorted, i, fit)
  {
    var rows := LoadRows(easyHam, spam2, DateOf(parse));
    var rowsSorted := Chronological(rows);
    loaded := |rowsSorted|;
    reports := Backtest(rowsSorted, fit);
  }

  // ---------------------------------------------------------------------------
  // Properties of the protocol
  // ---------------------------------------------------------------------------

  /** After window i is scored, the training rows grow by exactly its test block. */
  lemma ExpandingWindow(sorted: seq<Row>, i: nat)
    requires 1 <= i < SECTIONS
    ensures TrainingRows(sorted, i + 1) == TrainingRows(sorted, i) + ArraySplit(sorted)[i]
  {
    ArraySplitPrefix(sorted, i);
    ArraySplitPrefix(sorted, i + 1);
    assert ArraySplit(sorted)[..i + 1][..i] == ArraySplit(sorted)[..i];
  }

  /** Every training row of window i is dated no later than every row of its test block. */
  predicate TrainedBeforeTested(sorted: seq<Row>, i: nat)
    requires 1 <= i < SECTIONS
  {
    forall a, b :: a in TrainingRows(sorted, i) && b in ArraySplit(sorted)[i] ==> DateLe(a.date, b.date)
  }

  /** The same, as instants: every training email was sent no later than every test email. */
  predicate TrainedBeforeTestedInstants(sorted: seq<Row>, i: nat)
    requires 1 <= i < SECTIONS
  {
    forall a, b :: a in TrainingRows(sorted, i) && b in ArraySplit(sorted)[i] ==>
      Valid(a.date) && Valid(b.date) && Seconds(a.date) <= Seconds(b.date)
  }

  predicate DatesValid(rows: seq<Row>) {
    forall r :: r in rows ==> Valid(r.date)
  }

  /** The chronological split never trains on a row dated after one it tests on. */
  lemma TrainingPrecedesTest(rows: seq<Row>, i: nat)
    requires 1 <= i < SECTIONS
    ensures TrainedBeforeTested(Chronological(rows), i)
  {
    var sorted := Chronological(rows);
    ChronologicalOrder(rows);
    var n := |sorted|;
    BlockStartMonotone(n, i, i + 1);
    BlockStartMonotone(n, i + 1, SECTIONS);
    SortedSplit(sorted, ByDate, BlockStart(n, i), BlockStart(n, i + 1));
  }

  /** Every loaded row carries a valid UTC date of 1990 .. 2010. */
  lemma LoadedDatesValid(easyHam: seq<FileEntry>, spam2: seq<FileEntry>, parse: Parser)
    ensures DatesValid(LoadedRows(easyHam, spam2, DateOf(parse)))
    ensures forall r :: r in LoadedRows(easyHam, spam2, DateOf(parse)) ==> InYearWindow(r.date)
  {
    var extract := DateOf(parse);
    forall r | r in LoadedRows(easyHam, spam2, extract) ensures Valid(r.date) && InYearWindow(r.date) {
      LoadedRowsMembers(easyHam, spam2, extract, r);
      assert ExtractDateUtc(r.text, parse) == Some(r.date);
    }
  }

  /**
   * In the backtest `main` runs, every email trained on in window i was sent
   * no later than every email tested in it.
   */
  lemma TrainedNoLaterThanTested(easyHam: seq<FileEntry>, spam2: seq<FileEntry>, parse: Parser, i: nat)
    requires 1 <= i < SECTIONS
    ensures TrainedBeforeTestedInstants(Chronological(LoadedRows(easyHam, spam2, DateOf(parse))), i)
  {
    LoadedDatesValid(easyHam, spam2, parse);
    EarlierRowsEarlierInstants(LoadedRows(easyHam, spam2, DateOf(parse)), i);
  }

  /** Over rows with valid dates, the date order of the windows is the order of the instants. */
  lemma EarlierRowsEarlierInstants(rows: seq<Row>, i: nat)
    requires 1 <= i < SECTIONS && DatesValid(rows)
    ensures TrainedBeforeTestedInstants(Chronological(rows), i)
  {
    var sorted := Chronological(rows);
    TrainingPrecedesTest(rows, i);
    forall a, b | a in TrainingRows(sorted, i) && b in ArraySplit(sorted)[i]
      ensures Valid(a.date) && Valid(b.date) && Seconds(a.date) <= Seconds(b.date)
    {
      WindowRowsAreLoaded(rows, i, a);
      WindowRowsAreLoaded(rows, i, b);
      DateLeIsInstantOrder(a.date, b.date);
    }
  }

  /** Training and test rows of a window are rows that were loaded. */
  lemma WindowRowsAreLoaded(rows: seq<Row>, i: nat, r: Row)
    requires 1 <= i < SECTIONS
    requires r in TrainingRows(Chronological(rows), i) || r in ArraySplit(Chronological(rows))[i]
    ensures r in rows
  {
    var sorted := Chronological(rows);
    ChronologicalOrder(rows);
    var n := |sorted|;
    BlockStartMonotone(n, i, i + 1);
    BlockStartMonotone(n, i + 1, SECTIONS);
    assert r in sorted;
    assert r in multiset(sorted);
  }
}
