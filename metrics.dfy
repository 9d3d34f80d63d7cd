/**
 * `fit_predict` (src/time_eval.py): train on the training rows, score the
 * test texts, threshold the spam probabilities, count the 2x2 confusion
 * matrix over the labels [0, 1], and compute binary precision, recall and
 * F1 with zero division giving 0. The TF-IDF and logistic-regression
 * pipeline is the parameter `fit`; exact `real` arithmetic stands in for
 * floating point.
 */
module Metrics {
  import opened Loader

  /** `(proba >= threshold).astype(int)`. */
  function Predict(proba: seq<real>, threshold: real): seq<Label> {
    seq(|proba|, j requires 0 <= j < |proba| => if proba[j] >= threshold then SPAM else HAM)
  }

  /** One cell of the confusion matrix: positions labelled `truth` and predicted `guess`. */
  function Cell(labels: seq<Label>, preds: seq<Label>, truth: Label, guess: Label): nat
    requires |labels| == |preds|
  {
    if labels == [] then 0
    else
      var n := |labels| - 1;
      Cell(labels[..n], preds[..n], truth, guess) + (if labels[n] == truth && preds[n] == guess then 1 else 0)
  }

  /** `y.sum()` of a 0/1 vector. */
  function Total(xs: seq<Label>): nat {
    if xs == [] then 0 else Total(xs[..|xs| - 1]) + xs[|xs| - 1]
  }

  /** The test positions labelled `truth` whose prediction is `guess`, read off the probabilities. */
  ghost function CellPositions(labels: seq<Label>, proba: seq<real>, threshold: real, truth: Label, guess: Label): set<int>
    requires |labels| == |proba|
  {
    set j | 0 <= j < |labels| && labels[j] == truth && (proba[j] >= threshold <==> guess == SPAM)
  }

  /**
   * `_prf_divide` with `zero_division=0`: num / den, or 0 when den is 0.
   */
  function Ratio(num: nat, den: nat): (r: real)
    requires num <= den
    ensures 0.0 <= r <= 1.0
    ensures den == 0 ==> r == 0.0
    ensures den > 0 ==> r * den as real == num as real
  {
    if den == 0 then 0.0 else num as real / den as real
  }

  datatype Metrics = Metrics(testN: nat, spamInTest: nat, predictedSpam: nat,
                             tn: nat, fp: nat, fn: nat, tp: nat,
                             precision: real, recall: real, f1: real)

  /**
   * Precision is TP / (TP + FP) and recall TP / (TP + FN), each 0 when its
   * denominator is 0; F1 is their harmonic mean, or 0 when both are 0; and
   * all three rates lie in [0, 1].
   */
  predicate Rates(tp: nat, fp: nat, fn: nat, precision: real, recall: real, f1: real) {
    && (tp + fp == 0 ==> precision == 0.0)
    && (tp + fp > 0 ==> precision * (tp + fp) as real == tp as real)
    && (tp + fn == 0 ==> recall == 0.0)
    && (tp + fn > 0 ==> recall * (tp + fn) as real == tp as real)
    && (precision + recall == 0.0 ==> f1 == 0.0)
    && (precision + recall != 0.0 ==> f1 == 2.0 * precision * recall / (precision + recall))
    && 0.0 <= precision <= 1.0 && 0.0 <= recall <= 1.0 && 0.0 <= f1 <= 1.0
  }

  /** The rates of a report are those its cells give. */
  predicate RatesFromCells(m: Metrics) {
    Rates(m.tp, m.fp, m.fn, m.precision, m.recall, m.f1)
  }

  /**
   * The metrics of one window from the test labels and the spam
   * probabilities: `confusion_matrix(..., labels=[0, 1]).ravel()`, the sums
   * of the label and prediction vectors, and
   * `precision_recall_fscore_support(..., average="binary", zero_division=0)`.
   */
  function Score(labels: seq<Label>, proba: seq<real>, threshold: real): Metrics
    requires |labels| == |proba|
  {
    var preds := Predict(proba, threshold);
    WithRates(|labels|, Total(labels), Total(preds), Cell(labels, preds, HAM, HAM), Cell(labels, preds, HAM, SPAM),
              Cell(labels, preds, SPAM, HAM), Cell(labels, preds, SPAM, SPAM))
  }

  /**
   * The confusion cells count the test positions with the given label whose
   * probability is at least the threshold (prediction 1) or below it
   * (prediction 0); they partition the test set, the spam count is the
   * spam row and the predicted-spam count the spam column.
   */
  lemma ScoreReport(labels: seq<Label>, proba: seq<real>, threshold: real)
    requires |labels| == |proba|
    ensures var m := Score(labels, proba, threshold);
      && m.testN == |labels|
      && m.tn + m.fp + m.fn + m.tp == m.testN
      && m.spamInTest == m.fn + m.tp && m.predictedSpam == m.fp + m.tp
      && m.tn == |CellPositions(labels, proba, threshold, HAM, HAM)|
      && m.fp == |CellPositions(labels, proba, threshold, HAM, SPAM)|
      && m.fn == |CellPositions(labels, proba, threshold, SPAM, HAM)|
      && m.tp == |CellPositions(labels, proba, threshold, SPAM, SPAM)|
      && RatesFromCells(m)
  {
    var preds := Predict(proba, threshold);
    CellIdentities(labels, preds);
    CellCountsPositions(labels, proba, threshold, HAM, HAM);
    CellCountsPositions(labels, proba, threshold, HAM, SPAM);
    CellCountsPositions(labels, proba, threshold, SPAM, HAM);
    CellCountsPositions(labels, proba, threshold, SPAM, SPAM);
  }

  /** The report of given counts, with precision, recall and F1 computed from the cells. */
  function WithRates(testN: nat, spamInTest: nat, predictedSpam: nat, tn: nat, fp: nat, fn: nat, tp: nat): (m: Metrics)
    ensures (m.testN, m.spamInTest, m.predictedSpam, m.tn, m.fp, m.fn, m.tp) == (testN, spamInTest, predictedSpam, tn, fp, fn, tp)
    ensures RatesFromCells(m)
  {
    var precision, recall, f1 := Ratio(tp, tp + fp), Ratio(tp, tp + fn), Ratio(2 * tp, 2 * tp + fp + fn);
    RatiosAreRates(tp, fp, fn);
    Metrics(testN, spamInTest, predictedSpam, tn, fp, fn, tp, precision, recall, f1)
  }

  /** sklearn's three ratios of the cells meet Rates. */
  lemma RatiosAreRates(tp: nat, fp: nat, fn: nat)
    ensures Rates(tp, fp, fn, Ratio(tp, tp + fp), Ratio(tp, tp + fn), Ratio(2 * tp, 2 * tp + fp + fn))
  {
    HarmonicMean(tp, fp, fn);
  }

  /**
   * The four cells partition the test set, the label sum counts the spam
   * row of the matrix and the prediction sum its spam column.
   */
  lemma {:induction false} CellIdentities(labels: seq<Label>, preds: seq<Label>)
    requires |labels| == |preds|
    ensures Cell(labels, preds, HAM, HAM) + Cell(labels, preds, HAM, SPAM)
            + Cell(labels, preds, SPAM, HAM) + Cell(labels, preds, SPAM, SPAM) == |labels|
    ensures Total(labels) == Cell(labels, preds, SPAM, HAM) + Cell(labels, preds, SPAM, SPAM)
    ensures Total(preds) == Cell(labels, preds, HAM, SPAM) + Cell(labels, preds, SPAM, SPAM)
  {
    if labels != [] {
      var n := |labels| - 1;
      CellIdentities(labels[..n], preds[..n]);
    }
  }

  /** Each cell counts exactly the test positions it names. */
  lemma {:induction false} CellCountsPositions(labels: seq<Label>, proba: seq<real>, threshold: real,
                                               truth: Label, guess: Label)
    requires |labels| == |proba|
    ensures Cell(labels, Predict(proba, threshold), truth, guess) == |CellPositions(labels, proba, threshold, truth, guess)|
  {
    if labels != [] {
      var n := |labels| - 1;
      assert Predict(proba, threshold)[..n] == Predict(proba[..n], threshold);
      CellCountsPositions(labels[..n], proba[..n], threshold, truth, guess);
      var before := CellPositions(labels[..n], proba[..n], threshold, truth, guess);
      var all := CellPositions(labels, proba, threshold, truth, guess);
      if labels[n] == truth && (proba[n] >= threshold <==> guess == SPAM) {
        assert all == before + {n};
        assert n !in before;
      } else {
        assert all == before;
      }
    } else {
      assert CellPositions(labels, proba, threshold, truth, guess) == {};
    }
  }

  /**
   * `f1` as sklearn computes it, 2 TP / (2 TP + FP + FN), is the harmonic
   * mean of precision and recall, and 0 when both are 0.
   */
  lemma HarmonicMean(tp: nat, fp: nat, fn: nat)
    ensures var p, r, f := Ratio(tp, tp + fp), Ratio(tp, tp + fn), Ratio(2 * tp, 2 * tp + fp + fn);
      if p + r == 0.0 then f == 0.0 else f == 2.0 * p * r / (p + r)
  {
    if tp > 0 {
      var a, b, c := tp as real, (tp + fp) as real, (tp + fn) as real;
      assert b + c == (2 * tp + fp + fn) as real;
      HarmonicOfQuotients(a, b, c);
    }
  }

  /** The harmonic mean of a / b and a / c is 2a / (b + c). */
  lemma HarmonicOfQuotients(a: real, b: real, c: real)
    requires 0.0 < a <= b && a <= c
    ensures 2.0 * (a / b) * (a / c) / (a / b + a / c) == 2.0 * a / (b + c)
  {
    var p, r, f := a / b, a / c, 2.0 * a / (b + c);
    assert p * b == a && r * c == a && f * (b + c) == 2.0 * a;
    var bc := b * c;
    assert (p + r) * bc == a * (b + c) by {
      assert (p + r) * bc == (p * b) * c + (r * c) * b;
    }
    assert f * (p + r) * bc == 2.0 * p * r * bc by {
      assert f * (p + r) * bc == f * (b + c) * a;
      assert 2.0 * p * r * bc == 2.0 * (p * b) * (r * c);
    }
    CancelFactor(f * (p + r), 2.0 * p * r, bc);
  }

  /** A positive factor cancels from both sides of an equation. */
  lemma CancelFactor(x: real, y: real, k: real)
    requires k > 0.0 && x * k == y * k
    ensures x == y
  {
    assert (x - y) * k == 0.0;
  }

  /**
   * The pipeline after `pipe.fit(X_tr, y_tr)`: the spam probability
   * `predict_proba(...)[:, 1]` it gives a text.
   */
  type Fit = (seq<string>, seq<Label>) -> (string -> real)

  function Texts(rows: seq<Row>): seq<string> {
    seq(|rows|, j requires 0 <= j < |rows| => rows[j].text)
  }

  function Labels(rows: seq<Row>): seq<Label> {
    seq(|rows|, j requires 0 <= j < |rows| => rows[j].category)
  }

  function Probabilities(predict: string -> real, rows: seq<Row>): seq<real> {
    seq(|rows|, j requires 0 <= j < |rows| => predict(rows[j].text))
  }

  /**
   * The test rows labelled `truth` that the trained predictor classifies as
   * `guess`. This is the cell read off the rows themselves, as `fit_predict`
   * sees them; CellPositions is the same cell read off the label and
   * probability vectors that `confusion_matrix` receives.
   * OutcomesArePositions states that the two readings agree.
   */
  ghost function Outcomes(test: seq<Row>, predict: string -> real, threshold: real, truth: Label, guess: Label): set<int> {
    set j | 0 <= j < |test| && test[j].category == truth && (predict(test[j].text) >= threshold <==> guess == SPAM)
  }

  lemma OutcomesArePositions(test: seq<Row>, predict: string -> real, threshold: real, truth: Label, guess: Label)
    ensures CellPositions(Labels(test), Probabilities(predict, test), threshold, truth, guess)
            == Outcomes(test, predict, threshold, truth, guess)
  {
  }

  /** `fit_predict(train_rows, test_rows, threshold)`. */
  function FitPredict(train: seq<Row>, test: seq<Row>, threshold: real, fit: Fit): Metrics {
    Score(Labels(test), Probabilities(fit(Texts(train), Labels(train)), test), threshold)
  }

  /**
   * What `fit_predict` reports: each confusion cell counts the test rows
   * with its true label whose text the classifier trained on the training
   * rows scores at least `threshold` (predicted spam) or below it (predicted
   * ham); the sums and rates follow from the cells.
   */
  lemma FitPredictReport(train: seq<Row>, test: seq<Row>, threshold: real, fit: Fit)
    ensures var m, predict := FitPredict(train, test, threshold, fit), fit(Texts(train), Labels(train));
      && m.testN == |test|
      && m.tn == |Outcomes(test, predict, threshold, HAM, HAM)|
      && m.fp == |Outcomes(test, predict, threshold, HAM, SPAM)|
      && m.fn == |Outcomes(test, predict, threshold, SPAM, HAM)|
      && m.tp == |Outcomes(test, predict, threshold, SPAM, SPAM)|
      && m.spamInTest == m.fn + m.tp && m.predictedSpam == m.fp + m.tp
      && RatesFromCells(m)
  {
    var predict := fit(Texts(train), Labels(train));
    ScoreReport(Labels(test), Probabilities(predict, test), threshold);
    OutcomesArePositions(test, predict, threshold, HAM, HAM);
    OutcomesArePositions(test, predict, threshold, HAM, SPAM);
    OutcomesArePositions(test, predict, threshold, SPAM, HAM);
    OutcomesArePositions(test, predict, threshold, SPAM, SPAM);
  }
}
