/** ItemCfValidator.validate(trainSet, testSet) and validate(): each fold is
    held out in turn, a rating table and similarity matrix are built from the
    other folds, every held-out record is either predicted or skipped, and
    the per-fold errors are averaged over the folds.

    ItemCf.predict and ItemCf.pairKey belong to a class outside this model:
    both are parameters, and nothing is assumed about them. Errors are kept
    in squared form; Math.sqrt is the parameter `root` of the aggregation. */
module Validation {
  import opened Wrappers
  import opened Sequences
  import opened MathUtil
  import opened Records
  import opened RatingTable
  import opened Similarity
  import Folds
  import StringUtil

  /** ItemCf.predict(uid, isbn, ratingTable, simMatrix, MIN_RATINGS_COUNT):
      a predicted rating, or None when the item cannot be predicted. The
      minimum ratings count is a constant and part of the function. */
  type Predictor = (string, string, Table, map<string, Cosine>) -> Option<int>

  /** Every record has three tokens and a rating that parses. */
  predicate AllWellFormed(rows: seq<Tokens>) {
    forall k :: 0 <= k < |rows| ==> WellFormed(rows[k])
  }

  /** What predict answers for a test record, with the lower-cased user id
      (token 0) and item id (token 1). It is only asked about well-formed
      records; a record without two tokens has no answer. */
  function Answer(tokens: Tokens, t: Table, m: map<string, Cosine>, predict: Predictor): Option<int> {
    if |tokens| < 2 then None
    else predict(StringUtil.ToLower(tokens[0]), StringUtil.ToLower(tokens[1]), t, m)
  }

  /** The actual rating of a well-formed record as the double validate()
      stores. */
  function ActualOf(tokens: Tokens): real {
    match RatingValue(tokens)
    case Success(a) => a as real
    case Failure(_) => 0.0
  }

  /** A predicted rating as the double validate() stores. */
  function AsReal(o: Option<int>): real {
    if o.Some? then o.value as real else 0.0
  }

  /** The positions of the test records that predict answers, in order. */
  function AnsweredAt(test: seq<Tokens>, t: Table, m: map<string, Cosine>, predict: Predictor): (r: seq<int>)
    ensures forall i :: 0 <= i < |r| ==> 0 <= r[i] < |test|
  {
    if |test| == 0 then []
    else
      var prev := AnsweredAt(test[..|test| - 1], t, m, predict);
      if Answer(test[|test| - 1], t, m, predict).Some? then prev + [|test| - 1] else prev
  }

  /** The answered positions are increasing, and a position is among them
      exactly when predict answers its record. */
  lemma {:induction false} AnsweredAtExactly(test: seq<Tokens>, t: Table, m: map<string, Cosine>, predict: Predictor)
    ensures forall i, j :: 0 <= i < j < |AnsweredAt(test, t, m, predict)| ==>
      AnsweredAt(test, t, m, predict)[i] < AnsweredAt(test, t, m, predict)[j]
    ensures forall k :: 0 <= k < |test| ==> (k in AnsweredAt(test, t, m, predict) <==> Answer(test[k], t, m, predict).Some?)
  {
    if |test| > 0 {
      var init := test[..|test| - 1];
      assert forall k :: 0 <= k < |init| ==> init[k] == test[k];
      AnsweredAtExactly(init, t, m, predict);
    }
  }

  /** The two lists and the counter of validate(trainSet, testSet). */
  datatype Evaluation = Evaluation(predictions: seq<real>, actuals: seq<real>, skipped: nat)

  /** The predictions and actual ratings are those of the answered records,
      in order, and every other record is counted as skipped. */
  predicate Accounts(e: Evaluation, test: seq<Tokens>, t: Table, m: map<string, Cosine>, predict: Predictor) {
    var at := AnsweredAt(test, t, m, predict);
    && |e.predictions| == |at|
    && |e.actuals| == |at|
    && e.skipped == |test| - |at|
    && forall i :: 0 <= i < |at| ==>
      && e.predictions[i] == AsReal(Answer(test[at[i]], t, m, predict))
      && e.actuals[i] == ActualOf(test[at[i]])
  }

  /** The loop over the test set: each record's rating is parsed, and the
      record is predicted or skipped. A record that does not parse ends the
      loop with its exception. */
  function Evaluate(test: seq<Tokens>, t: Table, m: map<string, Cosine>, predict: Predictor): (r: Result<Evaluation, Exception>)
    ensures r.Success? <==> AllWellFormed(test)
    ensures r.Failure? ==> exists k :: FailsFirstAt(test, k, r.error)
  {
    if |test| == 0 then Success(Evaluation([], [], 0))
    else
      var init := test[..|test| - 1];
      var last := test[|test| - 1];
      assert forall k :: 0 <= k < |init| ==> init[k] == test[k];
      match Evaluate(init, t, m, predict)
      case Failure(e) =>
        var k :| FailsFirstAt(init, k, e);
        assert FailsFirstAt(test, k, e);
        Failure(e)
      case Success(prev) =>
        match RatingValue(last)
        case Failure(e) =>
          assert FailsFirstAt(test, |test| - 1, e);
          Failure(e)
        case Success(a) =>
          match Answer(last, t, m, predict)
          case None => Success(prev.(skipped := prev.skipped + 1))
          case Some(p) => Success(Evaluation(prev.predictions + [p as real], prev.actuals + [a as real], prev.skipped))
  }

  /** A record is skipped exactly when predict returns absent; the others
      give one prediction and one actual rating each, in order. */
  lemma {:induction false} EvaluateAccounts(test: seq<Tokens>, t: Table, m: map<string, Cosine>, predict: Predictor)
    requires AllWellFormed(test)
    ensures Evaluate(test, t, m, predict).Success?
    ensures Accounts(Evaluate(test, t, m, predict).value, test, t, m, predict)
  {
    if |test| > 0 {
      var init := test[..|test| - 1];
      var last := test[|test| - 1];
      assert forall k :: 0 <= k < |init| ==> init[k] == test[k];
      EvaluateAccounts(init, t, m, predict);
      var prev := Evaluate(init, t, m, predict).value;
      var e := Evaluate(test, t, m, predict).value;
      if Answer(last, t, m, predict).Some? {
        assert e == Evaluation(prev.predictions + [AsReal(Answer(last, t, m, predict))],
                               prev.actuals + [ActualOf(last)], prev.skipped);
        AccountsAnswered(test, t, m, predict, prev);
      } else {
        assert e == prev.(skipped := prev.skipped + 1);
        AccountsSkipped(test, t, m, predict, prev);
      }
    }
  }

  /** An answered record adds one prediction and one actual rating. */
  lemma AccountsAnswered(test: seq<Tokens>, t: Table, m: map<string, Cosine>, predict: Predictor, prev: Evaluation)
    requires |test| > 0 && Accounts(prev, test[..|test| - 1], t, m, predict)
    requires Answer(test[|test| - 1], t, m, predict).Some?
    ensures Accounts(Evaluation(prev.predictions + [AsReal(Answer(test[|test| - 1], t, m, predict))],
                                prev.actuals + [ActualOf(test[|test| - 1])], prev.skipped), test, t, m, predict)
  {
    var before := AnsweredAt(test[..|test| - 1], t, m, predict);
    assert AnsweredAt(test, t, m, predict) == before + [|test| - 1];
    assert forall i :: 0 <= i < |before| ==> test[before[i]] == test[..|test| - 1][before[i]];
  }

  /** A record predict does not answer is counted as skipped. */
  lemma AccountsSkipped(test: seq<Tokens>, t: Table, m: map<string, Cosine>, predict: Predictor, prev: Evaluation)
    requires |test| > 0 && Accounts(prev, test[..|test| - 1], t, m, predict)
    requires Answer(test[|test| - 1], t, m, predict).None?
    ensures Accounts(prev.(skipped := prev.skipped + 1), test, t, m, predict)
  {
    var before := AnsweredAt(test[..|test| - 1], t, m, predict);
    assert AnsweredAt(test, t, m, predict) == before;
    assert forall i :: 0 <= i < |before| ==> test[before[i]] == test[..|test| - 1][before[i]];
  }

  /** The counts of one fold: as many predictions as actual ratings, and
      predictions and skips together make up the test set. */
  lemma EvaluateCounts(test: seq<Tokens>, t: Table, m: map<string, Cosine>, predict: Predictor)
    requires AllWellFormed(test)
    ensures var e := Evaluate(test, t, m, predict).value;
      |e.predictions| == |e.actuals| && |e.predictions| + e.skipped == |test|
  {
    EvaluateAccounts(test, t, m, predict);
  }

  /** Some record of the test set is answered. */
  predicate SomeAnswered(test: seq<Tokens>, t: Table, m: map<string, Cosine>, predict: Predictor) {
    exists k :: 0 <= k < |test| && Answer(test[k], t, m, predict).Some?
  }

  /** The Result of validate(trainSet, testSet), with the mean squared error
      in place of its square root. */
  datatype FoldResult = FoldResult(meanAbsoluteError: real, meanSquaredError: real, predictionCount: nat, skippedCount: nat)

  /** validate(trainSet, testSet): the rating table of the training set, its
      similarity matrix, the loop over the test set, then the two errors of
      the predictions against the actual ratings. A bad training set fails
      with the table's exception; a fold that succeeds predicts at least one
      record, accounts for every test record, reports the two errors of the
      test loop's predictions against its actual ratings, and has a root
      mean squared error no smaller than its mean absolute error. */
  function ValidateFold(train: seq<Tokens>, test: seq<Tokens>, pairKey: (string, string) -> string,
                        predict: Predictor): (r: Result<FoldResult, Exception>)
    ensures BuildTable(train).Failure? ==> r == Failure(BuildTable(train).error)
    ensures r.Success? ==>
      && r.value.predictionCount > 0
      && r.value.predictionCount + r.value.skippedCount == |test|
      && Consistent(r.value)
    ensures r.Success? ==>
      && BuildTable(train).Success?
      && var t := BuildTable(train).value;
      && Evaluate(test, t, Matrix(t, pairKey), predict).Success?
      && var e := Evaluate(test, t, Matrix(t, pairKey), predict).value;
      && r.value.predictionCount == |e.predictions|
      && r.value.skippedCount == e.skipped
      && MeanAbsoluteError(e.predictions, e.actuals).Success?
      && r.value.meanAbsoluteError == MeanAbsoluteError(e.predictions, e.actuals).value
      && MeanSquaredError(e.predictions, e.actuals).Success?
      && r.value.meanSquaredError == MeanSquaredError(e.predictions, e.actuals).value
  {
    var t :- BuildTable(train);
    var m := Matrix(t, pairKey);
    var e :- Evaluate(test, t, m, predict);
    EvaluateAccounts(test, t, m, predict);
    var mae :- MeanAbsoluteError(e.predictions, e.actuals);
    RootMeanSquaredErrorAtLeastMae(e.predictions, e.actuals);
    // meanAbsoluteError has already checked the arrays, so rootMeanSquaredError cannot throw.
    var mse := MeanSquaredError(e.predictions, e.actuals).value;
    Success(FoldResult(mae, mse, |e.predictions|, e.skipped))
  }

  /** When every test record is skipped, meanAbsoluteError receives empty
      arrays and the fold fails with IllegalArgumentException; otherwise
      the fold succeeds, and its counts and errors are consistent. */
  lemma ValidateFoldOutcome(train: seq<Tokens>, test: seq<Tokens>, t: Table, pairKey: (string, string) -> string,
                            predict: Predictor)
    requires BuildTable(train) == Success(t)
    requires AllWellFormed(test)
    ensures var r := ValidateFold(train, test, pairKey, predict);
      && (r.Success? <==> SomeAnswered(test, t, Matrix(t, pairKey), predict))
      && (r.Failure? ==> r.error == IllegalArgument)
  {
    var m := Matrix(t, pairKey);
    EvaluateAccounts(test, t, m, predict);
    var at := AnsweredAt(test, t, m, predict);
    AnsweredAtExactly(test, t, m, predict);
    if SomeAnswered(test, t, m, predict) {
      var k :| 0 <= k < |test| && Answer(test[k], t, m, predict).Some?;
      assert k in at;
    }
  }

  /** The mean absolute error is non-negative and its square is at most the
      mean squared error. */
  predicate Consistent(v: FoldResult) {
    v.meanAbsoluteError >= 0.0 && v.meanSquaredError >= Square(v.meanAbsoluteError)
  }

  /** A fold fails on the first malformed training record, then on a
      duplicate (item, user) key, then on the first malformed test record. */
  lemma ValidateFoldErrors(train: seq<Tokens>, test: seq<Tokens>, pairKey: (string, string) -> string,
                           predict: Predictor)
    ensures var r := ValidateFold(train, test, pairKey, predict);
      && (BuildTable(train).Failure? ==> r == Failure(BuildTable(train).error))
      && (BuildTable(train).Success? && !AllWellFormed(test) ==> r.Failure? && exists k :: FailsFirstAt(test, k, r.error))
  {
  }

  /* ---------------------------------------------------------------------- */
  /* validate(): the folds in turn                                           */
  /* ---------------------------------------------------------------------- */

  /** validate(trainSet, testSet) as a value: the step the loop of
      validate() takes for each fold. */
  type FoldStep = (seq<Tokens>, seq<Tokens>) -> Result<FoldResult, Exception>

  function Runner(pairKey: (string, string) -> string, predict: Predictor): FoldStep {
    (train, test) => ValidateFold(train, test, pairKey, predict)
  }

  /** What every successful step promises: consistent errors, and counts
      that make up the test set. */
  ghost predicate Sound(step: FoldStep) {
    forall train, test :: step(train, test).Success? ==>
      && Consistent(step(train, test).value)
      && step(train, test).value.predictionCount + step(train, test).value.skippedCount == |test|
  }

  lemma RunnerSound(pairKey: (string, string) -> string, predict: Predictor)
    ensures Sound(Runner(pairKey, predict))
  {
    forall train, test | Runner(pairKey, predict)(train, test).Success?
      ensures Consistent(Runner(pairKey, predict)(train, test).value)
      ensures Runner(pairKey, predict)(train, test).value.predictionCount
        + Runner(pairKey, predict)(train, test).value.skippedCount == |test|
    {
    }
  }

  /** The result of holding out fold f and training on the others. */
  function Outcome(folds: seq<seq<Tokens>>, f: nat, step: FoldStep): Result<FoldResult, Exception>
    requires f < |folds|
  {
    step(Folds.Others(folds, f), folds[f])
  }

  /** The results of a run of the folds, each one what its fold gives. */
  predicate Gives(folds: seq<seq<Tokens>>, results: seq<FoldResult>, step: FoldStep) {
    && |results| <= |folds|
    && forall f :: 0 <= f < |results| ==> Outcome(folds, f, step) == Success(results[f])
  }

  /** Fold f is the first fold that fails, and fails with e. */
  predicate FirstFailingFold(folds: seq<seq<Tokens>>, f: int, e: Exception, step: FoldStep) {
    && 0 <= f < |folds|
    && Outcome(folds, f, step) == Failure(e)
    && forall g :: 0 <= g < f ==> Outcome(folds, g, step).Success?
  }

  /** The reported values of validate(): the per-fold results (logged one by
      one), the average errors over the K folds and the two total counts. */
  datatype Summary = Summary(results: seq<FoldResult>, averageMae: real, averageRmse: real,
                             predictionCount: nat, skippedCount: nat)

  /** What the loop of validate() accumulates: the per-fold results, the
      sums of the two errors and the two total counts. */
  datatype Totals = Totals(results: seq<FoldResult>, sumMae: real, sumRmse: real, predictionCount: nat, skippedCount: nat)

  function SumMae(results: seq<FoldResult>): real {
    if |results| == 0 then 0.0
    else SumMae(results[..|results| - 1]) + results[|results| - 1].meanAbsoluteError
  }

  function SumRoot(results: seq<FoldResult>, root: real -> real): real {
    if |results| == 0 then 0.0
    else SumRoot(results[..|results| - 1], root) + root(results[|results| - 1].meanSquaredError)
  }

  /** root is the square root on the non-negative numbers. */
  ghost predicate IsSquareRoot(root: real -> real) {
    forall x :: x >= 0.0 ==> root(x) >= 0.0 && Square(root(x)) == x
  }

  /** The loop of validate(): for k from 0, the training set of the folds
      other than k, then validate(trainSet, fold k); the first fold that
      throws ends the loop with its exception. */
  method RunFolds(folds: seq<seq<Tokens>>, step: FoldStep, root: real -> real) returns (r: Result<Totals, Exception>)
    requires Sound(step)
    ensures r.Success? <==> forall f :: 0 <= f < |folds| ==> Outcome(folds, f, step).Success?
    ensures r.Failure? ==> exists f :: FirstFailingFold(folds, f, r.error, step)
    ensures r.Success? ==> |r.value.results| == |folds| && Gives(folds, r.value.results, step)
    ensures r.Success? ==> forall f :: 0 <= f < |folds| ==> Consistent(r.value.results[f])
    ensures r.Success? ==> r.value.sumMae == SumMae(r.value.results) && r.value.sumRmse == SumRoot(r.value.results, root)
    ensures r.Success? ==> r.value.predictionCount + r.value.skippedCount == |Flatten(folds)|
  {
    var results: seq<FoldResult> := [];
    var sumMae := 0.0;
    var sumRmse := 0.0;
    var predictionCount: nat := 0;
    var skippedCount: nat := 0;
    var k := 0;
    while k < |folds|
      invariant 0 <= k <= |folds| && |results| == k
      invariant Gives(folds, results, step)
      invariant forall f :: 0 <= f < k ==> Consistent(results[f])
      invariant sumMae == SumMae(results) && sumRmse == SumRoot(results, root)
      invariant predictionCount + skippedCount == |Flatten(folds[..k])|
    {
      var train := Folds.TrainingSet(folds, k);
      var fold := step(train, folds[k]);
      if fold.Failure? {
        assert FirstFailingFold(folds, k, fold.error, step);
        return Failure(fold.error);
      }
      var v := fold.value;
      FlattenStep(folds, k);
      var next := results + [v];
      assert next[..k] == results;
      assert Gives(folds, next, step) by {
        forall f | 0 <= f < |next| ensures Outcome(folds, f, step) == Success(next[f]) {
          if f < k {
            assert next[f] == results[f];
          }
        }
      }
      results := next;
      sumMae := sumMae + v.meanAbsoluteError;
      sumRmse := sumRmse + root(v.meanSquaredError);
      predictionCount := predictionCount + v.predictionCount;
      skippedCount := skippedCount + v.skippedCount;
      k := k + 1;
    }
    assert folds[..k] == folds;
    return Success(Totals(results, sumMae, sumRmse, predictionCount, skippedCount));
  }

  /** validate(): the loop over the folds with validate(trainSet, testSet)
      as its step, then the reported values: the sums of the errors divided
      by K (here the number of folds, of which Extract always makes K >= 1;
      an empty list, which Extract never produces, reports zeros) and
      the total counts. */
  method Validate(folds: seq<seq<Tokens>>, pairKey: (string, string) -> string, predict: Predictor,
                  root: real -> real) returns (r: Result<Summary, Exception>)
    ensures r.Success? <==> forall f :: 0 <= f < |folds| ==> Outcome(folds, f, Runner(pairKey, predict)).Success?
    ensures r.Failure? ==> exists f :: FirstFailingFold(folds, f, r.error, Runner(pairKey, predict))
    ensures r.Success? ==> |r.value.results| == |folds| && Gives(folds, r.value.results, Runner(pairKey, predict))
    ensures r.Success? ==> r.value.predictionCount + r.value.skippedCount == |Flatten(folds)|
    ensures r.Success? && |folds| > 0 ==>
      && r.value.averageMae == SumMae(r.value.results) / |folds| as real
      && r.value.averageRmse == SumRoot(r.value.results, root) / |folds| as real
    ensures r.Success? ==> r.value.averageMae >= 0.0
    ensures r.Success? && IsSquareRoot(root) ==> r.value.averageRmse >= r.value.averageMae
  {
    RunnerSound(pairKey, predict);
    var totals :- RunFolds(folds, Runner(pairKey, predict), root);
    var n := |folds| as real;
    var averageMae := if |folds| > 0 then totals.sumMae / n else 0.0;
    var averageRmse := if |folds| > 0 then totals.sumRmse / n else 0.0;
    SumMaeBound(totals.results, root);
    if |folds| > 0 {
      QuotientSign(totals.sumMae, n);
      if IsSquareRoot(root) {
        DivideMonotone(totals.sumMae, totals.sumRmse, n);
      }
    }
    r := Success(Summary(totals.results, averageMae, averageRmse, totals.predictionCount, totals.skippedCount));
  }

  lemma FlattenStep<T>(xs: seq<seq<T>>, k: nat)
    requires k < |xs|
    ensures Flatten(xs[..k + 1]) == Flatten(xs[..k]) + xs[k]
  {
    assert xs[..k + 1][..k] == xs[..k];
  }

  /** With every fold consistent, the sum of the mean absolute errors is
      non-negative and, with a true square root, no larger than the sum of
      the root mean squared errors. */
  lemma {:induction false} SumMaeBound(results: seq<FoldResult>, root: real -> real)
    requires forall f :: 0 <= f < |results| ==> Consistent(results[f])
    ensures SumMae(results) >= 0.0
    ensures IsSquareRoot(root) ==> SumRoot(results, root) >= SumMae(results)
  {
    if |results| > 0 {
      var init := results[..|results| - 1];
      var v := results[|results| - 1];
      assert forall f :: 0 <= f < |init| ==> init[f] == results[f];
      SumMaeBound(init, root);
      if IsSquareRoot(root) {
        RootAtLeast(v.meanAbsoluteError, v.meanSquaredError, root(v.meanSquaredError));
      }
    }
  }

  /** A non-negative a with a^2 <= q is at most the square root of q. */
  lemma RootAtLeast(a: real, q: real, s: real)
    requires a >= 0.0 && q >= Square(a) && s >= 0.0 && Square(s) == q
    ensures s >= a
  {
    SquareStrict(s, a);
  }

  lemma SquareStrict(x: real, y: real)
    requires 0.0 <= x
    ensures x < y ==> Square(x) < Square(y)
  {
    if x < y {
      calc {
        Square(x);
      ==
        x * x;
      <=
        x * y;
      <
        y * y;
      ==
        Square(y);
      }
    }
  }

  lemma DivideMonotone(x: real, y: real, n: real)
    requires n > 0.0 && x <= y
    ensures x / n <= y / n
  {
  }
}
