/** The preprocessing half of ItemCfValidator: reading the ratings file,
    dropping implicit ratings, and cutting the (already shuffled) records into
    K contiguous folds; and the training set of each fold. */
module Folds {
  import opened Wrappers
  import opened Records
  import opened Sequences
  import StringUtil
  import FileUtil

  /* ---------------------------------------------------------------------- */
  /* removeImplicitRatings                                                   */
  /* ---------------------------------------------------------------------- */

  /** An explicit rating: the record parses and its rating is not 0. */
  predicate IsExplicit(tokens: Tokens) {
    RatingValue(tokens).Success? && RatingValue(tokens).value != 0
  }

  /** The explicit records, in their original order. */
  function Explicit(rows: seq<Tokens>): seq<Tokens> {
    if |rows| == 0 then []
    else Explicit(rows[..|rows| - 1]) + (if IsExplicit(rows[|rows| - 1]) then [rows[|rows| - 1]] else [])
  }

  /** ItemCfValidator.removeImplicitRatings: the records whose rating is not
      0; parsing stops at the first record without a rating token
      (IndexOutOfBounds) or with one parseInt rejects (NumberFormat). */
  method RemoveImplicitRatings(ratings: seq<Tokens>) returns (r: Result<seq<Tokens>, Exception>)
    ensures r.Failure? <==> exists k :: 0 <= k < |ratings| && !WellFormed(ratings[k])
    ensures r.Failure? ==> exists k :: FailsFirstAt(ratings, k, r.error)
    ensures r.Success? ==> r.value == Explicit(ratings)
  {
    var ret: seq<Tokens> := [];
    var n := 0;
    while n < |ratings|
      invariant 0 <= n <= |ratings|
      invariant forall j :: 0 <= j < n ==> WellFormed(ratings[j])
      invariant ret == Explicit(ratings[..n])
    {
      var tokens := ratings[n];
      var parsed := RatingValue(tokens);
      if parsed.Failure? {
        assert FailsFirstAt(ratings, n, parsed.error);
        return Failure(parsed.error);
      }
      assert ratings[..n + 1][..n] == ratings[..n];
      if parsed.value != 0 {
        ret := ret + [tokens];
      }
      n := n + 1;
    }
    assert ratings[..n] == ratings;
    return Success(ret);
  }

  /** A record is kept exactly when it is an explicit rating. */
  lemma {:induction false} ExplicitMembers(rows: seq<Tokens>, x: Tokens)
    ensures x in Explicit(rows) <==> x in rows && IsExplicit(x)
  {
    if |rows| > 0 {
      ExplicitMembers(rows[..|rows| - 1], x);
      assert rows == rows[..|rows| - 1] + [rows[|rows| - 1]];
    }
  }

  /** The kept records appear in their original order. */
  lemma {:induction false} ExplicitIsSubsequence(rows: seq<Tokens>)
    ensures IsSubsequence(Explicit(rows), rows)
  {
    if |rows| > 0 {
      var init := rows[..|rows| - 1];
      ExplicitIsSubsequence(init);
      var e := Explicit(rows);
      if IsExplicit(rows[|rows| - 1]) {
        assert e == Explicit(init) + [rows[|rows| - 1]];
        assert e[..|e| - 1] == Explicit(init);
        assert rows[..|rows| - 1] == init;
      } else {
        assert e == Explicit(init);
        assert rows[..|init|] == init;
        SubsequenceOfLonger(Explicit(init), init, rows);
      }
    }
  }

  /** Dropping implicit ratings twice drops nothing more. */
  lemma {:induction false} ExplicitIdempotent(rows: seq<Tokens>)
    ensures Explicit(Explicit(rows)) == Explicit(rows)
  {
    if |rows| > 0 {
      var init := rows[..|rows| - 1];
      ExplicitIdempotent(init);
      var e := Explicit(rows);
      var last := rows[|rows| - 1];
      if IsExplicit(last) {
        assert e == Explicit(init) + [last];
        assert e[..|e| - 1] == Explicit(init);
        assert e[|e| - 1] == last;
        assert Explicit(e) == Explicit(Explicit(init)) + [last];
      } else {
        assert e == Explicit(init);
      }
    }
  }

  /** Every record is either kept or dropped: the kept ones are at most all. */
  lemma {:induction false} ExplicitLength(rows: seq<Tokens>)
    ensures |Explicit(rows)| <= |rows|
    ensures |Explicit(rows)| == |rows| <==> forall k :: 0 <= k < |rows| ==> IsExplicit(rows[k])
  {
    if |rows| > 0 {
      var init := rows[..|rows| - 1];
      var last := rows[|rows| - 1];
      ExplicitLength(init);
      assert forall k :: 0 <= k < |init| ==> init[k] == rows[k];
      if !IsExplicit(last) {
        assert |Explicit(rows)| == |Explicit(init)|;
      } else if forall k :: 0 <= k < |init| ==> IsExplicit(init[k]) {
        assert |Explicit(rows)| == |init| + 1;
      } else {
        assert |Explicit(init)| < |init|;
      }
    }
  }

  /* ---------------------------------------------------------------------- */
  /* The fold partition of extract                                           */
  /* ---------------------------------------------------------------------- */

  /** Where fold f starts and ends: every fold has n / K records and the last
      one runs to the end of the list. */
  function FoldStart(n: nat, k: nat, f: nat): (r: nat)
    requires 0 < k && f < k
    ensures r <= n
  {
    ScaledSizeBound(n, k, f);
    f * (n / k)
  }

  function FoldEnd(n: nat, k: nat, f: nat): (r: nat)
    requires 0 < k && f < k
    ensures FoldStart(n, k, f) <= r <= n
  {
    ScaledSizeBound(n, k, f + 1);
    MulMonotone(f, f + 1, n / k);
    if f == k - 1 then n else (f + 1) * (n / k)
  }

  /** At most K folds of n / K records fit in n records. */
  lemma ScaledSizeBound(n: nat, k: nat, f: nat)
    requires 0 < k && f <= k
    ensures f * (n / k) <= n
  {
    MulMonotone(f, k, n / k);
    assert n == k * (n / k) + n % k;
  }

  lemma FoldBounds(n: nat, k: nat, f: nat)
    requires 0 < k && f < k
    ensures FoldStart(n, k, f) <= FoldEnd(n, k, f) <= n
    ensures FoldEnd(n, k, f) - FoldStart(n, k, f) == if f == k - 1 then n - (k - 1) * (n / k) else n / k
    ensures FoldStart(n, k, f) == if f == 0 then 0 else FoldEnd(n, k, f - 1)
    ensures FoldEnd(n, k, f) == if f == k - 1 then n else FoldStart(n, k, f) + n / k
  {
    var size := n / k;
    assert k * size <= n by {
      assert n == k * size + n % k;
    }
    MulMonotone(f + 1, k, size);
    MulMonotone(f, k - 1, size);
    assert (f + 1) * size == f * size + size;
  }

  lemma MulMonotone(a: nat, b: nat, c: nat)
    requires a <= b
    ensures a * c <= b * c
  {
  }

  lemma AppendFold<T>(folds: seq<seq<T>>, fold: seq<T>, pool: seq<T>, i: nat, j: nat)
    requires i <= j <= |pool| && fold == pool[i..j]
    requires Flatten(folds) == pool[..i]
    ensures Flatten(folds + [fold]) == pool[..j]
    ensures (folds + [fold])[..|folds|] == folds
  {
    FlattenSnoc(folds, fold);
    assert pool[..j] == pool[..i] + pool[i..j];
  }

  lemma FoldSizes<T>(folds: seq<seq<T>>, n: nat, k: nat)
    requires 0 < k && |folds| == k
    requires forall g :: 0 <= g < k ==> |folds[g]| == FoldEnd(n, k, g) - FoldStart(n, k, g)
    ensures forall g :: 0 <= g < k - 1 ==> |folds[g]| == n / k
    ensures |folds[k - 1]| == n - (k - 1) * (n / k)
  {
    forall g | 0 <= g < k
      ensures |folds[g]| == if g == k - 1 then n - (k - 1) * (n / k) else n / k
    {
      FoldBounds(n, k, g);
    }
  }

  /** The fold loop of extract: size = n / K, fold f is records
      [f * size, (f + 1) * size) and the last fold absorbs the remainder.
      K == 0 divides by zero; a negative K leaves the loop without folds. */
  method Partition<T>(pool: seq<T>, k: int) returns (r: Result<seq<seq<T>>, Exception>)
    ensures r.Failure? <==> k == 0
    ensures r.Failure? ==> r.error == Arithmetic
    ensures k < 0 ==> r == Success([])
    ensures k > 0 ==> r.Success? && |r.value| == k && Flatten(r.value) == pool
    ensures k > 0 ==> forall f :: 0 <= f < k ==>
      r.value[f] == pool[FoldStart(|pool|, k, f)..FoldEnd(|pool|, k, f)]
    ensures k > 0 ==> forall f :: 0 <= f < k - 1 ==> |r.value[f]| == |pool| / k
    ensures k > 0 ==> |r.value[k - 1]| == |pool| - (k - 1) * (|pool| / k)
  {
    if k == 0 {
      return Failure(Arithmetic);
    }
    if k < 0 {
      return Success([]);
    }
    var n := |pool|;
    var size := n / k;
    var folds: seq<seq<T>> := [];
    var i := 0;
    var f := 0;
    while f < k
      invariant 0 <= f <= k
      invariant |folds| == f
      invariant i == if f == 0 then 0 else FoldEnd(n, k, f - 1)
      invariant i <= n
      invariant Flatten(folds) == pool[..i]
      invariant forall g :: 0 <= g < f ==> folds[g] == pool[FoldStart(n, k, g)..FoldEnd(n, k, g)]
    {
      FoldBounds(n, k, f);
      var j := if f == k - 1 then n else i + size;
      var fold := pool[i..j];
      AppendFold(folds, fold, pool, i, j);
      folds := folds + [fold];
      i := j;
      f := f + 1;
    }
    assert pool[..i] == pool;
    FoldSizes(folds, n, k);
    return Success(folds);
  }

  /* ---------------------------------------------------------------------- */
  /* The training set of validate()                                          */
  /* ---------------------------------------------------------------------- */

  /** Every fold but fold k, concatenated in order. */
  function Others<T>(folds: seq<seq<T>>, k: nat): seq<T>
    requires k < |folds|
  {
    Flatten(folds[..k]) + Flatten(folds[k + 1..])
  }

  /** The training set and the test fold together are all the records. */
  lemma OthersAndTest<T>(folds: seq<seq<T>>, k: nat)
    requires k < |folds|
    ensures |Others(folds, k)| + |folds[k]| == |Flatten(folds)|
    ensures multiset(Others(folds, k)) + multiset(folds[k]) == multiset(Flatten(folds))
  {
    FlattenSplit(folds, k);
  }

  /** The loop of validate() that builds the training set: every fold i with
      i != k, in order. */
  method TrainingSet<T>(folds: seq<seq<T>>, k: int) returns (train: seq<T>)
    ensures 0 <= k < |folds| ==> train == Others(folds, k)
    ensures !(0 <= k < |folds|) ==> train == Flatten(folds)
  {
    train := [];
    var i := 0;
    while i < |folds|
      invariant 0 <= i <= |folds|
      invariant !(0 <= k < i) ==> train == Flatten(folds[..i])
      invariant 0 <= k < i ==> train == Flatten(folds[..k]) + Flatten(folds[k + 1..i])
    {
      if i == k {
        assert folds[k + 1..i + 1] == [];
        i := i + 1;
        continue;
      }
      if 0 <= k < i {
        assert folds[k + 1..i + 1] == folds[k + 1..i] + [folds[i]];
        FlattenSnoc(folds[k + 1..i], folds[i]);
      } else {
        assert folds[..i + 1] == folds[..i] + [folds[i]];
        FlattenSnoc(folds[..i], folds[i]);
      }
      train := train + folds[i];
      i := i + 1;
    }
    assert folds[..i] == folds;
  }

  /* ---------------------------------------------------------------------- */
  /* extract                                                                 */
  /* ---------------------------------------------------------------------- */

  /** CharMatcher.anyOf("\";\\"): the ratings file quotes its fields and
      separates them with ';'. */
  predicate IsRatingSeparator(c: char) {
    c == '"' || c == ';' || c == '\\'
  }

  /** The records of the ratings file: one header line skipped, fields split
      on the separator, empty fields omitted. */
  function RatingRows(lines: seq<string>): seq<Tokens> {
    FileUtil.SplitLines(lines[FileUtil.HeaderLines(1, |lines|)..], IsRatingSeparator, true)
  }

  lemma ShuffledExplicit(rows: seq<Tokens>, shuffled: seq<Tokens>)
    requires multiset(shuffled) == multiset(Explicit(rows))
    ensures forall x :: x in shuffled ==> IsExplicit(x)
  {
    forall x | x in shuffled ensures IsExplicit(x) {
      assert x in multiset(Explicit(rows));
      ExplicitMembers(rows, x);
    }
  }

  lemma FoldsExplicit(pool: seq<Tokens>, folds: seq<seq<Tokens>>)
    requires forall x :: x in pool ==> IsExplicit(x)
    requires Flatten(folds) == pool
    ensures forall f, j :: 0 <= f < |folds| && 0 <= j < |folds[f]| ==> IsExplicit(folds[f][j])
  {
    forall f, j | 0 <= f < |folds| && 0 <= j < |folds[f]| ensures IsExplicit(folds[f][j]) {
      FlattenSplit(folds, f);
      assert folds[f][j] in Flatten(folds);
    }
  }

  /** ItemCfValidator.extract over the lines of the ratings file; shuffle
      stands for Collections.shuffle, any permutation. A negative K fails
      first: the static initializer's `new ArrayList<>(K_FOLDS)` throws
      IllegalArgumentException before extract can run. K = 0 fails at the
      division in the fold loop, after the file has been read. */
  method Extract(path: Option<string>, lines: seq<string>, k: int, shuffle: seq<Tokens> -> seq<Tokens>)
    returns (r: Result<seq<seq<Tokens>>, Exception>)
    requires forall xs :: multiset(shuffle(xs)) == multiset(xs)
    ensures r.Failure? <==>
      || k <= 0
      || StringUtil.Trim(path) == ""
      || (exists j :: 0 <= j < |RatingRows(lines)| && !WellFormed(RatingRows(lines)[j]))
    ensures k < 0 ==> r == Failure(IllegalArgument)
    ensures r.Failure? && StringUtil.Trim(path) == "" ==> r.error == IllegalArgument
    ensures r.Failure? && k >= 0 && StringUtil.Trim(path) != "" ==>
      (exists j :: FailsFirstAt(RatingRows(lines), j, r.error)) || (k == 0 && r.error == Arithmetic)
    ensures r.Success? ==> |r.value| == k
    ensures r.Success? ==> multiset(Flatten(r.value)) == multiset(Explicit(RatingRows(lines)))
    ensures r.Success? ==> forall f, j :: 0 <= f < |r.value| && 0 <= j < |r.value[f]| ==> IsExplicit(r.value[f][j])
  {
    if k < 0 {
      return Failure(IllegalArgument);
    }
    var rows :- FileUtil.Read(path, lines, Some(IsRatingSeparator), 1, true);
    assert rows == RatingRows(lines);
    var kept :- RemoveImplicitRatings(rows);
    var shuffled := shuffle(kept);
    ShuffledExplicit(rows, shuffled);
    var folds :- Partition(shuffled, k);
    FoldsExplicit(shuffled, folds);
    return Success(folds);
  }
}
