/** ItemCfValidator.similarityMatrix and its cosineSimilarity helper: the
    item-item cosine similarities of the rating table, stored under
    pairKey(item, otherItem) for every pair of items (upper triangle only)
    that share at least one rater. pairKey belongs to a class outside this
    model and is a parameter; nothing is assumed about it unless a lemma
    says so. */
module Similarity {
  import opened Wrappers
  import opened Sequences
  import opened MathUtil
  import opened RatingTable
  import Triangle

  /* ---------------------------------------------------------------------- */
  /* cosineSimilarity: the two rating vectors                                */
  /* ---------------------------------------------------------------------- */

  /** Sets.intersection(xs, ys) iterated: the elements of xs that are also in
      ys, in xs's order. */
  function Intersect(xs: seq<string>, ys: seq<string>): (r: seq<string>)
    ensures forall u :: u in r <==> u in xs && u in ys
    ensures IsSubsequence(r, xs)
    ensures Distinct(xs) ==> Distinct(r)
  {
    if |xs| == 0 then []
    else
      var init := xs[..|xs| - 1];
      var x := xs[|xs| - 1];
      var prev := Intersect(init, ys);
      assert xs == init + [x];
      SubsequenceOfLonger(prev, init, xs);
      if x in ys then
        var r := prev + [x];
        assert r[..|r| - 1] == prev;
        r
      else prev
  }

  /** The raters two items have in common, in the first item's rater order. */
  function CommonRaters(t: Table, item: string, other: string): (r: seq<string>)
    ensures forall u :: u in r <==> Lookup(t.cells, item, u).Some? && Lookup(t.cells, other, u).Some?
  {
    RatersLookupAll(t.cells, item);
    RatersLookupAll(t.cells, other);
    Intersect(RatersOf(t.cells, item), RatersOf(t.cells, other))
  }

  lemma RatersLookupAll(cells: seq<Cell>, item: string)
    ensures forall u :: u in RatersOf(cells, item) <==> Lookup(cells, item, u).Some?
  {
    forall u ensures u in RatersOf(cells, item) <==> Lookup(cells, item, u).Some? {
      RatersLookup(cells, item, u);
    }
  }

  /** With a table built from records, each common rater occurs once, so the
      list stands for the intersection set. */
  lemma CommonRatersDistinct(t: Table, item: string, other: string)
    requires UniqueKeys(t.cells)
    ensures Distinct(CommonRaters(t, item, other))
  {
    RatersDistinct(t.cells, item);
  }

  /** An item's ratings by the given raters, as doubles, position by position. */
  function RatingVector(t: Table, item: string, raters: seq<string>): (v: seq<real>)
    requires forall u :: u in raters ==> Lookup(t.cells, item, u).Some?
    ensures |v| == |raters|
  {
    seq(|raters|, k requires 0 <= k < |raters| => Lookup(t.cells, item, raters[k]).value as real)
  }

  /** The two vectors of cosineSimilarity: both as long as the list of common
      raters, position k holding both items' ratings by rater k. */
  lemma VectorsAligned(t: Table, item: string, other: string)
    ensures var common := CommonRaters(t, item, other);
      && |RatingVector(t, item, common)| == |RatingVector(t, other, common)| == |common|
      && forall k :: 0 <= k < |common| ==>
        && Lookup(t.cells, item, common[k]).Some? && Lookup(t.cells, other, common[k]).Some?
        && RatingVector(t, item, common)[k] == Lookup(t.cells, item, common[k]).value as real
        && RatingVector(t, other, common)[k] == Lookup(t.cells, other, common[k]).value as real
  {
  }

  /** cosineSimilarity(commonRaters, uidToRating, otherUidToRating), computed
      with the corrected magnitude. The raters in common are not empty, so
      MathUtil.cosineSimilarity cannot throw. */
  function Sim(t: Table, item: string, other: string): (r: Cosine)
    requires |CommonRaters(t, item, other)| > 0
    ensures r.InUnitRange()
  {
    var common := CommonRaters(t, item, other);
    CosineSimilarity(RatingVector(t, item, common), RatingVector(t, other, common)).value
  }

  /** MathUtil.cosineSimilarity as written accumulates each magnitude in an
      int. While both items' sums of squared ratings over the common raters
      fit in an int, what it computes is exactly Sim. */
  lemma SimMatchesSource(t: Table, item: string, other: string)
    requires |CommonRaters(t, item, other)| > 0
    requires SumOfSquares(RatingVector(t, item, CommonRaters(t, item, other))) <= IntMax as real
    requires SumOfSquares(RatingVector(t, other, CommonRaters(t, item, other))) <= IntMax as real
    ensures var common := CommonRaters(t, item, other);
      CosineSimilarityAsWritten(RatingVector(t, item, common), RatingVector(t, other, common))
        == Success(Sim(t, item, other))
  {
    var common := CommonRaters(t, item, other);
    var u := RatingVector(t, item, common);
    var v := RatingVector(t, other, common);
    IntegralVector(t, item, common);
    IntegralVector(t, other, common);
    CosineAgreesOnIntegers(u, v);
  }

  /** Ratings are ints, so every entry of a rating vector is integral. */
  lemma IntegralVector(t: Table, item: string, raters: seq<string>)
    requires forall u :: u in raters ==> Lookup(t.cells, item, u).Some?
    ensures forall k :: 0 <= k < |raters| ==> IsIntegral(RatingVector(t, item, raters)[k])
  {
    forall k | 0 <= k < |raters| ensures IsIntegral(RatingVector(t, item, raters)[k]) {
      var n := Lookup(t.cells, item, raters[k]).value;
      assert RatingVector(t, item, raters)[k] == n as real;
      assert (n as real).Floor == n;
    }
  }

  /** Two items rated 50000 by the same user: removeImplicitRatings keeps
      any non-zero int, and the source's similarity of the pair is
      2.5e9 / Integer.MAX_VALUE, above 1, where Sim stays in [-1, 1]. */
  lemma SimDivergesOnLargeRatings()
    ensures var t := Table([Cell("a", "u", 50000), Cell("b", "u", 50000)]);
      && CommonRaters(t, "a", "b") == ["u"]
      && CosineSimilarityAsWritten(RatingVector(t, "a", ["u"]), RatingVector(t, "b", ["u"]))
           == Success(Cosine(2500000000.0, IntMax as real, IntMax as real))
      && Sim(t, "a", "b").InUnitRange()
  {
    var t := Table([Cell("a", "u", 50000), Cell("b", "u", 50000)]);
    TwoCells(t);
    CommonOfOne(t, "a", "b", "u");
    SingleVector(t, "a", "u", 50000);
    SingleVector(t, "b", "u", 50000);
    CosineAsWrittenSaturates();
  }

  /** The lookups and raters of the two-cell table. */
  lemma TwoCells(t: Table)
    requires t == Table([Cell("a", "u", 50000), Cell("b", "u", 50000)])
    ensures RatersOf(t.cells, "a") == ["u"] && RatersOf(t.cells, "b") == ["u"]
    ensures Lookup(t.cells, "a", "u") == Some(50000) && Lookup(t.cells, "b", "u") == Some(50000)
  {
    assert t.cells[..1] == [Cell("a", "u", 50000)] && t.cells[..1][..0] == [];
    assert RatersOf(t.cells[..1], "a") == ["u"] && RatersOf(t.cells[..1], "b") == [];
  }

  lemma CommonOfOne(t: Table, item: string, other: string, u: string)
    requires RatersOf(t.cells, item) == [u] && RatersOf(t.cells, other) == [u]
    ensures CommonRaters(t, item, other) == [u]
  {
    assert [u][..0] == [];
  }

  lemma SingleVector(t: Table, item: string, u: string, n: int)
    requires Lookup(t.cells, item, u) == Some(n)
    ensures RatingVector(t, item, [u]) == [n as real]
  {
  }

  /** Explicit ratings are never 0, so the similarity of two items with a
      rater in common is a finite number. */
  lemma SimDefined(t: Table, item: string, other: string)
    requires |CommonRaters(t, item, other)| > 0
    requires forall k :: 0 <= k < |t.cells| ==> t.cells[k].rating != 0
    ensures Sim(t, item, other).Defined()
  {
    var common := CommonRaters(t, item, other);
    var u := RatingVector(t, item, common);
    var v := RatingVector(t, other, common);
    var r0 := Lookup(t.cells, item, common[0]);
    var j :| 0 <= j < |t.cells| && Key(t.cells[j]) == (item, common[0]) && t.cells[j].rating == r0.value;
    assert u[0] != 0.0;
    var s0 := Lookup(t.cells, other, common[0]);
    var i :| 0 <= i < |t.cells| && Key(t.cells[i]) == (other, common[0]) && t.cells[i].rating == s0.value;
    assert v[0] != 0.0;
    CosineSimilarityDefined(u, v);
  }

  /* ---------------------------------------------------------------------- */
  /* similarityMatrix                                                        */
  /* ---------------------------------------------------------------------- */

  /** Two items have a rater in common. */
  predicate Shared(t: Table, item: string, other: string) {
    |CommonRaters(t, item, other)| > 0
  }

  /** Two items share a rater exactly when some user rated both. */
  lemma SharedIffRatedByOne(t: Table, item: string, other: string)
    ensures Shared(t, item, other) <==> exists u :: u in RatersOf(t.cells, item) && u in RatersOf(t.cells, other)
  {
    var common := CommonRaters(t, item, other);
    RatersLookupAll(t.cells, item);
    RatersLookupAll(t.cells, other);
    if |common| > 0 {
      assert common[0] in common;
    } else {
      forall u ensures !(u in RatersOf(t.cells, item) && u in RatersOf(t.cells, other)) {
        assert u !in common;
      }
    }
  }

  /** The similarity stored for a pair; the pairs without a common rater
      are never stored, and their entry here is never read. */
  function PairSim(t: Table, item: string, other: string): Cosine {
    if Shared(t, item, other) then Sim(t, item, other) else Cosine(0.0, 0.0, 0.0)
  }

  /** The three ingredients of the loop body as functions of the two items:
      whether the pair is stored, under which key, with which value. */
  function Keep(t: Table): (string, string) -> bool {
    (x, y) => Shared(t, x, y)
  }

  function Value(t: Table): (string, string) -> Cosine {
    (x, y) => PairSim(t, x, y)
  }

  /** The similarity matrix once both loops have finished: only pairs with
      a rater in common are stored, each under its key with its similarity;
      every such pair is stored, with its own similarity when pairKey tells
      pairs apart; at most one entry per pair of items. */
  function Matrix(t: Table, pairKey: (string, string) -> string): (m: map<string, Cosine>)
    ensures OnlySharedPairs(t, ItemsOf(t.cells), pairKey, m)
    ensures AllSharedPairs(t, ItemsOf(t.cells), pairKey, m)
    ensures Triangle.KeysDistinct(ItemsOf(t.cells), pairKey) ==> OwnSimilarities(t, ItemsOf(t.cells), pairKey, m)
    ensures 2 * |m| <= |ItemsOf(t.cells)| * (|ItemsOf(t.cells)| - 1)
  {
    MatrixSound(t, ItemsOf(t.cells), pairKey, Triangle.Final(ItemsOf(t.cells), Keep(t), pairKey, Value(t)));
    MatrixComplete(t, ItemsOf(t.cells), pairKey, Triangle.Final(ItemsOf(t.cells), Keep(t), pairKey, Value(t)));
    Triangle.FinalSize(ItemsOf(t.cells), Keep(t), pairKey, Value(t));
    Triangle.Final(ItemsOf(t.cells), Keep(t), pairKey, Value(t))
  }

  /** Every stored key comes from a pair a < b of items with a rater in
      common, and holds that pair's similarity. */
  predicate OnlySharedPairs(t: Table, items: seq<string>, pairKey: (string, string) -> string, m: map<string, Cosine>) {
    forall key :: key in m ==>
      exists a, b :: 0 <= a < b < |items| && Shared(t, items[a], items[b]) && pairKey(items[a], items[b]) == key
        && m[key] == Sim(t, items[a], items[b])
  }

  /** Every pair a < b of items with a rater in common has its key stored. */
  predicate AllSharedPairs(t: Table, items: seq<string>, pairKey: (string, string) -> string, m: map<string, Cosine>) {
    forall a, b :: 0 <= a < b < |items| && Shared(t, items[a], items[b]) ==> pairKey(items[a], items[b]) in m
  }

  /** Every pair a < b of items with a rater in common finds its own
      similarity under its key. */
  predicate OwnSimilarities(t: Table, items: seq<string>, pairKey: (string, string) -> string, m: map<string, Cosine>) {
    forall a, b :: 0 <= a < b < |items| && Shared(t, items[a], items[b]) ==>
      pairKey(items[a], items[b]) in m && m[pairKey(items[a], items[b])] == Sim(t, items[a], items[b])
  }

  /** ItemCfValidator.similarityMatrix: for every i < j over rowKeySet, the
      cosine similarity of items i and j is put under pairKey(items[i],
      items[j]) if and only if they have a rater in common; the loops are
      Triangle.Loops, with Keep(t) for the empty-intersection test and
      Value(t) for cosineSimilarity. When pairKey maps two visited pairs to
      one key, the later pair's similarity is the one kept. */
  method SimilarityMatrix(t: Table, pairKey: (string, string) -> string) returns (m: map<string, Cosine>)
    ensures m == Matrix(t, pairKey)
    ensures OnlySharedPairs(t, ItemsOf(t.cells), pairKey, m)
    ensures AllSharedPairs(t, ItemsOf(t.cells), pairKey, m)
    ensures Triangle.KeysDistinct(ItemsOf(t.cells), pairKey) ==> OwnSimilarities(t, ItemsOf(t.cells), pairKey, m)
    ensures 2 * |m| <= |ItemsOf(t.cells)| * (|ItemsOf(t.cells)| - 1)
  {
    var items := ItemsOf(t.cells);
    m := Triangle.Loops(items, Keep(t), pairKey, Value(t));
    MatrixSound(t, items, pairKey, m);
    MatrixComplete(t, items, pairKey, m);
    Triangle.FinalSize(items, Keep(t), pairKey, Value(t));
  }

  lemma MatrixSound(t: Table, items: seq<string>, pairKey: (string, string) -> string, m: map<string, Cosine>)
    requires items == ItemsOf(t.cells) && m == Triangle.Final(items, Keep(t), pairKey, Value(t))
    ensures OnlySharedPairs(t, items, pairKey, m)
  {
    Triangle.FinalSound(items, Keep(t), pairKey, Value(t));
    forall key | key in m
      ensures exists a, b ::
        && 0 <= a < b < |items| && Shared(t, items[a], items[b]) && pairKey(items[a], items[b]) == key
        && m[key] == Sim(t, items[a], items[b])
    {
      var a, b :| 0 <= a < b < |items| && Keep(t)(items[a], items[b]) && pairKey(items[a], items[b]) == key
        && m[key] == Value(t)(items[a], items[b]);
      assert Shared(t, items[a], items[b]);
    }
  }

  lemma MatrixComplete(t: Table, items: seq<string>, pairKey: (string, string) -> string, m: map<string, Cosine>)
    requires items == ItemsOf(t.cells) && m == Triangle.Final(items, Keep(t), pairKey, Value(t))
    ensures AllSharedPairs(t, items, pairKey, m)
    ensures Triangle.KeysDistinct(items, pairKey) ==> OwnSimilarities(t, items, pairKey, m)
  {
    Triangle.FinalComplete(items, Keep(t), pairKey, Value(t));
    forall a, b | 0 <= a < b < |items| && Shared(t, items[a], items[b])
      ensures pairKey(items[a], items[b]) in m
      ensures Triangle.KeysDistinct(items, pairKey) ==> m[pairKey(items[a], items[b])] == Sim(t, items[a], items[b])
    {
      assert Keep(t)(items[a], items[b]);
      assert Value(t)(items[a], items[b]) == Sim(t, items[a], items[b]);
    }
  }
}
