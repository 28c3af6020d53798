/** The shape of similarityMatrix's nested loops, apart from what is
    computed: for i from 0 and j from i + 1, every pair (items[i], items[j])
    of the upper triangle is visited once, and when `keep` holds for it,
    `value` is put into a map under `key`. */
module Triangle {

  /** Pair (a, b) of the upper triangle comes before position (i, j) of the
      loops. */
  predicate Before(n: int, i: int, j: int, a: int, b: int) {
    0 <= a < b < n && (a < i || (a == i && b < j))
  }

  /** One visit: put the pair's value when it is kept. */
  function Visit<I, K(==), V>(m: map<K, V>, keep: (I, I) -> bool, key: (I, I) -> K, value: (I, I) -> V,
                          x: I, y: I): map<K, V>
  {
    if keep(x, y) then m[key(x, y) := value(x, y)] else m
  }

  /** The map after the loops have visited every pair before (i, j). */
  function Done<I, K(==), V>(items: seq<I>, keep: (I, I) -> bool, key: (I, I) -> K, value: (I, I) -> V,
                         i: nat, j: nat): map<K, V>
    requires i < j <= |items|
    decreases i, j
  {
    if j > i + 1 then Visit(Done(items, keep, key, value, i, j - 1), keep, key, value, items[i], items[j - 1])
    else if i == 0 then map[]
    else Done(items, keep, key, value, i - 1, |items|)
  }

  /** The map after the loops have finished. */
  function Final<I, K(==), V>(items: seq<I>, keep: (I, I) -> bool, key: (I, I) -> K, value: (I, I) -> V): map<K, V> {
    if |items| == 0 then map[] else Done(items, keep, key, value, |items| - 1, |items|)
  }

  /** The nested loops themselves: i over the items, j over the items after
      i; a pair that is not kept is skipped, a kept one is put. */
  method Loops<I, K(==), V>(items: seq<I>, keep: (I, I) -> bool, key: (I, I) -> K, value: (I, I) -> V)
    returns (m: map<K, V>)
    ensures m == Final(items, keep, key, value)
  {
    var n := |items|;
    m := map[];
    var i := 0;
    while i < n
      invariant 0 <= i <= n
      invariant m == if i == 0 then map[] else Done(items, keep, key, value, i - 1, n)
    {
      var j := i + 1;
      while j < n
        invariant i + 1 <= j <= n
        invariant m == Done(items, keep, key, value, i, j)
      {
        var x := items[i];
        var y := items[j];
        if !keep(x, y) {
          j := j + 1;
          continue;
        }
        m := m[key(x, y) := value(x, y)];
        j := j + 1;
      }
      i := i + 1;
    }
  }

  /** Pair (a, b) is visited before (i, j), is kept, and has key k. */
  predicate StoredUnder<I, K(==)>(items: seq<I>, keep: (I, I) -> bool, key: (I, I) -> K,
                              i: int, j: int, a: int, b: int, k: K) {
    Before(|items|, i, j, a, b) && keep(items[a], items[b]) && key(items[a], items[b]) == k
  }

  /** The key function tells apart the pairs the loops visit. */
  predicate KeysDistinct<I, K(==)>(items: seq<I>, key: (I, I) -> K) {
    forall a, b, c, d ::
      (0 <= a < b < |items| && 0 <= c < d < |items| && key(items[a], items[b]) == key(items[c], items[d]))
      ==> a == c && b == d
  }

  /** Every stored key comes from a visited, kept pair and holds that pair's
      value (the last one written, when two pairs share a key). */
  lemma {:induction false} DoneSound<I, K, V>(items: seq<I>, keep: (I, I) -> bool, key: (I, I) -> K,
                                              value: (I, I) -> V, i: nat, j: nat)
    requires i < j <= |items|
    ensures forall k :: k in Done(items, keep, key, value, i, j) ==>
      exists a, b :: StoredUnder(items, keep, key, i, j, a, b, k)
        && Done(items, keep, key, value, i, j)[k] == value(items[a], items[b])
    decreases i, j
  {
    var n := |items|;
    var m := Done(items, keep, key, value, i, j);
    if j > i + 1 {
      DoneSound(items, keep, key, value, i, j - 1);
      var prev := Done(items, keep, key, value, i, j - 1);
      forall k | k in m
        ensures exists a, b :: StoredUnder(items, keep, key, i, j, a, b, k) && m[k] == value(items[a], items[b])
      {
        if keep(items[i], items[j - 1]) && k == key(items[i], items[j - 1]) {
          assert StoredUnder(items, keep, key, i, j, i, j - 1, k);
        } else {
          assert k in prev && m[k] == prev[k];
          var a, b :| StoredUnder(items, keep, key, i, j - 1, a, b, k) && prev[k] == value(items[a], items[b]);
          assert StoredUnder(items, keep, key, i, j, a, b, k);
        }
      }
    } else if i > 0 {
      DoneSound(items, keep, key, value, i - 1, n);
      assert m == Done(items, keep, key, value, i - 1, n);
      forall k | k in m
        ensures exists a, b :: StoredUnder(items, keep, key, i, j, a, b, k) && m[k] == value(items[a], items[b])
      {
        var a, b :| StoredUnder(items, keep, key, i - 1, n, a, b, k) && m[k] == value(items[a], items[b]);
        assert StoredUnder(items, keep, key, i, j, a, b, k);
      }
    }
  }

  /** Every visited, kept pair has its key stored. */
  lemma {:induction false} DoneComplete<I, K, V>(items: seq<I>, keep: (I, I) -> bool, key: (I, I) -> K,
                                                 value: (I, I) -> V, i: nat, j: nat)
    requires i < j <= |items|
    ensures forall a, b :: Before(|items|, i, j, a, b) && keep(items[a], items[b]) ==>
      key(items[a], items[b]) in Done(items, keep, key, value, i, j)
    decreases i, j
  {
    var n := |items|;
    var m := Done(items, keep, key, value, i, j);
    if j > i + 1 {
      DoneComplete(items, keep, key, value, i, j - 1);
      forall a, b | Before(n, i, j, a, b) && keep(items[a], items[b])
        ensures key(items[a], items[b]) in m
      {
        if !(a == i && b == j - 1) {
          assert Before(n, i, j - 1, a, b);
        }
      }
    } else if i > 0 {
      DoneComplete(items, keep, key, value, i - 1, n);
      forall a, b | Before(n, i, j, a, b) && keep(items[a], items[b])
        ensures key(items[a], items[b]) in m
      {
        assert Before(n, i - 1, n, a, b);
      }
    }
  }

  /** Each visit adds at most one entry: twice the size is at most
      2 i n - i (i + 1) + 2 (j - i - 1), twice the number of visits so far. */
  lemma {:induction false} DoneSize<I, K, V>(items: seq<I>, keep: (I, I) -> bool, key: (I, I) -> K,
                                             value: (I, I) -> V, i: nat, j: nat)
    requires i < j <= |items|
    ensures 2 * |Done(items, keep, key, value, i, j)| <= 2 * i * |items| - i * (i + 1) + 2 * (j - i - 1)
    decreases i, j
  {
    var n := |items|;
    if j > i + 1 {
      DoneSize(items, keep, key, value, i, j - 1);
    } else if i > 0 {
      DoneSize(items, keep, key, value, i - 1, n);
      assert 2 * (i - 1) * n == 2 * i * n - 2 * n;
      assert (i - 1) * i == i * i - i;
      assert i * (i + 1) == i * i + i;
    }
  }

  /** When the key function tells the visited pairs apart, each stored key
      holds its own pair's value. */
  lemma ExactValues<I, K, V>(items: seq<I>, keep: (I, I) -> bool, key: (I, I) -> K,
                             value: (I, I) -> V, i: nat, j: nat)
    requires i < j <= |items|
    requires KeysDistinct(items, key)
    ensures forall a, b :: Before(|items|, i, j, a, b) && keep(items[a], items[b]) ==>
      && key(items[a], items[b]) in Done(items, keep, key, value, i, j)
      && Done(items, keep, key, value, i, j)[key(items[a], items[b])] == value(items[a], items[b])
  {
    DoneComplete(items, keep, key, value, i, j);
    DoneSound(items, keep, key, value, i, j);
    var m := Done(items, keep, key, value, i, j);
    forall a, b | Before(|items|, i, j, a, b) && keep(items[a], items[b])
      ensures m[key(items[a], items[b])] == value(items[a], items[b])
    {
      var k := key(items[a], items[b]);
      var c, d :| StoredUnder(items, keep, key, i, j, c, d, k) && m[k] == value(items[c], items[d]);
      assert c == a && d == b;
    }
  }

  /** In the finished map, every key comes from a kept pair a < b and holds
      that pair's value. */
  lemma FinalSound<I, K, V>(items: seq<I>, keep: (I, I) -> bool, key: (I, I) -> K, value: (I, I) -> V)
    ensures forall k :: k in Final(items, keep, key, value) ==>
      exists a, b :: 0 <= a < b < |items| && keep(items[a], items[b]) && key(items[a], items[b]) == k
        && Final(items, keep, key, value)[k] == value(items[a], items[b])
  {
    var n := |items|;
    if n > 0 {
      var m := Final(items, keep, key, value);
      DoneSound(items, keep, key, value, n - 1, n);
      forall k | k in m
        ensures exists a, b ::
          && 0 <= a < b < n && keep(items[a], items[b]) && key(items[a], items[b]) == k
          && m[k] == value(items[a], items[b])
      {
        var a, b :| StoredUnder(items, keep, key, n - 1, n, a, b, k) && m[k] == value(items[a], items[b]);
      }
    }
  }

  /** In the finished map, every kept pair a < b has its key, holding the
      pair's own value when keys are distinct. */
  lemma FinalComplete<I, K, V>(items: seq<I>, keep: (I, I) -> bool, key: (I, I) -> K, value: (I, I) -> V)
    ensures forall a, b :: 0 <= a < b < |items| && keep(items[a], items[b]) ==>
      key(items[a], items[b]) in Final(items, keep, key, value)
    ensures KeysDistinct(items, key) ==> forall a, b :: 0 <= a < b < |items| && keep(items[a], items[b]) ==>
      && key(items[a], items[b]) in Final(items, keep, key, value)
      && Final(items, keep, key, value)[key(items[a], items[b])] == value(items[a], items[b])
  {
    var n := |items|;
    if n > 0 {
      var m := Final(items, keep, key, value);
      DoneComplete(items, keep, key, value, n - 1, n);
      forall a, b | 0 <= a < b < n && keep(items[a], items[b]) ensures key(items[a], items[b]) in m {
        assert Before(n, n - 1, n, a, b);
      }
      if KeysDistinct(items, key) {
        ExactValues(items, keep, key, value, n - 1, n);
        forall a, b | 0 <= a < b < n && keep(items[a], items[b])
          ensures m[key(items[a], items[b])] == value(items[a], items[b])
        {
          assert Before(n, n - 1, n, a, b);
        }
      }
    }
  }

  /** The finished map has at most n (n - 1) / 2 entries. */
  lemma FinalSize<I, K, V>(items: seq<I>, keep: (I, I) -> bool, key: (I, I) -> K, value: (I, I) -> V)
    ensures 2 * |Final(items, keep, key, value)| <= |items| * (|items| - 1)
  {
    var n := |items|;
    if n > 0 {
      DoneSize(items, keep, key, value, n - 1, n);
      assert 2 * (n - 1) * n - (n - 1) * n == n * (n - 1);
    }
  }
}
