/**
  Count tables over a column of values: pandas' value_counts (sorted by
  descending count) and value_counts().sort_index() / groupby(...).size()
  (sorted by key). A table is a sequence of (key, count) entries.
*/
module Tables {
  import opened Orders

  datatype Entry<K> = Entry(key: K, count: nat)

  function Total<K>(t: seq<Entry<K>>): nat {
    if t == [] then 0 else t[0].count + Total(t[1..])
  }

  /** The count the table gives a key (the sum over entries with that key). */
  function CountOf<K(==)>(t: seq<Entry<K>>, k: K): nat {
    if t == [] then 0 else (if t[0].key == k then t[0].count else 0) + CountOf(t[1..], k)
  }

  function KeySet<K>(t: seq<Entry<K>>): set<K> {
    set i | 0 <= i < |t| :: t[i].key
  }

  ghost predicate Positive<K>(t: seq<Entry<K>>) {
    forall i :: 0 <= i < |t| ==> t[i].count > 0
  }

  ghost predicate DistinctKeys<K>(t: seq<Entry<K>>) {
    forall i, j :: 0 <= i < j < |t| ==> t[i].key != t[j].key
  }

  ghost predicate Ascending<K>(t: seq<Entry<K>>, lt: (K, K) -> bool) {
    forall i, j :: 0 <= i < j < |t| ==> lt(t[i].key, t[j].key)
  }

  ghost predicate NonIncreasing<K>(t: seq<Entry<K>>) {
    forall i, j :: 0 <= i < j < |t| ==> t[i].count >= t[j].count
  }

  /**
    t is the count table of xs: one entry per distinct value of xs and no
    other, each holding that value's multiplicity, the counts summing to |xs|.
  */
  ghost predicate Tabulates<K>(t: seq<Entry<K>>, xs: seq<K>) {
    && DistinctKeys(t)
    && (forall i :: 0 <= i < |t| ==> t[i].key in xs && t[i].count == multiset(xs)[t[i].key])
    && (forall x :: x in xs ==> x in KeySet(t))
    && Total(t) == |xs|
  }

  /** The invariant the tables are built under. */
  ghost predicate Tallies<K(!new)>(t: seq<Entry<K>>, xs: seq<K>) {
    && Positive(t)
    && (forall k :: CountOf(t, k) == multiset(xs)[k])
    && Total(t) == |xs|
  }

  // ---------------------------------------------------------------------
  // Facts about CountOf and KeySet
  // ---------------------------------------------------------------------

  lemma {:induction false} KeySetCons<K>(t: seq<Entry<K>>)
    requires t != []
    ensures KeySet(t) == {t[0].key} + KeySet(t[1..])
  {
    var r := t[1..];
    forall k | k in KeySet(t) ensures k in {t[0].key} + KeySet(r) {
      var i :| 0 <= i < |t| && t[i].key == k;
      if i > 0 {
        assert r[i - 1].key == k;
      }
    }
    forall k | k in KeySet(r) ensures k in KeySet(t) {
      var i :| 0 <= i < |r| && r[i].key == k;
      assert t[i + 1].key == k;
    }
  }

  /** Distinct keys of a table with a head entry. */
  lemma ConsDistinct<K>(h: Entry<K>, b: seq<Entry<K>>)
    ensures DistinctKeys([h] + b) <==> h.key !in KeySet(b) && DistinctKeys(b)
  {
    var a := [h] + b;
    if DistinctKeys(a) {
      forall j | 0 <= j < |b| ensures b[j].key != h.key {
        assert a[0] == h && a[j + 1] == b[j];
      }
      forall i, j | 0 <= i < j < |b| ensures b[i].key != b[j].key {
        assert a[i + 1] == b[i] && a[j + 1] == b[j];
      }
    }
    if h.key !in KeySet(b) && DistinctKeys(b) {
      forall i, j | 0 <= i < j < |a| ensures a[i].key != a[j].key {
        assert a[j] == b[j - 1];
        if i > 0 {
          assert a[i] == b[i - 1];
        }
      }
    }
  }

  /** Non-increasing counts of a table with a head entry. */
  lemma ConsNonIncreasing<K>(h: Entry<K>, b: seq<Entry<K>>)
    ensures NonIncreasing([h] + b) <==>
      (forall j :: 0 <= j < |b| ==> b[j].count <= h.count) && NonIncreasing(b)
  {
    var a := [h] + b;
    if NonIncreasing(a) {
      forall j | 0 <= j < |b| ensures b[j].count <= h.count {
        assert a[0] == h && a[j + 1] == b[j];
      }
      forall i, j | 0 <= i < j < |b| ensures b[i].count >= b[j].count {
        assert a[i + 1] == b[i] && a[j + 1] == b[j];
      }
    }
    if (forall j :: 0 <= j < |b| ==> b[j].count <= h.count) && NonIncreasing(b) {
      forall i, j | 0 <= i < j < |a| ensures a[i].count >= a[j].count {
        assert a[j] == b[j - 1];
        if i > 0 {
          assert a[i] == b[i - 1];
        }
      }
    }
  }

  /** Ascending keys of a table with a head entry. */
  lemma ConsAscending<K>(h: Entry<K>, b: seq<Entry<K>>, lt: (K, K) -> bool)
    ensures Ascending([h] + b, lt) <==>
      (forall k :: k in KeySet(b) ==> lt(h.key, k)) && Ascending(b, lt)
  {
    var a := [h] + b;
    if Ascending(a, lt) {
      forall k | k in KeySet(b) ensures lt(h.key, k) {
        var j :| 0 <= j < |b| && b[j].key == k;
        assert a[0] == h && a[j + 1] == b[j];
      }
      forall i, j | 0 <= i < j < |b| ensures lt(b[i].key, b[j].key) {
        assert a[i + 1] == b[i] && a[j + 1] == b[j];
      }
    }
    if (forall k :: k in KeySet(b) ==> lt(h.key, k)) && Ascending(b, lt) {
      forall i, j | 0 <= i < j < |a| ensures lt(a[i].key, a[j].key) {
        assert a[j] == b[j - 1];
        if i > 0 {
          assert a[i] == b[i - 1];
        } else {
          assert b[j - 1].key in KeySet(b);
        }
      }
    }
  }

  lemma {:induction false} CountOfAbsent<K>(t: seq<Entry<K>>, k: K)
    requires k !in KeySet(t)
    ensures CountOf(t, k) == 0
  {
    if t != [] {
      KeySetCons(t);
      CountOfAbsent(t[1..], k);
    }
  }

  lemma {:induction false} CountOfPositive<K>(t: seq<Entry<K>>, k: K)
    requires CountOf(t, k) > 0
    ensures k in KeySet(t)
  {
    if k !in KeySet(t) {
      CountOfAbsent(t, k);
    }
  }

  lemma {:induction false} CountOfDistinct<K>(t: seq<Entry<K>>, i: nat)
    requires DistinctKeys(t) && i < |t|
    ensures CountOf(t, t[i].key) == t[i].count
  {
    var r := t[1..];
    assert t == [t[0]] + r;
    ConsDistinct(t[0], r);
    if i == 0 {
      CountOfAbsent(r, t[0].key);
    } else {
      assert t[0].key != t[i].key;
      assert r[i - 1] == t[i];
      CountOfDistinct(r, i - 1);
    }
  }

  /** A table built under the invariant, with distinct keys, is the count table. */
  lemma TalliesTabulate<K(!new)>(t: seq<Entry<K>>, xs: seq<K>)
    requires Tallies(t, xs) && DistinctKeys(t)
    ensures Tabulates(t, xs)
  {
    forall i | 0 <= i < |t| ensures t[i].key in xs && t[i].count == multiset(xs)[t[i].key] {
      CountOfDistinct(t, i);
    }
    forall x | x in xs ensures x in KeySet(t) {
      assert CountOf(t, x) == multiset(xs)[x];
      CountOfPositive(t, x);
    }
  }

  lemma {:induction false} DistinctKeySetSize<K>(t: seq<Entry<K>>)
    requires DistinctKeys(t)
    ensures |KeySet(t)| == |t|
  {
    if t != [] {
      assert t == [t[0]] + t[1..];
      ConsDistinct(t[0], t[1..]);
      KeySetCons(t);
      DistinctKeySetSize(t[1..]);
    }
  }

  /** The distinct values of a column. */
  function Values<K>(xs: seq<K>): set<K> {
    set x | x in xs
  }

  /** A count table has one entry per distinct value, and its keys are exactly those values. */
  lemma TabulatesSize<K>(t: seq<Entry<K>>, xs: seq<K>)
    requires Tabulates(t, xs)
    ensures KeySet(t) == Values(xs)
    ensures |t| == |Values(xs)|
  {
    DistinctKeySetSize(t);
  }

  /** A table's entries are keyed by values that occur in the column. */
  lemma KeysOccur<K>(t: seq<Entry<K>>, xs: seq<K>, e: Entry<K>)
    requires Tabulates(t, xs) && e in t
    ensures e.key in xs && e.count > 0
  {
    var i :| 0 <= i < |t| && t[i] == e;
  }

  lemma AscendingDistinct<K(!new)>(t: seq<Entry<K>>, lt: (K, K) -> bool)
    requires StrictTotalOrder(lt) && Ascending(t, lt)
    ensures DistinctKeys(t)
  {
    forall i, j | 0 <= i < j < |t| ensures t[i].key != t[j].key {
      assert lt(t[i].key, t[j].key);
    }
  }

  // ---------------------------------------------------------------------
  // Counting in key order
  // ---------------------------------------------------------------------

  /** Count one more x in a key-ordered table. */
  function Add<K(==)>(t: seq<Entry<K>>, x: K, lt: (K, K) -> bool): seq<Entry<K>> {
    if t == [] then [Entry(x, 1)]
    else if t[0].key == x then [Entry(x, t[0].count + 1)] + t[1..]
    else if lt(x, t[0].key) then [Entry(x, 1)] + t
    else [t[0]] + Add(t[1..], x, lt)
  }

  lemma {:induction false} AddCounts<K(!new)>(t: seq<Entry<K>>, x: K, lt: (K, K) -> bool)
    ensures forall k :: CountOf(Add(t, x, lt), k) == CountOf(t, k) + if k == x then 1 else 0
    ensures Total(Add(t, x, lt)) == Total(t) + 1
    ensures KeySet(Add(t, x, lt)) == KeySet(t) + {x}
    ensures Positive(t) ==> Positive(Add(t, x, lt))
  {
    var a := Add(t, x, lt);
    if t == [] {
    } else if t[0].key == x {
      assert a[1..] == t[1..];
      KeySetCons(a);
      KeySetCons(t);
    } else if lt(x, t[0].key) {
      assert a[1..] == t;
      KeySetCons(a);
    } else {
      AddCounts(t[1..], x, lt);
      assert a[1..] == Add(t[1..], x, lt);
      KeySetCons(a);
      KeySetCons(t);
    }
  }

  lemma {:induction false} AddAscending<K(!new)>(t: seq<Entry<K>>, x: K, lt: (K, K) -> bool)
    requires StrictTotalOrder(lt) && Ascending(t, lt)
    ensures Ascending(Add(t, x, lt), lt)
  {
    if t != [] {
      var a, r := Add(t, x, lt), t[1..];
      assert t == [t[0]] + r;
      ConsAscending(t[0], r, lt);
      if t[0].key == x {
        assert a == [a[0]] + r && a[0].key == t[0].key;
        ConsAscending(a[0], r, lt);
      } else if lt(x, t[0].key) {
        assert a == [a[0]] + t;
        KeySetCons(t);
        ConsAscending(a[0], t, lt);
      } else {
        var b := Add(r, x, lt);
        AddAscending(r, x, lt);
        AddCounts(r, x, lt);
        assert a == [t[0]] + b;
        ConsAscending(t[0], b, lt);
      }
    }
  }

  /** Adding x to a table of init gives a table of init + [x]. */
  lemma AddTallies<K(!new)>(t: seq<Entry<K>>, init: seq<K>, x: K, lt: (K, K) -> bool)
    requires Tallies(t, init)
    ensures Tallies(Add(t, x, lt), init + [x])
  {
    AddCounts(t, x, lt);
    assert multiset(init + [x]) == multiset(init) + multiset{x};
  }

  /** Count every value of xs, keeping the keys in ascending order. */
  function CountsByKey<K(==,!new)>(xs: seq<K>, lt: (K, K) -> bool): (t: seq<Entry<K>>)
    requires StrictTotalOrder(lt)
    ensures Tallies(t, xs) && Ascending(t, lt)
  {
    if xs == [] then []
    else
      var init, x := xs[..|xs| - 1], xs[|xs| - 1];
      var t := CountsByKey(init, lt);
      AddTallies(t, init, x, lt);
      AddAscending(t, x, lt);
      assert xs == init + [x];
      Add(t, x, lt)
  }

  /** The key-ordered count table (value_counts().sort_index(), groupby(...).size()). */
  function SortedCounts<K(==,!new)>(xs: seq<K>, lt: (K, K) -> bool): (t: seq<Entry<K>>)
    requires StrictTotalOrder(lt)
    ensures Tabulates(t, xs)
    ensures Ascending(t, lt)
  {
    var t := CountsByKey(xs, lt);
    AscendingDistinct(t, lt);
    TalliesTabulate(t, xs);
    t
  }

  // ---------------------------------------------------------------------
  // Counting in order of first appearance, then by descending count
  // ---------------------------------------------------------------------

  /** Count one more x; a new key goes to the end. */
  function Bump<K(==)>(t: seq<Entry<K>>, x: K): seq<Entry<K>> {
    if t == [] then [Entry(x, 1)]
    else if t[0].key == x then [Entry(x, t[0].count + 1)] + t[1..]
    else [t[0]] + Bump(t[1..], x)
  }

  lemma {:induction false} BumpCounts<K(!new)>(t: seq<Entry<K>>, x: K)
    ensures forall k :: CountOf(Bump(t, x), k) == CountOf(t, k) + if k == x then 1 else 0
    ensures Total(Bump(t, x)) == Total(t) + 1
    ensures KeySet(Bump(t, x)) == KeySet(t) + {x}
    ensures Positive(t) ==> Positive(Bump(t, x))
  {
    var a := Bump(t, x);
    if t == [] {
    } else if t[0].key == x {
      assert a[1..] == t[1..];
      KeySetCons(a);
      KeySetCons(t);
    } else {
      BumpCounts(t[1..], x);
      assert a[1..] == Bump(t[1..], x);
      KeySetCons(a);
      KeySetCons(t);
    }
  }

  lemma {:induction false} BumpDistinct<K(!new)>(t: seq<Entry<K>>, x: K)
    requires DistinctKeys(t)
    ensures DistinctKeys(Bump(t, x))
  {
    if t != [] {
      var a, r := Bump(t, x), t[1..];
      assert t == [t[0]] + r;
      ConsDistinct(t[0], r);
      if t[0].key == x {
        assert a == [a[0]] + r && a[0].key == t[0].key;
        ConsDistinct(a[0], r);
      } else {
        var b := Bump(r, x);
        BumpDistinct(r, x);
        BumpCounts(r, x);
        assert a == [t[0]] + b;
        ConsDistinct(t[0], b);
      }
    }
  }

  /** Count every value of xs; keys in order of first appearance. */
  function Tally<K(==,!new)>(xs: seq<K>): (t: seq<Entry<K>>)
    ensures Tallies(t, xs) && DistinctKeys(t)
  {
    if xs == [] then []
    else
      var init, x := xs[..|xs| - 1], xs[|xs| - 1];
      var t := Tally(init);
      BumpCounts(t, x);
      BumpDistinct(t, x);
      assert xs == init + [x];
      Bump(t, x)
  }

  /** Insert e before the first entry whose count is at most e's. */
  function InsertByCount<K>(e: Entry<K>, t: seq<Entry<K>>): (r: seq<Entry<K>>)
    ensures multiset(r) == multiset{e} + multiset(t)
  {
    if t == [] || e.count >= t[0].count then [e] + t
    else
      assert t == [t[0]] + t[1..];
      [t[0]] + InsertByCount(e, t[1..])
  }

  lemma {:induction false} InsertByCountCounts<K(!new)>(e: Entry<K>, t: seq<Entry<K>>)
    ensures forall k :: CountOf(InsertByCount(e, t), k) == CountOf(t, k) + if e.key == k then e.count else 0
    ensures Total(InsertByCount(e, t)) == Total(t) + e.count
  {
    var a := InsertByCount(e, t);
    if t == [] || e.count >= t[0].count {
      assert a[1..] == t;
    } else {
      InsertByCountCounts(e, t[1..]);
      assert a[1..] == InsertByCount(e, t[1..]);
    }
  }

  lemma {:induction false} InsertByCountKeys<K>(e: Entry<K>, t: seq<Entry<K>>)
    ensures KeySet(InsertByCount(e, t)) == KeySet(t) + {e.key}
  {
    var a := InsertByCount(e, t);
    if t == [] || e.count >= t[0].count {
      assert a[1..] == t;
      KeySetCons(a);
    } else {
      InsertByCountKeys(e, t[1..]);
      assert a[1..] == InsertByCount(e, t[1..]);
      KeySetCons(a);
      KeySetCons(t);
    }
  }

  lemma {:induction false} InsertByCountSorted<K>(e: Entry<K>, t: seq<Entry<K>>)
    requires NonIncreasing(t)
    ensures NonIncreasing(InsertByCount(e, t))
  {
    var a := InsertByCount(e, t);
    if t == [] || e.count >= t[0].count {
      if t != [] {
        assert t == [t[0]] + t[1..];
        ConsNonIncreasing(t[0], t[1..]);
        forall j | 0 <= j < |t| ensures t[j].count <= e.count {
          if j > 0 {
            assert t[j] == t[1..][j - 1];
          }
        }
      }
      ConsNonIncreasing(e, t);
    } else {
      var r := t[1..];
      assert t == [t[0]] + r;
      ConsNonIncreasing(t[0], r);
      InsertByCountSorted(e, r);
      var b := InsertByCount(e, r);
      forall j | 0 <= j < |b| ensures b[j].count <= t[0].count {
        assert b[j] in multiset(b);
        if b[j] != e {
          assert b[j] in multiset(r);
          var m :| 0 <= m < |r| && r[m] == b[j];
        }
      }
      assert a == [t[0]] + b;
      ConsNonIncreasing(t[0], b);
    }
  }

  lemma {:induction false} InsertByCountDistinct<K(!new)>(e: Entry<K>, t: seq<Entry<K>>)
    requires e.key !in KeySet(t) && DistinctKeys(t)
    ensures DistinctKeys(InsertByCount(e, t))
  {
    var a := InsertByCount(e, t);
    if t == [] || e.count >= t[0].count {
      ConsDistinct(e, t);
    } else {
      var r := t[1..];
      assert t == [t[0]] + r;
      ConsDistinct(t[0], r);
      KeySetCons(t);
      InsertByCountDistinct(e, r);
      InsertByCountKeys(e, r);
      var b := InsertByCount(e, r);
      assert a == [t[0]] + b;
      ConsDistinct(t[0], b);
    }
  }

  /** Stable insertion sort by descending count: equal counts keep their order. */
  function SortByCount<K>(t: seq<Entry<K>>): (r: seq<Entry<K>>)
    ensures multiset(r) == multiset(t)
    ensures NonIncreasing(r)
  {
    if t == [] then []
    else
      var rest := SortByCount(t[1..]);
      InsertByCountSorted(t[0], rest);
      assert t == [t[0]] + t[1..];
      InsertByCount(t[0], rest)
  }

  /** Sorting keeps the count of every key. */
  lemma {:induction false} SortByCountCountOf<K(!new)>(t: seq<Entry<K>>, k: K)
    ensures CountOf(SortByCount(t), k) == CountOf(t, k)
  {
    if t != [] {
      SortByCountCountOf(t[1..], k);
      InsertByCountCounts(t[0], SortByCount(t[1..]));
    }
  }

  /** Sorting keeps the total. */
  lemma {:induction false} SortByCountTotal<K(!new)>(t: seq<Entry<K>>)
    ensures Total(SortByCount(t)) == Total(t)
  {
    if t != [] {
      SortByCountTotal(t[1..]);
      InsertByCountCounts(t[0], SortByCount(t[1..]));
    }
  }

  /** Tables with the same entries have the same keys, and one is positive iff the other is. */
  lemma SameEntries<K>(a: seq<Entry<K>>, b: seq<Entry<K>>)
    requires multiset(a) == multiset(b)
    ensures KeySet(a) == KeySet(b)
    ensures Positive(a) ==> Positive(b)
  {
    forall k | k in KeySet(a) ensures k in KeySet(b) {
      var i :| 0 <= i < |a| && a[i].key == k;
      assert a[i] in multiset(b);
      var j :| 0 <= j < |b| && b[j] == a[i];
    }
    forall k | k in KeySet(b) ensures k in KeySet(a) {
      var j :| 0 <= j < |b| && b[j].key == k;
      assert b[j] in multiset(a);
      var i :| 0 <= i < |a| && a[i] == b[j];
    }
    if Positive(a) {
      forall j | 0 <= j < |b| ensures b[j].count > 0 {
        assert b[j] in multiset(a);
        var i :| 0 <= i < |a| && a[i] == b[j];
      }
    }
  }

  /** Sorting a table with distinct keys gives a table with distinct keys. */
  lemma {:induction false} SortByCountDistinct<K(!new)>(t: seq<Entry<K>>)
    requires DistinctKeys(t)
    ensures DistinctKeys(SortByCount(t))
  {
    if t != [] {
      var rest := SortByCount(t[1..]);
      assert t == [t[0]] + t[1..];
      ConsDistinct(t[0], t[1..]);
      KeySetCons(t);
      SortByCountDistinct(t[1..]);
      SameEntries(t[1..], rest);
      InsertByCountDistinct(t[0], rest);
    }
  }

  /** The count table by descending count (value_counts()). */
  function FrequencyCounts<K(==,!new)>(xs: seq<K>): (t: seq<Entry<K>>)
    ensures Tabulates(t, xs)
    ensures NonIncreasing(t)
  {
    var tally := Tally(xs);
    var t := SortByCount(tally);
    forall k ensures CountOf(t, k) == multiset(xs)[k] {
      SortByCountCountOf(tally, k);
    }
    SortByCountTotal(tally);
    SameEntries(tally, t);
    SortByCountDistinct(tally);
    TalliesTabulate(t, xs);
    t
  }
}
