/** `groupby(key).sum()` over the Total column and `sort_values`, written
    out on sequences (main.py lines 52-65). A table is a sequence of
    entries, one per key. */
module Grouping {
  import opened Transactions

  /** One row of an aggregate table: a key and its summed Total. */
  datatype Entry<K> = Entry(key: K, total: real)

  /** Sum of Total over all rows. */
  function Sum(rows: seq<Row>): real {
    if |rows| == 0 then 0.0 else Sum(rows[..|rows| - 1]) + rows[|rows| - 1].total
  }

  /** Sum of Total over the rows whose key is `k`. */
  function SumWhere<K(==)>(rows: seq<Row>, key: Row -> K, k: K): real {
    if |rows| == 0 then 0.0
    else
      SumWhere(rows[..|rows| - 1], key, k)
        + (if key(rows[|rows| - 1]) == k then rows[|rows| - 1].total else 0.0)
  }

  /** Sum of the totals of a table. */
  function TableSum<K>(t: seq<Entry<K>>): real {
    if |t| == 0 then 0.0 else t[0].total + TableSum(t[1..])
  }

  /** The keys a table has an entry for. */
  function KeySet<K(==)>(t: seq<Entry<K>>): set<K> {
    set e | e in t :: e.key
  }

  /** The keys a column takes over some rows. */
  function KeysOf<K>(rows: seq<Row>, key: Row -> K): set<K> {
    set r | r in rows :: key(r)
  }

  /** No key has two entries. */
  predicate DistinctKeys<K(==)>(t: seq<Entry<K>>) {
    forall i, j :: 0 <= i < j < |t| ==> t[i].key != t[j].key
  }

  /** The total a table records for `k`; 0 when `k` has no entry. */
  function Lookup<K(==)>(t: seq<Entry<K>>, k: K): real {
    if |t| == 0 then 0.0 else if t[0].key == k then t[0].total else Lookup(t[1..], k)
  }

  /** The keys of a table with an entry in front. */
  lemma KeySetCons<K>(x: Entry<K>, t: seq<Entry<K>>)
    ensures KeySet([x] + t) == {x.key} + KeySet(t)
  {
    var r := [x] + t;
    assert forall e :: e in r <==> e == x || e in t;
  }

  /** Adds `v` to the entry for `k`, creating it at the end if absent. */
  function Accumulate<K(==,!new)>(t: seq<Entry<K>>, k: K, v: real): (t': seq<Entry<K>>)
    ensures KeySet(t') == KeySet(t) + {k}
    ensures forall k' :: Lookup(t', k') == Lookup(t, k') + (if k' == k then v else 0.0)
  {
    if |t| == 0 then [Entry(k, v)]
    else
      assert t == [t[0]] + t[1..];
      KeySetCons(t[0], t[1..]);
      if t[0].key == k then
        var t' := [Entry(k, t[0].total + v)] + t[1..];
        KeySetCons(t'[0], t[1..]);
        t'
      else
        var rest := Accumulate(t[1..], k, v);
        KeySetCons(t[0], rest);
        [t[0]] + rest
  }

  /** Accumulating keeps keys distinct. */
  lemma {:induction false} AccumulateDistinct<K(!new)>(t: seq<Entry<K>>, k: K, v: real)
    requires DistinctKeys(t)
    ensures DistinctKeys(Accumulate(t, k, v))
  {
    if |t| > 0 {
      assert t == [t[0]] + t[1..];
      DistinctKeysCons(t[0], t[1..]);
      if t[0].key == k {
        DistinctKeysCons(Entry(k, t[0].total + v), t[1..]);
      } else {
        AccumulateDistinct(t[1..], k, v);
        DistinctKeysCons(t[0], Accumulate(t[1..], k, v));
      }
    }
  }

  /** Accumulating `v` raises the table's total by `v`. */
  lemma {:induction false} AccumulateSum<K(!new)>(t: seq<Entry<K>>, k: K, v: real)
    ensures TableSum(Accumulate(t, k, v)) == TableSum(t) + v
  {
    if |t| > 0 && t[0].key != k {
      AccumulateSum(t[1..], k, v);
      var r := Accumulate(t, k, v);
      assert r[1..] == Accumulate(t[1..], k, v);
    } else if |t| > 0 {
      var r := Accumulate(t, k, v);
      assert r[1..] == t[1..];
    }
  }

  /** The grouped sums of Total by `key`, keys in order of first
      appearance: one entry per key the rows take, holding the sum of
      Total over the rows with that key. */
  function GroupSum<K(==,!new)>(rows: seq<Row>, key: Row -> K): (t: seq<Entry<K>>)
    ensures DistinctKeys(t)
    ensures KeySet(t) == KeysOf(rows, key)
    ensures forall k :: Lookup(t, k) == SumWhere(rows, key, k)
  {
    if |rows| == 0 then []
    else
      var init := rows[..|rows| - 1];
      var last := rows[|rows| - 1];
      assert rows == init + [last];
      assert KeysOf(rows, key) == KeysOf(init, key) + {key(last)};
      AccumulateDistinct(GroupSum(init, key), key(last), last.total);
      Accumulate(GroupSum(init, key), key(last), last.total)
  }

  /** Conservation: the grouped totals add up to the total of the rows. */
  lemma {:induction false} GroupSumConserves<K(!new)>(rows: seq<Row>, key: Row -> K)
    ensures TableSum(GroupSum(rows, key)) == Sum(rows)
  {
    if |rows| > 0 {
      var init := rows[..|rows| - 1];
      var last := rows[|rows| - 1];
      GroupSumConserves(init, key);
      AccumulateSum(GroupSum(init, key), key(last), last.total);
    }
  }

  /** In a table with distinct keys, each entry's total is what `Lookup`
      finds for its key. */
  lemma {:induction false} LookupEntry<K>(t: seq<Entry<K>>, i: nat)
    requires DistinctKeys(t) && i < |t|
    ensures Lookup(t, t[i].key) == t[i].total
  {
    if i > 0 {
      LookupEntry(t[1..], i - 1);
    }
  }

  /** Every entry of a grouped table holds the sum of Total over exactly
      the rows with its key. */
  lemma GroupSumEntries<K(!new)>(rows: seq<Row>, key: Row -> K)
    ensures forall e :: e in GroupSum(rows, key) ==> e.total == SumWhere(rows, key, e.key)
  {
    var t := GroupSum(rows, key);
    forall e | e in t
      ensures e.total == SumWhere(rows, key, e.key)
    {
      var i :| 0 <= i < |t| && t[i] == e;
      LookupEntry(t, i);
    }
  }

  /** `rank` is non-decreasing along the table. */
  predicate SortedBy<K>(t: seq<Entry<K>>, rank: Entry<K> -> real) {
    forall i, j :: 0 <= i < j < |t| ==> rank(t[i]) <= rank(t[j])
  }

  /** Inserts `e` into a table sorted by `rank`, before the first entry of
      larger or equal rank. */
  function Insert<K(==,!new)>(e: Entry<K>, t: seq<Entry<K>>, rank: Entry<K> -> real): (r: seq<Entry<K>>)
    requires SortedBy(t, rank)
    ensures SortedBy(r, rank)
    ensures multiset(r) == multiset(t) + multiset{e}
    ensures r[0] == e || (|t| > 0 && r[0] == t[0])
  {
    if |t| == 0 || rank(e) <= rank(t[0]) then
      SortedCons(e, t, rank);
      [e] + t
    else
      var rest := Insert(e, t[1..], rank);
      assert t == [t[0]] + t[1..];
      SortedCons(t[0], rest, rank);
      [t[0]] + rest
  }

  /** An entry ranked no higher than the head of a sorted table can go in
      front of it. */
  lemma SortedCons<K>(x: Entry<K>, t: seq<Entry<K>>, rank: Entry<K> -> real)
    requires SortedBy(t, rank)
    requires |t| > 0 ==> rank(x) <= rank(t[0])
    ensures SortedBy([x] + t, rank)
  {
    var r := [x] + t;
    forall i, j | 0 <= i < j < |r| ensures rank(r[i]) <= rank(r[j]) {
      if i == 0 {
        assert r[j] == t[j - 1];
      } else {
        assert r[i] == t[i - 1] && r[j] == t[j - 1];
      }
    }
  }

  /** The table sorted by `rank` (insertion sort). */
  function SortBy<K(==,!new)>(t: seq<Entry<K>>, rank: Entry<K> -> real): (r: seq<Entry<K>>)
    ensures SortedBy(r, rank)
    ensures multiset(r) == multiset(t)
  {
    if |t| == 0 then []
    else
      assert t == [t[0]] + t[1..];
      Insert(t[0], SortBy(t[1..], rank), rank)
  }

  /** A table with an entry in front has distinct keys exactly when the
      rest has and the front key is new. */
  lemma DistinctKeysCons<K>(x: Entry<K>, t: seq<Entry<K>>)
    ensures DistinctKeys([x] + t) <==> DistinctKeys(t) && x.key !in KeySet(t)
  {
    var r := [x] + t;
    assert r[1..] == t;
    if DistinctKeys(r) {
      forall i, j | 0 <= i < j < |t| ensures t[i].key != t[j].key {
        assert t[i] == r[i + 1] && t[j] == r[j + 1];
      }
    }
    if x.key in KeySet(t) {
      var e :| e in t && e.key == x.key;
      var j :| 0 <= j < |t| && t[j] == e;
      assert r[0].key == r[j + 1].key;
    }
    if DistinctKeys(t) && x.key !in KeySet(t) {
      forall i, j | 0 <= i < j < |r| ensures r[i].key != r[j].key {
        if i > 0 {
          assert r[i].key == t[i - 1].key && r[j].key == t[j - 1].key;
        } else {
          assert r[j] in t;
        }
      }
    }
  }

  /** Sorting keeps the total of the table. */
  lemma {:induction false} SortBySum<K(!new)>(t: seq<Entry<K>>, rank: Entry<K> -> real)
    ensures TableSum(SortBy(t, rank)) == TableSum(t)
  {
    if |t| > 0 {
      SortBySum(t[1..], rank);
      InsertSum(t[0], SortBy(t[1..], rank), rank);
    }
  }

  lemma {:induction false} InsertSum<K(!new)>(e: Entry<K>, t: seq<Entry<K>>, rank: Entry<K> -> real)
    requires SortedBy(t, rank)
    ensures TableSum(Insert(e, t, rank)) == TableSum(t) + e.total
  {
    if |t| > 0 && rank(e) > rank(t[0]) {
      InsertSum(e, t[1..], rank);
      var r := Insert(e, t, rank);
      assert r[1..] == Insert(e, t[1..], rank);
    } else {
      assert ([e] + t)[1..] == t;
    }
  }

  /** Sorting a table with distinct keys keeps them distinct, and keeps
      the set of keys. */
  lemma {:induction false} SortByKeys<K(!new)>(t: seq<Entry<K>>, rank: Entry<K> -> real)
    ensures KeySet(SortBy(t, rank)) == KeySet(t)
    ensures DistinctKeys(t) ==> DistinctKeys(SortBy(t, rank))
  {
    SameEntriesSameKeys(SortBy(t, rank), t);
    if |t| > 0 {
      var rest := SortBy(t[1..], rank);
      SortByKeys(t[1..], rank);
      DistinctKeysCons(t[0], t[1..]);
      assert t == [t[0]] + t[1..];
      if DistinctKeys(t) {
        InsertDistinct(t[0], rest, rank);
      }
    }
  }

  lemma {:induction false} InsertDistinct<K(!new)>(e: Entry<K>, t: seq<Entry<K>>, rank: Entry<K> -> real)
    requires SortedBy(t, rank)
    requires DistinctKeys(t) && e.key !in KeySet(t)
    ensures DistinctKeys(Insert(e, t, rank))
  {
    if |t| > 0 && rank(e) > rank(t[0]) {
      var rest := Insert(e, t[1..], rank);
      DistinctKeysCons(t[0], t[1..]);
      assert t == [t[0]] + t[1..];
      InsertDistinct(e, t[1..], rank);
      forall x | x in rest ensures x.key != t[0].key {
        assert x in multiset(rest);
        assert x == e || x in t[1..];
      }
      DistinctKeysCons(t[0], rest);
    } else {
      DistinctKeysCons(e, t);
    }
  }

  /** A permutation of a table has the same entries, hence the same keys. */
  lemma SameEntriesSameKeys<K(!new)>(a: seq<Entry<K>>, b: seq<Entry<K>>)
    requires multiset(a) == multiset(b)
    ensures KeySet(a) == KeySet(b)
    ensures forall e :: e in a <==> e in b
  {
    forall e ensures e in a <==> e in b {
      assert e in a <==> e in multiset(a);
      assert e in b <==> e in multiset(b);
    }
  }
}
