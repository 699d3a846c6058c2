/**
 * Python's `dict` as the scraper uses it: an insertion-ordered association
 * list in which every key occurs at most once. Assigning to a present key
 * keeps its position; assigning to a new key appends it.
 */
module Dicts {
  import opened Wrappers

  datatype Entry<K, V> = Entry(key: K, value: V)

  predicate DistinctKeys<K(==,!new), V>(s: seq<Entry<K, V>>) {
    forall i, j | 0 <= i < j < |s| :: s[i].key != s[j].key
  }

  type Dict<K(==,!new), V> = s: seq<Entry<K, V>> | DistinctKeys(s) witness []

  /** The keys in insertion order (`d.keys()`). */
  function Keys<K(==,!new), V>(d: seq<Entry<K, V>>): (ks: seq<K>)
    ensures |ks| == |d|
    ensures forall i | 0 <= i < |d| :: ks[i] == d[i].key
  {
    if d == [] then [] else [d[0].key] + Keys(d[1..])
  }

  lemma KeysAppend<K(!new), V>(d: seq<Entry<K, V>>, e: Entry<K, V>)
    ensures Keys(d + [e]) == Keys(d) + [e.key]
  {
  }

  /** `d[k]`, with None standing for a KeyError. */
  function Get<K(==,!new), V>(d: seq<Entry<K, V>>, k: K): (r: Option<V>)
    ensures r.Some? <==> k in Keys(d)
    ensures r.Some? ==> Entry(k, r.value) in d
  {
    if d == [] then None
    else if d[0].key == k then Some(d[0].value)
    else Get(d[1..], k)
  }

  function GetOr<K(==,!new), V>(d: seq<Entry<K, V>>, k: K, default: V): V {
    match Get(d, k)
    case Some(v) => v
    case None => default
  }

  lemma {:induction false} GetAt<K(!new), V>(d: Dict<K, V>, i: nat)
    requires i < |d|
    ensures Get(d, d[i].key) == Some(d[i].value)
  {
    if i > 0 {
      assert d[0].key != d[i].key;
      GetAt(d[1..], i - 1);
    }
  }

  lemma {:induction false} GetAppend<K(!new), V>(d: seq<Entry<K, V>>, e: Entry<K, V>, k: K)
    ensures Get(d + [e], k) ==
      if Get(d, k).Some? then Get(d, k) else if e.key == k then Some(e.value) else None
  {
    if d == [] {
      assert d + [e] == [e];
    } else {
      assert (d + [e])[1..] == d[1..] + [e];
      GetAppend(d[1..], e, k);
    }
  }

  /** The keys of a non-empty list: those of all but its last entry, then the last key. */
  lemma KeysLast<K(!new), V>(d: seq<Entry<K, V>>)
    requires d != []
    ensures Keys(d) == Keys(d[..|d| - 1]) + [d[|d| - 1].key]
  {
    var ks, prefix := Keys(d), Keys(d[..|d| - 1]);
    assert |ks| == |prefix| + 1;
    assert forall i | 0 <= i < |ks| :: ks[i] == (prefix + [d[|d| - 1].key])[i];
  }

  /** A lookup in a non-empty list: in all but its last entry first, then in the last one. */
  lemma GetLast<K(!new), V>(d: seq<Entry<K, V>>, k: K)
    requires d != []
    ensures Get(d, k) == if Get(d[..|d| - 1], k).Some? then Get(d[..|d| - 1], k)
      else if d[|d| - 1].key == k then Some(d[|d| - 1].value) else None
  {
    var prefix, last := d[..|d| - 1], d[|d| - 1];
    assert forall i | 0 <= i < |d| :: (prefix + [last])[i] == d[i];
    assert prefix + [last] == d;
    GetAppend(prefix, last, k);
  }

  lemma PrefixDistinct<K(!new), V>(d: Dict<K, V>, n: nat)
    requires n <= |d|
    ensures DistinctKeys(d[..n])
  {
  }

  /** `d[k] = v`: replace in place when present, append otherwise. */
  function Put<K(==,!new), V>(d: Dict<K, V>, k: K, v: V): (r: Dict<K, V>)
    ensures Keys(r) == if k in Keys(d) then Keys(d) else Keys(d) + [k]
    ensures forall k' :: Get(r, k') == if k' == k then Some(v) else Get(d, k')
    ensures k !in Keys(d) ==> r == d + [Entry(k, v)]
  {
    if d == [] then [Entry(k, v)]
    else if d[0].key == k then
      assert forall j | 1 <= j < |d| :: d[j].key != k by {
        forall j | 1 <= j < |d| ensures d[j].key != k { assert d[0].key != d[j].key; }
      }
      var r := [Entry(k, v)] + d[1..];
      assert Keys(r) == Keys(d) by {
        assert forall i | 0 <= i < |r| :: Keys(r)[i] == Keys(d)[i];
      }
      r
    else
      var rest: Dict<K, V> := d[1..];
      var tail := Put(rest, k, v);
      HeadFresh(d);
      ConsFresh(d[0], tail);
      assert Keys(d) == [d[0].key] + Keys(rest);
      [d[0]] + tail
  }

  /** The first key of a dictionary does not recur in the rest. */
  lemma HeadFresh<K(!new), V>(d: Dict<K, V>)
    requires d != []
    ensures d[0].key !in Keys(d[1..])
  {
    forall j | 0 <= j < |d| - 1 ensures d[1..][j].key != d[0].key {
      assert d[0].key != d[j + 1].key;
    }
  }

  /** A fresh entry in front of a dictionary keeps the keys distinct. */
  lemma ConsFresh<K(!new), V>(e: Entry<K, V>, tail: Dict<K, V>)
    requires e.key !in Keys(tail)
    ensures DistinctKeys([e] + tail) && Keys([e] + tail) == [e.key] + Keys(tail)
  {
    var r := [e] + tail;
    forall i, j | 0 <= i < j < |r| ensures r[i].key != r[j].key {
      if i == 0 { assert r[j].key == Keys(tail)[j - 1]; }
    }
    assert r[1..] == tail;
  }

  predicate Distinct<T(==,!new)>(s: seq<T>) {
    forall i, j | 0 <= i < j < |s| :: s[i] != s[j]
  }

  lemma DistinctKeysOfKeys<K(!new), V>(s: seq<Entry<K, V>>)
    requires Distinct(Keys(s))
    ensures DistinctKeys(s)
  {
    forall i, j | 0 <= i < j < |s| ensures s[i].key != s[j].key {
      assert Keys(s)[i] == s[i].key && Keys(s)[j] == s[j].key;
    }
  }

  /** Appends the elements of `ks` not yet in `acc`, in order. */
  function AddNew<T(==,!new)>(acc: seq<T>, ks: seq<T>): (r: seq<T>)
    requires Distinct(acc)
    ensures Distinct(r)
    ensures forall x :: x in r <==> x in acc || x in ks
    ensures |acc| <= |r| && r[..|acc|] == acc
    decreases |ks|
  {
    if ks == [] then acc
    else if ks[0] in acc then AddNew(acc, ks[1..])
    else
      var acc' := acc + [ks[0]];
      var r := AddNew(acc', ks[1..]);
      assert r[..|acc|] == r[..|acc'|][..|acc|];
      r
  }

  /**
   * The keys of all rows, each once, in order of first appearance: the
   * column order pandas gives a DataFrame built from a list of dicts.
   */
  function KeyUnion<K(==,!new), V>(rows: seq<Dict<K, V>>): (ks: seq<K>)
    ensures Distinct(ks)
    ensures forall k :: k in ks <==> exists i | 0 <= i < |rows| :: k in Keys(rows[i])
  {
    if rows == [] then []
    else
      var prefix := KeyUnion(rows[..|rows| - 1]);
      var ks := AddNew(prefix, Keys(rows[|rows| - 1]));
      assert forall k :: k in ks <==> exists i | 0 <= i < |rows| :: k in Keys(rows[i]) by {
        forall k ensures k in ks <==> exists i | 0 <= i < |rows| :: k in Keys(rows[i]) {
          if k in ks && k in prefix {
            var i :| 0 <= i < |rows| - 1 && k in Keys(rows[..|rows| - 1][i]);
            assert rows[..|rows| - 1][i] == rows[i];
          }
          if exists i | 0 <= i < |rows| :: k in Keys(rows[i]) {
            var i :| 0 <= i < |rows| && k in Keys(rows[i]);
            if i < |rows| - 1 { assert rows[..|rows| - 1][i] == rows[i]; }
          }
        }
      }
      ks
  }

  /** `x` occurs in `ks` before `y` does. */
  predicate InOrder<T(==)>(ks: seq<T>, x: T, y: T) {
    exists a, b | 0 <= a < b < |ks| :: ks[a] == x && ks[b] == y
  }

  lemma InOrderTail<T(!new)>(ks: seq<T>, x: T, y: T)
    requires ks != [] && InOrder(ks[1..], x, y)
    ensures InOrder(ks, x, y)
  {
    var a, b :| 0 <= a < b < |ks[1..]| && ks[1..][a] == x && ks[1..][b] == y;
    assert ks[a + 1] == x && ks[b + 1] == y;
  }

  lemma InOrderHead<T(!new)>(ks: seq<T>, y: T)
    requires ks != [] && y in ks[1..]
    ensures InOrder(ks, ks[0], y)
  {
    var b :| 0 <= b < |ks[1..]| && ks[1..][b] == y;
    assert ks[b + 1] == y;
  }

  /**
   * The elements `AddNew` appends come in the order they have in `ks`: any
   * two of them occur in `ks` in the same order.
   */
  lemma {:induction false} AddNewOrder<T(!new)>(acc: seq<T>, ks: seq<T>)
    requires Distinct(acc)
    ensures forall i, j | |acc| <= i < j < |AddNew(acc, ks)| :: InOrder(ks, AddNew(acc, ks)[i], AddNew(acc, ks)[j])
    decreases |ks|
  {
    var r := AddNew(acc, ks);
    if ks == [] {
      assert r == acc;
    } else if ks[0] in acc {
      AddNewOrder(acc, ks[1..]);
      assert r == AddNew(acc, ks[1..]);
      forall i, j | |acc| <= i < j < |r| ensures InOrder(ks, r[i], r[j]) {
        InOrderTail(ks, r[i], r[j]);
      }
    } else {
      var acc' := acc + [ks[0]];
      AddNewOrder(acc', ks[1..]);
      assert r == AddNew(acc', ks[1..]);
      assert r[..|acc'|] == acc';
      forall i, j | |acc| <= i < j < |r| ensures InOrder(ks, r[i], r[j]) {
        if i == |acc| {
          assert r[i] == acc'[|acc|];
          AppendedFromTail(acc', ks[1..], j);
          InOrderHead(ks, r[j]);
        } else {
          InOrderTail(ks, r[i], r[j]);
        }
      }
    }
  }

  /** An element `AddNew` appends comes from `ks`. */
  lemma AppendedFromTail<T(!new)>(acc: seq<T>, ks: seq<T>, j: nat)
    requires Distinct(acc) && |acc| <= j < |AddNew(acc, ks)|
    ensures AddNew(acc, ks)[j] in ks
  {
    var r := AddNew(acc, ks);
    assert r[..|acc|] == acc;
    assert forall t | 0 <= t < |acc| :: acc[t] == r[t] && r[t] != r[j];
    assert r[j] !in acc;
  }

  /** The union over a prefix of the rows is a prefix of the union over all of them. */
  lemma {:induction false} KeyUnionPrefix<K(!new), V>(rows: seq<Dict<K, V>>, n: nat)
    requires n <= |rows|
    ensures |KeyUnion(rows[..n])| <= |KeyUnion(rows)|
    ensures KeyUnion(rows)[..|KeyUnion(rows[..n])|] == KeyUnion(rows[..n])
  {
    if n == |rows| {
      assert rows[..n] == rows;
    } else {
      var init := rows[..|rows| - 1];
      assert init[..n] == rows[..n];
      KeyUnionPrefix(init, n);
      var u, v := KeyUnion(init), KeyUnion(rows);
      assert v == AddNew(u, Keys(rows[|rows| - 1]));
      assert v[..|u|] == u;
      assert v[..|KeyUnion(rows[..n])|] == u[..|KeyUnion(rows[..n])|];
    }
  }

  /** A key belongs to the union over the first `n` rows iff one of them holds it. */
  lemma KeyUnionPrefixHas<K(!new), V>(rows: seq<Dict<K, V>>, n: nat, k: K)
    requires n <= |rows|
    ensures k in KeyUnion(rows[..n]) <==> exists i | 0 <= i < n :: k in Keys(rows[i])
  {
    if exists i | 0 <= i < n :: k in Keys(rows[i]) {
      var i :| 0 <= i < n && k in Keys(rows[i]);
      assert rows[..n][i] == rows[i];
    }
    if k in KeyUnion(rows[..n]) {
      var i :| 0 <= i < n && k in Keys(rows[..n][i]);
      assert rows[..n][i] == rows[i];
    }
  }

  /** The first row that holds `k`. */
  function FirstRow<K(==,!new), V>(rows: seq<Dict<K, V>>, k: K): (n: nat)
    requires exists i | 0 <= i < |rows| :: k in Keys(rows[i])
    ensures n < |rows| && k in Keys(rows[n])
    ensures forall m | 0 <= m < n :: k !in Keys(rows[m])
  {
    if k in Keys(rows[0]) then 0
    else
      assert exists i | 0 <= i < |rows[1..]| :: k in Keys(rows[1..][i]) by {
        var i :| 0 <= i < |rows| && k in Keys(rows[i]);
        assert i > 0 && rows[1..][i - 1] == rows[i];
      }
      var n := 1 + FirstRow(rows[1..], k);
      assert forall m | 1 <= m < n :: rows[m] == rows[1..][m - 1];
      n
  }

  /**
   * `KeyUnion` lists the keys in order of first appearance: a key that
   * first appears in an earlier row comes first, and two keys that first
   * appear in the same row come in that row's key order.
   */
  lemma KeyUnionOrder<K(!new), V>(rows: seq<Dict<K, V>>, i: nat, j: nat)
    requires i < j < |KeyUnion(rows)|
    ensures FirstRow(rows, KeyUnion(rows)[i]) <= FirstRow(rows, KeyUnion(rows)[j])
    ensures FirstRow(rows, KeyUnion(rows)[i]) == FirstRow(rows, KeyUnion(rows)[j]) ==>
      InOrder(Keys(rows[FirstRow(rows, KeyUnion(rows)[i])]), KeyUnion(rows)[i], KeyUnion(rows)[j])
  {
    var u := KeyUnion(rows);
    var p, q := FirstRow(rows, u[i]), FirstRow(rows, u[j]);
    var m := EarlierKeyWitness(rows, q, i, j);
    assert p <= m;
    if p == q {
      SameFirstRowOrder(rows, p, i, j);
    }
  }

  /** Two keys that row `p` holds, the first of them held by no earlier row, come in row `p`'s key order. */
  lemma SameFirstRowOrder<K(!new), V>(rows: seq<Dict<K, V>>, p: nat, i: nat, j: nat)
    requires p < |rows| && i < j < |KeyUnion(rows)|
    requires KeyUnion(rows)[i] in Keys(rows[p]) && KeyUnion(rows)[j] in Keys(rows[p])
    requires forall m | 0 <= m < p :: KeyUnion(rows)[i] !in Keys(rows[m])
    ensures InOrder(Keys(rows[p]), KeyUnion(rows)[i], KeyUnion(rows)[j])
  {
    var u := KeyUnion(rows);
    KeyUnionPrefix(rows, p + 1);
    KeyUnionPrefixHas(rows, p + 1, u[i]);
    KeyUnionPrefixHas(rows, p + 1, u[j]);
    KeyUnionPrefixHas(rows, p, u[i]);
    SameRowOrder(rows, p, i, j);
  }

  /** A key listed before one that row `q` holds is held by row `q` or an earlier row. */
  lemma EarlierKeyWitness<K(!new), V>(rows: seq<Dict<K, V>>, q: nat, i: nat, j: nat) returns (m: nat)
    requires q < |rows| && i < j < |KeyUnion(rows)|
    requires KeyUnion(rows)[j] in Keys(rows[q])
    ensures m <= q && KeyUnion(rows)[i] in Keys(rows[m])
  {
    var u := KeyUnion(rows);
    KeyUnionPrefix(rows, q + 1);
    KeyUnionPrefixHas(rows, q + 1, u[j]);
    var pre := KeyUnion(rows[..q + 1]);
    var t :| 0 <= t < |pre| && pre[t] == u[j];
    assert u[t] == u[j];
    assert i < |pre| && u[i] == pre[i];
    KeyUnionPrefixHas(rows, q + 1, u[i]);
    m :| 0 <= m < q + 1 && u[i] in Keys(rows[m]);
  }

  /**
   * Two keys first appearing in row `p` sit in the part of the union that
   * row `p` appends, in that row's key order.
   */
  lemma SameRowOrder<K(!new), V>(rows: seq<Dict<K, V>>, p: nat, i: nat, j: nat)
    requires p < |rows| && i < j < |KeyUnion(rows)|
    requires |KeyUnion(rows[..p + 1])| <= |KeyUnion(rows)|
    requires KeyUnion(rows[..p + 1]) == KeyUnion(rows)[..|KeyUnion(rows[..p + 1])|]
    requires KeyUnion(rows)[i] in KeyUnion(rows[..p + 1]) && KeyUnion(rows)[j] in KeyUnion(rows[..p + 1])
    requires KeyUnion(rows)[i] !in KeyUnion(rows[..p])
    ensures InOrder(Keys(rows[p]), KeyUnion(rows)[i], KeyUnion(rows)[j])
  {
    assert rows[..p + 1][..p] == rows[..p];
    assert KeyUnion(rows[..p + 1]) == AddNew(KeyUnion(rows[..p]), Keys(rows[p]));
    AppendedInOrder(KeyUnion(rows[..p]), Keys(rows[p]), KeyUnion(rows), i, j);
  }

  /**
   * Two elements of a distinct `u` that extends `AddNew(lo, ks)`, both in
   * that prefix and the first outside `lo`, occur in `ks` in `u`'s order.
   */
  lemma AppendedInOrder<T(!new)>(lo: seq<T>, ks: seq<T>, u: seq<T>, i: nat, j: nat)
    requires Distinct(lo) && Distinct(u) && i < j < |u|
    requires |AddNew(lo, ks)| <= |u| && u[..|AddNew(lo, ks)|] == AddNew(lo, ks)
    requires u[i] in AddNew(lo, ks) && u[j] in AddNew(lo, ks) && u[i] !in lo
    ensures InOrder(ks, u[i], u[j])
  {
    var hi := AddNew(lo, ks);
    var ti :| 0 <= ti < |hi| && hi[ti] == u[i];
    var tj :| 0 <= tj < |hi| && hi[tj] == u[j];
    assert u[ti] == u[i] && u[tj] == u[j];
    assert hi[..|lo|] == lo;
    assert forall t | 0 <= t < |lo| :: lo[t] == hi[t];
    AddNewOrder(lo, ks);
    assert InOrder(ks, hi[i], hi[j]);
  }
}
