/**
 * Python's `sorted`: a stable sort by a strict order. Each element is
 * inserted after every element already placed that is not greater than it.
 */
module Sorting {
  import opened Wrappers
  import opened Dicts

  ghost predicate StrictOrder<T(!new)>(less: (T, T) -> bool) {
    && (forall a :: !less(a, a))
    && (forall a, b, c :: less(a, b) && less(b, c) ==> less(a, c))
  }

  predicate SortedBy<T>(s: seq<T>, less: (T, T) -> bool) {
    forall i, j | 0 <= i < j < |s| :: !less(s[j], s[i])
  }

  function Insert<T>(x: T, s: seq<T>, less: (T, T) -> bool): (r: seq<T>)
    ensures multiset(r) == multiset(s) + multiset{x}
  {
    if s == [] || less(x, s[0]) then [x] + s
    else
      assert s == [s[0]] + s[1..];
      [s[0]] + Insert(x, s[1..], less)
  }

  function Sort<T>(s: seq<T>, less: (T, T) -> bool): (r: seq<T>)
    ensures multiset(r) == multiset(s)
  {
    if s == [] then []
    else
      assert s == s[..|s| - 1] + [s[|s| - 1]];
      Insert(s[|s| - 1], Sort(s[..|s| - 1], less), less)
  }

  lemma {:induction false} InsertSorted<T(!new)>(x: T, s: seq<T>, less: (T, T) -> bool)
    requires StrictOrder(less) && SortedBy(s, less)
    ensures SortedBy(Insert(x, s, less), less)
  {
    if s == [] {
    } else if less(x, s[0]) {
      var r := [x] + s;
      forall i, j | 0 <= i < j < |r| ensures !less(r[j], r[i]) {
        if i == 0 {
          assert !less(s[j - 1], s[0]);
        }
      }
    } else {
      var rest := Insert(x, s[1..], less);
      InsertSorted(x, s[1..], less);
      var r := [s[0]] + rest;
      forall i, j | 0 <= i < j < |r| ensures !less(r[j], r[i]) {
        if i == 0 {
          assert r[j] in multiset(rest);
          assert r[j] == x || r[j] in multiset(s[1..]);
          if r[j] != x {
            var k :| 0 <= k < |s[1..]| && s[1..][k] == r[j];
            assert s[k + 1] == r[j];
          }
        }
      }
    }
  }

  lemma {:induction false} SortSorted<T(!new)>(s: seq<T>, less: (T, T) -> bool)
    requires StrictOrder(less)
    ensures SortedBy(Sort(s, less), less)
  {
    if s != [] {
      SortSorted(s[..|s| - 1], less);
      InsertSorted(s[|s| - 1], Sort(s[..|s| - 1], less), less);
    }
  }

  function KeyLess<T>(a: (int, T), b: (int, T)): bool {
    a.0 < b.0
  }

  /** `sorted(xs, key=...)` once every key has been computed. */
  function SortByKey<T(!new)>(xs: seq<(int, T)>): (r: seq<(int, T)>)
    ensures multiset(r) == multiset(xs)
    ensures forall i, j | 0 <= i < j < |r| :: r[i].0 <= r[j].0
  {
    SortSorted(xs, KeyLess);
    Sort(xs, KeyLess)
  }

  lemma {:induction false} CountDistinct<T(!new)>(s: seq<T>, x: T)
    requires Distinct(s)
    ensures multiset(s)[x] <= 1
  {
    if s != [] {
      var prefix := s[..|s| - 1];
      assert s == prefix + [s[|s| - 1]];
      CountDistinct(prefix, x);
      if s[|s| - 1] == x {
        assert x !in prefix;
      }
    }
  }

  lemma CountRepeated<T>(s: seq<T>, i: nat, j: nat)
    requires i < j < |s| && s[i] == s[j]
    ensures multiset(s)[s[i]] >= 2
  {
    assert s == s[..j] + [s[j]] + s[j + 1..];
    assert s[i] in s[..j];
  }

  /** A permutation of a sequence without repetitions has none either. */
  lemma PermutationDistinct<T(!new)>(s: seq<T>, t: seq<T>)
    requires Distinct(s) && multiset(s) == multiset(t)
    ensures Distinct(t)
  {
    forall i, j | 0 <= i < j < |t| ensures t[i] != t[j] {
      if t[i] == t[j] {
        CountRepeated(t, i, j);
        CountDistinct(s, t[i]);
      }
    }
  }

  /** The key of every element, computed in order before sorting; the first failing key wins. */
  function KeyAll<T, E>(xs: seq<T>, key: T -> Result<int, E>): (r: Result<seq<(int, T)>, E>)
    ensures r.Ok? ==> |r.value| == |xs|
    ensures r.Ok? ==> forall i | 0 <= i < |xs| :: key(xs[i]).Ok? && r.value[i] == (key(xs[i]).value, xs[i])
    ensures r.Err? <==> exists i | 0 <= i < |xs| :: key(xs[i]).Err?
    ensures r.Err? ==> exists i | 0 <= i < |xs| :: key(xs[i]) == Err(r.error)
  {
    if xs == [] then Ok([])
    else
      var prefix := xs[..|xs| - 1];
      assert forall i | 0 <= i < |prefix| :: prefix[i] == xs[i];
      match KeyAll(prefix, key)
      case Err(e) => Err(e)
      case Ok(keyed) =>
        match key(xs[|xs| - 1])
        case Err(e) => Err(e)
        case Ok(k) => Ok(keyed + [(k, xs[|xs| - 1])])
  }

  /** The elements of keyed pairs, keys dropped. */
  function Seconds<T>(s: seq<(int, T)>): (r: seq<T>)
    ensures |r| == |s| && forall i | 0 <= i < |s| :: r[i] == s[i].1
  {
    seq(|s|, i requires 0 <= i < |s| => s[i].1)
  }

  lemma SecondsConcat<T>(a: seq<(int, T)>, b: seq<(int, T)>)
    ensures Seconds(a + b) == Seconds(a) + Seconds(b)
  {
  }

  /** Dropping the keys of two permutations of each other leaves two permutations of each other. */
  lemma {:induction false} SecondsPermutation<T>(a: seq<(int, T)>, b: seq<(int, T)>)
    requires multiset(a) == multiset(b)
    ensures multiset(Seconds(a)) == multiset(Seconds(b))
    decreases |a|
  {
    if a == [] {
      assert |multiset(b)| == 0;
    } else {
      var e := a[|a| - 1];
      var a' := a[..|a| - 1];
      assert a == a' + [e];
      assert e in multiset(b);
      var j :| 0 <= j < |b| && b[j] == e;
      var b' := b[..j] + b[j + 1..];
      assert b == b[..j] + [e] + b[j + 1..];
      assert multiset(b) == multiset(b[..j]) + multiset{e} + multiset(b[j + 1..]);
      assert multiset(b') == multiset(b[..j]) + multiset(b[j + 1..]);
      assert multiset(a) == multiset(a') + multiset{e};
      assert forall x :: multiset(a')[x] == multiset(b')[x] by {
        forall x ensures multiset(a')[x] == multiset(b')[x] {
          assert multiset(a)[x] == multiset(b)[x];
        }
      }
      assert multiset(a') == multiset(b');
      SecondsPermutation(a', b');
      SecondsConcat(a', [e]);
      SecondsConcat(b[..j], [e]);
      SecondsConcat(b[..j] + [e], b[j + 1..]);
      SecondsConcat(b[..j], b[j + 1..]);
    }
  }

  /** Python's `sorted(xs, key=key)` for a key that may raise: keys first, then a stable sort. */
  function Sorted<T(!new), E>(xs: seq<T>, key: T -> Result<int, E>): Result<seq<T>, E> {
    match KeyAll(xs, key)
    case Err(e) => Err(e)
    case Ok(keyed) => Ok(Seconds(SortByKey(keyed)))
  }

  /** Sorting rearranges the elements and nothing else. */
  lemma SortedPermutation<T(!new), E>(xs: seq<T>, key: T -> Result<int, E>)
    requires Sorted(xs, key).Ok?
    ensures multiset(Sorted(xs, key).value) == multiset(xs)
  {
    var keyed := KeyAll(xs, key).value;
    assert Seconds(keyed) == xs;
    SecondsPermutation(SortByKey(keyed), keyed);
  }

  lemma SortedLength<T(!new), E>(xs: seq<T>, key: T -> Result<int, E>)
    requires Sorted(xs, key).Ok?
    ensures |Sorted(xs, key).value| == |xs|
    ensures |SortByKey(KeyAll(xs, key).value)| == |xs|
  {
    var keyed := KeyAll(xs, key).value;
    var sorted := SortByKey(keyed);
    assert |multiset(sorted)| == |multiset(keyed)|;
  }

  /** Sorting keeps the elements: every element is somewhere in the result and every result element was an element. */
  lemma SortedMembers<T(!new), E>(xs: seq<T>, key: T -> Result<int, E>)
    requires Sorted(xs, key).Ok?
    ensures |Sorted(xs, key).value| == |xs|
    ensures forall i | 0 <= i < |xs| :: exists j | 0 <= j < |xs| :: Sorted(xs, key).value[j] == xs[i]
    ensures forall j | 0 <= j < |xs| :: exists i | 0 <= i < |xs| :: Sorted(xs, key).value[j] == xs[i]
  {
    SortedLength(xs, key);
    SortedPermutation(xs, key);
    var out := Sorted(xs, key).value;
    forall j | 0 <= j < |xs| ensures exists i | 0 <= i < |xs| :: out[j] == xs[i] {
      assert out[j] in multiset(xs);
    }
    forall i | 0 <= i < |xs| ensures exists j | 0 <= j < |xs| :: out[j] == xs[i] {
      assert xs[i] in multiset(out);
    }
  }

  /** A sorted entry's key is the key of its element. */
  lemma SortedEntry<T(!new), E>(xs: seq<T>, key: T -> Result<int, E>, j: nat)
    requires Sorted(xs, key).Ok? && j < |SortByKey(KeyAll(xs, key).value)|
    ensures key(SortByKey(KeyAll(xs, key).value)[j].1).Ok?
    ensures SortByKey(KeyAll(xs, key).value)[j].0 == key(SortByKey(KeyAll(xs, key).value)[j].1).value
  {
    var keyed := KeyAll(xs, key).value;
    var sorted := SortByKey(keyed);
    assert sorted[j] in multiset(keyed);
    var i :| 0 <= i < |keyed| && keyed[i] == sorted[j];
  }

  /** The sorted elements are in ascending order of their keys. */
  lemma SortedOrdered<T(!new), E>(xs: seq<T>, key: T -> Result<int, E>)
    requires Sorted(xs, key).Ok?
    ensures |Sorted(xs, key).value| == |xs|
    ensures forall j | 0 <= j < |xs| :: key(Sorted(xs, key).value[j]).Ok?
    ensures forall i, j | 0 <= i < j < |xs| :: key(Sorted(xs, key).value[i]).value <= key(Sorted(xs, key).value[j]).value
  {
    SortedLength(xs, key);
    forall j | 0 <= j < |xs| ensures key(Sorted(xs, key).value[j]).Ok?
      && SortByKey(KeyAll(xs, key).value)[j].0 == key(Sorted(xs, key).value[j]).value
    {
      SortedEntry(xs, key, j);
    }
  }

  /** Sorting a sequence without repetitions repeats nothing. */
  lemma SortedDistinct<T(!new), E>(xs: seq<T>, key: T -> Result<int, E>)
    requires Sorted(xs, key).Ok? && Distinct(xs)
    ensures Distinct(Sorted(xs, key).value)
  {
    SortedLength(xs, key);
    var keyed := KeyAll(xs, key).value;
    var sorted := SortByKey(keyed);
    var out := Sorted(xs, key).value;
    assert Distinct(keyed) by {
      forall i, j | 0 <= i < j < |keyed| ensures keyed[i] != keyed[j] {
        assert keyed[i].1 == xs[i] && keyed[j].1 == xs[j];
      }
    }
    PermutationDistinct(keyed, sorted);
    forall i, j | 0 <= i < j < |out| ensures out[i] != out[j] {
      SortedEntry(xs, key, i);
      SortedEntry(xs, key, j);
      assert sorted[i] != sorted[j];
    }
  }

  /** The entries of `s` whose key is `k`, in their order in `s`. */
  function WithKey<T>(s: seq<(int, T)>, k: int): seq<(int, T)> {
    if s == [] then [] else (if s[0].0 == k then [s[0]] else []) + WithKey(s[1..], k)
  }

  lemma {:induction false} WithKeyAppend<T>(a: seq<(int, T)>, b: seq<(int, T)>, k: int)
    ensures WithKey(a + b, k) == WithKey(a, k) + WithKey(b, k)
  {
    if a == [] {
      assert a + b == b;
    } else {
      assert (a + b)[1..] == a[1..] + b;
      WithKeyAppend(a[1..], b, k);
    }
  }

  lemma {:induction false} WithKeyNone<T>(s: seq<(int, T)>, k: int)
    requires forall i | 0 <= i < |s| :: s[i].0 != k
    ensures WithKey(s, k) == []
  {
    if s != [] {
      WithKeyNone(s[1..], k);
    }
  }

  lemma SortedByTail<T>(s: seq<T>, less: (T, T) -> bool)
    requires s != [] && SortedBy(s, less)
    ensures SortedBy(s[1..], less)
  {
    forall i, j | 0 <= i < j < |s[1..]| ensures !less(s[1..][j], s[1..][i]) {
      assert s[1..][j] == s[j + 1] && s[1..][i] == s[i + 1];
    }
  }

  /** A key-sorted sequence whose first key exceeds `k` holds no entry of key `k`. */
  lemma WithKeyAbove<T>(s: seq<(int, T)>, k: int)
    requires s != [] && SortedBy(s, KeyLess) && k < s[0].0
    ensures WithKey(s, k) == []
  {
    forall i | 0 <= i < |s| ensures s[i].0 != k {
      if i > 0 {
        assert !KeyLess(s[i], s[0]);
      }
    }
    WithKeyNone(s, k);
  }

  lemma WithKeySingle<T>(x: (int, T), k: int)
    ensures WithKey([x], k) == if x.0 == k then [x] else []
  {
    assert [x][1..] == [];
  }

  /** Inserting into a key-sorted sequence puts the new entry after every entry of equal key. */
  lemma {:induction false} InsertWithKey<T>(x: (int, T), s: seq<(int, T)>, k: int)
    requires SortedBy(s, KeyLess)
    ensures WithKey(Insert(x, s, KeyLess), k) == WithKey(s, k) + WithKey([x], k)
  {
    WithKeySingle(x, k);
    if s == [] {
    } else if KeyLess(x, s[0]) {
      assert ([x] + s)[1..] == s;
      if x.0 == k {
        WithKeyAbove(s, k);
      }
    } else {
      var rest := Insert(x, s[1..], KeyLess);
      assert ([s[0]] + rest)[1..] == rest;
      SortedByTail(s, KeyLess);
      InsertWithKey(x, s[1..], k);
    }
  }

  lemma {:induction false} SortWithKey<T(!new)>(s: seq<(int, T)>, k: int)
    ensures WithKey(Sort(s, KeyLess), k) == WithKey(s, k)
  {
    if s != [] {
      var prefix := s[..|s| - 1];
      var last := s[|s| - 1];
      SortWithKey(prefix, k);
      SortSorted(prefix, KeyLess);
      InsertWithKey(last, Sort(prefix, KeyLess), k);
      assert s == prefix + [last];
      WithKeyAppend(prefix, [last], k);
    }
  }

  /**
   * `SortByKey` is stable: the entries of any one key come out in the
   * order they went in.
   */
  lemma SortByKeyStable<T(!new)>(xs: seq<(int, T)>, k: int)
    ensures WithKey(SortByKey(xs), k) == WithKey(xs, k)
  {
    SortWithKey(xs, k);
  }

  /** The elements of `s` whose key is `k`, in their order in `s`. */
  function OfKey<T, E>(s: seq<T>, key: T -> Result<int, E>, k: int): seq<T> {
    if s == [] then [] else (if key(s[0]) == Ok(k) then [s[0]] else []) + OfKey(s[1..], key, k)
  }

  lemma {:induction false} SecondsWithKey<T, E>(p: seq<(int, T)>, key: T -> Result<int, E>, k: int)
    requires forall i | 0 <= i < |p| :: key(p[i].1) == Ok(p[i].0)
    ensures Seconds(WithKey(p, k)) == OfKey(Seconds(p), key, k)
  {
    if p != [] {
      SecondsWithKey(p[1..], key, k);
      assert Seconds(p)[1..] == Seconds(p[1..]);
      SecondsConcat(if p[0].0 == k then [p[0]] else [], WithKey(p[1..], k));
    }
  }

  /**
   * Python's `sorted` is stable: elements of equal key keep their relative
   * order.
   */
  lemma SortedStable<T(!new), E>(xs: seq<T>, key: T -> Result<int, E>, k: int)
    requires Sorted(xs, key).Ok?
    ensures OfKey(Sorted(xs, key).value, key, k) == OfKey(xs, key, k)
  {
    var keyed := KeyAll(xs, key).value;
    var sorted := SortByKey(keyed);
    SortedLength(xs, key);
    assert Seconds(keyed) == xs;
    forall j | 0 <= j < |sorted| ensures key(sorted[j].1) == Ok(sorted[j].0) {
      SortedEntry(xs, key, j);
    }
    SecondsWithKey(keyed, key, k);
    SecondsWithKey(sorted, key, k);
    SortByKeyStable(keyed, k);
  }
}
