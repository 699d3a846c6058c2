/**
 * The header `export_to_csv` writes: the union of the rows' keys, sorted by
 * `custom_sort`, so that `Date`, `Pollster` and `Sample` lead in that order
 * and every other column follows in ascending string order.
 */
module CsvExport {
  import opened Dicts
  import opened Sorting
  import opened Strings

  /** `priority_order`. */
  const Priority: seq<string> := ["Date", "Pollster", "Sample"]

  /** `priority_order.index(key)`, or `len(priority_order)` when the lookup raises. */
  function Rank(key: string): (r: nat)
    ensures r <= |Priority|
    ensures r < |Priority| <==> key in Priority
    ensures r < |Priority| ==> Priority[r] == key
  {
    if key == "Date" then 0
    else if key == "Pollster" then 1
    else if key == "Sample" then 2
    else |Priority|
  }

  /**
   * Python's `<` on the tuples `custom_sort` returns: `(rank,)` for a
   * priority name, `(3, key)` for any other.
   */
  predicate CustomLess(a: string, b: string) {
    Rank(a) < Rank(b) || (Rank(a) == Rank(b) == |Priority| && Less(a, b))
  }

  lemma CustomLessStrict()
    ensures StrictOrder(CustomLess)
  {
    forall a ensures !CustomLess(a, a) {
      LessIrreflexive(a);
    }
    forall a, b, c | CustomLess(a, b) && CustomLess(b, c) ensures CustomLess(a, c) {
      if Rank(a) == Rank(b) == Rank(c) == |Priority| {
        LessTransitive(a, b, c);
      }
    }
  }

  lemma CustomLessTotal(a: string, b: string)
    requires a != b
    ensures CustomLess(a, b) || CustomLess(b, a)
  {
    if Rank(a) == Rank(b) == |Priority| {
      LessTotal(a, b);
    }
  }

  /** `sorted(set().union(*(d.keys() for d in data)), key=custom_sort)`. */
  function Header<V>(rows: seq<Dict<string, V>>): seq<string> {
    Sort(KeyUnion(rows), CustomLess)
  }

  /** The header names every key of every row, each once, in strictly ascending `custom_sort` order. */
  lemma HeaderSpec<V>(rows: seq<Dict<string, V>>)
    ensures forall k :: k in Header(rows) <==> exists i | 0 <= i < |rows| :: k in Keys(rows[i])
    ensures Distinct(Header(rows))
    ensures forall i, j | 0 <= i < j < |Header(rows)| :: CustomLess(Header(rows)[i], Header(rows)[j])
  {
    var u := KeyUnion(rows);
    var h := Header(rows);
    forall k ensures k in h <==> k in u {
      assert k in h <==> k in multiset(h);
      assert k in u <==> k in multiset(u);
    }
    PermutationDistinct(u, h);
    CustomLessStrict();
    SortSorted(u, CustomLess);
    forall i, j | 0 <= i < j < |h| ensures CustomLess(h[i], h[j]) {
      CustomLessTotal(h[i], h[j]);
    }
  }

  /** A present `Date` is the first column, and every priority name precedes every other name. */
  lemma HeaderLayout<V>(rows: seq<Dict<string, V>>, i: nat, j: nat)
    requires i < |Header(rows)| && j < |Header(rows)|
    ensures Header(rows)[i] == "Date" ==> i == 0
    ensures Header(rows)[i] in Priority && Header(rows)[j] !in Priority ==> i < j
    ensures Header(rows)[i] in Priority && Header(rows)[j] in Priority ==>
      (i < j <==> Rank(Header(rows)[i]) < Rank(Header(rows)[j]))
    ensures Header(rows)[i] !in Priority && Header(rows)[j] !in Priority ==>
      (i < j <==> Less(Header(rows)[i], Header(rows)[j]))
  {
    var h := Header(rows);
    HeaderSpec(rows);
    assert i > 0 ==> CustomLess(h[0], h[i]);
    if j < i {
      assert CustomLess(h[j], h[i]);
      LessIrreflexive(h[i]);
      if h[i] !in Priority && h[j] !in Priority && Less(h[i], h[j]) {
        LessTransitive(h[i], h[j], h[i]);
      }
    } else if i < j {
      assert CustomLess(h[i], h[j]);
    } else {
      LessIrreflexive(h[i]);
    }
  }

  /**
   * Two strictly ordered sequences with the same elements are the same
   * sequence.
   */
  lemma {:induction false} StrictlySortedUnique(s: seq<string>, t: seq<string>)
    requires forall i, j | 0 <= i < j < |s| :: CustomLess(s[i], s[j])
    requires forall i, j | 0 <= i < j < |t| :: CustomLess(t[i], t[j])
    requires forall k :: k in s <==> k in t
    ensures s == t
    decreases |s|
  {
    CustomLessStrict();
    if s != [] {
      assert s[0] in t;
      var a :| 0 <= a < |t| && t[a] == s[0];
      assert t[0] in s;
      var b :| 0 <= b < |s| && s[b] == t[0];
      var x, y := s[0], t[0];
      assert CustomLess(x, y) || x == y;
      assert CustomLess(y, x) || x == y;
      assert x == y;
      forall k ensures k in s[1..] <==> k in t[1..] {
        if k in s[1..] {
          var p :| 1 <= p < |s| && s[p] == k;
          assert CustomLess(s[0], k);
          assert k in s && k in t;
          var q :| 0 <= q < |t| && t[q] == k;
          assert q != 0;
          assert t[1..][q - 1] == k;
        }
        if k in t[1..] {
          var p :| 1 <= p < |t| && t[p] == k;
          assert CustomLess(t[0], k);
          assert k in t && k in s;
          var q :| 0 <= q < |s| && s[q] == k;
          assert q != 0;
          assert s[1..][q - 1] == k;
        }
      }
      StrictlySortedUnique(s[1..], t[1..]);
      assert s == [s[0]] + s[1..] && t == [t[0]] + t[1..];
    } else {
      NoMembersEmpty(t);
    }
  }

  lemma NoMembersEmpty(t: seq<string>)
    requires forall k :: k !in t
    ensures t == []
  {
    forall k ensures multiset(t)[k] == 0 {
      assert k !in t;
    }
    assert multiset(t) == multiset{};
  }

  /**
   * The header does not depend on the order in which Python's `set`
   * happens to list the field names: it is the only strictly ordered
   * listing of them.
   */
  lemma HeaderUnique<V>(rows: seq<Dict<string, V>>, listing: seq<string>)
    requires forall k :: k in listing <==> exists i | 0 <= i < |rows| :: k in Keys(rows[i])
    requires forall i, j | 0 <= i < j < |listing| :: CustomLess(listing[i], listing[j])
    ensures listing == Header(rows)
  {
    HeaderSpec(rows);
    StrictlySortedUnique(listing, Header(rows));
  }

  lemma HeaderExample()
    ensures Header([[Entry("Smith", 1), Entry("Date", 0)], [Entry("Sample", 2), Entry("Jones", 3)]])
      == ["Date", "Sample", "Jones", "Smith"]
  {
    var rows := [[Entry("Smith", 1), Entry("Date", 0)], [Entry("Sample", 2), Entry("Jones", 3)]];
    assert Less("Jones", "Smith");
    assert CustomLess("Date", "Sample") && CustomLess("Sample", "Jones") && CustomLess("Jones", "Smith");
    var listing := ["Date", "Sample", "Jones", "Smith"];
    assert Keys(rows[0]) == ["Smith", "Date"] && Keys(rows[1]) == ["Sample", "Jones"];
    forall k ensures k in listing <==> exists i | 0 <= i < |rows| :: k in Keys(rows[i]) {
      if k in listing {
        if k in Keys(rows[0]) { assert 0 < |rows|; } else { assert k in Keys(rows[1]); }
      }
    }
    HeaderUnique(rows, listing);
  }
}
