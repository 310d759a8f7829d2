/** Stable sorting by an integer key, as Python's `sorted` does it. */
module StableSort {

  /** Put `x` behind everything that is not larger. */
  function Insert<T>(x: T, s: seq<T>, key: T -> int): (r: seq<T>)
    ensures |r| == |s| + 1
  {
    if s == [] then [x]
    else
      var k := |s| - 1;
      if key(s[k]) <= key(x) then s + [x] else Insert(x, s[..k], key) + [s[k]]
  }

  function Sorted<T>(s: seq<T>, key: T -> int): (r: seq<T>)
    ensures |r| == |s|
  {
    if s == [] then [] else Insert(s[|s| - 1], Sorted(s[..|s| - 1], key), key)
  }

  ghost predicate Ascending<T>(s: seq<T>, key: T -> int) {
    forall i, j :: 0 <= i < j < |s| ==> key(s[i]) <= key(s[j])
  }

  /** The elements with a given key, in order. */
  function WithKey<T>(s: seq<T>, key: T -> int, v: int): seq<T> {
    if s == [] then
      []
    else
      var k := |s| - 1;
      WithKey(s[..k], key, v) + if key(s[k]) == v then [s[k]] else []
  }

  lemma {:induction false} InsertElements<T>(x: T, s: seq<T>, key: T -> int)
    ensures multiset(Insert(x, s, key)) == multiset(s) + multiset{x}
    ensures forall y :: y in Insert(x, s, key) <==> y == x || y in s
  {
    if s != [] {
      var k := |s| - 1;
      assert s == s[..k] + [s[k]];
      if key(s[k]) > key(x) {
        InsertElements(x, s[..k], key);
      }
    }
  }

  lemma {:induction false} InsertMember<T>(x: T, s: seq<T>, key: T -> int, i: nat)
    requires i < |Insert(x, s, key)|
    ensures Insert(x, s, key)[i] == x || Insert(x, s, key)[i] in s
  {
    if s != [] {
      var k := |s| - 1;
      if key(s[k]) > key(x) && i < k + 1 {
        InsertMember(x, s[..k], key, i);
      }
    }
  }

  lemma InsertLast<T>(x: T, s: seq<T>, key: T -> int)
    requires s != [] && key(s[|s| - 1]) > key(x)
    ensures Insert(x, s, key) == Insert(x, s[..|s| - 1], key) + [s[|s| - 1]]
  {
  }

  lemma {:induction false} InsertAscending<T>(x: T, s: seq<T>, key: T -> int)
    requires Ascending(s, key)
    ensures Ascending(Insert(x, s, key), key)
  {
    if s != [] {
      var k := |s| - 1;
      if key(s[k]) > key(x) {
        hide Insert;
        InsertLast(x, s, key);
        InsertAscending(x, s[..k], key);
        var r := Insert(x, s[..k], key);
        forall i | 0 <= i < |r| ensures key(r[i]) <= key(s[k]) {
          InsertMember(x, s[..k], key, i);
          if r[i] != x {
            var j :| 0 <= j < k && s[..k][j] == r[i];
          }
        }
      }
    }
  }

  lemma {:induction false} InsertWithKey<T>(x: T, s: seq<T>, key: T -> int, v: int)
    requires Ascending(s, key)
    ensures WithKey(Insert(x, s, key), key, v) == WithKey(s, key, v) + if key(x) == v then [x] else []
  {
    if s == [] {
      assert [x][..0] == [];
    } else {
      var k := |s| - 1;
      if key(s[k]) <= key(x) {
        assert (s + [x])[..|s|] == s;
      } else {
        InsertWithKey(x, s[..k], key, v);
        var r := Insert(x, s[..k], key);
        assert (r + [s[k]])[..|r|] == r;
        if key(x) == v {
          assert WithKey(s, key, v) == WithKey(s[..k], key, v);
        }
      }
    }
  }

  /** Sorting permutes and orders. */
  lemma {:induction false} SortedCorrect<T>(s: seq<T>, key: T -> int)
    ensures multiset(Sorted(s, key)) == multiset(s)
    ensures forall y :: y in Sorted(s, key) <==> y in s
    ensures Ascending(Sorted(s, key), key)
  {
    if s != [] {
      hide Insert;
      var k := |s| - 1;
      SortedCorrect(s[..k], key);
      InsertElements(s[k], Sorted(s[..k], key), key);
      InsertAscending(s[k], Sorted(s[..k], key), key);
      assert s == s[..k] + [s[k]];
    }
  }

  /** Elements with equal keys keep their order. */
  lemma {:induction false} SortedStable<T>(s: seq<T>, key: T -> int, v: int)
    ensures WithKey(Sorted(s, key), key, v) == WithKey(s, key, v)
  {
    if s != [] {
      hide Insert;
      var k := |s| - 1;
      SortedStable(s[..k], key, v);
      SortedCorrect(s[..k], key);
      InsertWithKey(s[k], Sorted(s[..k], key), key, v);
    }
  }

  /** A sequence already in order is left alone. */
  lemma {:induction false} SortedFixed<T>(s: seq<T>, key: T -> int)
    requires Ascending(s, key)
    ensures Sorted(s, key) == s
  {
    if s != [] {
      var k := |s| - 1;
      SortedFixed(s[..k], key);
      LastInserted(s, key);
    }
  }

  lemma LastInserted<T>(s: seq<T>, key: T -> int)
    requires Ascending(s, key) && s != []
    ensures Insert(s[|s| - 1], s[..|s| - 1], key) == s
  {
    var k := |s| - 1;
    assert s == s[..k] + [s[k]];
  }

  // ---------- Relations between all pairs ----------

  ghost predicate AllPairs<T(!new)>(s: seq<T>, rel: (T, T) -> bool) {
    forall i, j :: 0 <= i < j < |s| ==> rel(s[i], s[j])
  }

  ghost predicate Symmetric<T(!new)>(rel: (T, T) -> bool) {
    forall x, y :: rel(x, y) == rel(y, x)
  }

  ghost predicate AllRelated<T(!new)>(s: seq<T>, x: T, rel: (T, T) -> bool) {
    forall i :: 0 <= i < |s| ==> rel(s[i], x)
  }

  lemma PairsSnoc<T(!new)>(s: seq<T>, x: T, rel: (T, T) -> bool)
    ensures AllPairs(s + [x], rel) <==> AllPairs(s, rel) && AllRelated(s, x, rel)
  {
    var r := s + [x];
    if AllPairs(r, rel) {
      forall i, j | 0 <= i < j < |s| ensures rel(s[i], s[j]) {
        assert rel(r[i], r[j]);
      }
      forall i | 0 <= i < |s| ensures rel(s[i], x) {
        assert rel(r[i], r[|s|]);
      }
    }
  }

  lemma RelatedSnoc<T(!new)>(s: seq<T>, y: T, x: T, rel: (T, T) -> bool)
    ensures AllRelated(s + [y], x, rel) <==> AllRelated(s, x, rel) && rel(y, x)
  {
    var r := s + [y];
    if AllRelated(r, x, rel) {
      forall i | 0 <= i < |s| ensures rel(s[i], x) {
        assert rel(r[i], x);
      }
      assert rel(r[|s|], x);
    }
  }

  lemma {:induction false} RelatedInsert<T(!new)>(y: T, s: seq<T>, key: T -> int, x: T, rel: (T, T) -> bool)
    ensures AllRelated(Insert(y, s, key), x, rel) <==> AllRelated(s, x, rel) && rel(y, x)
  {
    if s == [] {
      RelatedSnoc([], y, x, rel);
      assert [] + [y] == [y];
    } else {
      var k := |s| - 1;
      assert s == s[..k] + [s[k]];
      if key(s[k]) <= key(y) {
        RelatedSnoc(s, y, x, rel);
      } else {
        InsertLast(y, s, key);
        hide AllRelated, Insert;
        RelatedInsert(y, s[..k], key, x, rel);
        RelatedSnoc(Insert(y, s[..k], key), s[k], x, rel);
        RelatedSnoc(s[..k], s[k], x, rel);
      }
    }
  }

  /** How two elements, the first one in front, are related once they are sorted by `key`. */
  function InOrder<T>(key: T -> int, rel: (T, T) -> bool): (T, T) -> bool {
    (x, y) => if key(x) <= key(y) then rel(x, y) else rel(y, x)
  }

  lemma {:induction false} PairsInsert<T(!new)>(x: T, s: seq<T>, key: T -> int, rel: (T, T) -> bool)
    requires Ascending(s, key)
    ensures AllPairs(Insert(x, s, key), rel) <==> AllPairs(s, rel) && AllRelated(s, x, InOrder(key, rel))
  {
    if s == [] {
      PairsSnoc([], x, rel);
      assert [] + [x] == [x];
    } else {
      var k := |s| - 1;
      assert s == s[..k] + [s[k]];
      if key(s[k]) <= key(x) {
        PairsSnoc(s, x, rel);
        RelatedAfter(s, x, key, rel);
      } else {
        InsertLast(x, s, key);
        hide AllPairs, AllRelated, Insert;
        PairsInsert(x, s[..k], key, rel);
        PairsSnoc(Insert(x, s[..k], key), s[k], rel);
        PairsSnoc(s[..k], s[k], rel);
        RelatedSnoc(s[..k], s[k], x, InOrder(key, rel));
        RelatedInsert(x, s[..k], key, s[k], rel);
      }
    }
  }

  lemma RelatedAfter<T(!new)>(s: seq<T>, x: T, key: T -> int, rel: (T, T) -> bool)
    requires forall i :: 0 <= i < |s| ==> key(s[i]) <= key(x)
    ensures AllRelated(s, x, rel) <==> AllRelated(s, x, InOrder(key, rel))
  {
    var ordered := InOrder(key, rel);
    assert forall i :: 0 <= i < |s| ==> ordered(s[i], x) == rel(s[i], x);
  }

  lemma {:induction false} RelatedSorted<T(!new)>(s: seq<T>, key: T -> int, x: T, rel: (T, T) -> bool)
    ensures AllRelated(Sorted(s, key), x, rel) <==> AllRelated(s, x, rel)
  {
    if s != [] {
      hide AllRelated, Insert;
      var k := |s| - 1;
      assert s == s[..k] + [s[k]];
      RelatedSorted(s[..k], key, x, rel);
      RelatedInsert(s[k], Sorted(s[..k], key), key, x, rel);
      RelatedSnoc(s[..k], s[k], x, rel);
    }
  }

  /** A relation between earlier and later elements of the sorted sequence, in terms of the order the
      elements had before: sorting swaps exactly the pairs whose keys descend. */
  lemma {:induction false} PairsSorted<T(!new)>(s: seq<T>, key: T -> int, rel: (T, T) -> bool)
    ensures AllPairs(Sorted(s, key), rel) <==> AllPairs(s, InOrder(key, rel))
  {
    if s != [] {
      hide AllPairs, AllRelated, Insert, InOrder;
      var k := |s| - 1;
      assert s == s[..k] + [s[k]];
      PairsSorted(s[..k], key, rel);
      SortedCorrect(s[..k], key);
      PairsInsert(s[k], Sorted(s[..k], key), key, rel);
      RelatedSorted(s[..k], key, s[k], InOrder(key, rel));
      PairsSnoc(s[..k], s[k], InOrder(key, rel));
    } else {
      hide InOrder;
    }
  }

  /** A symmetric relation holds between all pairs after sorting exactly when it did before. */
  lemma SymmetricPairsSorted<T(!new)>(s: seq<T>, key: T -> int, rel: (T, T) -> bool)
    requires Symmetric(rel)
    ensures AllPairs(Sorted(s, key), rel) <==> AllPairs(s, rel)
  {
    PairsSorted(s, key, rel);
    var ordered := InOrder(key, rel);
    assert forall i, j :: 0 <= i < j < |s| ==> ordered(s[i], s[j]) == rel(s[i], s[j]);
  }

  // ---------- Rearranging ----------

  /** The relation between members of a multiset, an element with itself only when it occurs twice. */
  ghost predicate MembersRelated<T(!new)>(m: multiset<T>, rel: (T, T) -> bool) {
    forall x, y :: x in m && y in m && (x != y || m[x] >= 2) ==> rel(x, y)
  }

  /** For a symmetric relation the order of the elements is of no importance. */
  lemma {:induction false} PairsAsMembers<T(!new)>(s: seq<T>, rel: (T, T) -> bool)
    requires Symmetric(rel)
    ensures AllPairs(s, rel) <==> MembersRelated(multiset(s), rel)
  {
    if s == [] {
    } else {
      var k := |s| - 1;
      var init, last := s[..k], s[k];
      assert s == init + [last];
      PairsAsMembers(init, rel);
      PairsSnoc(init, last, rel);
      MembersSnoc(multiset(init), last, rel);
      assert multiset(s) == multiset(init) + multiset{last};
      assert forall x :: x in init <==> x in multiset(init);
      assert AllRelated(init, last, rel) <==> forall x :: x in init ==> rel(x, last);
    }
  }

  lemma MembersSnoc<T(!new)>(m: multiset<T>, last: T, rel: (T, T) -> bool)
    requires Symmetric(rel)
    ensures MembersRelated(m + multiset{last}, rel) <==>
            MembersRelated(m, rel) && forall x :: x in m ==> rel(x, last)
  {
    var all := m + multiset{last};
    if MembersRelated(all, rel) {
      forall x | x in m ensures rel(x, last) {
        assert x in all && last in all;
      }
      forall x, y | x in m && y in m && (x != y || m[x] >= 2) ensures rel(x, y) {
        assert x in all && y in all && all[x] >= m[x];
      }
    }
  }

  /** Rearranging keeps a symmetric relation between all pairs. */
  lemma PairsRearranged<T(!new)>(s: seq<T>, r: seq<T>, rel: (T, T) -> bool)
    requires Symmetric(rel) && multiset(s) == multiset(r)
    ensures AllPairs(s, rel) <==> AllPairs(r, rel)
  {
    PairsAsMembers(s, rel);
    PairsAsMembers(r, rel);
  }
}
