/**
 * Python's `list.sort(key=..., reverse=True)`: a stable sort into
 * non-increasing key order. Both collectors (main.py:174, main.py:229) and
 * the scorer (main.py:261) rely on it. `SortDesc` is a reference definition
 * by insertion; its lemmas prove that it is sorted, a permutation and stable,
 * and that these three facts pin its result down uniquely.
 */
module StableSort {
  import opened Prelude

  /** Non-increasing by `key`. */
  predicate SortedDesc<T>(s: seq<T>, key: T -> real)
  {
    forall i, j :: 0 <= i < j < |s| ==> key(s[i]) >= key(s[j])
  }

  /** `x` placed after every element of `s` whose key is at least its own. */
  function Insert<T>(x: T, s: seq<T>, key: T -> real): seq<T>
  {
    if s == [] then [x]
    else if key(s[0]) >= key(x) then [s[0]] + Insert(x, s[1..], key)
    else [x] + s
  }

  /** The stable descending sort of `s`: its elements inserted one by one, in order. */
  function SortDesc<T>(s: seq<T>, key: T -> real): seq<T>
    decreases |s|
  {
    if s == [] then [] else Insert(s[|s| - 1], SortDesc(s[..|s| - 1], key), key)
  }

  /** The elements of `s` whose key is `k`, in their order in `s`. */
  function WithKey<T>(s: seq<T>, key: T -> real, k: real): seq<T>
  {
    if s == [] then []
    else (if key(s[0]) == k then [s[0]] else []) + WithKey(s[1..], key, k)
  }

  lemma {:induction false} WithKeyConcat<T>(a: seq<T>, b: seq<T>, key: T -> real, k: real)
    ensures WithKey(a + b, key, k) == WithKey(a, key, k) + WithKey(b, key, k)
  {
    if a == [] {
      assert a + b == b;
    } else {
      var s := a + b;
      assert s != [] && s[0] == a[0] && s[1..] == a[1..] + b;
      var head := if key(a[0]) == k then [a[0]] else [];
      assert WithKey(s, key, k) == head + WithKey(a[1..] + b, key, k);
      assert WithKey(a, key, k) == head + WithKey(a[1..], key, k);
      WithKeyConcat(a[1..], b, key, k);
      assert head + (WithKey(a[1..], key, k) + WithKey(b, key, k))
          == (head + WithKey(a[1..], key, k)) + WithKey(b, key, k);
    }
  }

  lemma {:induction false} WithKeyBelow<T>(s: seq<T>, key: T -> real, k: real)
    requires forall i :: 0 <= i < |s| ==> key(s[i]) < k
    ensures WithKey(s, key, k) == []
  {
    if s != [] {
      WithKeyBelow(s[1..], key, k);
    }
  }

  lemma {:induction false} InsertPermutes<T>(x: T, s: seq<T>, key: T -> real)
    ensures multiset(Insert(x, s, key)) == multiset(s) + multiset{x}
  {
    if s != [] && key(s[0]) >= key(x) {
      InsertPermutes(x, s[1..], key);
      assert s == [s[0]] + s[1..];
    }
  }

  lemma {:induction false} InsertSorted<T>(x: T, s: seq<T>, key: T -> real)
    requires SortedDesc(s, key)
    ensures SortedDesc(Insert(x, s, key), key)
  {
    if s != [] && key(s[0]) >= key(x) {
      InsertSorted(x, s[1..], key);
      InsertPermutes(x, s[1..], key);
      var t := Insert(x, s[1..], key);
      forall j | 0 <= j < |t|
        ensures key(s[0]) >= key(t[j])
      {
        assert t[j] in multiset(t);
        assert t[j] == x || t[j] in s[1..];
      }
    }
  }

  /** Inserting `x` into a sorted list appends it to the group of its key. */
  lemma {:induction false} InsertStable<T>(x: T, s: seq<T>, key: T -> real, k: real)
    requires SortedDesc(s, key)
    ensures WithKey(Insert(x, s, key), key, k) == WithKey(s, key, k) + (if key(x) == k then [x] else [])
  {
    if s == [] {
    } else if key(s[0]) >= key(x) {
      SortedTail(s, key);
      InsertStable(x, s[1..], key, k);
      InsertStableStep(x, s, key, k);
    } else {
      InsertFrontStable(x, s, key, k);
    }
  }

  /** Inserting behind the first element adds that element's key group in front. */
  lemma InsertStableStep<T>(x: T, s: seq<T>, key: T -> real, k: real)
    requires s != [] && key(s[0]) >= key(x)
    requires WithKey(Insert(x, s[1..], key), key, k) == WithKey(s[1..], key, k) + (if key(x) == k then [x] else [])
    ensures WithKey(Insert(x, s, key), key, k) == WithKey(s, key, k) + (if key(x) == k then [x] else [])
  {
    var tail := if key(x) == k then [x] else [];
    var head := if key(s[0]) == k then [s[0]] else [];
    var t := Insert(x, s[1..], key);
    assert Insert(x, s, key) == [s[0]] + t;
    assert ([s[0]] + t)[1..] == t;
    assert WithKey([s[0]] + t, key, k) == head + WithKey(t, key, k);
    assert WithKey(s, key, k) == head + WithKey(s[1..], key, k);
    assert head + (WithKey(s[1..], key, k) + tail) == (head + WithKey(s[1..], key, k)) + tail;
  }

  /** Inserting in front of strictly smaller keys: `x` joins no existing group. */
  lemma InsertFrontStable<T>(x: T, s: seq<T>, key: T -> real, k: real)
    requires SortedDesc(s, key) && s != [] && key(s[0]) < key(x)
    ensures WithKey(Insert(x, s, key), key, k) == WithKey(s, key, k) + (if key(x) == k then [x] else [])
  {
    var tail := if key(x) == k then [x] else [];
    SortedTail(s, key);
    assert forall i :: 0 <= i < |s| ==> key(s[i]) < key(x) by {
      forall i | 0 <= i < |s|
        ensures key(s[i]) < key(x)
      {
        assert s[i] in s;
      }
    }
    WithKeyBelow(s, key, key(x));
    WithKeyConcat([x], s, key, k);
    assert WithKey([x], key, k) == tail + WithKey([x][1..], key, k);
    assert [x][1..] == [];
    if key(x) == k {
      assert WithKey(s, key, k) == [];
    }
  }


  /** The sort is a permutation of its input. */
  lemma {:induction false} SortDescPermutes<T>(s: seq<T>, key: T -> real)
    ensures multiset(SortDesc(s, key)) == multiset(s)
    decreases |s|
  {
    if s != [] {
      var init := s[..|s| - 1];
      SortDescPermutes(init, key);
      InsertPermutes(s[|s| - 1], SortDesc(init, key), key);
      assert s == init + [s[|s| - 1]];
    }
  }

  /** The sort is non-increasing by `key`. */
  lemma {:induction false} SortDescSorted<T>(s: seq<T>, key: T -> real)
    ensures SortedDesc(SortDesc(s, key), key)
    decreases |s|
  {
    if s != [] {
      SortDescSorted(s[..|s| - 1], key);
      InsertSorted(s[|s| - 1], SortDesc(s[..|s| - 1], key), key);
    }
  }

  /** The sort is stable: elements with equal keys keep their relative order. */
  lemma {:induction false} SortDescStable<T>(s: seq<T>, key: T -> real, k: real)
    ensures WithKey(SortDesc(s, key), key, k) == WithKey(s, key, k)
    decreases |s|
  {
    if s != [] {
      var init, last := s[..|s| - 1], s[|s| - 1];
      SortDescStable(init, key, k);
      SortDescSorted(init, key);
      InsertStable(last, SortDesc(init, key), key, k);
      assert s == init + [last];
      WithKeyConcat(init, [last], key, k);
    }
  }

  /** Membership is the same before and after sorting. */
  lemma SortDescMembers<T>(s: seq<T>, key: T -> real, x: T)
    ensures x in SortDesc(s, key) <==> x in s
  {
    SortDescPermutes(s, key);
    assert x in SortDesc(s, key) <==> x in multiset(SortDesc(s, key));
    assert x in s <==> x in multiset(s);
  }

  lemma {:induction false} DistinctCons<T, U>(a: T, t: seq<T>, id: T -> U)
    requires DistinctBy(t, id) && forall y :: y in t ==> id(y) != id(a)
    ensures DistinctBy([a] + t, id)
  {
    var s := [a] + t;
    forall i, j | 0 <= i < j < |s|
      ensures id(s[i]) != id(s[j])
    {
      assert s[j] == t[j - 1];
      if i > 0 {
        assert s[i] == t[i - 1];
      }
    }
  }

  lemma {:induction false} InsertDistinct<T, U>(x: T, s: seq<T>, key: T -> real, id: T -> U)
    requires DistinctBy(s, id) && forall y :: y in s ==> id(y) != id(x)
    ensures DistinctBy(Insert(x, s, key), id)
  {
    if s == [] {
    } else if key(s[0]) >= key(x) {
      assert DistinctBy(s[1..], id) by {
        forall i, j | 0 <= i < j < |s[1..]|
          ensures id(s[1..][i]) != id(s[1..][j])
        {
          assert s[1..][i] == s[i + 1] && s[1..][j] == s[j + 1];
        }
      }
      InsertDistinct(x, s[1..], key, id);
      InsertPermutes(x, s[1..], key);
      var t := Insert(x, s[1..], key);
      forall y | y in t
        ensures id(y) != id(s[0])
      {
        assert y in multiset(t);
        if y != x {
          assert y in s[1..];
          var j :| 0 <= j < |s[1..]| && s[1..][j] == y;
          assert s[j + 1] == y;
        }
      }
      DistinctCons(s[0], t, id);
    } else {
      DistinctCons(x, s, id);
    }
  }

  /** Sorting keeps identities pairwise distinct. */
  lemma {:induction false} SortDescDistinct<T, U>(s: seq<T>, key: T -> real, id: T -> U)
    requires DistinctBy(s, id)
    ensures DistinctBy(SortDesc(s, key), id)
    decreases |s|
  {
    if s != [] {
      var init, last := s[..|s| - 1], s[|s| - 1];
      assert DistinctBy(init, id);
      SortDescDistinct(init, key, id);
      forall y | y in SortDesc(init, key)
        ensures id(y) != id(last)
      {
        SortDescMembers(init, key, y);
        var i :| 0 <= i < |init| && init[i] == y;
      }
      InsertDistinct(last, SortDesc(init, key), key, id);
    }
  }

  lemma WithKeyHead<T>(s: seq<T>, key: T -> real)
    ensures s != [] ==> WithKey(s, key, key(s[0])) == [s[0]] + WithKey(s[1..], key, key(s[0]))
  {
  }

  lemma {:induction false} WithKeyMember<T>(s: seq<T>, key: T -> real, k: real, y: T)
    requires y in WithKey(s, key, k)
    ensures y in s && key(y) == k
  {
    if s[0] != y || key(s[0]) != k {
      WithKeyMember(s[1..], key, k, y);
    }
  }

  lemma {:induction false} SortedTail<T>(s: seq<T>, key: T -> real)
    requires s != [] && SortedDesc(s, key)
    ensures SortedDesc(s[1..], key)
    ensures forall y :: y in s ==> key(y) <= key(s[0])
  {
    forall i, j | 0 <= i < j < |s[1..]|
      ensures key(s[1..][i]) >= key(s[1..][j])
    {
      assert s[1..][i] == s[i + 1] && s[1..][j] == s[j + 1];
    }
    forall y | y in s
      ensures key(y) <= key(s[0])
    {
      var i :| 0 <= i < |s| && s[i] == y;
      if i > 0 {
        assert key(s[0]) >= key(s[i]);
      }
    }
  }

  /**
   * Two sorted lists with the same elements in every key group are equal:
   * sortedness and stability determine the result of a stable sort.
   */
  lemma {:induction false} SortedSameGroupsEqual<T>(a: seq<T>, b: seq<T>, key: T -> real)
    requires SortedDesc(a, key) && SortedDesc(b, key)
    requires forall k :: WithKey(a, key, k) == WithKey(b, key, k)
    ensures a == b
    decreases |a|
  {
    WithKeyHead(a, key);
    WithKeyHead(b, key);
    assert a != [] ==> WithKey(b, key, key(a[0])) != [];
    assert b != [] ==> WithKey(a, key, key(b[0])) != [];
    if a != [] && b != [] {
      var m := key(a[0]);
      SortedTail(a, key);
      SortedTail(b, key);
      assert a[0] in WithKey(b, key, m);
      WithKeyMember(b, key, m, a[0]);
      assert b[0] in WithKey(a, key, key(b[0]));
      WithKeyMember(a, key, key(b[0]), b[0]);
      assert key(b[0]) == m;
      assert a[0] == WithKey(a, key, m)[0] == WithKey(b, key, m)[0] == b[0];
      forall k
        ensures WithKey(a[1..], key, k) == WithKey(b[1..], key, k)
      {
        var h := if m == k then [a[0]] else [];
        assert WithKey(a, key, k) == h + WithKey(a[1..], key, k);
        assert WithKey(b, key, k) == h + WithKey(b[1..], key, k);
        assert (h + WithKey(a[1..], key, k))[|h|..] == WithKey(a[1..], key, k);
        assert (h + WithKey(b[1..], key, k))[|h|..] == WithKey(b[1..], key, k);
      }
      SortedSameGroupsEqual(a[1..], b[1..], key);
      assert a == [a[0]] + a[1..] && b == [b[0]] + b[1..];
    }
  }

  /** `SortDesc(s)` is the only sorted list that lists each key group of `s` in its original order. */
  lemma SortDescUnique<T>(s: seq<T>, key: T -> real, r: seq<T>)
    requires SortedDesc(r, key)
    requires forall k :: WithKey(r, key, k) == WithKey(s, key, k)
    ensures r == SortDesc(s, key)
  {
    SortDescSorted(s, key);
    forall k
      ensures WithKey(r, key, k) == WithKey(SortDesc(s, key), key, k)
    {
      SortDescStable(s, key, k);
    }
    SortedSameGroupsEqual(r, SortDesc(s, key), key);
  }
}
