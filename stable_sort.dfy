/**
 * A stable sort by an integer key. Python's sorted() and list.sort() are
 * stable sorts; SortedStableUnique shows that every stable sort of a
 * sequence returns the same sequence, so this insertion sort stands for them.
 */
module StableSort {

  ghost predicate SortedBy<T>(s: seq<T>, key: T -> int)
  {
    forall i, j :: 0 <= i < j < |s| ==> key(s[i]) <= key(s[j])
  }

  /** The elements of s whose key is k, in their order in s. */
  function KeyFilter<T>(s: seq<T>, key: T -> int, k: int): seq<T>
  {
    if s == [] then [] else (if key(s[0]) == k then [s[0]] else []) + KeyFilter(s[1..], key, k)
  }

  /** r keeps, for every key, the elements of s that carry it, in their order in s. */
  ghost predicate SameKeyOrder<T>(r: seq<T>, s: seq<T>, key: T -> int)
  {
    forall k :: KeyFilter(r, key, k) == KeyFilter(s, key, k)
  }

  /** Places x in front of the first element of s whose key is at least x's. */
  function Insert<T>(x: T, s: seq<T>, key: T -> int): (r: seq<T>)
    ensures multiset(r) == multiset([x] + s)
  {
    if s == [] || key(x) <= key(s[0]) then [x] + s
    else
      assert s == [s[0]] + s[1..];
      assert multiset([x] + s) == multiset([s[0]]) + multiset([x] + s[1..]);
      [s[0]] + Insert(x, s[1..], key)
  }

  lemma {:induction false} InsertSorted<T>(x: T, s: seq<T>, key: T -> int)
    requires SortedBy(s, key)
    ensures SortedBy(Insert(x, s, key), key)
  {
    if s != [] && key(x) > key(s[0]) {
      var tail := s[1..];
      var rest := Insert(x, tail, key);
      SortedTail(s, key);
      InsertSorted(x, tail, key);
      forall y | y in rest ensures key(s[0]) <= key(y) {
        assert y in multiset([x] + tail);
        if y != x {
          var i :| 0 <= i < |tail| && tail[i] == y;
          assert s[i + 1] == y;
        }
      }
      SortedCons(s[0], rest, key);
    }
  }

  lemma SortedTail<T>(s: seq<T>, key: T -> int)
    requires SortedBy(s, key) && s != []
    ensures SortedBy(s[1..], key)
  {
    var tail := s[1..];
    forall i, j | 0 <= i < j < |tail| ensures key(tail[i]) <= key(tail[j]) {
      assert tail[i] == s[i + 1] && tail[j] == s[j + 1];
    }
  }

  lemma SortedCons<T>(a: T, rest: seq<T>, key: T -> int)
    requires SortedBy(rest, key)
    requires forall y :: y in rest ==> key(a) <= key(y)
    ensures SortedBy([a] + rest, key)
  {
    var r := [a] + rest;
    forall i, j | 0 <= i < j < |r| ensures key(r[i]) <= key(r[j]) {
      assert r[j] == rest[j - 1];
      if i == 0 {
        assert rest[j - 1] in rest;
      } else {
        assert r[i] == rest[i - 1];
      }
    }
  }

  lemma KeyFilterCons<T>(a: T, s: seq<T>, key: T -> int, k: int)
    ensures KeyFilter([a] + s, key, k) == (if key(a) == k then [a] else []) + KeyFilter(s, key, k)
  {
    assert ([a] + s)[1..] == s;
  }

  lemma {:induction false} InsertKeyFilter<T>(x: T, s: seq<T>, key: T -> int, k: int)
    ensures KeyFilter(Insert(x, s, key), key, k) == KeyFilter([x] + s, key, k)
  {
    if s != [] && key(x) > key(s[0]) {
      InsertKeyFilter(x, s[1..], key, k);
      KeyFilterCons(s[0], Insert(x, s[1..], key), key, k);
      KeyFilterCons(x, s[1..], key, k);
      KeyFilterCons(x, s, key, k);
    }
  }

  /**
   * Sorts s by key, keeping elements of equal key in their input order
   * (SortSorted and SortStable); the result is a permutation of s.
   */
  function Sort<T>(s: seq<T>, key: T -> int): (r: seq<T>)
    ensures |r| == |s| && multiset(r) == multiset(s)
  {
    if s == [] then []
    else
      var rest := Sort(s[1..], key);
      assert s == [s[0]] + s[1..];
      assert |multiset(Insert(s[0], rest, key))| == |multiset([s[0]] + rest)|;
      Insert(s[0], rest, key)
  }

  lemma {:induction false} SortSorted<T>(s: seq<T>, key: T -> int)
    ensures SortedBy(Sort(s, key), key)
  {
    if s != [] {
      SortSorted(s[1..], key);
      InsertSorted(s[0], Sort(s[1..], key), key);
    }
  }

  lemma {:induction false} SortStable<T>(s: seq<T>, key: T -> int)
    ensures SameKeyOrder(Sort(s, key), s, key)
  {
    if s != [] {
      var rest := Sort(s[1..], key);
      SortStable(s[1..], key);
      assert s == [s[0]] + s[1..];
      forall k ensures KeyFilter(Sort(s, key), key, k) == KeyFilter(s, key, k) {
        InsertKeyFilter(s[0], rest, key, k);
        KeyFilterCons(s[0], rest, key, k);
        KeyFilterCons(s[0], s[1..], key, k);
      }
    }
  }

  /** The position of the first element of s that has the least key. */
  function FirstMinIndex<T>(s: seq<T>, key: T -> int): (i: nat)
    requires |s| > 0
    ensures i < |s|
    ensures forall j :: 0 <= j < |s| ==> key(s[i]) <= key(s[j])
    ensures forall j :: 0 <= j < i ==> key(s[i]) < key(s[j])
  {
    if |s| == 1 then 0
    else
      var m := FirstMinIndex(s[1..], key) + 1;
      if key(s[0]) <= key(s[m]) then 0 else m
  }

  /** The head of the sorted sequence is the earliest of the elements with the least key. */
  lemma {:induction false} SortHead<T>(s: seq<T>, key: T -> int)
    requires |s| > 0
    ensures Sort(s, key)[0] == s[FirstMinIndex(s, key)]
  {
    if |s| > 1 {
      SortHead(s[1..], key);
    }
  }

  lemma {:induction false} KeyFilterMember<T>(s: seq<T>, key: T -> int, k: int, x: T)
    ensures x in KeyFilter(s, key, k) <==> x in s && key(x) == k
  {
    if s != [] {
      KeyFilterMember(s[1..], key, k, x);
      assert s == [s[0]] + s[1..];
    }
  }

  /**
   * A sorted sequence that keeps the order of equal keys is determined by
   * its elements: any two stable sorts of the same input agree.
   */
  lemma {:induction false} SortedStableUnique<T>(a: seq<T>, b: seq<T>, key: T -> int)
    requires SortedBy(a, key) && SortedBy(b, key)
    requires SameKeyOrder(a, b, key)
    ensures a == b
    decreases |a| + |b|
  {
    if a != [] && b != [] {
      var ka, kb := key(a[0]), key(b[0]);
      assert ka == kb by {
        KeyFilterMember(b, key, kb, b[0]);
        KeyFilterMember(a, key, kb, b[0]);
        assert KeyFilter(a, key, kb) == KeyFilter(b, key, kb);
        KeyFilterMember(a, key, ka, a[0]);
        KeyFilterMember(b, key, ka, a[0]);
        assert KeyFilter(a, key, ka) == KeyFilter(b, key, ka);
      }
      assert KeyFilter(a, key, ka) == KeyFilter(b, key, ka);
      assert KeyFilter(a, key, ka) == [a[0]] + KeyFilter(a[1..], key, ka);
      assert KeyFilter(b, key, ka) == [b[0]] + KeyFilter(b[1..], key, ka);
      assert KeyFilter(a, key, ka)[0] == a[0] && KeyFilter(b, key, ka)[0] == b[0];
      forall k ensures KeyFilter(a[1..], key, k) == KeyFilter(b[1..], key, k) {
        assert KeyFilter(a, key, k) == KeyFilter(b, key, k);
        assert KeyFilter(a, key, k) == (if ka == k then [a[0]] else []) + KeyFilter(a[1..], key, k);
        assert KeyFilter(b, key, k) == (if ka == k then [b[0]] else []) + KeyFilter(b[1..], key, k);
        if ka == k {
          assert KeyFilter(a[1..], key, k) == KeyFilter(a, key, k)[1..];
          assert KeyFilter(b[1..], key, k) == KeyFilter(b, key, k)[1..];
        } else {
          assert KeyFilter(a[1..], key, k) == KeyFilter(a, key, k);
          assert KeyFilter(b[1..], key, k) == KeyFilter(b, key, k);
        }
      }
      SortedStableUnique(a[1..], b[1..], key);
      assert a == [a[0]] + a[1..] && b == [b[0]] + b[1..];
    } else if a != [] {
      KeyFilterMember(a, key, key(a[0]), a[0]);
    } else if b != [] {
      KeyFilterMember(b, key, key(b[0]), b[0]);
    }
  }
}
