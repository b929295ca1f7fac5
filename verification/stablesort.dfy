/** A stable sort by a string key, the behaviour of LINQ's `OrderBy`: keys end up in
    non-decreasing order and elements with equal keys keep their relative order. It is
    generic in the key, so its proofs never look inside a particular key function. */
module StableSort {
  import Ordinal

  /** Keys never decrease along `s`. */
  predicate Sorted<T>(key: T -> string, s: seq<T>) {
    forall i, j :: 0 <= i < j < |s| ==> Ordinal.Leq(key(s[i]), key(s[j]))
  }

  /** The elements of `s` whose key is `k`, in their order in `s`. */
  function WithKey<T>(key: T -> string, s: seq<T>, k: string): seq<T>
    decreases |s|
  {
    if |s| == 0 then []
    else (if key(s[0]) == k then [s[0]] else []) + WithKey(key, s[1..], k)
  }

  /** An element is kept by `WithKey` exactly when it is in `s` and has key `k`. */
  lemma {:induction false} WithKeyMember<T>(key: T -> string, s: seq<T>, k: string, f: T)
    ensures f in WithKey(key, s, k) <==> f in s && key(f) == k
    decreases |s|
  {
    if |s| > 0 {
      WithKeyMember(key, s[1..], k, f);
      assert s == [s[0]] + s[1..];
    }
  }

  lemma {:induction false} WithKeyAppend<T>(key: T -> string, a: seq<T>, b: seq<T>, k: string)
    ensures WithKey(key, a + b, k) == WithKey(key, a, k) + WithKey(key, b, k)
    decreases |a|
  {
    if |a| == 0 {
      assert a + b == b;
    } else {
      assert (a + b)[0] == a[0];
      assert (a + b)[1..] == a[1..] + b;
      WithKeyAppend(key, a[1..], b, k);
      var head := if key(a[0]) == k then [a[0]] else [];
      calc {
        WithKey(key, a + b, k);
        head + WithKey(key, a[1..] + b, k);
        head + (WithKey(key, a[1..], k) + WithKey(key, b, k));
        (head + WithKey(key, a[1..], k)) + WithKey(key, b, k);
      }
    }
  }

  lemma SortedTail<T>(key: T -> string, s: seq<T>)
    requires Sorted(key, s) && |s| > 0
    ensures Sorted(key, s[1..])
  {
    forall i, j | 0 <= i < j < |s| - 1 ensures Ordinal.Leq(key(s[1..][i]), key(s[1..][j])) {
      assert s[1..][i] == s[i + 1] && s[1..][j] == s[j + 1];
    }
  }

  /** Every key of a sorted sequence is at or after the key of its first element. */
  lemma SortedHead<T>(key: T -> string, s: seq<T>, f: T)
    requires Sorted(key, s) && |s| > 0 && f in s
    ensures Ordinal.Leq(key(s[0]), key(f))
  {
    var j :| 0 <= j < |s| && s[j] == f;
    if j == 0 {
      Ordinal.Reflexive(key(f));
    }
  }

  /** Putting `x` in front keeps the order when its key is strictly below the first key of `s`. */
  lemma InsertFrontSorted<T>(key: T -> string, x: T, s: seq<T>)
    requires Sorted(key, s)
    requires |s| == 0 || Ordinal.Less(key(x), key(s[0]))
    ensures Sorted(key, [x] + s)
  {
    var r := [x] + s;
    if |s| > 0 {
      Ordinal.Total(key(x), key(s[0]));
      forall j | 0 < j < |r| ensures Ordinal.Leq(key(r[0]), key(r[j])) {
        assert r[j] == s[j - 1];
        SortedHead(key, s, r[j]);
        Ordinal.Transitive(key(x), key(s[0]), key(r[j]));
      }
    }
  }

  /** Keeping the first element of `s` in front keeps the order when the key of `x` is not
      below it. */
  lemma InsertBehindSorted<T>(key: T -> string, x: T, s: seq<T>, rest: seq<T>)
    requires Sorted(key, s) && |s| > 0 && !Ordinal.Less(key(x), key(s[0]))
    requires Sorted(key, rest)
    requires multiset(rest) == multiset(s[1..]) + multiset{x}
    ensures Sorted(key, [s[0]] + rest)
  {
    var r := [s[0]] + rest;
    forall j | 0 < j < |r| ensures Ordinal.Leq(key(r[0]), key(r[j])) {
      assert r[j] == rest[j - 1];
      assert r[j] in multiset(rest);
      if r[j] != x {
        assert r[j] in multiset(s[1..]);
        assert r[j] in s[1..];
        assert r[j] in s;
        SortedHead(key, s, r[j]);
      }
    }
  }

  /** `x` inserted into sorted `s` after every element whose key is at or before its own. */
  function Insert<T>(key: T -> string, x: T, s: seq<T>): (r: seq<T>)
    requires Sorted(key, s)
    ensures Sorted(key, r)
    ensures multiset(r) == multiset(s) + multiset{x}
    decreases |s|
  {
    if |s| == 0 || Ordinal.Less(key(x), key(s[0])) then
      InsertFrontSorted(key, x, s);
      [x] + s
    else
      SortedTail(key, s);
      var rest := Insert(key, x, s[1..]);
      InsertBehindSorted(key, x, s, rest);
      assert s == [s[0]] + s[1..];
      [s[0]] + rest
  }

  /** No file of sorted `s` has a key strictly below the first key of `s`. */
  lemma NoneBelowHead<T>(key: T -> string, x: T, s: seq<T>, k: string)
    requires Sorted(key, s)
    requires |s| == 0 || Ordinal.Less(key(x), key(s[0]))
    requires key(x) == k
    ensures WithKey(key, s, k) == []
  {
    if WithKey(key, s, k) != [] {
      var f := WithKey(key, s, k)[0];
      WithKeyMember(key, s, k, f);
      SortedHead(key, s, f);
    }
  }

  lemma InsertFrontWithKey<T>(key: T -> string, x: T, s: seq<T>, k: string)
    requires Sorted(key, s)
    requires |s| == 0 || Ordinal.Less(key(x), key(s[0]))
    ensures WithKey(key, [x] + s, k) == WithKey(key, s, k) + (if key(x) == k then [x] else [])
  {
    assert ([x] + s)[1..] == s;
    if key(x) == k {
      NoneBelowHead(key, x, s, k);
    }
  }

  lemma InsertBehindWithKey<T>(key: T -> string, x: T, s: seq<T>, rest: seq<T>, k: string)
    requires |s| > 0
    requires WithKey(key, rest, k) == WithKey(key, s[1..], k) + (if key(x) == k then [x] else [])
    ensures WithKey(key, [s[0]] + rest, k) == WithKey(key, s, k) + (if key(x) == k then [x] else [])
  {
    assert ([s[0]] + rest)[1..] == rest;
    var head := if key(s[0]) == k then [s[0]] else [];
    assert WithKey(key, [s[0]] + rest, k) == head + WithKey(key, rest, k);
    assert WithKey(key, s, k) == head + WithKey(key, s[1..], k);
  }

  /** Insertion puts `x` after every file of `s` that has its key. */
  lemma {:induction false} InsertWithKey<T>(key: T -> string, x: T, s: seq<T>, k: string)
    requires Sorted(key, s)
    ensures WithKey(key, Insert(key, x, s), k) == WithKey(key, s, k) + (if key(x) == k then [x] else [])
    decreases |s|
  {
    if |s| == 0 || Ordinal.Less(key(x), key(s[0])) {
      InsertFrontWithKey(key, x, s, k);
    } else {
      SortedTail(key, s);
      InsertWithKey(key, x, s[1..], k);
      InsertBehindWithKey(key, x, s, Insert(key, x, s[1..]), k);
    }
  }

  /** `OrderBy` on the key: a stable insertion sort. */
  function Order<T>(key: T -> string, s: seq<T>): (r: seq<T>)
    ensures Sorted(key, r)
    ensures multiset(r) == multiset(s)
    decreases |s|
  {
    if |s| == 0 then []
    else
      assert s == s[..|s| - 1] + [s[|s| - 1]];
      Insert(key, s[|s| - 1], Order(key, s[..|s| - 1]))
  }

  /** The sort keeps the files of each key in their original order. */
  lemma {:induction false} OrderWithKey<T>(key: T -> string, s: seq<T>, k: string)
    ensures WithKey(key, Order(key, s), k) == WithKey(key, s, k)
    decreases |s|
  {
    if |s| > 0 {
      var init := s[..|s| - 1];
      var last := s[|s| - 1];
      assert s == init + [last];
      OrderWithKey(key, init, k);
      InsertWithKey(key, last, Order(key, init), k);
      WithKeyAppend(key, init, [last], k);
    }
  }

  /** Two sorted sequences that agree on the order of the files of every key are equal. */
  lemma {:induction false} SortedUnique<T>(key: T -> string, t: seq<T>, u: seq<T>)
    requires Sorted(key, t) && Sorted(key, u)
    requires forall k :: WithKey(key, t, k) == WithKey(key, u, k)
    ensures t == u
    decreases |t| + |u|
  {
    if |t| == 0 || |u| == 0 {
      if |t| > 0 {
        WithKeyMember(key, t, key(t[0]), t[0]);
        WithKeyMember(key, u, key(t[0]), t[0]);
      } else if |u| > 0 {
        WithKeyMember(key, u, key(u[0]), u[0]);
        WithKeyMember(key, t, key(u[0]), u[0]);
      }
    } else {
      var k1 := key(t[0]);
      var k2 := key(u[0]);
      WithKeyMember(key, t, k1, t[0]);
      WithKeyMember(key, u, k1, t[0]);
      SortedHead(key, u, t[0]);
      WithKeyMember(key, u, k2, u[0]);
      WithKeyMember(key, t, k2, u[0]);
      SortedHead(key, t, u[0]);
      Ordinal.Antisymmetric(k1, k2);
      assert WithKey(key, t, k1) == [t[0]] + WithKey(key, t[1..], k1);
      assert WithKey(key, u, k1) == [u[0]] + WithKey(key, u[1..], k1);
      assert k1 == k2;
      assert WithKey(key, t, k1) == WithKey(key, u, k1);
      assert WithKey(key, t, k1)[0] == t[0];
      assert WithKey(key, u, k1)[0] == u[0];
      forall k ensures WithKey(key, t[1..], k) == WithKey(key, u[1..], k) {
        if k == k1 {
          assert WithKey(key, t[1..], k) == WithKey(key, t, k)[1..];
          assert WithKey(key, u[1..], k) == WithKey(key, u, k)[1..];
        } else {
          assert WithKey(key, t, k) == WithKey(key, t[1..], k);
          assert WithKey(key, u, k) == WithKey(key, u[1..], k);
        }
      }
      SortedTail(key, t);
      SortedTail(key, u);
      SortedUnique(key, t[1..], u[1..]);
      assert t == [t[0]] + t[1..];
      assert u == [u[0]] + u[1..];
    }
  }

  /** Any sort by key that keeps the files of each key in their original order is `Order`:
      the stable sort is unique. */
  lemma StableSortIsOrder<T>(key: T -> string, s: seq<T>, t: seq<T>)
    requires Sorted(key, t)
    requires forall k :: WithKey(key, t, k) == WithKey(key, s, k)
    ensures t == Order(key, s)
  {
    forall k ensures WithKey(key, t, k) == WithKey(key, Order(key, s), k) {
      OrderWithKey(key, s, k);
    }
    SortedUnique(key, t, Order(key, s));
  }

  /** Elements that share a key sit together: anything between two of them has their key. */
  lemma SortedGroupsContiguous<T>(key: T -> string, s: seq<T>, i: nat, j: nat, l: nat)
    requires Sorted(key, s)
    requires i < j < l < |s| && key(s[i]) == key(s[l])
    ensures key(s[j]) == key(s[i])
  {
    Ordinal.Antisymmetric(key(s[i]), key(s[j]));
  }
}
