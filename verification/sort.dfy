/**
 * Python's `list.sort(key=...)`: a stable sort. Keys are integer sequences
 * compared lexicographically, which covers both the tuple keys of the
 * dashboard and the string keys of the registry listing.
 */
module StableSort {

  /** Lexicographic order with a proper prefix first, as Python compares tuples and strings. */
  predicate LexLe(a: seq<int>, b: seq<int>)
    decreases |a|
  {
    a == [] || (b != [] && (a[0] < b[0] || (a[0] == b[0] && LexLe(a[1..], b[1..]))))
  }

  lemma {:induction false} LexLeReflexive(a: seq<int>)
    ensures LexLe(a, a)
    decreases |a|
  {
    if a != [] {
      LexLeReflexive(a[1..]);
    }
  }

  lemma {:induction false} LexLeTotal(a: seq<int>, b: seq<int>)
    ensures LexLe(a, b) || LexLe(b, a)
    decreases |a|
  {
    if a != [] && b != [] && a[0] == b[0] {
      LexLeTotal(a[1..], b[1..]);
    }
  }

  lemma {:induction false} LexLeTransitive(a: seq<int>, b: seq<int>, c: seq<int>)
    requires LexLe(a, b) && LexLe(b, c)
    ensures LexLe(a, c)
    decreases |a|
  {
    if a != [] && a[0] == b[0] && b[0] == c[0] {
      LexLeTransitive(a[1..], b[1..], c[1..]);
    }
  }

  lemma {:induction false} LexLeAntisymmetric(a: seq<int>, b: seq<int>)
    requires LexLe(a, b) && LexLe(b, a)
    ensures a == b
    decreases |a|
  {
    if a != [] {
      LexLeAntisymmetric(a[1..], b[1..]);
      assert a == [a[0]] + a[1..];
      assert b == [b[0]] + b[1..];
    }
  }

  /** Every element's key is at most every later element's key. */
  predicate SortedBy<T>(s: seq<T>, key: T -> seq<int>) {
    forall i, j :: 0 <= i < j < |s| ==> LexLe(key(s[i]), key(s[j]))
  }

  /** `[y]` if `y` carries key `k`, else nothing. */
  function Own<T>(y: T, key: T -> seq<int>, k: seq<int>): seq<T> {
    if key(y) == k then [y] else []
  }

  /** The elements of `s` whose key is `k`, in their order in `s`. */
  function WithKey<T>(s: seq<T>, key: T -> seq<int>, k: seq<int>): seq<T>
  {
    if s == [] then [] else Own(s[0], key, k) + WithKey(s[1..], key, k)
  }

  /** `s` is a stable rearrangement of `t`: for every key, the elements carrying it keep their relative order. */
  ghost predicate StableOf<T>(s: seq<T>, t: seq<T>, key: T -> seq<int>) {
    forall k :: WithKey(s, key, k) == WithKey(t, key, k)
  }

  /** Place `x` in front of the first element whose key is not below its own. */
  function Insert<T>(x: T, s: seq<T>, key: T -> seq<int>): seq<T>
  {
    if s == [] then [x]
    else if LexLe(key(x), key(s[0])) then [x] + s
    else [s[0]] + Insert(x, s[1..], key)
  }

  /** Stable insertion sort, ascending by key. */
  function Sort<T>(s: seq<T>, key: T -> seq<int>): seq<T>
  {
    if s == [] then [] else Insert(s[0], Sort(s[1..], key), key)
  }

  lemma {:induction false} InsertLength<T>(x: T, s: seq<T>, key: T -> seq<int>)
    ensures |Insert(x, s, key)| == |s| + 1
  {
    if s != [] && !LexLe(key(x), key(s[0])) {
      InsertLength(x, s[1..], key);
    }
  }

  lemma {:induction false} SortLength<T>(s: seq<T>, key: T -> seq<int>)
    ensures |Sort(s, key)| == |s|
  {
    if s != [] {
      SortLength(s[1..], key);
      InsertLength(s[0], Sort(s[1..], key), key);
    }
  }

  lemma SortCons<T>(s: seq<T>, key: T -> seq<int>)
    requires s != []
    ensures Sort(s, key) == Insert(s[0], Sort(s[1..], key), key)
  {
  }

  lemma {:induction false} InsertPermutes<T>(x: T, s: seq<T>, key: T -> seq<int>)
    ensures multiset(Insert(x, s, key)) == multiset(s) + multiset{x}
  {
    if s != [] && !LexLe(key(x), key(s[0])) {
      InsertPermutes(x, s[1..], key);
      assert s == [s[0]] + s[1..];
    }
  }

  /** Every key in `s` is at least `lo`. */
  predicate AllAbove<T>(lo: seq<int>, s: seq<T>, key: T -> seq<int>) {
    forall i :: 0 <= i < |s| ==> LexLe(lo, key(s[i]))
  }

  /** A sorted sequence stays sorted under a new first element whose key bounds it from below. */
  lemma SortedCons<T>(y: T, t: seq<T>, key: T -> seq<int>)
    requires SortedBy(t, key) && AllAbove(key(y), t, key)
    ensures SortedBy([y] + t, key)
  {
    var r := [y] + t;
    forall i, j | 0 <= i < j < |r| ensures LexLe(key(r[i]), key(r[j])) {
      assert r[j] == t[j - 1];
      if i > 0 {
        assert r[i] == t[i - 1];
      }
    }
  }

  /** Inserting an element above a lower bound keeps every key above it. */
  lemma {:induction false} InsertAbove<T>(x: T, s: seq<T>, key: T -> seq<int>, lo: seq<int>)
    requires AllAbove(lo, s, key) && LexLe(lo, key(x))
    ensures AllAbove(lo, Insert(x, s, key), key)
  {
    if s != [] && !LexLe(key(x), key(s[0])) {
      InsertAbove(x, s[1..], key, lo);
      var r := [s[0]] + Insert(x, s[1..], key);
      assert Insert(x, s, key) == r;
      forall i | 0 <= i < |r| ensures LexLe(lo, key(r[i])) {
        if i > 0 {
          assert r[i] == Insert(x, s[1..], key)[i - 1];
        }
      }
    }
  }

  lemma {:induction false} InsertSorted<T>(x: T, s: seq<T>, key: T -> seq<int>)
    requires SortedBy(s, key)
    ensures SortedBy(Insert(x, s, key), key)
  {
    if s == [] {
    } else if LexLe(key(x), key(s[0])) {
      forall j | 0 <= j < |s| ensures LexLe(key(x), key(s[j])) {
        if j > 0 {
          LexLeTransitive(key(x), key(s[0]), key(s[j]));
        }
      }
      SortedCons(x, s, key);
    } else {
      LexLeTotal(key(x), key(s[0]));
      InsertSorted(x, s[1..], key);
      assert AllAbove(key(s[0]), s[1..], key) by {
        forall j | 0 <= j < |s[1..]| ensures LexLe(key(s[0]), key(s[1..][j])) {
          assert s[1..][j] == s[j + 1];
        }
      }
      InsertAbove(x, s[1..], key, key(s[0]));
      SortedCons(s[0], Insert(x, s[1..], key), key);
    }
  }

  lemma {:induction false} InsertStable<T>(x: T, s: seq<T>, key: T -> seq<int>, k: seq<int>)
    ensures WithKey(Insert(x, s, key), key, k) == Own(x, key, k) + WithKey(s, key, k)
  {
    if s == [] {
    } else if LexLe(key(x), key(s[0])) {
      InsertInFront(x, s, key, k);
    } else {
      InsertStable(x, s[1..], key, k);
      InsertBehind(x, s, key, k);
    }
  }

  lemma InsertInFront<T>(x: T, s: seq<T>, key: T -> seq<int>, k: seq<int>)
    requires s != [] && LexLe(key(x), key(s[0]))
    ensures WithKey(Insert(x, s, key), key, k) == Own(x, key, k) + WithKey(s, key, k)
  {
    assert Insert(x, s, key) == [x] + s;
    WithKeyCons(x, s, key, k);
  }

  /** Passing over an element with a smaller key cannot reorder elements of one key. */
  lemma InsertBehind<T>(x: T, s: seq<T>, key: T -> seq<int>, k: seq<int>)
    requires s != [] && !LexLe(key(x), key(s[0]))
    requires WithKey(Insert(x, s[1..], key), key, k) == Own(x, key, k) + WithKey(s[1..], key, k)
    ensures WithKey(Insert(x, s, key), key, k) == Own(x, key, k) + WithKey(s, key, k)
  {
    LexLeReflexive(key(x));
    var tail := Insert(x, s[1..], key);
    assert Insert(x, s, key) == [s[0]] + tail;
    WithKeyCons(s[0], tail, key, k);
    assert s == [s[0]] + s[1..];
    WithKeyCons(s[0], s[1..], key, k);
    SwapEmpty(Own(s[0], key, k), Own(x, key, k), WithKey(s[1..], key, k));
  }

  /** Two prefixes commute when one of them is empty. */
  lemma SwapEmpty<T>(a: seq<T>, b: seq<T>, w: seq<T>)
    requires a == [] || b == []
    ensures a + (b + w) == b + (a + w)
  {
    if a == [] {
      assert a + (b + w) == b + w == b + (a + w);
    } else {
      assert a + (b + w) == a + w == b + (a + w);
    }
  }

  lemma WithKeyCons<T>(y: T, t: seq<T>, key: T -> seq<int>, k: seq<int>)
    ensures WithKey([y] + t, key, k) == Own(y, key, k) + WithKey(t, key, k)
  {
    assert ([y] + t)[0] == y && ([y] + t)[1..] == t;
  }

  /** The sort returns a permutation of its input. */
  lemma {:induction false} SortPermutes<T>(s: seq<T>, key: T -> seq<int>)
    ensures multiset(Sort(s, key)) == multiset(s)
  {
    if s != [] {
      SortPermutes(s[1..], key);
      InsertPermutes(s[0], Sort(s[1..], key), key);
      assert s == [s[0]] + s[1..];
    }
  }

  /** The sort returns its input in ascending key order. */
  lemma {:induction false} SortSorted<T>(s: seq<T>, key: T -> seq<int>)
    ensures SortedBy(Sort(s, key), key)
  {
    if s != [] {
      SortSorted(s[1..], key);
      InsertSorted(s[0], Sort(s[1..], key), key);
    }
  }

  /** Elements with equal keys keep their input order. */
  lemma {:induction false} SortStable<T>(s: seq<T>, key: T -> seq<int>)
    ensures StableOf(Sort(s, key), s, key)
  {
    if s != [] {
      SortStable(s[1..], key);
      forall k ensures WithKey(Sort(s, key), key, k) == WithKey(s, key, k) {
        InsertStable(s[0], Sort(s[1..], key), key, k);
      }
    }
  }
}
