/** `Array.prototype.sort` and `toSorted` with a comparator `(a, b) => key(b) - key(a)`:
    a stable sort into descending order of an integer key. */
module Sorting {

  ghost predicate SortedDesc<T>(s: seq<T>, key: T -> int) {
    forall i, j :: 0 <= i < j < |s| ==> key(s[i]) >= key(s[j])
  }

  /** The elements of `s` whose key is `k`, in their order in `s`. */
  function WithKey<T>(s: seq<T>, key: T -> int, k: int): seq<T>
    decreases |s|
  {
    if |s| == 0 then [] else (if key(s[0]) == k then [s[0]] else []) + WithKey(s[1..], key, k)
  }

  /** Places `x` in front of the first element whose key is not larger than its own. */
  function Insert<T>(x: T, t: seq<T>, key: T -> int): (r: seq<T>)
    ensures |r| == |t| + 1
    ensures multiset(r) == multiset([x] + t)
    decreases |t|
  {
    if |t| == 0 || key(x) >= key(t[0]) then [x] + t
    else
      var r := [t[0]] + Insert(x, t[1..], key);
      calc {
        multiset(r);
        multiset([t[0]]) + multiset(Insert(x, t[1..], key));
        multiset([t[0]]) + multiset([x] + t[1..]);
        { assert t == [t[0]] + t[1..]; }
        multiset([x] + t);
      }
      r
  }

  /** Inserting an element no larger than a bound into elements no larger
      than it keeps every element within the bound. */
  lemma {:induction false} InsertBelow<T>(x: T, t: seq<T>, key: T -> int, b: int)
    requires key(x) <= b
    requires forall i :: 0 <= i < |t| ==> key(t[i]) <= b
    ensures forall i :: 0 <= i < |Insert(x, t, key)| ==> key(Insert(x, t, key)[i]) <= b
    decreases |t|
  {
    var r := Insert(x, t, key);
    if |t| == 0 || key(x) >= key(t[0]) {
      forall i | 0 <= i < |r| ensures key(r[i]) <= b {
        if i > 0 { assert r[i] == t[i - 1]; }
      }
    } else {
      var u := Insert(x, t[1..], key);
      InsertBelow(x, t[1..], key, b);
      forall i | 0 <= i < |r| ensures key(r[i]) <= b {
        if i > 0 { assert r[i] == u[i - 1]; }
      }
    }
  }

  lemma {:induction false} InsertSorted<T>(x: T, t: seq<T>, key: T -> int)
    requires SortedDesc(t, key)
    ensures SortedDesc(Insert(x, t, key), key)
    decreases |t|
  {
    var r := Insert(x, t, key);
    if |t| == 0 || key(x) >= key(t[0]) {
      forall i, j | 0 <= i < j < |r| ensures key(r[i]) >= key(r[j]) {
        assert r[j] == t[j - 1];
        if i > 0 { assert r[i] == t[i - 1]; }
        else { assert key(t[0]) >= key(t[j - 1]); }
      }
    } else {
      var u := Insert(x, t[1..], key);
      InsertSorted(x, t[1..], key);
      assert forall i :: 0 <= i < |t[1..]| ==> key(t[1..][i]) <= key(t[0]) by {
        forall i | 0 <= i < |t[1..]| ensures key(t[1..][i]) <= key(t[0]) {
          assert t[1..][i] == t[i + 1];
        }
      }
      InsertBelow(x, t[1..], key, key(t[0]));
      assert r == [t[0]] + u;
      forall i, j | 0 <= i < j < |r| ensures key(r[i]) >= key(r[j]) {
        assert r[j] == u[j - 1];
        if i > 0 { assert r[i] == u[i - 1]; }
      }
    }
  }

  function SortDesc<T>(s: seq<T>, key: T -> int): (r: seq<T>)
    ensures |r| == |s|
    ensures multiset(r) == multiset(s)
    decreases |s|
  {
    if |s| == 0 then [] else
      assert s == [s[0]] + s[1..];
      Insert(s[0], SortDesc(s[1..], key), key)
  }

  lemma {:induction false} SortSorted<T>(s: seq<T>, key: T -> int)
    ensures SortedDesc(SortDesc(s, key), key)
    decreases |s|
  {
    if |s| > 0 {
      SortSorted(s[1..], key);
      InsertSorted(s[0], SortDesc(s[1..], key), key);
    }
  }

  lemma WithKeyCons<T>(x: T, s: seq<T>, key: T -> int, k: int)
    ensures WithKey([x] + s, key, k) == (if key(x) == k then [x] else []) + WithKey(s, key, k)
  {
    assert ([x] + s)[1..] == s;
  }

  /** Moving `x` behind a `y` with a different key keeps the elements of
      any one key in order. */
  lemma SwapStable<T>(x: T, y: T, rest: seq<T>, u: seq<T>, key: T -> int, k: int)
    requires key(x) != key(y)
    requires WithKey(u, key, k) == WithKey([x] + rest, key, k)
    ensures WithKey([y] + u, key, k) == WithKey([x] + ([y] + rest), key, k)
  {
    var w := WithKey(rest, key, k);
    WithKeyCons(y, u, key, k);
    WithKeyCons(x, rest, key, k);
    WithKeyCons(x, [y] + rest, key, k);
    WithKeyCons(y, rest, key, k);
    if key(x) == k {
      assert WithKey([y] + u, key, k) == [] + ([x] + w);
      assert WithKey([x] + ([y] + rest), key, k) == [x] + ([] + w);
    } else if key(y) == k {
      assert WithKey([y] + u, key, k) == [y] + ([] + w);
      assert WithKey([x] + ([y] + rest), key, k) == [] + ([y] + w);
    } else {
      assert WithKey([y] + u, key, k) == [] + ([] + w);
      assert WithKey([x] + ([y] + rest), key, k) == [] + ([] + w);
    }
  }

  lemma {:induction false} InsertStable<T>(x: T, t: seq<T>, key: T -> int, k: int)
    ensures WithKey(Insert(x, t, key), key, k) == WithKey([x] + t, key, k)
    decreases |t|
  {
    if |t| > 0 && key(x) < key(t[0]) {
      InsertStable(x, t[1..], key, k);
      SwapStable(x, t[0], t[1..], Insert(x, t[1..], key), key, k);
      assert t == [t[0]] + t[1..];
    } else {
      assert Insert(x, t, key) == [x] + t;
    }
  }

  /** Stability: elements with equal keys keep their relative order. */
  lemma {:induction false} SortStable<T>(s: seq<T>, key: T -> int, k: int)
    ensures WithKey(SortDesc(s, key), key, k) == WithKey(s, key, k)
    decreases |s|
  {
    if |s| > 0 {
      SortStable(s[1..], key, k);
      InsertStable(s[0], SortDesc(s[1..], key), key, k);
      WithKeyCons(s[0], SortDesc(s[1..], key), key, k);
      assert s == [s[0]] + s[1..];
      WithKeyCons(s[0], s[1..], key, k);
    }
  }
}
