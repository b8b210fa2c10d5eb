/** The stable sort `Array.prototype.sort` performs (ECMAScript 2019 and
    later require stability), for comparators that order by a two-level
    integer key. */
module Ordering {

  /** A lexicographic sort key: `major` first, `minor` on ties. */
  datatype Key = Key(major: int, minor: int)

  predicate KeyLe(a: Key, b: Key) {
    a.major < b.major || (a.major == b.major && a.minor <= b.minor)
  }

  predicate SortedBy<T>(s: seq<T>, key: T -> Key) {
    forall i, j :: 0 <= i < j < |s| ==> KeyLe(key(s[i]), key(s[j]))
  }

  /** The elements of `s` whose key is `k`, in their order in `s`. */
  function WithKey<T>(s: seq<T>, key: T -> Key, k: Key): seq<T>
  {
    if |s| == 0 then []
    else (if key(s[0]) == k then [s[0]] else []) + WithKey(s[1..], key, k)
  }

  /** Places `x` in front of the first element whose key is not smaller. */
  function Insert<T>(x: T, s: seq<T>, key: T -> Key): (r: seq<T>)
    ensures multiset(r) == multiset(s) + multiset{x}
    ensures forall k :: WithKey(r, key, k) == (if key(x) == k then [x] else []) + WithKey(s, key, k)
  {
    if |s| == 0 then [x]
    else if KeyLe(key(x), key(s[0])) then
      var r := [x] + s;
      assert r[1..] == s;
      r
    else
      var t := Insert(x, s[1..], key);
      var r := [s[0]] + t;
      assert s == [s[0]] + s[1..];
      InsertBehind(x, s, t, key);
      r
  }

  /** Putting the first element of `s` in front of an insertion into the
      rest of `s`, when `x` does not belong before that element, keeps the
      elements of each key and their order. */
  lemma InsertBehind<T>(x: T, s: seq<T>, t: seq<T>, key: T -> Key)
    requires |s| > 0 && !KeyLe(key(x), key(s[0]))
    requires forall k :: WithKey(t, key, k) == (if key(x) == k then [x] else []) + WithKey(s[1..], key, k)
    ensures forall k :: WithKey([s[0]] + t, key, k) == (if key(x) == k then [x] else []) + WithKey(s, key, k)
  {
    var r := [s[0]] + t;
    assert r[1..] == t;
    forall k ensures WithKey(r, key, k) == (if key(x) == k then [x] else []) + WithKey(s, key, k) {
      var p := if key(s[0]) == k then [s[0]] else [];
      var q := if key(x) == k then [x] else [];
      assert WithKey(r, key, k) == p + WithKey(t, key, k);
      assert WithKey(s, key, k) == p + WithKey(s[1..], key, k);
      assert p == [] || q == [];
    }
  }

  /** Inserting into a sorted sequence keeps it sorted. */
  lemma {:induction false} InsertSorted<T>(x: T, s: seq<T>, key: T -> Key)
    requires SortedBy(s, key)
    ensures SortedBy(Insert(x, s, key), key)
  {
    if |s| > 0 && !KeyLe(key(x), key(s[0])) {
      var t := Insert(x, s[1..], key);
      InsertSorted(x, s[1..], key);
      var r := [s[0]] + t;
      forall i, j | 0 <= i < j < |r| ensures KeyLe(key(r[i]), key(r[j])) {
        if i == 0 {
          assert r[j] in multiset(t);
          assert r[j] in multiset(s[1..]) + multiset{x};
          if r[j] != x {
            assert r[j] in s[1..];
            var m :| 0 <= m < |s[1..]| && s[1..][m] == r[j];
            assert s[m + 1] == r[j];
          }
        } else {
          assert r[i] == t[i - 1] && r[j] == t[j - 1];
        }
      }
    }
  }

  /** Stable insertion sort: ascending by key, equal keys in input order. */
  function SortBy<T>(s: seq<T>, key: T -> Key): (r: seq<T>)
    ensures SortedBy(r, key)
    ensures multiset(r) == multiset(s)
    ensures forall k :: WithKey(r, key, k) == WithKey(s, key, k)
  {
    if |s| == 0 then []
    else
      var t := SortBy(s[1..], key);
      var r := Insert(s[0], t, key);
      InsertSorted(s[0], t, key);
      assert s == [s[0]] + s[1..];
      r
  }

  /** A prefix of a sorted sequence is sorted. */
  lemma PrefixSorted<T>(s: seq<T>, key: T -> Key, n: nat)
    requires SortedBy(s, key) && n <= |s|
    ensures SortedBy(s[..n], key)
  {
    assert forall i :: 0 <= i < n ==> s[..n][i] == s[i];
  }

  /** A sorted permutation whose elements of every key keep their input
      order is determined by its input: the stable sort is unique. */
  lemma {:induction false} StableSortUnique<T>(s: seq<T>, a: seq<T>, b: seq<T>, key: T -> Key)
    requires SortedBy(a, key) && SortedBy(b, key)
    requires forall k :: WithKey(a, key, k) == WithKey(s, key, k)
    requires forall k :: WithKey(b, key, k) == WithKey(s, key, k)
    ensures a == b
    decreases |a| + |b|
  {
    WithKeyLength(a, key);
    WithKeyLength(b, key);
    if |a| > 0 && |b| > 0 {
      var ka, kb := key(a[0]), key(b[0]);
      // a[0] has the least key of a, b[0] the least of b; both hold the same elements.
      assert WithKey(a, key, ka) != [];
      assert WithKey(b, key, ka) != [] by { assert WithKey(b, key, ka) == WithKey(a, key, ka); }
      WithKeyMember(b, key, ka);
      WithKeyMember(a, key, kb);
      assert WithKey(a, key, kb) != [] by { assert WithKey(a, key, kb) == WithKey(b, key, kb); }
      assert ka == kb by {
        var i :| 0 <= i < |b| && key(b[i]) == ka;
        var j :| 0 <= j < |a| && key(a[j]) == kb;
        assert KeyLe(kb, ka);
        assert KeyLe(ka, kb);
      }
      assert a[0] == b[0] by {
        assert WithKey(a, key, ka)[0] == a[0];
        assert WithKey(b, key, ka)[0] == b[0];
      }
      forall k ensures WithKey(a[1..], key, k) == WithKey(b[1..], key, k) {
        var p := if key(a[0]) == k then [a[0]] else [];
        assert WithKey(a, key, k) == p + WithKey(a[1..], key, k);
        assert WithKey(b, key, k) == p + WithKey(b[1..], key, k);
        assert WithKey(a, key, k) == WithKey(b, key, k);
        assert WithKey(a[1..], key, k) == (p + WithKey(a[1..], key, k))[|p|..];
        assert WithKey(b[1..], key, k) == (p + WithKey(b[1..], key, k))[|p|..];
      }
      var s' := a[1..];
      forall k ensures WithKey(a[1..], key, k) == WithKey(s', key, k) { }
      StableSortUnique(s', a[1..], b[1..], key);
      assert a == [a[0]] + a[1..];
      assert b == [b[0]] + b[1..];
    } else if |a| > 0 || |b| > 0 {
      // one side holds an element whose key the other side lacks
      assert false;
    }
  }

  lemma {:induction false} WithKeyMember<T>(s: seq<T>, key: T -> Key, k: Key)
    ensures WithKey(s, key, k) != [] <==> exists i :: 0 <= i < |s| && key(s[i]) == k
  {
    if |s| > 0 {
      WithKeyMember(s[1..], key, k);
      if exists i :: 0 <= i < |s| && key(s[i]) == k {
        var i :| 0 <= i < |s| && key(s[i]) == k;
        if i > 0 {
          assert key(s[1..][i - 1]) == k;
        }
      }
      if exists i :: 0 <= i < |s[1..]| && key(s[1..][i]) == k {
        var i :| 0 <= i < |s[1..]| && key(s[1..][i]) == k;
        assert key(s[i + 1]) == k;
      }
    }
  }

  lemma {:induction false} WithKeyLength<T>(s: seq<T>, key: T -> Key)
    ensures |s| > 0 ==> WithKey(s, key, key(s[0])) != []
  {
  }
}

/** Order-preserving selection of elements, as `Array.prototype.filter`. */
module Selection {
  import opened Ordering

  /** `r` can be obtained from `s` by deleting elements. */
  predicate Subsequence<T(==)>(r: seq<T>, s: seq<T>)
    decreases |s|
  {
    |r| == 0 || (|s| > 0 && (if r[0] == s[0] then Subsequence(r[1..], s[1..]) else Subsequence(r, s[1..])))
  }

  /** `s.filter(p)`: every element passing the test, as often as it
      occurs, in order. */
  function Filter<T(==,!new)>(s: seq<T>, p: T -> bool): (r: seq<T>)
    ensures forall x :: x in r <==> x in s && p(x)
    ensures forall x :: multiset(r)[x] == if p(x) then multiset(s)[x] else 0
    ensures forall i :: 0 <= i < |r| ==> p(r[i])
    ensures Subsequence(r, s)
    ensures |r| <= |s|
  {
    if |s| == 0 then []
    else
      var rest := Filter(s[1..], p);
      var r := if p(s[0]) then [s[0]] + rest else rest;
      FilterStep(s, p, rest, r);
      r
  }

  /** What `Filter` promises of `r` against `s`, apart from order. */
  ghost predicate KeepsPassing<T(!new)>(r: seq<T>, s: seq<T>, p: T -> bool) {
    && (forall x :: x in r <==> x in s && p(x))
    && (forall x :: multiset(r)[x] == if p(x) then multiset(s)[x] else 0)
    && (forall i :: 0 <= i < |r| ==> p(r[i]))
    && |r| <= |s|
  }

  /** Deciding the first element keeps the promise for the rest. */
  lemma FilterStep<T(!new)>(s: seq<T>, p: T -> bool, rest: seq<T>, r: seq<T>)
    requires |s| > 0 && KeepsPassing(rest, s[1..], p) && Subsequence(rest, s[1..])
    requires r == if p(s[0]) then [s[0]] + rest else rest
    ensures KeepsPassing(r, s, p) && Subsequence(r, s)
  {
    assert forall x :: x in s <==> x == s[0] || x in s[1..];
    assert multiset(s) == multiset{s[0]} + multiset(s[1..]) by {
      assert s == [s[0]] + s[1..];
    }
    if p(s[0]) {
      assert r[1..] == rest;
    }
  }

  /** `s.map(f)`. */
  function Map<T, U>(s: seq<T>, f: T -> U): (r: seq<U>)
    ensures |r| == |s|
    ensures forall i :: 0 <= i < |s| ==> r[i] == f(s[i])
  {
    if |s| == 0 then [] else [f(s[0])] + Map(s[1..], f)
  }

  /** Filtering a sequence with one more element in front. */
  lemma FilterCons<T(!new)>(x: T, s: seq<T>, p: T -> bool)
    ensures Filter([x] + s, p) == (if p(x) then [x] else []) + Filter(s, p)
  {
    assert ([x] + s)[1..] == s;
  }

  /** Keeping everything that satisfies a test every element passes
      changes nothing. */
  lemma {:induction false} FilterAll<T(!new)>(s: seq<T>, p: T -> bool)
    requires forall i :: 0 <= i < |s| ==> p(s[i])
    ensures Filter(s, p) == s
  {
    if |s| > 0 {
      FilterAll(s[1..], p);
    }
  }

  /** `s.slice(0, n)`. */
  function Take<T>(s: seq<T>, n: int): (r: seq<T>)
    ensures |r| == if n <= 0 then 0 else if n < |s| then n else |s|
    ensures forall i :: 0 <= i < |r| ==> r[i] == s[i]
  {
    if n <= 0 then [] else if n < |s| then s[..n] else s
  }

  lemma TakePrefix<T>(s: seq<T>, n: int)
    ensures Take(s, n) == s[..|Take(s, n)|]
  {
  }

  /** Cutting a sequence short keeps a prefix of each key's elements. */
  lemma {:induction false} WithKeyTake<T>(s: seq<T>, key: T -> Key, k: Key, n: int)
    ensures var chosen := WithKey(Take(s, n), key, k);
      var all := WithKey(s, key, k);
      |chosen| <= |all| && chosen == all[..|chosen|]
  {
    if n > 0 && |s| > 0 {
      WithKeyTake(s[1..], key, k, n - 1);
      var t := Take(s, n);
      assert t == [s[0]] + Take(s[1..], n - 1);
      assert t[1..] == Take(s[1..], n - 1);
    }
  }
}
