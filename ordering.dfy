/** Sequence operations the queries are built from: WHERE (Filter), LIMIT
    (Take), OFFSET (Drop), and ORDER BY ... DESC (SortDesc, a stable insertion
    sort on a two-part key), with the facts the pagination proofs rest on. */
module Ordering {

  /** A sort key compared lexicographically: `major` first, then `minor`. */
  datatype Key = Key(major: int, minor: int)

  predicate KeyLess(a: Key, b: Key)
  {
    a.major < b.major || (a.major == b.major && a.minor < b.minor)
  }

  predicate KeyLe(a: Key, b: Key)
  {
    !KeyLess(b, a)
  }

  /** Non-increasing by key, as ORDER BY key DESC leaves rows. */
  ghost predicate SortedDesc<T>(s: seq<T>, key: T -> Key)
  {
    forall i, j :: 0 <= i < j < |s| ==> KeyLe(key(s[j]), key(s[i]))
  }

  /** No two positions hold the same value of `f`. */
  ghost predicate UniqueBy<T, U>(s: seq<T>, f: T -> U)
  {
    forall i, j :: 0 <= i < j < |s| ==> f(s[i]) != f(s[j])
  }

  function Filter<T(!new)>(s: seq<T>, p: T -> bool): (r: seq<T>)
    ensures |r| <= |s|
    ensures forall x :: x in r <==> x in s && p(x)
  {
    if s == [] then []
    else (if p(s[0]) then [s[0]] else []) + Filter(s[1..], p)
  }

  /** LIMIT n. */
  function Take<T>(s: seq<T>, n: nat): (r: seq<T>)
    ensures |r| <= n && |r| <= |s|
    ensures |r| == n || |r| == |s|
    ensures r <= s
    ensures |s| <= n ==> r == s
  {
    if n <= |s| then s[..n] else s
  }

  /** OFFSET n. */
  function Drop<T>(s: seq<T>, n: nat): (r: seq<T>)
    ensures |r| == if n <= |s| then |s| - n else 0
    ensures forall i :: 0 <= i < |r| ==> r[i] == s[n + i]
  {
    if n <= |s| then s[n..] else []
  }

  /** Places `x` before the first element whose key is not above its own. */
  function Insert<T>(x: T, s: seq<T>, key: T -> Key): (r: seq<T>)
    ensures multiset(r) == multiset(s) + multiset{x}
    ensures |r| == |s| + 1
  {
    if s == [] || KeyLe(key(s[0]), key(x)) then [x] + s
    else
      assert s == [s[0]] + s[1..];
      [s[0]] + Insert(x, s[1..], key)
  }

  lemma {:induction false} InsertSorted<T>(x: T, s: seq<T>, key: T -> Key)
    requires SortedDesc(s, key)
    ensures SortedDesc(Insert(x, s, key), key)
  {
    if s != [] && !KeyLe(key(s[0]), key(x)) {
      InsertSorted(x, s[1..], key);
      var t := Insert(x, s[1..], key);
      forall i | 0 <= i < |t| ensures KeyLe(key(t[i]), key(s[0])) {
        assert t[i] in multiset(t);
        assert t[i] == x || t[i] in multiset(s[1..]);
      }
    }
  }

  /** ORDER BY key DESC with ties kept in their input order. */
  function SortDesc<T>(s: seq<T>, key: T -> Key): (r: seq<T>)
    ensures multiset(r) == multiset(s)
    ensures |r| == |s|
  {
    if s == [] then []
    else
      assert s == [s[0]] + s[1..];
      Insert(s[0], SortDesc(s[1..], key), key)
  }

  /** The result of SortDesc is in descending key order. */
  lemma {:induction false} SortDescSorted<T>(s: seq<T>, key: T -> Key)
    ensures SortedDesc(SortDesc(s, key), key)
  {
    if s != [] {
      SortDescSorted(s[1..], key);
      InsertSorted(s[0], SortDesc(s[1..], key), key);
    }
  }

  lemma SortedMembers<T>(s: seq<T>, key: T -> Key)
    ensures forall x :: x in SortDesc(s, key) <==> x in s
  {
    var r := SortDesc(s, key);
    forall x ensures x in r <==> x in s {
      assert x in r <==> x in multiset(r);
      assert x in s <==> x in multiset(s);
    }
  }

  lemma {:induction false} FilterAll<T(!new)>(s: seq<T>, p: T -> bool)
    requires forall x :: x in s ==> p(x)
    ensures Filter(s, p) == s
  {
    if s != [] {
      FilterAll(s[1..], p);
      assert s == [s[0]] + s[1..];
    }
  }

  lemma {:induction false} FilterNone<T(!new)>(s: seq<T>, p: T -> bool)
    requires forall x :: x in s ==> !p(x)
    ensures Filter(s, p) == []
  {
    if s != [] {
      FilterNone(s[1..], p);
    }
  }

  lemma FilterCons<T(!new)>(a: T, t: seq<T>, p: T -> bool)
    ensures Filter([a] + t, p) == (if p(a) then [a] else []) + Filter(t, p)
  {
    assert ([a] + t)[1..] == t;
  }

  /** Filtering two elements keeps each one on its own merit, in order. */
  lemma FilterTwo<T(!new)>(a: T, b: T, p: T -> bool)
    ensures Filter([a, b], p) == (if p(a) then [a] else []) + (if p(b) then [b] else [])
  {
    assert [a, b] == [a] + [b] && [b] == [b] + [];
    FilterCons(a, [b], p);
    FilterCons(b, [], p);
  }

  /** Sorting two elements puts the second first exactly when its key is
      strictly above the first's; equal keys keep their order. */
  lemma SortTwo<T>(a: T, b: T, key: T -> Key)
    ensures SortDesc([a, b], key) == if KeyLe(key(b), key(a)) then [a, b] else [b, a]
  {
    assert [a, b][1..] == [b];
    assert [b][1..] == [];
    assert SortDesc([b], key) == [b];
  }

  lemma FilterFirst<T(!new)>(x: T, t: seq<T>, key: T -> Key, p: T -> bool)
    requires SortedDesc(t, key) && t != [] && KeyLe(key(t[0]), key(x)) && p(x)
    ensures Insert(x, Filter(t, p), key) == [x] + Filter(t, p)
  {
    var ft := Filter(t, p);
    if ft != [] {
      assert ft[0] in t;
      var k :| 0 <= k < |t| && t[k] == ft[0];
      assert KeyLe(key(t[k]), key(t[0]));
    }
  }

  /** Filtering a descending sequence and then inserting gives what inserting
      and then filtering gives. */
  lemma {:induction false} FilterInsert<T(!new)>(x: T, t: seq<T>, key: T -> Key, p: T -> bool)
    requires SortedDesc(t, key)
    ensures Filter(Insert(x, t, key), p)
         == if p(x) then Insert(x, Filter(t, p), key) else Filter(t, p)
    decreases |t|, 1
  {
    if t == [] {
      FilterCons(x, [], p);
    } else if KeyLe(key(t[0]), key(x)) {
      assert Insert(x, t, key) == [x] + t;
      FilterCons(x, t, p);
      if p(x) {
        FilterFirst(x, t, key, p);
      }
    } else {
      FilterInsertLater(x, t, key, p);
    }
  }

  lemma {:induction false} FilterInsertLater<T(!new)>(x: T, t: seq<T>, key: T -> Key, p: T -> bool)
    requires SortedDesc(t, key) && t != [] && !KeyLe(key(t[0]), key(x))
    ensures Filter(Insert(x, t, key), p)
         == if p(x) then Insert(x, Filter(t, p), key) else Filter(t, p)
    decreases |t|, 0
  {
    var t0, t1 := t[0], t[1..];
    var f1 := Filter(t1, p);
    var head := if p(t0) then [t0] else [];
    assert Filter(Insert(x, t, key), p) == head + Filter(Insert(x, t1, key), p) by {
      InsertPastHead(x, t0, t1, key);
      assert t == [t0] + t1;
      FilterCons(t0, Insert(x, t1, key), p);
    }
    assert Filter(t, p) == head + f1 by {
      assert t == [t0] + t1;
      FilterCons(t0, t1, p);
    }
    assert SortedDesc(t1, key);
    FilterInsert(x, t1, key, p);
    if p(x) && p(t0) {
      InsertPastHead(x, t0, f1, key);
    } else if p(x) {
      assert [] + f1 == f1;
    }
  }

  /** An element keyed below the head is inserted into the tail. */
  lemma InsertPastHead<T>(x: T, t0: T, t: seq<T>, key: T -> Key)
    requires !KeyLe(key(t0), key(x))
    ensures Insert(x, [t0] + t, key) == [t0] + Insert(x, t, key)
  {
    assert ([t0] + t)[1..] == t;
  }

  /** Sorting commutes with filtering: a WHERE applied before ORDER BY selects
      exactly the rows it would select from the ordered result, in order. */
  lemma {:induction false} SortFilter<T(!new)>(s: seq<T>, key: T -> Key, p: T -> bool)
    ensures Filter(SortDesc(s, key), p) == SortDesc(Filter(s, p), key)
  {
    if s != [] {
      SortFilter(s[1..], key, p);
      SortDescSorted(s[1..], key);
      FilterInsert(s[0], SortDesc(s[1..], key), key, p);
      if p(s[0]) {
        assert Filter(s, p) == [s[0]] + Filter(s[1..], p);
      } else {
        assert Filter(s, p) == Filter(s[1..], p);
      }
    }
  }

  /** The rows strictly below key `c`. */
  function Below<T>(key: T -> Key, c: Key): T -> bool
  {
    x => KeyLess(key(x), c)
  }

  /** In a strictly descending sequence, the rows strictly below the key of
      position k - 1 are exactly the rows from position k on. */
  lemma {:induction false} BelowIsSuffix<T(!new)>(h: seq<T>, key: T -> Key, k: nat)
    requires SortedDesc(h, key) && UniqueBy(h, key)
    requires 0 < k <= |h|
    ensures Filter(h, Below(key, key(h[k - 1]))) == h[k..]
  {
    var c := key(h[k - 1]);
    assert !Below(key, c)(h[0]);
    if k == 1 {
      forall x | x in h[1..] ensures Below(key, c)(x) {
        var j :| 0 <= j < |h[1..]| && h[1..][j] == x;
        assert key(h[j + 1]) != key(h[0]);
      }
      FilterAll(h[1..], Below(key, c));
    } else {
      assert h[1..][k - 2] == h[k - 1];
      BelowIsSuffix(h[1..], key, k - 1);
      assert h[1..][k - 1..] == h[k..];
    }
  }

  /** A sequence with a head is unique exactly when its tail is and no tail
      element shares the head's value. */
  lemma UniqueCons<T, U>(a: T, t: seq<T>, f: T -> U)
    ensures UniqueBy([a] + t, f) <==> UniqueBy(t, f) && forall y :: y in t ==> f(y) != f(a)
  {
    var s := [a] + t;
    if UniqueBy(s, f) {
      forall i, j | 0 <= i < j < |t| ensures f(t[i]) != f(t[j]) {
        assert s[i + 1] == t[i] && s[j + 1] == t[j];
      }
      forall y | y in t ensures f(y) != f(a) {
        var k :| 0 <= k < |t| && t[k] == y;
        assert s[0] == a && s[k + 1] == y;
        assert f(s[0]) != f(s[k + 1]);
      }
    }
    if UniqueBy(t, f) && forall y :: y in t ==> f(y) != f(a) {
      forall i, j | 0 <= i < j < |s| ensures f(s[i]) != f(s[j]) {
        assert s[j] == t[j - 1];
        if 0 < i {
          assert s[i] == t[i - 1];
        }
      }
    }
  }

  lemma {:induction false} FilterUnique<T(!new), U>(s: seq<T>, p: T -> bool, f: T -> U)
    requires UniqueBy(s, f)
    ensures UniqueBy(Filter(s, p), f)
  {
    if s != [] {
      assert s == [s[0]] + s[1..];
      UniqueCons(s[0], s[1..], f);
      FilterUnique(s[1..], p, f);
      FilterCons(s[0], s[1..], p);
      if p(s[0]) {
        UniqueCons(s[0], Filter(s[1..], p), f);
      } else {
        assert Filter(s, p) == [] + Filter(s[1..], p);
      }
    }
  }

  lemma {:induction false} InsertUnique<T, U>(x: T, s: seq<T>, key: T -> Key, f: T -> U)
    requires UniqueBy(s, f)
    requires forall y :: y in s ==> f(y) != f(x)
    ensures UniqueBy(Insert(x, s, key), f)
  {
    if s != [] && !KeyLe(key(s[0]), key(x)) {
      InsertUnique(x, s[1..], key, f);
      var r := Insert(x, s, key);
      forall j | 1 <= j < |r| ensures f(r[0]) != f(r[j]) {
        assert r[j] in multiset(Insert(x, s[1..], key));
        if r[j] != x {
          assert r[j] in multiset(s[1..]);
          var k :| 0 <= k < |s[1..]| && s[1..][k] == r[j];
        }
      }
    }
  }

  lemma {:induction false} SortUnique<T, U>(s: seq<T>, key: T -> Key, f: T -> U)
    requires UniqueBy(s, f)
    ensures UniqueBy(SortDesc(s, key), f)
  {
    if s != [] {
      SortUnique(s[1..], key, f);
      SortedMembers(s[1..], key);
      forall y | y in SortDesc(s[1..], key) ensures f(y) != f(s[0]) {
        assert y in multiset(SortDesc(s[1..], key));
        assert y in multiset(s[1..]);
        var k :| 0 <= k < |s[1..]| && s[1..][k] == y;
      }
      InsertUnique(s[0], SortDesc(s[1..], key), key, f);
    }
  }
  /** OFFSET a then OFFSET b skips a + b rows. */
  lemma DropDrop<T>(s: seq<T>, a: nat, b: nat)
    ensures Drop(Drop(s, a), b) == Drop(s, a + b)
  {
  }

  /** The page of n rows followed by the page of m rows after it is the page
      of n + m rows. */
  lemma TakeDropTake<T>(s: seq<T>, n: nat, m: nat)
    ensures Take(s, n) + Take(Drop(s, n), m) == Take(s, n + m)
  {
    if n + m <= |s| {
      assert s[..n] + s[n..][..m] == s[..n + m];
    } else if n <= |s| {
      assert s[..n] + s[n..] == s;
    }
  }
  /** A prefix of h followed by a prefix of the rest of h is a prefix of h,
      and when h repeats no element the two parts share none. */
  lemma PrefixThenNext<T, U>(h: seq<T>, k: nat, p2: seq<T>, f: T -> U)
    requires k <= |h| && p2 <= h[k..]
    ensures h[..k] + p2 <= h
    ensures UniqueBy(h, f) ==> forall x :: x in h[..k] ==> x !in p2
  {
    assert h[..k] + p2 == h[..k + |p2|];
    if UniqueBy(h, f) {
      forall x | x in h[..k] ensures x !in p2 {
        var i :| 0 <= i < k && h[..k][i] == x;
        assert forall j :: 0 <= j < |p2| ==> p2[j] == h[k + j];
      }
    }
  }
}
