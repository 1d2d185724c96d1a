/** Python's `sorted(xs, key=...)`. Its result is the stable arrangement of `xs` by key, which
    `StableArrangementIsUnique` shows to be unique, so any stable algorithm may stand for it. And
    rearrangements of any kind. */
module Sorting {

  function Insert<T>(x: T, s: seq<T>, key: T -> real): seq<T> {
    if s == [] || key(x) <= key(s[0]) then [x] + s
    else [s[0]] + Insert(x, s[1..], key)
  }

  function SortBy<T>(s: seq<T>, key: T -> real): seq<T> {
    if s == [] then [] else Insert(s[0], SortBy(s[1..], key), key)
  }

  ghost predicate Sorted<T>(s: seq<T>, key: T -> real) {
    forall i, j | 0 <= i < j < |s| :: key(s[i]) <= key(s[j])
  }

  /** The elements of `s` whose key is `v`, in their order in `s`. */
  function Level<T>(s: seq<T>, key: T -> real, v: real): seq<T> {
    if s == [] then []
    else (if key(s[0]) == v then [s[0]] else []) + Level(s[1..], key, v)
  }

  ghost predicate SameLevels<T>(s: seq<T>, t: seq<T>, key: T -> real) {
    forall v :: Level(s, key, v) == Level(t, key, v)
  }

  /** `t` is sorted by key and keeps the order that elements of equal key have in `s`. */
  ghost predicate StableArrangement<T>(s: seq<T>, t: seq<T>, key: T -> real) {
    Sorted(t, key) && SameLevels(s, t, key)
  }

  lemma {:induction false} LevelCons<T>(x: T, s: seq<T>, key: T -> real, v: real)
    ensures Level([x] + s, key, v) == (if key(x) == v then [x] else []) + Level(s, key, v)
  {
    assert ([x] + s)[1..] == s;
  }

  lemma {:induction false} LevelAppend<T>(s: seq<T>, t: seq<T>, key: T -> real, v: real)
    ensures Level(s + t, key, v) == Level(s, key, v) + Level(t, key, v)
  {
    if s == [] {
      assert s + t == t;
    } else {
      var head := if key(s[0]) == v then [s[0]] else [];
      assert (s + t)[0] == s[0] && (s + t)[1..] == s[1..] + t;
      calc {
        Level(s + t, key, v);
        head + Level(s[1..] + t, key, v);
        { LevelAppend(s[1..], t, key, v); }
        head + (Level(s[1..], key, v) + Level(t, key, v));
        (head + Level(s[1..], key, v)) + Level(t, key, v);
      }
    }
  }

  lemma {:induction false} InsertKeepsElements<T>(x: T, s: seq<T>, key: T -> real)
    ensures multiset(Insert(x, s, key)) == multiset{x} + multiset(s)
  {
    if s == [] || key(x) <= key(s[0]) {
    } else {
      InsertKeepsElements(x, s[1..], key);
      assert s == [s[0]] + s[1..];
    }
  }

  lemma {:induction false} InsertKeepsLevels<T>(x: T, s: seq<T>, key: T -> real, v: real)
    requires Sorted(s, key)
    ensures Level(Insert(x, s, key), key, v) == (if key(x) == v then [x] else []) + Level(s, key, v)
  {
    if s == [] || key(x) <= key(s[0]) {
      LevelCons(x, s, key, v);
    } else {
      InsertKeepsLevels(x, s[1..], key, v);
      LevelCons(s[0], Insert(x, s[1..], key), key, v);
      if key(x) == v {
        assert key(s[0]) != v;
      }
    }
  }

  lemma {:induction false} InsertKeepsSorted<T>(x: T, s: seq<T>, key: T -> real)
    requires Sorted(s, key)
    ensures Sorted(Insert(x, s, key), key)
  {
    if s == [] || key(x) <= key(s[0]) {
    } else {
      var t := Insert(x, s[1..], key);
      InsertKeepsSorted(x, s[1..], key);
      InsertKeepsElements(x, s[1..], key);
      forall i | 0 <= i < |t| ensures key(s[0]) <= key(t[i]) {
        assert t[i] in multiset(t);
        assert t[i] == x || t[i] in s[1..];
      }
    }
  }

  lemma {:induction false} SortIsStable<T>(s: seq<T>, key: T -> real)
    ensures StableArrangement(s, SortBy(s, key), key)
  {
    if s == [] {
    } else {
      var t := SortBy(s[1..], key);
      SortIsStable(s[1..], key);
      InsertKeepsSorted(s[0], t, key);
      forall v ensures Level(s, key, v) == Level(SortBy(s, key), key, v) {
        InsertKeepsLevels(s[0], t, key, v);
        assert Level(s[1..], key, v) == Level(t, key, v);
      }
    }
  }

  lemma {:induction false} SortKeepsElements<T>(s: seq<T>, key: T -> real)
    ensures multiset(SortBy(s, key)) == multiset(s)
  {
    if s == [] {
    } else {
      SortKeepsElements(s[1..], key);
      InsertKeepsElements(s[0], SortBy(s[1..], key), key);
      assert s == [s[0]] + s[1..];
    }
  }

  lemma {:induction false} LevelNonempty<T>(s: seq<T>, key: T -> real, x: T)
    requires x in s
    ensures Level(s, key, key(x)) != []
  {
    if x == s[0] {
    } else {
      LevelNonempty(s[1..], key, x);
    }
  }

  lemma {:induction false} LevelMember<T>(s: seq<T>, key: T -> real, v: real)
    requires Level(s, key, v) != []
    ensures exists i :: 0 <= i < |s| && key(s[i]) == v
  {
    if key(s[0]) == v {
    } else {
      LevelMember(s[1..], key, v);
      var i :| 0 <= i < |s[1..]| && key(s[1..][i]) == v;
      assert s[i + 1] == s[1..][i];
    }
  }

  /** The heads of two sorted sequences with the same levels have the same key. */
  lemma {:induction false} HeadNotAfter<T>(t: seq<T>, u: seq<T>, key: T -> real)
    requires SameLevels(t, u, key) && Sorted(u, key) && t != []
    ensures u != [] && key(u[0]) <= key(t[0])
  {
    LevelNonempty(t, key, t[0]);
    assert Level(t, key, key(t[0])) == Level(u, key, key(t[0]));
    LevelMember(u, key, key(t[0]));
  }

  lemma {:induction false} SortedSameLevelsEqual<T>(t: seq<T>, u: seq<T>, key: T -> real)
    requires SameLevels(t, u, key) && Sorted(t, key) && Sorted(u, key)
    ensures t == u
  {
    if t == [] {
      if u != [] {
        HeadNotAfter(u, t, key);
      }
    } else {
      HeadNotAfter(t, u, key);
      HeadNotAfter(u, t, key);
      var v := key(t[0]);
      assert Level(t, key, v) == Level(u, key, v);
      assert Level(t, key, v)[0] == t[0] && Level(u, key, v)[0] == u[0];
      forall w ensures Level(t[1..], key, w) == Level(u[1..], key, w) {
        var head := if key(t[0]) == w then [t[0]] else [];
        assert Level(t, key, w) == head + Level(t[1..], key, w);
        assert Level(u, key, w) == head + Level(u[1..], key, w);
        assert Level(t, key, w)[|head|..] == Level(t[1..], key, w);
        assert Level(u, key, w)[|head|..] == Level(u[1..], key, w);
      }
      SortedSameLevelsEqual(t[1..], u[1..], key);
      assert t == [t[0]] + t[1..] && u == [u[0]] + u[1..];
    }
  }

  /** There is only one stable arrangement, and `SortBy` computes it. */
  lemma StableArrangementIsUnique<T>(s: seq<T>, t: seq<T>, key: T -> real)
    ensures StableArrangement(s, t, key) <==> t == SortBy(s, key)
  {
    SortIsStable(s, key);
    if StableArrangement(s, t, key) {
      forall v ensures Level(t, key, v) == Level(SortBy(s, key), key, v) {
        assert Level(t, key, v) == Level(s, key, v);
      }
      SortedSameLevelsEqual(t, SortBy(s, key), key);
    }
  }

  /** Sequences with the same levels sort to the same sequence. */
  lemma SameLevelsSortAlike<T>(s: seq<T>, t: seq<T>, key: T -> real)
    requires SameLevels(s, t, key)
    ensures SortBy(s, key) == SortBy(t, key)
  {
    SortIsStable(s, key);
    forall v ensures Level(t, key, v) == Level(SortBy(s, key), key, v) {
      assert Level(t, key, v) == Level(s, key, v);
      assert Level(s, key, v) == Level(SortBy(s, key), key, v);
    }
    StableArrangementIsUnique(t, SortBy(s, key), key);
  }

  lemma SortIdempotent<T>(s: seq<T>, key: T -> real)
    ensures SortBy(SortBy(s, key), key) == SortBy(s, key)
  {
    SortIsStable(s, key);
    StableArrangementIsUnique(SortBy(s, key), SortBy(s, key), key);
  }

  lemma SortedIsFixed<T>(s: seq<T>, key: T -> real)
    requires Sorted(s, key)
    ensures SortBy(s, key) == s
  {
    StableArrangementIsUnique(s, s, key);
  }

  function Flatten<T>(ss: seq<seq<T>>): seq<T> {
    if ss == [] then [] else ss[0] + Flatten(ss[1..])
  }

  function SortEach<T>(ss: seq<seq<T>>, key: T -> real): seq<seq<T>> {
    if ss == [] then [] else [SortBy(ss[0], key)] + SortEach(ss[1..], key)
  }

  lemma {:induction false} FlattenSnoc<T>(ss: seq<seq<T>>, s: seq<T>)
    ensures Flatten(ss + [s]) == Flatten(ss) + s
  {
    if ss == [] {
      assert ss + [s] == [s];
      assert Flatten([s]) == s + Flatten<T>([]);
    } else {
      FlattenSnoc(ss[1..], s);
      assert (ss + [s])[1..] == ss[1..] + [s];
    }
  }

  lemma {:induction false} FlattenedLevels<T>(ss: seq<seq<T>>, key: T -> real)
    ensures SameLevels(Flatten(SortEach(ss, key)), Flatten(ss), key)
  {
    if ss == [] {
    } else {
      FlattenedLevels(ss[1..], key);
      SortIsStable(ss[0], key);
      forall v ensures Level(Flatten(SortEach(ss, key)), key, v) == Level(Flatten(ss), key, v) {
        LevelAppend(SortBy(ss[0], key), Flatten(SortEach(ss[1..], key)), key, v);
        LevelAppend(ss[0], Flatten(ss[1..]), key, v);
        assert SortEach(ss, key)[0] == SortBy(ss[0], key);
        assert SortEach(ss, key)[1..] == SortEach(ss[1..], key);
        assert Level(ss[0], key, v) == Level(SortBy(ss[0], key), key, v);
        assert Level(Flatten(SortEach(ss[1..], key)), key, v) == Level(Flatten(ss[1..]), key, v);
      }
    }
  }

  /** Sorting pieces first does not change the sorted whole. */
  lemma SortEachThenSort<T>(ss: seq<seq<T>>, key: T -> real)
    ensures SortBy(Flatten(SortEach(ss, key)), key) == SortBy(Flatten(ss), key)
  {
    FlattenedLevels(ss, key);
    SameLevelsSortAlike(Flatten(SortEach(ss, key)), Flatten(ss), key);
  }

  // ----- Rearrangements -----

  /** A rearrangement of the indices 0 to n - 1. */
  ghost predicate Permutation(p: seq<nat>, n: nat) {
    && |p| == n
    && (forall i | 0 <= i < n :: p[i] < n)
    && (forall i, j | 0 <= i < j < n :: p[i] != p[j])
    && (forall k: nat | k < n :: k in p)
  }

  function Arrange<T>(xs: seq<T>, p: seq<nat>): seq<T>
    requires forall i | 0 <= i < |p| :: p[i] < |xs|
  {
    seq(|p|, i requires 0 <= i < |p| => xs[p[i]])
  }

  lemma ArrangeKeepsMembers<T>(xs: seq<T>, p: seq<nat>)
    requires Permutation(p, |xs|)
    ensures forall x :: x in Arrange(xs, p) <==> x in xs
  {
    forall x | x in xs ensures x in Arrange(xs, p) {
      var k: nat :| k < |xs| && xs[k] == x;
      assert k in p;
      var i :| 0 <= i < |p| && p[i] == k;
      assert Arrange(xs, p)[i] == x;
    }
  }

  /** The order that is as given but for index i, which comes last. */
  function MoveLast(n: nat, i: nat): seq<nat>
    requires i < n
  {
    seq(n, k requires 0 <= k < n => if k < i then k else if k < n - 1 then k + 1 else i)
  }

  lemma MoveLastPermutes(n: nat, i: nat)
    requires i < n
    ensures Permutation(MoveLast(n, i), n)
  {
    var p := MoveLast(n, i);
    forall k: nat | k < n ensures k in p {
      var at := if k < i then k else if k == i then n - 1 else k - 1;
      assert p[at] == k;
    }
  }

  /** The order that is as given but for index i, which comes first. */
  function MoveFirst(n: nat, i: nat): seq<nat>
    requires i < n
  {
    seq(n, k requires 0 <= k < n => if k == 0 then i else if k <= i then k - 1 else k)
  }

  lemma MoveFirstPermutes(n: nat, i: nat)
    requires i < n
    ensures Permutation(MoveFirst(n, i), n)
  {
    var p := MoveFirst(n, i);
    forall k: nat | k < n ensures k in p {
      var at := if k < i then k + 1 else if k == i then 0 else k;
      assert p[at] == k;
    }
  }
}
