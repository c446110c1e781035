/** A stable sort by a comparator, standing for both JavaScript's
    `Array.prototype.toSorted` (stable by the language definition) and SQL
    ORDER BY (where this model keeps rows that compare equal in table order). */
module Sorting {
  import opened Seqs

  /** `le(a, b)`: `a` may come before `b`. */
  ghost predicate TotalPreorder<T(!new)>(le: (T, T) -> bool)
  {
    && (forall a, b :: le(a, b) || le(b, a))
    && (forall a, b, c :: le(a, b) && le(b, c) ==> le(a, c))
  }

  ghost predicate SortedBy<T>(s: seq<T>, le: (T, T) -> bool)
  {
    Pairwise(s, le)
  }

  /** The elements that compare equal to `z` in both directions. */
  function Equiv<T>(le: (T, T) -> bool, z: T): T -> bool
  {
    e => le(e, z) && le(z, e)
  }

  /** Insert `x` after every element that may precede it. */
  function Insert<T>(x: T, s: seq<T>, le: (T, T) -> bool): (r: seq<T>)
    ensures multiset(r) == multiset(s) + multiset{x}
    ensures |r| == |s| + 1
  {
    if s == [] then [x]
    else if le(s[0], x) then
      assert s == [s[0]] + s[1..];
      [s[0]] + Insert(x, s[1..], le)
    else [x] + s
  }

  /** Insertion sort, taking the input from left to right. */
  function SortBy<T>(s: seq<T>, le: (T, T) -> bool): (r: seq<T>)
    ensures multiset(r) == multiset(s)
    ensures |r| == |s|
  {
    if s == [] then []
    else
      assert s == s[..|s| - 1] + [s[|s| - 1]];
      Insert(s[|s| - 1], SortBy(s[..|s| - 1], le), le)
  }

  lemma {:induction false} InsertSorted<T(!new)>(x: T, s: seq<T>, le: (T, T) -> bool)
    requires TotalPreorder(le) && SortedBy(s, le)
    ensures SortedBy(Insert(x, s, le), le)
  {
    var r := Insert(x, s, le);
    if s == [] {
    } else if le(s[0], x) {
      InsertSorted(x, s[1..], le);
      var t := Insert(x, s[1..], le);
      assert r == [s[0]] + t;
      forall j | 0 <= j < |t| ensures le(s[0], t[j]) {
        assert t[j] in multiset(t);
        if t[j] != x {
          assert t[j] in s[1..];
          var k :| 0 <= k < |s[1..]| && s[1..][k] == t[j];
          assert s[k + 1] == t[j];
        }
      }
      forall i, j | 0 <= i < j < |r| ensures le(r[i], r[j]) {
        if i == 0 {
          assert r[j] == t[j - 1];
        } else {
          assert r[i] == t[i - 1] && r[j] == t[j - 1];
        }
      }
    } else {
      assert r == [x] + s;
      forall i, j | 0 <= i < j < |r| ensures le(r[i], r[j]) {
        if i == 0 {
          assert le(x, s[0]);
          if j > 1 {
            assert le(s[0], s[j - 1]);
          }
        } else {
          assert r[i] == s[i - 1] && r[j] == s[j - 1];
        }
      }
    }
  }

  /** Inserting into a sorted sequence puts `x` after every element equivalent
      to it: the elements equivalent to any `z` keep their order, with `x` last. */
  lemma {:induction false} InsertStable<T(!new)>(x: T, s: seq<T>, le: (T, T) -> bool, z: T)
    requires TotalPreorder(le) && SortedBy(s, le)
    ensures Filter(Insert(x, s, le), Equiv(le, z)) == Filter(s, Equiv(le, z)) + Filter([x], Equiv(le, z))
  {
    if s == [] {
      assert Insert(x, s, le) == [x];
    } else if le(s[0], x) {
      InsertStable(x, s[1..], le, z);
      InsertStablePassing(x, s, le, z);
    } else {
      InsertStableFront(x, s, le, z);
    }
  }

  /** `x` passes the first element: both filters begin with that element's share. */
  lemma InsertStablePassing<T>(x: T, s: seq<T>, le: (T, T) -> bool, z: T)
    requires s != [] && le(s[0], x)
    requires Filter(Insert(x, s[1..], le), Equiv(le, z)) == Filter(s[1..], Equiv(le, z)) + Filter([x], Equiv(le, z))
    ensures Filter(Insert(x, s, le), Equiv(le, z)) == Filter(s, Equiv(le, z)) + Filter([x], Equiv(le, z))
  {
    var q := Equiv(le, z);
    var head := if q(s[0]) then [s[0]] else [];
    InsertPassing(x, s, le);
    FilterCons(s[0], Insert(x, s[1..], le), q);
    ConcatAssoc(head, Filter(s[1..], q), Filter([x], q));
  }

  lemma InsertPassing<T>(x: T, s: seq<T>, le: (T, T) -> bool)
    requires s != [] && le(s[0], x)
    ensures Insert(x, s, le) == [s[0]] + Insert(x, s[1..], le)
  {
  }

  lemma InsertFront<T>(x: T, s: seq<T>, le: (T, T) -> bool)
    requires s != [] && !le(s[0], x)
    ensures Insert(x, s, le) == [x] + s
  {
  }

  /** `x` goes in front: no element after it is equivalent to it. */
  lemma InsertStableFront<T(!new)>(x: T, s: seq<T>, le: (T, T) -> bool, z: T)
    requires TotalPreorder(le) && SortedBy(s, le)
    requires s != [] && !le(s[0], x)
    ensures Filter(Insert(x, s, le), Equiv(le, z)) == Filter(s, Equiv(le, z)) + Filter([x], Equiv(le, z))
  {
    var q := Equiv(le, z);
    InsertFront(x, s, le);
    FilterAppend([x], s, q);
    FilterSingle(x, q);
    if q(x) {
      forall i | 0 <= i < |s| ensures !q(s[i]) {
        FrontNotEquiv(x, s, le, z, i);
      }
      FilterNone(s, q);
    }
  }

  /** An element of a sorted sequence that is equivalent to something `x`
      is equivalent to comes no earlier than `x`'s place after the first. */
  lemma FrontNotEquiv<T(!new)>(x: T, s: seq<T>, le: (T, T) -> bool, z: T, i: nat)
    requires TotalPreorder(le) && SortedBy(s, le)
    requires i < |s| && Equiv(le, z)(x)
    ensures Equiv(le, z)(s[i]) ==> le(s[0], x)
  {
    if i > 0 {
      assert le(s[0], s[i]);
    }
    if Equiv(le, z)(s[i]) {
      assert le(s[i], z) && le(z, x);
    }
  }

  /** The sort is stable: the elements equivalent to `z` appear in the output in
      the order they had in the input. */
  lemma {:induction false} SortStable<T(!new)>(s: seq<T>, le: (T, T) -> bool, z: T)
    requires TotalPreorder(le)
    ensures Filter(SortBy(s, le), Equiv(le, z)) == Filter(s, Equiv(le, z))
  {
    if s != [] {
      var init, last := s[..|s| - 1], s[|s| - 1];
      SortStable(init, le, z);
      SortSorted(init, le);
      InsertStable(last, SortBy(init, le), le, z);
      LastSplit(s);
      FilterAppend(init, [last], Equiv(le, z));
    }
  }

  lemma {:induction false} SortSorted<T(!new)>(s: seq<T>, le: (T, T) -> bool)
    requires TotalPreorder(le)
    ensures SortedBy(SortBy(s, le), le)
  {
    if s != [] {
      SortSorted(s[..|s| - 1], le);
      InsertSorted(s[|s| - 1], SortBy(s[..|s| - 1], le), le);
    }
  }

  /** Sorting a sequence without repetitions gives a sequence without repetitions. */
  lemma {:induction false} SortDistinct<T>(s: seq<T>, le: (T, T) -> bool)
    requires NoRepeats(s)
    ensures NoRepeats(SortBy(s, le))
  {
    var r := SortBy(s, le);
    forall i, j | 0 <= i < j < |r| ensures r[i] != r[j] {
      if r[i] == r[j] {
        TwiceInMultiset(r, i, j);
        DistinctMultiset(s, r[i]);
      }
    }
  }

  lemma TwiceInMultiset<T>(r: seq<T>, i: nat, j: nat)
    requires i < j < |r| && r[i] == r[j]
    ensures multiset(r)[r[i]] >= 2
  {
    assert r == r[..j] + [r[j]] + r[j + 1..];
    assert r[i] in r[..j];
  }

  lemma {:induction false} DistinctMultiset<T>(s: seq<T>, x: T)
    requires NoRepeats(s)
    ensures multiset(s)[x] <= 1
  {
    if s != [] {
      DistinctMultiset(s[1..], x);
      assert s == [s[0]] + s[1..];
      if s[0] == x {
        assert x !in s[1..];
      }
    }
  }
}
