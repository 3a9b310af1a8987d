/** Python's `sorted` as the movie listing uses it: a stable sort under a
    key order, and the order Python puts on `str` values. */
module Sorting {
  import opened Seqs

  /** Python's `a <= b` on str: code points compared left to right, a proper
      prefix first. */
  predicate StrLe(a: string, b: string)
    decreases |a|
  {
    |a| == 0 || (|b| > 0 && (a[0] < b[0] || (a[0] == b[0] && StrLe(a[1..], b[1..]))))
  }

  lemma {:induction false} StrLeTotal(a: string, b: string)
    ensures StrLe(a, b) || StrLe(b, a)
    decreases |a|
  {
    if |a| > 0 && |b| > 0 && a[0] == b[0] {
      StrLeTotal(a[1..], b[1..]);
    }
  }

  lemma {:induction false} StrLeTransitive(a: string, b: string, c: string)
    requires StrLe(a, b) && StrLe(b, c)
    ensures StrLe(a, c)
    decreases |a|
  {
    if |a| > 0 && a[0] == b[0] && b[0] == c[0] {
      StrLeTransitive(a[1..], b[1..], c[1..]);
    }
  }

  /** `le` is a total preorder: what `sorted` needs of the key comparison. */
  ghost predicate TotalPreorder<T(!new)>(le: (T, T) -> bool) {
    && (forall a, b :: le(a, b) || le(b, a))
    && (forall a, b, c :: le(a, b) && le(b, c) ==> le(a, c))
  }

  ghost predicate SortedBy<T>(s: seq<T>, le: (T, T) -> bool) {
    forall i, j :: 0 <= i < j < |s| ==> le(s[i], s[j])
  }

  /** Elements `le` cannot tell apart from `x`. */
  function EquivalentTo<T>(le: (T, T) -> bool, x: T): T -> bool {
    (y: T) => le(x, y) && le(y, x)
  }

  /** Inserts `x` before the first element it does not follow. */
  function Insert<T>(x: T, s: seq<T>, le: (T, T) -> bool): (r: seq<T>)
    ensures multiset(r) == multiset(s) + multiset{x}
  {
    if |s| == 0 || le(x, s[0]) then [x] + s
    else
      assert s == [s[0]] + s[1..];
      [s[0]] + Insert(x, s[1..], le)
  }

  /** Insertion sort; an element goes before every later element it ties with,
      so ties keep their input order, as in Python's stable `sorted`. */
  function SortBy<T>(s: seq<T>, le: (T, T) -> bool): (r: seq<T>)
    ensures multiset(r) == multiset(s)
  {
    if |s| == 0 then []
    else
      assert s == [s[0]] + s[1..];
      Insert(s[0], SortBy(s[1..], le), le)
  }

  lemma {:induction false} InsertSorted<T(!new)>(x: T, s: seq<T>, le: (T, T) -> bool)
    requires TotalPreorder(le)
    requires SortedBy(s, le)
    ensures SortedBy(Insert(x, s, le), le)
  {
    if |s| > 0 && !le(x, s[0]) {
      var t := Insert(x, s[1..], le);
      InsertSorted(x, s[1..], le);
      forall y | y in t ensures le(s[0], y) {
        assert y in multiset(t);
        if y != x {
          assert y in multiset(s[1..]);
          var j :| 0 <= j < |s[1..]| && s[1..][j] == y;
          assert s[j + 1] == y;
        }
      }
      var r := [s[0]] + t;
      forall i, j | 0 <= i < j < |r| ensures le(r[i], r[j]) {
        if i == 0 {
          assert r[j] in t;
        } else {
          assert r[i] == t[i - 1] && r[j] == t[j - 1];
        }
      }
    }
  }

  /** The sorted list is ordered by `le` and a permutation of the input. */
  lemma {:induction false} SortBySorted<T(!new)>(s: seq<T>, le: (T, T) -> bool)
    requires TotalPreorder(le)
    ensures SortedBy(SortBy(s, le), le)
    ensures multiset(SortBy(s, le)) == multiset(s)
  {
    if |s| > 0 {
      SortBySorted(s[1..], le);
      InsertSorted(s[0], SortBy(s[1..], le), le);
    }
  }

  /** Filtering a list that starts with `y`. */
  lemma FilterCons<T(!new)>(y: T, t: seq<T>, p: T -> bool)
    ensures Filter([y] + t, p) == (if p(y) then [y] else []) + Filter(t, p)
  {
    assert ([y] + t)[1..] == t;
  }

  /** Two elements tied with the same `z` are ordered both ways, so
      `Insert` never moves `x` past an element of `x`'s own class. */
  lemma TiedAreOrdered<T(!new)>(x: T, y: T, le: (T, T) -> bool, z: T)
    requires forall a, b, c :: le(a, b) && le(b, c) ==> le(a, c)
    ensures EquivalentTo(le, z)(x) && EquivalentTo(le, z)(y) ==> le(x, y)
  {
    if EquivalentTo(le, z)(x) && EquivalentTo(le, z)(y) {
      assert le(x, z) && le(z, y);
    }
  }

  /** `x` inserted in front keeps its place among its class. */
  lemma InsertFrontStable<T(!new)>(x: T, s: seq<T>, le: (T, T) -> bool, z: T)
    requires |s| == 0 || le(x, s[0])
    ensures Filter(Insert(x, s, le), EquivalentTo(le, z))
         == (if EquivalentTo(le, z)(x) then [x] else []) + Filter(s, EquivalentTo(le, z))
  {
    assert Insert(x, s, le) == [x] + s;
    FilterCons(x, s, EquivalentTo(le, z));
  }

  /** `x` moving past `s[0]`: the two are not both in the class, since
      `x` would have stopped before a tied `s[0]`, so the class keeps its
      order if it does so in the rest of the list. */
  lemma InsertPassedStable<T(!new)>(x: T, s: seq<T>, le: (T, T) -> bool, z: T)
    requires |s| > 0 && !le(x, s[0])
    requires !(EquivalentTo(le, z)(x) && EquivalentTo(le, z)(s[0]))
    requires Filter(Insert(x, s[1..], le), EquivalentTo(le, z))
          == (if EquivalentTo(le, z)(x) then [x] else []) + Filter(s[1..], EquivalentTo(le, z))
    ensures Filter(Insert(x, s, le), EquivalentTo(le, z))
         == (if EquivalentTo(le, z)(x) then [x] else []) + Filter(s, EquivalentTo(le, z))
  {
    assert Insert(x, s, le) == [s[0]] + Insert(x, s[1..], le);
    assert s == [s[0]] + s[1..];
    PassedKeepsClassOrder(x, s[0], s[1..], Insert(x, s[1..], le), EquivalentTo(le, z));
  }

  /** The list reasoning behind `InsertPassedStable`, for any predicate. */
  lemma PassedKeepsClassOrder<T(!new)>(x: T, y: T, t: seq<T>, rest: seq<T>, p: T -> bool)
    requires Filter(rest, p) == (if p(x) then [x] else []) + Filter(t, p)
    requires !(p(x) && p(y))
    ensures Filter([y] + rest, p) == (if p(x) then [x] else []) + Filter([y] + t, p)
  {
    FilterCons(y, rest, p);
    FilterCons(y, t, p);
    if p(y) {
      assert Filter(rest, p) == Filter(t, p);
    } else {
      assert Filter([y] + rest, p) == Filter(rest, p);
      assert Filter([y] + t, p) == Filter(t, p);
    }
  }

  lemma {:induction false} InsertStable<T(!new)>(x: T, s: seq<T>, le: (T, T) -> bool, z: T)
    requires TotalPreorder(le)
    ensures Filter(Insert(x, s, le), EquivalentTo(le, z))
         == (if EquivalentTo(le, z)(x) then [x] else []) + Filter(s, EquivalentTo(le, z))
  {
    if |s| > 0 && !le(x, s[0]) {
      InsertStable(x, s[1..], le, z);
      TiedAreOrdered(x, s[0], le, z);
      InsertPassedStable(x, s, le, z);
    } else {
      InsertFrontStable(x, s, le, z);
    }
  }

  /** Stability: for every class of tied elements, the sorted list holds the
      class's members in their input order. */
  lemma {:induction false} SortByStable<T(!new)>(s: seq<T>, le: (T, T) -> bool, z: T)
    requires TotalPreorder(le)
    ensures Filter(SortBy(s, le), EquivalentTo(le, z)) == Filter(s, EquivalentTo(le, z))
  {
    if |s| > 0 {
      SortByStable(s[1..], le, z);
      InsertStable(s[0], SortBy(s[1..], le), le, z);
    }
  }
}
