/** Queries over a table kept as a sequence of rows in row order: what
    `.filter(...)`, `.first()`, `.offset(...)` and `.limit(...)` of a
    SQLAlchemy query mean when the table is a `seq`. */
module Seqs {

  datatype Option<T> = None | Some(value: T)

  /** Position of the first row satisfying `p`. */
  function FirstIndex<T>(s: seq<T>, p: T -> bool): (r: Option<nat>)
    ensures r.None? <==> forall i :: 0 <= i < |s| ==> !p(s[i])
    ensures r.Some? ==> r.value < |s| && p(s[r.value])
    ensures r.Some? ==> forall j :: 0 <= j < r.value ==> !p(s[j])
  {
    if |s| == 0 then None
    else if p(s[0]) then Some(0)
    else match FirstIndex(s[1..], p)
      case None => None
      case Some(k) => Some(k + 1)
  }

  /** `query.filter(p).first()`: the first matching row, or none. */
  function First<T>(s: seq<T>, p: T -> bool): (r: Option<T>)
    ensures r.None? <==> forall x :: x in s ==> !p(x)
    ensures r.Some? ==> r.value in s && p(r.value)
    ensures r.Some? ==> exists k :: 0 <= k < |s| && s[k] == r.value && forall j :: 0 <= j < k ==> !p(s[j])
  {
    match FirstIndex(s, p)
    case None => None
    case Some(k) => Some(s[k])
  }

  /** `a` occurs in `b` in the same relative order. */
  predicate IsSubsequence<T(==)>(a: seq<T>, b: seq<T>)
    decreases |b|
  {
    if |a| == 0 then true
    else if |b| == 0 then false
    else if a[0] == b[0] then IsSubsequence(a[1..], b[1..])
    else IsSubsequence(a, b[1..])
  }

  /** `query.filter(p).all()`: the matching rows, in row order. */
  function Filter<T(==,!new)>(s: seq<T>, p: T -> bool): (r: seq<T>)
    ensures |r| <= |s|
    ensures forall x :: x in r <==> x in s && p(x)
    ensures IsSubsequence(r, s)
  {
    if |s| == 0 then []
    else if p(s[0]) then [s[0]] + Filter(s[1..], p)
    else Filter(s[1..], p)
  }

  function KeyIs<T, K(==)>(key: T -> K, k: K): T -> bool { (x: T) => key(x) == k }
  function KeyIsNot<T, K(==)>(key: T -> K, k: K): T -> bool { (x: T) => key(x) != k }

  /** Rows whose `key` equals `k` (`WHERE key = k`). */
  function Where<T(==,!new), K(==)>(s: seq<T>, key: T -> K, k: K): (r: seq<T>)
    ensures forall x :: x in r <==> x in s && key(x) == k
  {
    Filter(s, KeyIs(key, k))
  }

  /** Rows whose `key` differs from `k`: what is left after `DELETE ... WHERE key = k`. */
  function WhereNot<T(==,!new), K(==)>(s: seq<T>, key: T -> K, k: K): (r: seq<T>)
    ensures forall x :: x in r <==> x in s && key(x) != k
    ensures IsSubsequence(r, s)
  {
    Filter(s, KeyIsNot(key, k))
  }

  /** Where SQLite starts reading for `OFFSET skip`: a negative offset reads as 0. */
  function Offset(n: nat, skip: int): (lo: nat)
    ensures lo <= n
    ensures 0 < skip <= n ==> lo == skip
  {
    if skip <= 0 then 0 else if skip >= n then n else skip
  }

  /** How many of `n` rows `OFFSET skip LIMIT limit` returns: all rows after
      the offset, at most `limit` of them unless `limit` is negative. */
  function PageSize(n: nat, skip: int, limit: int): (size: nat)
    ensures size <= n - Offset(n, skip)
    ensures limit >= 0 ==> size <= limit
  {
    var rest := n - Offset(n, skip);
    if limit < 0 || rest <= limit then rest else limit
  }

  /** `.offset(skip).limit(limit).all()` as SQLite evaluates it: a negative
      offset reads as 0, a negative limit as no limit. */
  function Page<T>(s: seq<T>, skip: int, limit: int): (r: seq<T>)
    ensures limit >= 0 ==> |r| <= limit
    ensures limit >= 0 && limit <= |s| - Offset(|s|, skip) ==> |r| == limit
    ensures limit < 0 || limit > |s| - Offset(|s|, skip) ==> |r| == |s| - Offset(|s|, skip)
    ensures |r| == PageSize(|s|, skip, limit)
    ensures forall i :: 0 <= i < |r| ==> Offset(|s|, skip) + i < |s| && r[i] == s[Offset(|s|, skip) + i]
    ensures forall x :: x in r ==> x in s
  {
    var lo := Offset(|s|, skip);
    if limit < 0 || |s| - lo <= limit then s[lo..] else s[lo..lo + limit]
  }

  /** Largest key of a non-empty table. */
  function MaxKey<T>(s: seq<T>, key: T -> int): (m: int)
    requires |s| > 0
    ensures forall x :: x in s ==> key(x) <= m
    ensures exists x :: x in s && key(x) == m
  {
    if |s| == 1 then key(s[0])
    else
      var m := MaxKey(s[1..], key);
      if key(s[0]) >= m then key(s[0]) else m
  }

  /** The id SQLite gives a new row of a table whose integer primary key
      aliases the rowid: one more than the largest id in use, 1 for an empty table. */
  function NextKey<T>(s: seq<T>, key: T -> int): (k: int)
    ensures forall x :: x in s ==> key(x) < k
  {
    if |s| == 0 then 1 else MaxKey(s, key) + 1
  }

  /** No two rows share a `key` (a primary key or a UNIQUE column). */
  ghost predicate UniqueBy<T, K>(s: seq<T>, key: T -> K) {
    forall i, j :: 0 <= i < |s| && 0 <= j < |s| && key(s[i]) == key(s[j]) ==> i == j
  }

  lemma {:induction false} FilterKeepsUnique<T(!new), K>(s: seq<T>, p: T -> bool, key: T -> K)
    requires UniqueBy(s, key)
    ensures UniqueBy(Filter(s, p), key)
  {
    if |s| > 0 {
      var t := Filter(s[1..], p);
      assert UniqueBy(s[1..], key) by {
        forall i, j | 0 <= i < |s[1..]| && 0 <= j < |s[1..]| && key(s[1..][i]) == key(s[1..][j])
          ensures i == j
        {
          assert s[1..][i] == s[i + 1] && s[1..][j] == s[j + 1];
        }
      }
      FilterKeepsUnique(s[1..], p, key);
      if p(s[0]) {
        var r := [s[0]] + t;
        forall j | 0 < j < |r| ensures key(r[0]) != key(r[j]) {
          assert r[j] in s[1..];
          var i :| 0 <= i < |s[1..]| && s[1..][i] == r[j];
          assert s[i + 1] == r[j];
        }
        forall i, j | 0 <= i < |r| && 0 <= j < |r| && key(r[i]) == key(r[j]) ensures i == j {
          if 0 < i && 0 < j {
            assert r[i] == t[i - 1] && r[j] == t[j - 1];
          }
        }
      }
    }
  }

  lemma UniqueAfterAppend<T, K>(s: seq<T>, x: T, key: T -> K)
    requires UniqueBy(s, key)
    requires forall y :: y in s ==> key(y) != key(x)
    ensures UniqueBy(s + [x], key)
  {
    var r := s + [x];
    forall i | 0 <= i < |s| ensures r[i] == s[i] && key(r[i]) != key(x) {
      assert s[i] in s;
    }
  }

  /** In a table with a unique key, deleting the rows with one key in use
      removes exactly one row. */
  lemma {:induction false} WhereNotRemovesOne<T(!new), K>(s: seq<T>, key: T -> K, k: K)
    requires UniqueBy(s, key)
    requires exists x :: x in s && key(x) == k
    ensures |WhereNot(s, key, k)| == |s| - 1
  {
    assert UniqueBy(s[1..], key) by {
      forall i, j | 0 <= i < |s[1..]| && 0 <= j < |s[1..]| && key(s[1..][i]) == key(s[1..][j])
        ensures i == j
      {
        assert s[1..][i] == s[i + 1] && s[1..][j] == s[j + 1];
      }
    }
    var p := KeyIsNot(key, k);
    if key(s[0]) == k {
      assert Filter(s, p) == Filter(s[1..], p);
      forall y | y in s[1..] ensures p(y) {
        var i :| 0 <= i < |s[1..]| && s[1..][i] == y;
        assert s[i + 1] == y;
      }
      FilterKeepsAll(s[1..], p);
    } else {
      var x :| x in s && key(x) == k;
      assert x in s[1..];
      WhereNotRemovesOne(s[1..], key, k);
      assert Filter(s, p) == [s[0]] + Filter(s[1..], p);
    }
  }

  /** A predicate that holds nowhere selects nothing. */
  lemma {:induction false} FilterNone<T(!new)>(s: seq<T>, p: T -> bool)
    requires forall x :: !p(x)
    ensures Filter(s, p) == []
  {
    if |s| > 0 {
      FilterNone(s[1..], p);
    }
  }

  lemma {:induction false} FilterKeepsAll<T(!new)>(s: seq<T>, p: T -> bool)
    requires forall x :: x in s ==> p(x)
    ensures Filter(s, p) == s
  {
    if |s| > 0 {
      assert s[0] in s;
      forall x | x in s[1..] ensures p(x) { assert x in s; }
      FilterKeepsAll(s[1..], p);
      assert s == [s[0]] + s[1..];
    }
  }

  lemma WhereNotKeepsUnique<T(!new), K, K2>(s: seq<T>, key: T -> K, k: K, unique: T -> K2)
    requires UniqueBy(s, unique)
    ensures UniqueBy(WhereNot(s, key, k), unique)
  {
    FilterKeepsUnique(s, KeyIsNot(key, k), unique);
  }

  lemma UniqueAfterUpdate<T, K>(s: seq<T>, k: nat, x: T, key: T -> K)
    requires k < |s|
    requires UniqueBy(s, key)
    requires forall j :: 0 <= j < |s| && j != k ==> key(s[j]) != key(x)
    ensures UniqueBy(s[k := x], key)
  {
  }

  /** Under a unique key, the key identifies the row. */
  lemma UniqueKeyIdentifies<T, K>(s: seq<T>, key: T -> K, x: T, y: T)
    requires UniqueBy(s, key)
    requires x in s && y in s && key(x) == key(y)
    ensures x == y
  {
    var i :| 0 <= i < |s| && s[i] == x;
    var j :| 0 <= j < |s| && s[j] == y;
  }

  /** Rows matching `p` split into those matching `q` and those matching
      `t` when `p` is the disjoint union of the two. */
  lemma {:induction false} FilterSplitCount<T(!new)>(s: seq<T>, p: T -> bool, q: T -> bool, t: T -> bool)
    requires forall x :: p(x) <==> q(x) || t(x)
    requires forall x :: !(q(x) && t(x))
    ensures |Filter(s, p)| == |Filter(s, q)| + |Filter(s, t)|
  {
    if |s| > 0 {
      FilterSplitCount(s[1..], p, q, t);
    }
  }

  /** Predicates that agree on every row select the same rows. */
  lemma {:induction false} FilterAgrees<T(!new)>(s: seq<T>, p: T -> bool, q: T -> bool)
    requires forall x :: x in s ==> (p(x) <==> q(x))
    ensures Filter(s, p) == Filter(s, q)
  {
    if |s| > 0 {
      FilterAgrees(s[1..], p, q);
    }
  }

  /** Filtering twice is filtering once by both predicates. */
  lemma {:induction false} FilterTwice<T(!new)>(s: seq<T>, p: T -> bool, q: T -> bool, both: T -> bool)
    requires forall x :: both(x) <==> p(x) && q(x)
    ensures Filter(Filter(s, p), q) == Filter(s, both)
  {
    if |s| > 0 {
      FilterTwice(s[1..], p, q, both);
      if p(s[0]) {
        assert Filter(s, p) == [s[0]] + Filter(s[1..], p);
        assert ([s[0]] + Filter(s[1..], p))[1..] == Filter(s[1..], p);
      }
    }
  }
}
