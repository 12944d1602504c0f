/** Shared building blocks: optional and failure-carrying values, bytes, Python
    truthiness, and the sequence operations the repositories are built from
    (first match, filter, reversal, offset/limit window). */
module Common {

  /** Python's `None`-or-value. */
  datatype Option<+T> = None | Some(value: T)

  /** A value, or the exception/HTTP error that replaced it. */
  datatype Result<+T, +E> = Success(value: T) | Failure(error: E)

  type Byte = x: int | 0 <= x < 256
  type Bytes = seq<Byte>

  /** Truthiness of an optional string argument: `None` and `""` are falsy. */
  predicate Truthy(s: Option<string>)
  {
    s.Some? && s.value != ""
  }

  /** Truthiness of an optional integer argument: `None` and `0` are falsy. */
  predicate TruthyInt(n: Option<int>)
  {
    n.Some? && n.value != 0
  }

  predicate StartsWith(s: string, prefix: string)
  {
    |prefix| <= |s| && s[..|prefix|] == prefix
  }

  predicate EndsWith(s: string, suffix: string)
  {
    |suffix| <= |s| && s[|s| - |suffix|..] == suffix
  }

  function Min(a: int, b: int): int
  {
    if a <= b then a else b
  }

  /** Index of the first element satisfying `p`: what `.first()` or `fetch_one`
      yields when a table is scanned in storage order. */
  function FirstIndex<T>(s: seq<T>, p: T -> bool): (r: Option<nat>)
    ensures r.Some? ==> r.value < |s| && p(s[r.value])
    ensures r.Some? ==> forall j :: 0 <= j < r.value ==> !p(s[j])
    ensures r.None? <==> forall j :: 0 <= j < |s| ==> !p(s[j])
  {
    if |s| == 0 then None
    else if p(s[0]) then Some(0)
    else
      match FirstIndex(s[1..], p)
      case None => None
      case Some(k) => Some(k + 1)
  }

  // Small facts of integer arithmetic, stated once so that proofs about page
  // arithmetic need not rediscover them.

  lemma MulDistrib(a: int, b: int, d: int)
    ensures (a - b) * d == a * d - b * d
  {
  }

  lemma MulMonotone(a: int, b: int, d: int)
    requires a >= b && d >= 0
    ensures a * d >= b * d
  {
    MulDistrib(a, b, d);
  }

  /** A number is its quotient times the divisor plus its remainder. */
  lemma DivModSplit(n: int, d: int)
    requires d > 0
    ensures (n / d) * d + n % d == n && 0 <= n % d < d
  {
  }

  /** Euclidean division is determined by any quotient/remainder pair. */
  lemma DivModUnique(n: int, d: int, q: int, r: int)
    requires d > 0 && 0 <= r < d && n == q * d + r
    ensures n / d == q && n % d == r
  {
    var q0, r0 := n / d, n % d;
    assert q0 * d + r0 == n;
    MulDistrib(q, q0, d);
    if q > q0 {
      MulMonotone(q - q0, 1, d);
    } else if q < q0 {
      MulDistrib(q0, q, d);
      MulMonotone(q0 - q, 1, d);
    }
  }

  /** The elements satisfying `p`, in their original order (a SQL `WHERE`). */
  function Filter<T>(s: seq<T>, p: T -> bool): (r: seq<T>)
    ensures |r| <= |s|
    ensures forall i :: 0 <= i < |r| ==> r[i] in s && p(r[i])
    ensures forall i {:trigger s[i] in r} :: 0 <= i < |s| && p(s[i]) ==> s[i] in r
  {
    if |s| == 0 then []
    else (if p(s[0]) then [s[0]] else []) + Filter(s[1..], p)
  }

  lemma FilterAppend<T>(s: seq<T>, t: seq<T>, p: T -> bool)
    ensures Filter(s + t, p) == Filter(s, p) + Filter(t, p)
  {
    if |s| == 0 {
      assert s + t == t;
    } else {
      assert (s + t)[1..] == s[1..] + t;
      FilterAppend(s[1..], t, p);
    }
  }

  /** Filtering with a predicate that every element satisfies keeps everything. */
  lemma {:induction false} FilterAll<T>(s: seq<T>, p: T -> bool)
    requires forall i :: 0 <= i < |s| ==> p(s[i])
    ensures Filter(s, p) == s
  {
    if |s| > 0 {
      FilterAll(s[1..], p);
    }
  }

  /** `key` strictly increases along `s`: an autoincrement column in insertion order. */
  ghost predicate IncreasingBy<T>(s: seq<T>, key: T -> int)
  {
    forall i, j :: 0 <= i < j < |s| ==> key(s[i]) < key(s[j])
  }

  /** Filtering keeps an increasing column increasing, and keeps it above any
      bound the input respects. */
  lemma {:induction false} FilterKeepsIncreasing<T>(s: seq<T>, key: T -> int, p: T -> bool, low: int)
    requires IncreasingBy(s, key)
    requires forall i :: 0 <= i < |s| ==> low <= key(s[i])
    ensures IncreasingBy(Filter(s, p), key)
    ensures forall i :: 0 <= i < |Filter(s, p)| ==> low <= key(Filter(s, p)[i])
  {
    if |s| > 0 {
      var tail := s[1..];
      assert forall i :: 0 <= i < |tail| ==> tail[i] == s[i + 1];
      FilterKeepsIncreasing(tail, key, p, key(s[0]) + 1);
      var ft := Filter(tail, p);
      var r := Filter(s, p);
      if p(s[0]) {
        assert r == [s[0]] + ft;
        forall i, j | 0 <= i < j < |r|
          ensures key(r[i]) < key(r[j])
        {
          assert r[j] == ft[j - 1];
          if i > 0 {
            assert r[i] == ft[i - 1];
          }
        }
      } else {
        assert r == ft;
      }
    }
  }

  function Reverse<T>(s: seq<T>): (r: seq<T>)
    ensures |r| == |s|
    ensures forall i :: 0 <= i < |s| ==> r[i] == s[|s| - 1 - i]
  {
    if |s| == 0 then [] else Reverse(s[1..]) + [s[0]]
  }

  /** SQL `OFFSET offset LIMIT limit` applied to an already ordered result. */
  function Window<T>(s: seq<T>, offset: nat, limit: nat): (r: seq<T>)
    ensures |r| <= limit
    ensures |r| == if offset >= |s| then 0 else Min(limit, |s| - offset)
    ensures forall i :: 0 <= i < |r| ==> offset + i < |s| && r[i] == s[offset + i]
  {
    if offset >= |s| then [] else s[offset..offset + Min(limit, |s| - offset)]
  }

  /** Item `i` of a window that reaches it is element `offset + i`. */
  lemma WindowItem<T>(s: seq<T>, offset: nat, limit: nat, i: nat)
    requires i < limit && offset + i < |s|
    ensures i < |Window(s, offset, limit)| && Window(s, offset, limit)[i] == s[offset + i]
  {
  }

  /** Consecutive windows tile the sequence: reading `l1` rows and then `l2`
      more is the same as reading `l1 + l2` rows at once. */
  lemma {:induction false} WindowsTile<T>(s: seq<T>, offset: nat, l1: nat, l2: nat)
    ensures Window(s, offset, l1) + Window(s, offset + l1, l2) == Window(s, offset, l1 + l2)
  {
    var a := Window(s, offset, l1);
    var b := Window(s, offset + l1, l2);
    var c := Window(s, offset, l1 + l2);
    assert |a + b| == |c|;
    forall i | 0 <= i < |c|
      ensures (a + b)[i] == c[i]
    {
      if i < |a| {
        assert (a + b)[i] == a[i];
      } else {
        assert (a + b)[i] == b[i - |a|];
        assert |a| == l1;
      }
    }
  }

  /** Any window of the reversal of an increasing sequence strictly decreases. */
  lemma WindowOfReverseDecreasing<T>(s: seq<T>, key: T -> int, offset: nat, limit: nat)
    requires IncreasingBy(s, key)
    ensures var w := Window(Reverse(s), offset, limit);
      forall i, j :: 0 <= i < j < |w| ==> key(w[i]) > key(w[j])
  {
    var rev := Reverse(s);
    var w := Window(rev, offset, limit);
    forall i, j | 0 <= i < j < |w|
      ensures key(w[i]) > key(w[j])
    {
      assert w[i] == rev[offset + i] == s[|s| - 1 - (offset + i)];
      assert w[j] == rev[offset + j] == s[|s| - 1 - (offset + j)];
    }
  }
  /** The first `limit` items of the descending order of a key-ascending
      sequence are its newest: every element left out has a smaller key than
      every element taken. */
  lemma NewestWindow<T>(s: seq<T>, key: T -> int, limit: nat)
    requires IncreasingBy(s, key)
    ensures var w := Window(Reverse(s), 0, limit);
      forall k, i :: 0 <= k < |s| - |w| && 0 <= i < |w| ==> key(s[k]) < key(w[i])
  {
    var w := Window(Reverse(s), 0, limit);
    forall k, i | 0 <= k < |s| - |w| && 0 <= i < |w|
      ensures key(s[k]) < key(w[i])
    {
      assert w[i] == Reverse(s)[i] == s[|s| - 1 - i];
    }
  }

}
