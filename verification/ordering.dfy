/** Python's ordering of `str` values (code point by code point, a proper
    prefix first), the ascending key order `sorted(d.keys())` produces, and
    the `sum` and `max` of a map's values. */
module Ordering {

  /** `a < b` on Python strings. */
  predicate Below(a: string, b: string)
  {
    if |a| == 0 then |b| > 0
    else if |b| == 0 then false
    else if a[0] != b[0] then a[0] < b[0]
    else Below(a[1..], b[1..])
  }

  lemma {:induction false} BelowIrreflexive(a: string)
    ensures !Below(a, a)
  {
    if |a| > 0 {
      BelowIrreflexive(a[1..]);
    }
  }

  lemma {:induction false} BelowAsymmetric(a: string, b: string)
    requires Below(a, b)
    ensures !Below(b, a)
  {
    if |a| > 0 && |b| > 0 && a[0] == b[0] {
      BelowAsymmetric(a[1..], b[1..]);
    }
  }

  lemma {:induction false} BelowTransitive(a: string, b: string, c: string)
    requires Below(a, b) && Below(b, c)
    ensures Below(a, c)
  {
    if |a| > 0 && a[0] == b[0] && b[0] == c[0] {
      BelowTransitive(a[1..], b[1..], c[1..]);
    }
  }

  lemma {:induction false} BelowTotal(a: string, b: string)
    requires a != b
    ensures Below(a, b) || Below(b, a)
  {
    if |a| > 0 && |b| > 0 && a[0] == b[0] {
      assert a == [a[0]] + a[1..] && b == [b[0]] + b[1..];
      BelowTotal(a[1..], b[1..]);
    }
  }

  predicate IsLeast(m: string, s: set<string>)
  {
    m in s && forall x :: x in s && x != m ==> Below(m, x)
  }

  lemma {:induction false} LeastExists(s: set<string>)
    requires s != {}
    ensures exists m :: IsLeast(m, s)
    decreases |s|
  {
    var x :| x in s;
    if s != {x} {
      var rest := s - {x};
      LeastExists(rest);
      var m :| IsLeast(m, rest);
      BelowTotal(m, x);
      if Below(m, x) {
        assert IsLeast(m, s);
      } else {
        forall y | y in s && y != x
          ensures Below(x, y)
        {
          if y != m {
            BelowTransitive(x, m, y);
          }
        }
        assert IsLeast(x, s);
      }
    } else {
      assert IsLeast(x, s);
    }
  }

  lemma LeastUnique(s: set<string>, m: string, n: string)
    requires IsLeast(m, s) && IsLeast(n, s)
    ensures m == n
  {
    if m != n {
      BelowAsymmetric(m, n);
    }
  }

  /** The smallest key of a non-empty key set. */
  function Least(s: set<string>): (m: string)
    requires s != {}
    ensures IsLeast(m, s)
  {
    LeastExists(s);
    assert forall m, n :: IsLeast(m, s) && IsLeast(n, s) ==> m == n by {
      forall m, n | IsLeast(m, s) && IsLeast(n, s)
        ensures m == n
      {
        LeastUnique(s, m, n);
      }
    }
    var m :| IsLeast(m, s);
    m
  }

  predicate StrictlySorted(r: seq<string>)
  {
    forall i, j :: 0 <= i < j < |r| ==> Below(r[i], r[j])
  }

  /** `sorted(keys)`: every key once, in ascending order. */
  function SortedKeys(s: set<string>): (r: seq<string>)
    ensures |r| == |s|
    ensures forall x :: x in r <==> x in s
    ensures StrictlySorted(r)
    decreases |s|
  {
    if s == {} then []
    else
      var m := Least(s);
      var rest := SortedKeys(s - {m});
      assert forall j :: 0 <= j < |rest| ==> rest[j] in s - {m};
      [m] + rest
  }

  /** The head of a strictly ascending listing is its least element. */
  lemma SortedHeadLeast(a: seq<string>)
    requires StrictlySorted(a) && |a| > 0
    ensures IsLeast(a[0], set x | x in a)
  {
    forall x | x in a && x != a[0]
      ensures Below(a[0], x)
    {
      var k :| 0 <= k < |a| && a[k] == x;
    }
  }

  lemma SortedTailMembers(a: seq<string>, b: seq<string>)
    requires StrictlySorted(a) && |a| > 0 && |b| > 0 && a[0] == b[0]
    requires forall x :: x in a ==> x in b
    ensures forall x :: x in a[1..] ==> x in b[1..]
  {
    forall x | x in a[1..]
      ensures x in b[1..]
    {
      var k :| 0 <= k < |a[1..]| && a[1..][k] == x;
      assert Below(a[0], a[k + 1]);
      BelowIrreflexive(x);
      assert x in a;
      assert x in b;
      var j :| 0 <= j < |b| && b[j] == x;
      assert b[j] == b[1..][j - 1];
    }
  }

  /** A set has exactly one strictly ascending listing. */
  lemma {:induction false} SortedUnique(a: seq<string>, b: seq<string>)
    requires StrictlySorted(a) && StrictlySorted(b)
    requires forall x :: x in a <==> x in b
    ensures a == b
    decreases |a|
  {
    assert forall k :: 0 <= k < |b| ==> b[k] in a;
    assert forall k :: 0 <= k < |a| ==> a[k] in b;
    if |a| > 0 && |b| > 0 {
      var elems := set x | x in a;
      assert elems == set x | x in b;
      SortedHeadLeast(a);
      SortedHeadLeast(b);
      LeastUnique(elems, a[0], b[0]);
      SortedTailMembers(a, b);
      SortedTailMembers(b, a);
      SortedUnique(a[1..], b[1..]);
      assert a == [a[0]] + a[1..] && b == [b[0]] + b[1..];
    }
  }

  /** Sum of the values of `m` at `keys`, in any order (Python's
      `sum(d.values())` on exact numbers). */
  function SumSet(m: map<string, real>, keys: set<string>): real
    requires keys <= m.Keys
    decreases |keys|
  {
    if keys == {} then 0.0
    else
      var k := Least(keys);
      m[k] + SumSet(m, keys - {k})
  }

  /** The sum may peel off any key first. */
  lemma {:induction false} SumSetPick(m: map<string, real>, keys: set<string>, x: string)
    requires keys <= m.Keys && x in keys
    ensures SumSet(m, keys) == m[x] + SumSet(m, keys - {x})
    decreases |keys|
  {
    var k := Least(keys);
    if k != x {
      SumSetPick(m, keys - {k}, x);
      var rest := keys - {x};
      assert IsLeast(k, rest);
      LeastUnique(rest, k, Least(rest));
      assert rest - {k} == keys - {k} - {x};
    }
  }

  /** The sum only reads the values at `keys`. */
  lemma {:induction false} SumSetAgree(m: map<string, real>, n: map<string, real>, keys: set<string>)
    requires keys <= m.Keys && keys <= n.Keys
    requires forall k :: k in keys ==> m[k] == n[k]
    ensures SumSet(m, keys) == SumSet(n, keys)
    decreases |keys|
  {
    if keys != {} {
      SumSetAgree(m, n, keys - {Least(keys)});
    }
  }

  /** Adding `delta` at one key, new or old, adds `delta` to the sum. */
  lemma SumSetBump(m: map<string, real>, m': map<string, real>, keys: set<string>, x: string, delta: real)
    requires keys <= m.Keys && keys + {x} <= m'.Keys
    requires m'[x] == (if x in keys then m[x] else 0.0) + delta
    requires forall k :: k in keys - {x} ==> m[k] == m'[k]
    ensures SumSet(m', keys + {x}) == SumSet(m, keys) + delta
  {
    SumSetPick(m', keys + {x}, x);
    assert keys + {x} - {x} == keys - {x};
    SumSetAgree(m, m', keys - {x});
    if x in keys {
      SumSetPick(m, keys, x);
    } else {
      assert keys - {x} == keys;
    }
  }

  /** With non-negative values the sum is at least any single value. */
  lemma SumSetBound(m: map<string, real>, keys: set<string>, x: string)
    requires keys <= m.Keys && x in keys
    requires forall k :: k in keys ==> m[k] >= 0.0
    ensures SumSet(m, keys) >= m[x]
  {
    SumSetPick(m, keys, x);
    SumSetNonNegative(m, keys - {x});
  }

  lemma {:induction false} SumSetNonNegative(m: map<string, real>, keys: set<string>)
    requires keys <= m.Keys
    requires forall k :: k in keys ==> m[k] >= 0.0
    ensures SumSet(m, keys) >= 0.0
    decreases |keys|
  {
    if keys != {} {
      SumSetNonNegative(m, keys - {Least(keys)});
    }
  }

  /** Python's `max(d.values())` on a non-empty map. */
  function MaxSet(m: map<string, real>, keys: set<string>): (r: real)
    requires keys != {} && keys <= m.Keys
    ensures exists k :: k in keys && m[k] == r
    ensures forall k :: k in keys ==> m[k] <= r
    decreases |keys|
  {
    var k := Least(keys);
    if keys == {k} then m[k]
    else
      var rest := MaxSet(m, keys - {k});
      if m[k] >= rest then m[k] else rest
  }
}
