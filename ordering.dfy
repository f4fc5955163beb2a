/**
 * The order in which a `BTreeMap<String, _>` is iterated: ascending by
 * Rust's `Ord` for `String`, which compares UTF-8 bytes lexicographically and
 * so agrees with comparing characters (Unicode scalar values) one by one.
 */
module Ordering {

  /** `a < b` for Rust strings: a proper prefix comes first, otherwise the first differing character decides. */
  predicate Below(a: string, b: string)
  {
    |b| > 0 && (|a| == 0 || a[0] < b[0] || (a[0] == b[0] && Below(a[1..], b[1..])))
  }

  lemma {:induction false} BelowIrreflexive(a: string)
    ensures !Below(a, a)
  {
    if |a| > 0 {
      BelowIrreflexive(a[1..]);
    }
  }

  lemma {:induction false} BelowTransitive(a: string, b: string, c: string)
    requires Below(a, b) && Below(b, c)
    ensures Below(a, c)
  {
    if |a| > 0 && a[0] == b[0] && b[0] == c[0] {
      BelowTransitive(a[1..], b[1..], c[1..]);
    }
  }

  lemma {:induction false} BelowTotal(a: string, b: string)
    ensures a == b || Below(a, b) || Below(b, a)
  {
    if |a| > 0 && |b| > 0 && a[0] == b[0] {
      BelowTotal(a[1..], b[1..]);
      if a[1..] == b[1..] {
        assert a == [a[0]] + a[1..] && b == [b[0]] + b[1..];
      }
    }
  }

  /** The keys come strictly in Rust's string order, as a `BTreeMap` yields them. */
  predicate Ascending(keys: seq<string>)
  {
    forall i, j | 0 <= i < j < |keys| :: Below(keys[i], keys[j])
  }

  /** `k` is the least element of `s`. */
  predicate IsLeast(k: string, s: set<string>)
  {
    k in s && forall o | o in s && o != k :: Below(k, o)
  }

  /** Adding `x` to a set whose least element is `m` gives a set whose least element is the smaller of the two. */
  lemma LeastOfInsert(m: string, rest: set<string>, x: string)
    requires IsLeast(m, rest)
    ensures IsLeast(if Below(m, x) then m else x, rest + {x})
  {
    BelowTotal(m, x);
    if !Below(m, x) && m != x {
      forall o | o in rest + {x} && o != x
        ensures Below(x, o)
      {
        if o != m {
          BelowTransitive(x, m, o);
        }
      }
    }
  }

  /** Every finite non-empty set of strings has a least element. */
  lemma {:induction false} LeastExists(s: set<string>)
    requires s != {}
    ensures exists k :: IsLeast(k, s)
  {
    var x :| x in s;
    var rest := s - {x};
    if rest == {} {
      assert s == {x};
      assert IsLeast(x, s);
    } else {
      LeastExists(rest);
      var m :| IsLeast(m, rest);
      LeastOfInsert(m, rest, x);
      assert rest + {x} == s;
    }
  }

  /**
   * The keys of `m` in the order a `BTreeMap` iterates them: every key once,
   * ascending.
   */
  method AscendingKeys<V>(m: map<string, V>) returns (keys: seq<string>)
    ensures Ascending(keys)
    ensures forall k :: k in keys <==> k in m
    ensures |keys| == |m|
  {
    var rest := m.Keys;
    keys := [];
    while rest != {}
      invariant rest <= m.Keys
      invariant forall k :: k in keys <==> k in m && k !in rest
      invariant Ascending(keys)
      invariant forall i, k | 0 <= i < |keys| && k in rest :: Below(keys[i], k)
      invariant |keys| + |rest| == |m|
      decreases |rest|
    {
      LeastExists(rest);
      var k :| IsLeast(k, rest);
      keys := keys + [k];
      rest := rest - {k};
    }
  }
}
