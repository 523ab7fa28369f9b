/**
  Python's comparison operators on `str`. Every timestamp in the sync is kept as
  text and compared with `<`, `>` and `>=`, which order strings by code point,
  first difference deciding, a proper prefix sorting first. Dafny's own `<` on
  sequences means "proper prefix", so the order is defined here and proved total.
 */
module StringOrder {

  /** Python `a < b` on strings. */
  predicate Below(a: string, b: string)
    decreases |a|
  {
    if |b| == 0 then false
    else if |a| == 0 then true
    else if a[0] != b[0] then a[0] < b[0]
    else Below(a[1..], b[1..])
  }

  /** Python `a <= b` on strings. */
  predicate AtMost(a: string, b: string)
  {
    a == b || Below(a, b)
  }

  /** Reference definition of `a < b`: the strings agree on their first `k`
      characters, and there `a` ends or holds the smaller character. */
  ghost predicate DiffersFirstAt(a: string, b: string, k: nat)
  {
    k < |b| && k <= |a| && a[..k] == b[..k] && (k == |a| || a[k] < b[k])
  }

  lemma {:induction false} BelowIffFirstDifference(a: string, b: string)
    ensures Below(a, b) <==> exists k: nat :: DiffersFirstAt(a, b, k)
    decreases |a|
  {
    if Below(a, b) {
      if |a| == 0 || a[0] < b[0] {
        assert DiffersFirstAt(a, b, 0);
      } else {
        BelowIffFirstDifference(a[1..], b[1..]);
        var k: nat :| DiffersFirstAt(a[1..], b[1..], k);
        assert a[..k + 1] == [a[0]] + a[1..][..k];
        assert b[..k + 1] == [b[0]] + b[1..][..k];
        assert DiffersFirstAt(a, b, k + 1);
      }
    }
    if exists k: nat :: DiffersFirstAt(a, b, k) {
      var k: nat :| DiffersFirstAt(a, b, k);
      if k > 0 {
        assert a[0] == a[..k][0] == b[..k][0] == b[0];
        assert a[1..][..k - 1] == a[1..k] == a[..k][1..];
        assert b[1..][..k - 1] == b[1..k] == b[..k][1..];
        assert DiffersFirstAt(a[1..], b[1..], k - 1);
        BelowIffFirstDifference(a[1..], b[1..]);
      }
    }
  }

  lemma {:induction false} BelowIrreflexive(a: string)
    ensures !Below(a, a)
    decreases |a|
  {
    if |a| > 0 {
      BelowIrreflexive(a[1..]);
    }
  }

  lemma {:induction false} BelowAsymmetric(a: string, b: string)
    requires Below(a, b)
    ensures !Below(b, a)
    decreases |a|
  {
    if |a| > 0 && a[0] == b[0] {
      BelowAsymmetric(a[1..], b[1..]);
    }
  }

  lemma {:induction false} BelowTransitive(a: string, b: string, c: string)
    requires Below(a, b) && Below(b, c)
    ensures Below(a, c)
    decreases |a|
  {
    if |a| > 0 && a[0] == b[0] && b[0] == c[0] {
      BelowTransitive(a[1..], b[1..], c[1..]);
    }
  }

  /** Any two strings compare: exactly one of `a < b`, `a == b`, `b < a`. */
  lemma {:induction false} BelowTrichotomy(a: string, b: string)
    ensures Below(a, b) || a == b || Below(b, a)
    decreases |a|
  {
    if |a| > 0 && |b| > 0 && a[0] == b[0] {
      BelowTrichotomy(a[1..], b[1..]);
      if a[1..] == b[1..] {
        assert a == [a[0]] + a[1..] && b == [b[0]] + b[1..];
      }
    }
  }

  /** `<=` on strings is a total order. */
  lemma AtMostTotalOrder(a: string, b: string, c: string)
    ensures AtMost(a, a)
    ensures AtMost(a, b) && AtMost(b, a) ==> a == b
    ensures AtMost(a, b) && AtMost(b, c) ==> AtMost(a, c)
    ensures AtMost(a, b) || AtMost(b, a)
  {
    BelowTrichotomy(a, b);
    if Below(a, b) && Below(b, a) {
      BelowAsymmetric(a, b);
    }
    if Below(a, b) && Below(b, c) {
      BelowTransitive(a, b, c);
    }
  }

  /** `not (a > b)` is `a <= b`. */
  lemma NotBelowIsAtMost(a: string, b: string)
    ensures !Below(b, a) <==> AtMost(a, b)
  {
    BelowTrichotomy(a, b);
    if Below(a, b) {
      BelowAsymmetric(a, b);
    }
    if a == b {
      BelowIrreflexive(a);
    }
  }

  /** The running maximum of the scan (`if timestamp > save: save = timestamp`). */
  function Later(save: string, timestamp: string): string
  {
    if Below(save, timestamp) then timestamp else save
  }

  /** `Later` is the maximum of its two arguments under `<=`. */
  lemma LaterIsMax(save: string, timestamp: string)
    ensures var r := Later(save, timestamp);
      AtMost(save, r) && AtMost(timestamp, r) && (r == save || r == timestamp)
  {
    NotBelowIsAtMost(timestamp, save);
  }

}
