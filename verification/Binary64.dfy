/**
 Unsigned integers through a binary64 number (RFC 8259, section 6): a significand of 53 bits,
 rounded to nearest, ties to even.
 */
module Binary64 {
  import opened Bytes

  const SIGNIFICANDS := 0x20_0000_0000_0000

  /** The gap between neighbouring numbers around n. */
  function Ulp(n: nat): (u: nat)
    ensures u > 0
  {
    if n < SIGNIFICANDS then 1 else 2 * Ulp(n / 2)
  }

  predicate Representable(n: nat) {
    n % Ulp(n) == 0
  }

  function Round(n: nat): nat {
    var u := Ulp(n);
    var q, r := n / u, n % u;
    if 2 * r > u || (2 * r == u && q % 2 == 1) then (q + 1) * u else q * u
  }

  lemma Division(n: nat, u: nat)
    requires u > 0
    ensures n == (n / u) * u + n % u && 0 <= n % u < u
    ensures (n / u + 1) * u == (n / u) * u + u
  {
  }

  /** A number survives the rounding exactly when it is a multiple of the gap around it. */
  lemma RoundExactIff(n: nat)
    ensures Round(n) == n <==> Representable(n)
  {
    hide Ulp;
    Division(n, Ulp(n));
  }

  lemma HalfQuotient(m: nat, n: nat, v: nat)
    requires v > 0 && m / (2 * v) == n / (2 * v)
    ensures m / 2 / v == n / 2 / v
  {
    NestedDivision(m, v);
    NestedDivision(n, v);
  }

  lemma NestedDivision(n: nat, v: nat)
    requires v > 0
    ensures n / 2 / v == n / (2 * v)
  {
    var q := n / 2 / v;
    Division(n / 2, v);
    var s := n / 2 - q * v;
    assert n == 2 * (q * v + s) + n % 2;
    assert 2 * (q * v) == q * (2 * v);
    assert n == q * (2 * v) + (2 * s + n % 2) && 0 <= 2 * s + n % 2 < 2 * v;
    DivModUnique(n, 2 * v, q, 2 * s + n % 2);
  }

  /** Independently of the gaps: a significand of 53 bits times a power of two. */
  ghost predicate IsScaled(n: nat, s: nat, k: nat) {
    s < SIGNIFICANDS && n == s * PowerOf2(k)
  }

  function PowerOf2(k: nat): (p: nat)
    ensures p > 0
  {
    if k == 0 then 1 else 2 * PowerOf2(k - 1)
  }

  lemma RepresentableIff(n: nat)
    ensures Representable(n) <==> exists s, k :: IsScaled(n, s, k)
  {
    if Representable(n) {
      var s, k := Scale(n);
      assert IsScaled(n, s, k);
    }
    if s, k :| IsScaled(n, s, k) {
      ScaledIsRepresentable(n, s, k);
    }
  }

  lemma EvenQuotient(n: nat, v: nat)
    requires v > 0
    ensures n % (2 * v) == 0 <==> n % 2 == 0 && n / 2 % v == 0
  {
    NestedDivision(n, v);
    Division(n / 2, v);
    Division(n, 2 * v);
    var q := n / (2 * v);
    assert q * (2 * v) == 2 * (q * v);
    assert n / 2 == q * v + n / 2 % v;
  }

  lemma {:induction false} Scale(n: nat) returns (s: nat, k: nat)
    requires Representable(n)
    ensures IsScaled(n, s, k)
    decreases n
  {
    if n < SIGNIFICANDS {
      s, k := n, 0;
    } else {
      EvenQuotient(n, Ulp(n / 2));
      s, k := Scale(n / 2);
      assert s * PowerOf2(k + 1) == 2 * (s * PowerOf2(k));
      k := k + 1;
    }
  }

  lemma {:induction false} ScaledIsRepresentable(n: nat, s: nat, k: nat)
    requires IsScaled(n, s, k)
    ensures Representable(n)
    decreases k
  {
    if n >= SIGNIFICANDS {
      assert k > 0 && n == 2 * (s * PowerOf2(k - 1)) by {
        assert k > 0 ==> s * PowerOf2(k) == 2 * (s * PowerOf2(k - 1));
      }
      ScaledIsRepresentable(n / 2, s, k - 1);
      EvenQuotient(n, Ulp(n / 2));
    }
  }

  /** Numbers in the same gap have the same gap. */
  lemma {:induction false} SameGap(m: nat, n: nat)
    requires m / Ulp(n) == n / Ulp(n)
    ensures Ulp(m) == Ulp(n)
    decreases n
  {
    if n >= SIGNIFICANDS {
      HalfQuotient(m, n, Ulp(n / 2));
      SameGap(m / 2, n / 2);
      SignificandAtLeast(n);
      Division(m, Ulp(n));
      AtLeast(m, n);
    }
  }

  lemma AtLeast(m: nat, n: nat)
    requires n >= SIGNIFICANDS && m / Ulp(n) == n / Ulp(n) >= SIGNIFICANDS / 2
    ensures m >= SIGNIFICANDS
  {
    var u, q := Ulp(n), m / Ulp(n);
    Division(m, u);
    assert u >= 2;
    assert q * u >= q * 2;
  }

  /** From 2^53 on the significand has its leading bit set. */
  lemma {:induction false} SignificandAtLeast(n: nat)
    requires n >= SIGNIFICANDS
    ensures n / Ulp(n) >= SIGNIFICANDS / 2
    decreases n
  {
    NestedDivision(n, Ulp(n / 2));
    if n / 2 >= SIGNIFICANDS {
      SignificandAtLeast(n / 2);
    }
  }

  /** No representable number lies strictly inside a gap. */
  lemma GapsAreEmpty(n: nat, m: nat)
    requires Representable(m)
    ensures m <= (n / Ulp(n)) * Ulp(n) || m >= (n / Ulp(n) + 1) * Ulp(n)
  {
    hide Ulp;
    var u := Ulp(n);
    var q := n / u;
    Division(n, u);
    if q * u < m < (q + 1) * u {
      DivModUnique(m, u, q, m - q * u);
      SameGap(m, n);
      assert false;
    }
  }

  /** What a number rounds to is as near to it as any representable number. */
  lemma RoundIsNearest(n: nat, m: nat)
    requires Representable(m)
    ensures (if Round(n) > n then Round(n) - n else n - Round(n)) <= (if m > n then m - n else n - m)
  {
    hide Ulp, Representable;
    GapsAreEmpty(n, m);
    Division(n, Ulp(n));
  }

  /** Half way between two numbers the one with the even significand is taken. */
  lemma TiesAreEven(n: nat)
    requires 2 * (n % Ulp(n)) == Ulp(n)
    ensures exists k :: Round(n) == 2 * k * Ulp(n)
    ensures Round(SIGNIFICANDS + 3) == SIGNIFICANDS + 4
  {
    var u := Ulp(n);
    var q := n / u;
    var e := if q % 2 == 1 then q + 1 else q;
    assert Round(n) == e * u;
    assert e == 2 * (e / 2);
    assert Round(n) == 2 * (e / 2) * u;
    ExampleOfTie();
  }

  lemma ExampleOfTie()
    ensures Round(SIGNIFICANDS + 3) == SIGNIFICANDS + 4
  {
    assert Ulp((SIGNIFICANDS + 3) / 2) == 1 && Ulp(SIGNIFICANDS + 3) == 2;
  }

  /** Nothing is lost up to 2^53; the next number is the first that is. */
  lemma ExactTo53(n: nat)
    requires n <= SIGNIFICANDS
    ensures Representable(n) && Round(n) == n
    ensures Round(SIGNIFICANDS + 1) == SIGNIFICANDS
  {
    assert Ulp(SIGNIFICANDS / 2) == 1 && Ulp(SIGNIFICANDS) == 2;
    assert (SIGNIFICANDS + 1) / 2 == SIGNIFICANDS / 2;
    assert Ulp(SIGNIFICANDS + 1) == 2;
    RoundExactIff(n);
  }
}
