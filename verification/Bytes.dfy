/**
 Octets, and the two byte orders in which C integers reach a PF_KEY message.
 `Le` is the host order of the machines the daemon runs on, `Be` is network order.
 Storing a value in a field of `w` octets keeps it modulo 256^w, as a C assignment
 to a narrower unsigned field does.
 */
module Bytes {

  type byte = x: int | 0 <= x < 256

  function Pow256(w: nat): (p: nat)
    ensures p >= 1
  {
    if w == 0 then 1 else 256 * Pow256(w - 1)
  }

  function Le(n: nat, w: nat): (s: seq<byte>)
    ensures |s| == w
    decreases w
  {
    if w == 0 then [] else [n % 256] + Le(n / 256, w - 1)
  }

  function FromLe(s: seq<byte>): nat {
    if s == [] then 0 else s[0] + 256 * FromLe(s[1..])
  }

  function Be(n: nat, w: nat): (s: seq<byte>)
    ensures |s| == w
    decreases w
  {
    if w == 0 then [] else Be(n / 256, w - 1) + [n % 256]
  }

  function FromBe(s: seq<byte>): nat {
    if s == [] then 0 else 256 * FromBe(s[..|s| - 1]) + s[|s| - 1]
  }

  lemma {:induction false} MulAtLeast(d: nat, k: nat)
    requires k >= 1
    ensures d * k >= d
  {
    if k > 1 {
      MulAtLeast(d, k - 1);
      assert d * k == d * (k - 1) + d;
    }
  }

  lemma MulDifference(d: int, a: int, b: int)
    ensures d * (a - b) == d * a - d * b
  {
  }

  lemma QuotientUnique(d: int, q: int, r: int, q': int, r': int)
    requires 0 <= r < d && 0 <= r' < d
    requires d * q + r == d * q' + r'
    ensures q == q'
  {
    if q < q' {
      MulDifference(d, q', q);
      MulAtLeast(d, q' - q);
    } else if q' < q {
      MulDifference(d, q, q');
      MulAtLeast(d, q - q');
    }
  }

  /** Euclidean division is determined by its defining equation. */
  lemma DivModUnique(n: int, d: int, q: int, r: int)
    requires 0 <= r < d && n == d * q + r
    ensures n / d == q && n % d == r
  {
    QuotientUnique(d, q, r, n / d, n % d);
  }

  /** The remainder by 256^w splits into the low octet and the remainder of the rest. */
  lemma ModSplit(n: nat, w: nat)
    requires w > 0
    ensures n % Pow256(w) == n % 256 + 256 * ((n / 256) % Pow256(w - 1))
  {
    var p, q := Pow256(w - 1), n / 256;
    assert 256 * p * (q / p) == 256 * (p * (q / p));
    DivModUnique(n, 256 * p, q / p, n % 256 + 256 * (q % p));
  }

  /** Reading back a stored little-endian field gives the value the field can hold. */
  lemma {:induction false} LeRoundTrip(n: nat, w: nat)
    ensures FromLe(Le(n, w)) == n % Pow256(w)
    decreases w
  {
    if w != 0 {
      LeRoundTrip(n / 256, w - 1);
      ModSplit(n, w);
      assert Le(n, w)[1..] == Le(n / 256, w - 1);
    }
  }

  /** Reading back a stored network-order field gives the value the field can hold. */
  lemma {:induction false} BeRoundTrip(n: nat, w: nat)
    ensures FromBe(Be(n, w)) == n % Pow256(w)
    decreases w
  {
    if w != 0 {
      BeRoundTrip(n / 256, w - 1);
      ModSplit(n, w);
      assert Be(n, w)[..w - 1] == Be(n / 256, w - 1);
    }
  }

  lemma {:induction false} FromLeBound(s: seq<byte>)
    ensures FromLe(s) < Pow256(|s|)
  {
    if s != [] {
      FromLeBound(s[1..]);
    }
  }

  lemma {:induction false} FromBeBound(s: seq<byte>)
    ensures FromBe(s) < Pow256(|s|)
  {
    if s != [] {
      FromBeBound(s[..|s| - 1]);
    }
  }

  lemma Widths()
    ensures Pow256(1) == 0x100 && Pow256(2) == 0x1_0000
    ensures Pow256(4) == 0x1_0000_0000 && Pow256(8) == 0x1_0000_0000_0000_0000
  {
  }

  lemma Subslice(m: seq<byte>, o: nat, n: nat, a: nat, b: nat)
    requires o + n <= |m| && a <= b <= n
    ensures m[o..o + n][a..b] == m[o + a..o + b]
  {
    var s, t := m[o..o + n][a..b], m[o + a..o + b];
    assert |s| == |t| && forall k | 0 <= k < |s| :: s[k] == m[o + a + k] == t[k];
  }
}
