/** Polynomial rolling hash modulo the Mersenne prime 2^31 - 1
    (polyhash.c, polyhash.h).

    The C code keeps the "negator" -BASE^len (mod MODULO) in the global
    POLYHASH_NEGATOR, written as a side effect of `polyhash_compute`; here it
    is the second result of `Compute`. */
module PolyHash {
  import opened Common

  const MODULO: nat := 0x7FFF_FFFF
  const BASE: nat := 103945823

  /** BASE^n, unreduced. */
  function Pow(n: nat): nat
  {
    if n == 0 then 1 else Pow(n - 1) * BASE
  }

  /** The polynomial sum of data[i] * BASE^(len-1-i), unreduced (Horner form). */
  function PolySum(data: seq<byte>): nat
  {
    if |data| == 0 then 0 else PolySum(data[..|data| - 1]) * BASE + data[|data| - 1] as nat
  }

  /** The reference value of the hash of a window. */
  function Hash(data: seq<byte>): nat
  {
    PolySum(data) % MODULO
  }

  /** The negator for windows of length n: the residue that cancels BASE^n. */
  function NegatorFor(n: nat): (r: nat)
    ensures r < MODULO
    ensures (r + Pow(n)) % MODULO == 0
  {
    var pw := Pow(n) % MODULO;
    var neg := if pw == 0 then 0 else MODULO - pw;
    ModCancel(Pow(n), MODULO);
    neg
  }

  /** polyhash_compute: Horner's rule with every intermediate held in a
      uint64 and reduced to a uint32 residue; also yields the negator. */
  method Compute(data: seq<byte>) returns (res: nat, negator: nat)
    ensures res < MODULO
    ensures res == PolySum(data) % MODULO
    ensures negator < MODULO
    ensures (negator + Pow(|data|)) % MODULO == 0
    ensures |data| == 0 ==> res == 0 && negator == MODULO - 1
  {
    res := 0;
    var pw: nat := 1;
    for i := 0 to |data|
      invariant res < MODULO && pw < MODULO
      invariant res == PolySum(data[..i]) % MODULO
      invariant pw == Pow(i) % MODULO
    {
      ProductFitsUint64(res, BASE, data[i] as nat);
      ProductFitsUint64(pw, BASE, 0);
      assert data[..i + 1][..i] == data[..i];
      ModMulAdd(PolySum(data[..i]), BASE, data[i] as nat, MODULO);
      ModMulAdd(Pow(i), BASE, 0, MODULO);
      res := (res * BASE + data[i] as nat) % MODULO;
      pw := (pw * BASE) % MODULO;
    }
    assert data[..|data|] == data;
    pw := MODULO - pw;
    if pw == MODULO {
      pw := 0;
    }
    negator := pw;
    ModCancel(Pow(|data|), MODULO);
  }

  /** Any two results of Compute over windows of equal length carry the same
      negator: it depends on the length only, never on the bytes. */
  lemma NegatorDependsOnLengthOnly(n1: nat, n2: nat, g1: nat, g2: nat)
    requires n1 == n2
    requires g1 < MODULO && (g1 + Pow(n1)) % MODULO == 0
    requires g2 < MODULO && (g2 + Pow(n2)) % MODULO == 0
    ensures g1 == g2 == NegatorFor(n1)
  {
    var g := NegatorFor(n1);
    ResidueUnique(g1, g, Pow(n1));
    ResidueUnique(g2, g, Pow(n1));
  }

  /** polyhash_fast_update: slide the window by one byte. */
  function FastUpdate(value: nat, added: byte, removed: byte, negator: nat): (r: nat)
    requires value < TWO32 && negator < TWO32
    ensures r < MODULO
  {
    (value * BASE + added as nat + removed as nat * negator) % MODULO
  }

  /** The uint64 intermediate of polyhash_fast_update never wraps, for every
      uint32 value and negator and every pair of bytes. */
  lemma FastUpdateFitsUint64(value: nat, added: byte, removed: byte, negator: nat)
    requires value < TWO32 && negator < TWO32
    ensures value * BASE + added as nat + removed as nat * negator < TWO64
  {
    MulBound(value, TWO32, BASE, BASE + 1);
    MulBound(removed as nat, TWO8, negator, TWO32);
  }

  lemma ConstantsAgree()
    ensures MODULO == TWO31 - 1
    ensures 0 < BASE < MODULO
  {
  }

  /** The rolling-window identity: with the negator of a length-n window,
      one fast update turns the hash of w[0..n) into the hash of w[1..n+1). */
  lemma {:induction false} RollingWindow(w: seq<byte>, n: nat)
    requires |w| == n + 1
    ensures FastUpdate(Hash(w[..n]), w[n], w[0], NegatorFor(n)) == Hash(w[1..])
  {
    var h := PolySum(w[..n]);
    var neg := NegatorFor(n);
    var w0 := w[0] as nat;
    var wn := w[n] as nat;
    assert w[..n + 1][..n] == w[..n];
    assert w == w[..n + 1];
    assert PolySum(w) == h * BASE + wn;
    assert w == [w[0]] + w[1..];
    PolySumCons(w[0], w[1..]);
    assert PolySum(w) == w0 * Pow(n) + PolySum(w[1..]);
    RollStep(h, wn, w0, Pow(n), neg, MODULO);
    assert h * BASE + wn - w0 * Pow(n) == PolySum(w[1..]);
  }

  /** Prepending a byte adds it at the highest power. */
  lemma {:induction false} PolySumCons(c: byte, x: seq<byte>)
    ensures PolySum([c] + x) == c as nat * Pow(|x|) + PolySum(x)
    decreases |x|
  {
    if |x| == 0 {
      assert [c] + x == [c];
      assert [c][..0] == [];
    } else {
      var x' := x[..|x| - 1];
      assert ([c] + x)[..|[c] + x| - 1] == [c] + x';
      PolySumCons(c, x');
      var last := x[|x| - 1] as nat;
      assert PolySum([c] + x) == PolySum([c] + x') * BASE + last;
      assert PolySum([c] + x') == c as nat * Pow(|x'|) + PolySum(x');
      HornerStep(c as nat, Pow(|x'|), PolySum(x'), BASE, last);
    }
  }

  // ---------------------------------------------------------------------
  // Modular arithmetic helpers.

  lemma ModAddMultiple(x: int, q: int, m: int)
    requires m > 0
    ensures (x + q * m) % m == x % m
  {
    assert x == m * (x / m) + x % m;
    assert x + q * m == m * (x / m + q) + x % m;
    ModUnique(x + q * m, m, x / m + q, x % m);
  }

  lemma ModMulAdd(a: int, k: int, c: int, m: int)
    requires m > 0
    ensures ((a % m) * k + c) % m == (a * k + c) % m
  {
    var q := a / m;
    assert a == m * q + a % m;
    assert a * k + c == (a % m) * k + c + (q * k) * m;
    ModAddMultiple((a % m) * k + c, q * k, m);
  }

  lemma ModCancel(p: int, m: int)
    requires m > 0
    ensures var pw := p % m; ((if pw == 0 then 0 else m - pw) + p) % m == 0
  {
    var pw := p % m;
    assert p == m * (p / m) + pw;
    if pw == 0 {
      ModUnique(p, m, p / m, 0);
    } else {
      ModUnique(m - pw + p, m, p / m + 1, 0);
    }
  }

  lemma ResidueUnique(g1: nat, g2: nat, p: nat)
    requires g1 < MODULO && g2 < MODULO
    requires (g1 + p) % MODULO == 0 && (g2 + p) % MODULO == 0
    ensures g1 == g2
  {
    var k1, k2 := (g1 + p) / MODULO, (g2 + p) / MODULO;
    assert g1 + p == MODULO * k1;
    assert g2 + p == MODULO * k2;
    assert g1 - g2 == MODULO * (k1 - k2);
    MulMagnitude(MODULO, k1 - k2);
  }

  /** The algebra of one window slide, on plain integers. */
  lemma RollStep(h: int, wn: int, w0: int, p: int, neg: int, m: int)
    requires m > 0
    requires (neg + p) % m == 0
    ensures ((h % m) * BASE + wn + w0 * neg) % m == (h * BASE + wn - w0 * p) % m
  {
    var k := (neg + p) / m;
    assert neg + p == m * k;
    assert w0 * neg == w0 * (m * k) - w0 * p;
    assert w0 * (m * k) == (w0 * k) * m;
    assert (h % m) * BASE + wn + w0 * neg == ((h % m) * BASE + (wn - w0 * p)) + (w0 * k) * m;
    ModAddMultiple((h % m) * BASE + (wn - w0 * p), w0 * k, m);
    ModMulAdd(h, BASE, wn - w0 * p, m);
  }

  lemma HornerStep(c: int, p: int, s: int, k: int, e: int)
    ensures (c * p + s) * k + e == c * (p * k) + (s * k + e)
  {
  }

  lemma MulBound(a: nat, aMax: nat, b: nat, bMax: nat)
    requires a < aMax && b < bMax
    ensures a * b <= (aMax - 1) * (bMax - 1)
  {
    assert a * b <= (aMax - 1) * b;
    assert (aMax - 1) * b <= (aMax - 1) * (bMax - 1);
  }

  lemma ProductFitsUint64(a: nat, k: nat, c: nat)
    requires a < MODULO && k == BASE && c < TWO8
    ensures a * k + c < TWO64
  {
    MulBound(a, MODULO, k, BASE + 1);
  }
}
