/** Shared vocabulary: bytes, machine-integer bounds, the error-or-value
    result used wherever the C++ code throws, and small sequence helpers. */
module Common {

  /** An unsigned 8-bit value. */
  type byte = x: int | 0 <= x < 0x100

  const TWO8: nat := 0x100
  const TWO31: nat := 0x8000_0000
  const TWO32: nat := 0x1_0000_0000
  const TWO63: nat := 0x8000_0000_0000_0000
  const TWO64: nat := 0x1_0000_0000_0000_0000

  /** The outcome of an operation that the source ends with an exception
      (`TdmSyncAssert`, `std::runtime_error`) on some inputs. */
  datatype Result<T> = Ok(value: T) | Fail(reason: string)

  datatype Option<T> = None | Some(value: T)

  /** An unsigned 32-bit value. */
  type u32 = x: int | 0 <= x < 0x1_0000_0000

  /** The low eight bits of a non-negative integer, `n & 255`. */
  function Low8(n: nat): byte
  {
    n % 256
  }

  /** Signed machine-integer ranges. */
  predicate IsInt32(v: int) { -(TWO31 as int) <= v < TWO31 }
  predicate IsInt64(v: int) { -(TWO63 as int) <= v < TWO63 }

  function Min(a: int, b: int): int { if a <= b then a else b }
  function Max(a: int, b: int): int { if a >= b then a else b }
  function Abs(a: int): nat { if a < 0 then -a else a }

  /** The C++ `/` on integers: the quotient truncated toward zero, which
      differs from the Euclidean `/` of this model when an operand is
      negative. */
  function TruncDiv(a: int, b: int): (q: int)
    requires b != 0
    ensures Abs(q) * Abs(b) <= Abs(a) < (Abs(q) + 1) * Abs(b)
    ensures q > 0 ==> (a < 0) == (b < 0)
  {
    var m := Abs(a) / Abs(b);
    DivBounds(Abs(a), Abs(b));
    if (a < 0) == (b < 0) then m else -m
  }

  lemma DivBounds(a: nat, b: nat)
    requires b > 0
    ensures (a / b) * b <= a < (a / b + 1) * b
  {
    assert a == b * (a / b) + a % b;
  }

  /** The conversion of an integer to a 32-bit `int`: the value modulo
      2^32, read as two's complement. */
  function ToInt32(x: int): (v: int)
    ensures IsInt32(v)
    ensures (x - v) % TWO32 == 0
    ensures IsInt32(x) ==> v == x
  {
    var u := x % TWO32;
    if u < TWO31 then u else u - TWO32
  }

  /** 2^n as an unbounded integer. */
  function Pow2(n: nat): (r: nat)
    ensures r >= 1
  {
    if n == 0 then 1 else 2 * Pow2(n - 1)
  }

  lemma {:induction false} Pow2Add(a: nat, b: nat)
    ensures Pow2(a + b) == Pow2(a) * Pow2(b)
  {
    if a > 0 {
      Pow2Add(a - 1, b);
    }
  }

  lemma Pow2Monotone(a: nat, b: nat)
    requires a <= b
    ensures Pow2(a) <= Pow2(b)
  {
    Pow2Add(a, b - a);
  }

  /** The powers of two the machine words and byte loops use. */
  lemma Pow2Words()
    ensures Pow2(4) == 16 && Pow2(8) == 256 && Pow2(16) == 0x1_0000
    ensures Pow2(22) == 0x40_0000
    ensures Pow2(32) == TWO32 && Pow2(64) == TWO64
  {
    assert Pow2(4) == 16;
    Pow2Add(4, 4);
    Pow2Add(8, 8);
    Pow2Add(8, 3);
    Pow2Add(11, 11);
    Pow2Add(16, 16);
    Pow2Add(32, 32);
  }

  /** Sum of a sequence of integers, from the left. */
  function Sum(xs: seq<int>): int
  {
    if |xs| == 0 then 0 else Sum(xs[..|xs| - 1]) + xs[|xs| - 1]
  }

  lemma {:induction false} SumAppend(xs: seq<int>, ys: seq<int>)
    ensures Sum(xs + ys) == Sum(xs) + Sum(ys)
    decreases |ys|
  {
    if |ys| == 0 {
      assert xs + ys == xs;
    } else {
      var ys' := ys[..|ys| - 1];
      assert (xs + ys)[..|xs + ys| - 1] == xs + ys';
      SumAppend(xs, ys');
    }
  }

  /** True when every element occurs at most once. */
  predicate Distinct<T(==)>(xs: seq<T>)
  {
    forall i, j :: 0 <= i < j < |xs| ==> xs[i] != xs[j]
  }

  /** A sequence without repeats has as many distinct elements as entries. */
  lemma {:induction false} DistinctCard<T>(xs: seq<T>)
    requires Distinct(xs)
    ensures |set x | x in xs| == |xs|
  {
    if |xs| > 0 {
      var init := xs[..|xs| - 1];
      DistinctCard(init);
      assert (set x | x in xs) == (set x | x in init) + {xs[|xs| - 1]};
      assert xs[|xs| - 1] !in (set x | x in init);
    }
  }

  /** The remainder is the unique residue r with y == m * d + r. */
  lemma ModUnique(y: int, m: int, d: int, r: int)
    requires m > 0 && 0 <= r < m
    requires y == m * d + r
    ensures y % m == r
  {
    var d', r' := y / m, y % m;
    assert m * d' + r' == m * d + r;
    assert m * (d - d') == r' - r;
    MulMagnitude(m, d - d');
  }

  lemma ModShift(i: nat, p: nat)
    requires p > 0
    ensures (i + p) % p == i % p
  {
    assert i == p * (i / p) + i % p;
    ModUnique(i + p, p, i / p + 1, i % p);
  }

  lemma MulMagnitude(m: int, x: int)
    requires m > 0
    ensures x >= 1 ==> m * x >= m
    ensures x <= -1 ==> m * x <= -m
  {
  }

  /** Bitwise exclusive or of the k low bits of x and y. */
  function XorBits(x: nat, y: nat, k: nat): (r: nat)
    ensures r < Pow2(k)
  {
    if k == 0 then 0 else (if x % 2 == y % 2 then 0 else 1) + 2 * XorBits(x / 2, y / 2, k - 1)
  }

  /** Xoring a k-bit value with y twice gives it back. */
  lemma {:induction false} XorBitsCancel(x: nat, y: nat, k: nat)
    requires x < Pow2(k)
    ensures XorBits(XorBits(x, y, k), y, k) == x
  {
    if k > 0 {
      var z := XorBits(x, y, k);
      var low := if x % 2 == y % 2 then 0 else 1;
      assert z == low + 2 * XorBits(x / 2, y / 2, k - 1);
      assert z % 2 == low && z / 2 == XorBits(x / 2, y / 2, k - 1);
      XorBitsCancel(x / 2, y / 2, k - 1);
    }
  }

  /** Xoring a value with itself clears every bit. */
  lemma {:induction false} XorBitsSelf(x: nat, k: nat)
    ensures XorBits(x, x, k) == 0
  {
    if k > 0 {
      XorBitsSelf(x / 2, k - 1);
    }
  }

  lemma {:induction false} XorBitsSymmetric(x: nat, y: nat, k: nat)
    ensures XorBits(x, y, k) == XorBits(y, x, k)
  {
    if k > 0 {
      XorBitsSymmetric(x / 2, y / 2, k - 1);
    }
  }
}
