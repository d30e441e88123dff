/** Cyclic-polynomial ("buzhash") window update (buzhash.h).

    The 256-entry table `buzhash_table` and the body of `buzhash_compute` are
    not part of this model: the table is an arbitrary map from bytes to words,
    and `BuzSum` below is the textbook cyclic-polynomial hash of a window,
    used as the reference that the fast update is checked against. */
module BuzHash {
  import opened Common

  /** A 256-entry table, one word per byte value. */
  type Table = byte -> bv32

  /** The rotation exactly as the header writes it: (value << 1) ^ (value >> 31),
      which is a 32-bit rotate-left by one. */
  function Rotl1(v: bv32): (r: bv32)
    ensures r == v.RotateLeft(1)
  {
    (v << 1) ^ (v >> 31)
  }

  /** Arithmetic reference for a one-bit left rotation of a 32-bit word:
      double (wrapping modulo 2^32), then add the carried-out top bit at the
      bottom. */
  function RotlArith(v: bv32): bv32
  {
    v * 2 + v / 0x8000_0000
  }

  /** The shift/xor expression agrees with the arithmetic description of a
      one-bit rotation. */
  lemma ShiftXorIsArithmeticRotation(v: bv32)
    ensures Rotl1(v) == RotlArith(v)
  {
  }

  /** buzhash_fast_update: rotate the window value, then xor out the removed
      byte's table entry and xor in the added byte's. Knowing the two bytes,
      the previous value can be recovered from the new one. */
  function FastUpdate(table: Table, value: bv32, added: byte, removed: byte): (r: bv32)
    ensures (r ^ table(added) ^ table(removed)).RotateRight(1) == value
  {
    Rotl1(value) ^ (table(removed) ^ table(added))
  }

  /** Adding the byte that is removed leaves only the rotation. */
  lemma UpdateSameByteIsRotation(table: Table, value: bv32, b: byte)
    ensures FastUpdate(table, value, b, b) == value.RotateLeft(1)
  {
  }

  /** The update cannot tell the added byte from the removed one. */
  lemma UpdateSymmetric(table: Table, value: bv32, a: byte, r: byte)
    ensures FastUpdate(table, value, a, r) == FastUpdate(table, value, r, a)
  {
  }

  /** n successive one-bit rotations. */
  function RotlN(v: bv32, n: nat): bv32
  {
    if n == 0 then v else Rotl1(RotlN(v, n - 1))
  }

  lemma RotlNUnfold(v: bv32, n: nat)
    requires n >= 1
    ensures RotlN(v, n) == Rotl1(RotlN(v, n - 1))
  {
  }

  lemma {:induction false} RotlNAdd(v: bv32, a: nat, b: nat)
    ensures RotlN(RotlN(v, a), b) == RotlN(v, a + b)
    decreases b
  {
    if b > 0 {
      RotlNAdd(v, a, b - 1);
    }
  }

  lemma RotlTwice(v: bv32)
    ensures RotlN(v, 2) == (v << 2) ^ (v >> 30)
  {
    assert RotlN(v, 1) == Rotl1(v);
    assert RotlN(v, 2) == Rotl1(RotlN(v, 1));
  }

  lemma RotlFour(v: bv32)
    ensures RotlN(v, 4) == (v << 4) ^ (v >> 28)
  {
    RotlNAdd(v, 2, 2);
    RotlTwice(v);
    RotlTwice(RotlN(v, 2));
  }

  lemma RotlEight(v: bv32)
    ensures RotlN(v, 8) == (v << 8) ^ (v >> 24)
  {
    RotlNAdd(v, 4, 4);
    RotlFour(v);
    RotlFour(RotlN(v, 4));
  }

  lemma RotlSixteen(v: bv32)
    ensures RotlN(v, 16) == (v << 16) ^ (v >> 16)
  {
    RotlNAdd(v, 8, 8);
    RotlEight(v);
    RotlEight(RotlN(v, 8));
  }

  /** Thirty-two one-bit rotations of a 32-bit word give the word back; this
      is why a window must be a whole number of 32-byte groups. */
  lemma RotlFullCircle(v: bv32)
    ensures RotlN(v, 32) == v
  {
    RotlNAdd(v, 16, 16);
    RotlSixteen(v);
    RotlSixteen(RotlN(v, 16));
  }

  lemma {:induction false} RotlMultipleOf32(v: bv32, q: nat)
    ensures RotlN(v, 32 * q) == v
  {
    if q > 0 {
      RotlMultipleOf32(v, q - 1);
      RotlNAdd(v, 32 * (q - 1), 32);
      RotlFullCircle(RotlN(v, 32 * (q - 1)));
    }
  }

  lemma {:induction false} RotlNDistributes(a: bv32, b: bv32, n: nat)
    ensures RotlN(a ^ b, n) == RotlN(a, n) ^ RotlN(b, n)
  {
    if n > 0 {
      RotlNDistributes(a, b, n - 1);
      Rotl1Distributes(RotlN(a, n - 1), RotlN(b, n - 1));
    }
  }

  /** Reference hash of a window: sum over i of table(data[i]) rotated
      (len-1-i) times, combined by xor (Horner form). */
  function BuzSum(table: Table, data: seq<byte>): bv32
  {
    if |data| == 0 then 0 else Rotl1(BuzSum(table, data[..|data| - 1])) ^ table(data[|data| - 1])
  }

  /** Prepending a byte contributes its table entry rotated |x| times. */
  lemma {:induction false} BuzSumCons(table: Table, c: byte, x: seq<byte>)
    ensures BuzSum(table, [c] + x) == RotlN(table(c), |x|) ^ BuzSum(table, x)
    decreases |x|
  {
    if |x| == 0 {
      assert [c] + x == [c];
      assert [c][..0] == [];
    } else {
      var x' := x[..|x| - 1];
      assert ([c] + x)[..|[c] + x| - 1] == [c] + x';
      BuzSumCons(table, c, x');
      Rotl1Distributes(RotlN(table(c), |x'|), BuzSum(table, x'));
    }
  }

  /** Rolling identity: when the window length is a multiple of 32, one fast
      update turns the hash of w[0..n) into the hash of w[1..n+1). */
  lemma RollingWindow(table: Table, w: seq<byte>, n: nat)
    requires |w| == n + 1
    requires n % 32 == 0
    ensures FastUpdate(table, BuzSum(table, w[..n]), w[n], w[0]) == BuzSum(table, w[1..])
  {
    RollingStep(table, w, n, BuzSum(table, w[..n]), BuzSum(table, w[1..]));
  }

  lemma {:induction false} RollingStep(table: Table, w: seq<byte>, n: nat, h: bv32, r: bv32)
    requires |w| == n + 1
    requires n % 32 == 0
    requires h == BuzSum(table, w[..n]) && r == BuzSum(table, w[1..])
    ensures FastUpdate(table, h, w[n], w[0]) == r
  {
    if n == 0 {
      assert w[..n] == [] && w[1..] == [];
    } else {
      var mid := w[1..n];
      var m := BuzSum(table, mid);
      assert w[..n] == [w[0]] + mid;
      OldestCancels(table, w[0], mid, h, m, w[n]);
      assert w[1..] == mid + [w[n]];
      BuzSumSnoc(table, mid, w[n]);
    }
  }

  /** The fast update of a window whose length is a multiple of 32 removes
      the oldest byte's entry exactly. */
  lemma OldestCancels(table: Table, c: byte, mid: seq<byte>, h: bv32, m: bv32, added: byte)
    requires (|mid| + 1) % 32 == 0
    requires h == BuzSum(table, [c] + mid) && m == BuzSum(table, mid)
    ensures FastUpdate(table, h, added, c) == Rotl1(m) ^ table(added)
  {
    RotateDropsOldest(table, c, mid, h, m);
    UpdateCancels(table, h, m, added, c);
  }

  /** Appending a byte rotates the hash once and mixes in its entry. */
  lemma BuzSumSnoc(table: Table, x: seq<byte>, c: byte)
    ensures BuzSum(table, x + [c]) == Rotl1(BuzSum(table, x)) ^ table(c)
  {
    assert (x + [c])[..|x|] == x;
  }

  /** Over a window whose length is a multiple of 32, one rotation brings the
      oldest byte's entry back to its unrotated value. */
  lemma RotateDropsOldest(table: Table, c: byte, mid: seq<byte>, h: bv32, m: bv32)
    requires (|mid| + 1) % 32 == 0
    requires h == BuzSum(table, [c] + mid) && m == BuzSum(table, mid)
    ensures Rotl1(h) == table(c) ^ Rotl1(m)
  {
    BuzSumCons(table, c, mid);
    RotateCore(table(c), m, h, |mid| + 1);
  }

  lemma RotateCore(a: bv32, m: bv32, h: bv32, n: nat)
    requires n >= 1 && n % 32 == 0
    requires h == RotlN(a, n - 1) ^ m
    ensures Rotl1(h) == a ^ Rotl1(m)
  {
    var older := RotlN(a, n - 1);
    RotlMultipleOf32(a, n / 32);
    RotlNUnfold(a, n);
    RotateXorStep(a, m, older, h);
  }

  lemma RotateXorStep(a: bv32, m: bv32, older: bv32, h: bv32)
    requires h == older ^ m
    requires Rotl1(older) == a
    ensures Rotl1(h) == a ^ Rotl1(m)
  {
    Rotl1Distributes(older, m);
  }

  lemma Rotl1Distributes(a: bv32, b: bv32)
    ensures Rotl1(a ^ b) == Rotl1(a) ^ Rotl1(b)
  {
  }

  lemma UpdateCancels(table: Table, h: bv32, m: bv32, added: byte, removed: byte)
    requires Rotl1(h) == table(removed) ^ Rotl1(m)
    ensures FastUpdate(table, h, added, removed) == Rotl1(m) ^ table(added)
  {
  }
}
