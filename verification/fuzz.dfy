/** Input generators and mutators of the fuzz harness (fuzz.py).

    Every call to Python's `random` module is replaced by an explicit draw:
    a raw natural number that `RandInt` maps into the requested closed range,
    a stream `nat -> byte` for `os.urandom` and `randint(0, 255)`, a stream
    `nat -> nat` for the picks made by `random.sample`, and a boolean for each
    `random() < p` test. The floating-point draws `int(2.0 ** uniform(a, b))`
    become integer draws over the range of values they can produce. */
module Fuzz {
  import opened Common

  /** randint(lo, hi): some integer in the closed range, chosen by `raw`. */
  function RandInt(lo: int, hi: int, raw: nat): (r: int)
    requires lo <= hi
    ensures lo <= r <= hi
  {
    lo + raw % (hi - lo + 1)
  }

  // ---------------------------------------------------------------------
  // gen_base

  /** The branch gen_base takes, with the values it draws. */
  datatype BaseDraw =
    | Fill(zero: bool, value: byte)      // t < 0.2; `zero` is random() < 0.3
    | Ramp                               // t < 0.4
    | Periodic(rawPeriod: nat)           // t < 0.6; period randint(1024, 4096)
    | Noise(bytes: nat -> byte)          // os.urandom(size)

  function Period(rawPeriod: nat): (per: nat)
    ensures 1024 <= per <= 4096
  {
    var per := RandInt(1024, 4096, rawPeriod);
    per
  }

  /** gen_base(size). */
  function GenBase(size: nat, d: BaseDraw): (r: seq<byte>)
    ensures |r| == size
  {
    match d
    case Fill(zero, value) =>
      var v := if zero then 0 else value;
      seq(size, _ => v)
    case Ramp =>
      seq(size, i requires 0 <= i => Low8(i))
    case Periodic(rawPeriod) =>
      var per := Period(rawPeriod);
      seq(size, i requires 0 <= i => Low8(i % per + 13))
    case Noise(bytes) =>
      seq(size, i requires 0 <= i => bytes(i))
  }

  /** The constant branch fills the buffer with one value, zero when the
      inner draw asks for zero. */
  lemma GenBaseFillIsConstant(size: nat, zero: bool, value: byte)
    ensures var r := GenBase(size, Fill(zero, value));
      && (forall i, j :: 0 <= i < size && 0 <= j < size ==> r[i] == r[j])
      && (zero ==> forall i :: 0 <= i < size ==> r[i] == 0)
  {
  }

  /** The ramp branch repeats with period 256 and starts every period at 0. */
  lemma GenBaseRampRepeats(size: nat)
    ensures var r := GenBase(size, Ramp);
      && (forall i :: 0 <= i && i + 256 < size ==> r[i + 256] == r[i])
      && (forall i :: 0 <= i < size && i % 256 == 0 ==> r[i] == 0)
  {
    var r := GenBase(size, Ramp);
    forall i | 0 <= i && i + 256 < size
      ensures r[i + 256] == r[i]
    {
      assert r[i + 256] == Low8(i + 256) && r[i] == Low8(i);
      assert (i + 256) % 256 == i % 256;
    }
    forall i | 0 <= i < size && i % 256 == 0
      ensures r[i] == 0
    {
      assert r[i] == Low8(i);
    }
  }

  /** The periodic branch repeats with a period in [1024, 4096] and takes the
      value 13 at the start of each period. */
  lemma GenBasePeriodicRepeats(size: nat, rawPeriod: nat)
    ensures var r := GenBase(size, Periodic(rawPeriod));
      var per := Period(rawPeriod);
      && 1024 <= per <= 4096
      && (forall i :: 0 <= i && i + per < size ==> r[i + per] == r[i])
      && (forall i :: 0 <= i < size && i % per == 0 ==> r[i] == 13)
  {
    var r := GenBase(size, Periodic(rawPeriod));
    var per := Period(rawPeriod);
    forall i | 0 <= i && i + per < size
      ensures r[i + per] == r[i]
    {
      assert r[i + per] == Low8((i + per) % per + 13) && r[i] == Low8(i % per + 13);
      ModShift(i, per);
    }
    forall i | 0 <= i < size && i % per == 0
      ensures r[i] == 13
    {
      assert r[i] == Low8(13);
    }
  }

  /** gen_base(16) in the constant-zero branch gives sixteen zero bytes. */
  lemma GenBaseZeroScenario(value: byte)
    ensures GenBase(16, Fill(true, value)) == seq(16, _ => 0 as byte)
  {
  }

  // ---------------------------------------------------------------------
  // mix_inputs

  /** One chunk of the interleave loop: the source (`w == 1` picks the
      second buffer) and the raw draw of int(2 ** (random() * logmax)) + 1. */
  datatype Chunk = Chunk(fromSecond: bool, rawSize: nat)

  /** The branch mix_inputs takes, with the values it draws. */
  datatype MixDraw =
    | Splice(rawPos: nat)                  // t < 0.2
    | Window(rawS: nat, rawE: nat)         // t < 0.4
    | Xor                                  // t < 0.6
    | Interleave(rawLog: nat, chunks: seq<Chunk>)

  /** Size of one interleave chunk: int(2 ** x) + 1 for x in [0, logmax).
      The power stays below 2^logmax, so its integer part is at most
      2^logmax - 1 (and 1 when logmax is 0). */
  function ChunkSize(logmax: nat, rawSize: nat): (sz: nat)
    ensures 2 <= sz <= Max(Pow2(logmax), 2)
  {
    RandInt(1, Max(Pow2(logmax) - 1, 1), rawSize) + 1
  }

  /** The interleave loop of mix_inputs, one chunk draw per iteration. It
      fails when the draws run out before the output reaches `size` bytes. */
  function Weave(a: seq<byte>, b: seq<byte>, size: nat, i: nat, j: nat, res: seq<byte>,
                 logmax: nat, chunks: seq<Chunk>): (r: Result<seq<byte>>)
    requires i <= |a| && j <= |b|
    ensures r.Ok? ==> |r.value| == size
    decreases |chunks|
  {
    if |res| >= size then Ok(res[..size])
    else if |chunks| == 0 then Fail("interleave draws exhausted")
    else
      var sz := ChunkSize(logmax, chunks[0].rawSize);
      if !chunks[0].fromSecond then
        var n := Min(sz, |a| - i);
        Weave(a, b, size, i + n, j, res + a[i..i + n], logmax, chunks[1..])
      else
        var n := Min(sz, |b| - j);
        Weave(a, b, size, i, j + n, res + b[j..j + n], logmax, chunks[1..])
  }

  /** The interleave only copies bytes: every output byte is taken, once,
      from the front of one of the two inputs. */
  lemma {:induction false} WeaveDrawsFromInputs(a: seq<byte>, b: seq<byte>, size: nat, i: nat, j: nat,
                                                res: seq<byte>, logmax: nat, chunks: seq<Chunk>)
    requires i <= |a| && j <= |b|
    requires multiset(res) == multiset(a[..i]) + multiset(b[..j])
    ensures var r := Weave(a, b, size, i, j, res, logmax, chunks);
      r.Ok? ==> multiset(r.value) <= multiset(a) + multiset(b)
    decreases |chunks|
  {
    if |res| >= size {
      TakeWithinInputs(a, b, i, j, res, size);
    } else if |chunks| > 0 {
      var sz := ChunkSize(logmax, chunks[0].rawSize);
      if !chunks[0].fromSecond {
        var n := Min(sz, |a| - i);
        PrefixGrows(a, i, n);
        WeaveDrawsFromInputs(a, b, size, i + n, j, res + a[i..i + n], logmax, chunks[1..]);
      } else {
        var n := Min(sz, |b| - j);
        PrefixGrows(b, j, n);
        WeaveDrawsFromInputs(a, b, size, i, j + n, res + b[j..j + n], logmax, chunks[1..]);
      }
    }
  }

  lemma PrefixGrows(s: seq<byte>, i: nat, n: nat)
    requires i + n <= |s|
    ensures multiset(s[..i + n]) == multiset(s[..i]) + multiset(s[i..i + n])
  {
    assert s[..i + n] == s[..i] + s[i..i + n];
  }

  /** A prefix of bytes drawn from the fronts of a and b is drawn from a
      and b. */
  lemma TakeWithinInputs(a: seq<byte>, b: seq<byte>, i: nat, j: nat, res: seq<byte>, size: nat)
    requires i <= |a| && j <= |b| && size <= |res|
    requires multiset(res) == multiset(a[..i]) + multiset(b[..j])
    ensures multiset(res[..size]) <= multiset(a) + multiset(b)
  {
    assert res == res[..size] + res[size..];
    assert multiset(res[..size]) <= multiset(res);
    assert a == a[..i] + a[i..];
    assert multiset(a[..i]) <= multiset(a);
    assert b == b[..j] + b[j..];
    assert multiset(b[..j]) <= multiset(b);
  }

  /** The two points of the window branch, sorted. */
  function WindowPoints(size: nat, rawS: nat, rawE: nat): (p: (nat, nat))
    requires size > 0
    ensures p.0 <= p.1 < size
  {
    var x := RandInt(0, size - 1, rawS);
    var y := RandInt(0, size - 1, rawE);
    if x <= y then (x, y) else (y, x)
  }

  /** mix_inputs(arr0, arr1). The Python `assert` on equal lengths becomes a
      failure; an empty first input is returned as it is. */
  function Mix(a: seq<byte>, b: seq<byte>, d: MixDraw): (r: Result<seq<byte>>)
    ensures |a| != |b| ==> r.Fail?
    ensures |a| == |b| && d.Interleave? == false ==> r.Ok?
    ensures r.Ok? ==> |r.value| == |a|
    ensures |a| == |b| == 0 ==> r == Ok(a)
  {
    var size := |a|;
    if size != |b| then Fail("mix_inputs: lengths differ")
    else if size == 0 then Ok(a)
    else
      match d
      case Splice(rawPos) =>
        var pos := RandInt(0, size - 1, rawPos);
        Ok(a[0..pos] + b[0..size - pos])
      case Window(rawS, rawE) =>
        var (s, e) := WindowPoints(size, rawS, rawE);
        Ok(a[0..s] + b[0..e - s] + a[s..s + size - e])
      case Xor =>
        Ok(seq(size, i requires 0 <= i < size => XorByte(a[i], b[i])))
      case Interleave(rawLog, chunks) =>
        var logmax := RandInt(6, 12, rawLog);
        Weave(a, b, size, 0, 0, [], logmax, chunks)
  }

  /** The splice keeps a prefix of the first buffer and continues with the
      START of the second one, not with its suffix at the same point. */
  lemma MixSpliceTakesPrefixOfSecond(a: seq<byte>, b: seq<byte>, rawPos: nat)
    requires |a| == |b| > 0
    ensures var pos := RandInt(0, |a| - 1, rawPos);
      var r := Mix(a, b, Splice(rawPos)).value;
      && (forall k :: 0 <= k < pos ==> r[k] == a[k])
      && (forall k :: pos <= k < |a| ==> r[k] == b[k - pos])
  {
  }

  /** The window branch keeps a[0..s), borrows b[0..e-s), and then resumes
      the first buffer at s, not at e. */
  lemma MixWindowLayout(a: seq<byte>, b: seq<byte>, rawS: nat, rawE: nat)
    requires |a| == |b| > 0
    ensures var (s, e) := WindowPoints(|a|, rawS, rawE);
      var r := Mix(a, b, Window(rawS, rawE)).value;
      && (forall k :: 0 <= k < s ==> r[k] == a[k])
      && (forall k :: s <= k < e ==> r[k] == b[k - s])
      && (forall k :: e <= k < |a| ==> r[k] == a[k - e + s])
  {
  }

  /** Xoring with the same buffer twice gives the first buffer back. */
  lemma MixXorInvolution(a: seq<byte>, b: seq<byte>)
    requires |a| == |b|
    ensures Mix(Mix(a, b, Xor).value, b, Xor) == Ok(a)
  {
    var once := Mix(a, b, Xor).value;
    if |a| > 0 {
      var twice := Mix(once, b, Xor).value;
      forall k | 0 <= k < |a|
        ensures twice[k] == a[k]
      {
        XorCancels(a[k], b[k]);
      }
      assert twice == a;
    }
  }

  /** The `^` of two bytes. */
  function XorByte(x: byte, y: byte): byte
  {
    Pow2Words();
    XorBits(x, y, 8)
  }

  lemma XorCancels(x: byte, y: byte)
    ensures XorByte(XorByte(x, y), y) == x
  {
    Pow2Words();
    XorBitsCancel(x, y, 8);
  }

  /** Eight 0xFF bytes xored with eight 0x0F bytes give eight 0xF0 bytes. */
  lemma MixXorScenario()
    ensures Mix(seq(8, _ => 0xFF as byte), seq(8, _ => 0x0F as byte), Xor) == Ok(seq(8, _ => 0xF0 as byte))
  {
    var r := Mix(seq(8, _ => 0xFF as byte), seq(8, _ => 0x0F as byte), Xor).value;
    forall k | 0 <= k < 8
      ensures r[k] == 0xF0
    {
      assert XorByte(0xFF, 0x0F) == 0xF0;
    }
    assert r == seq(8, _ => 0xF0 as byte);
  }

  /** Every byte the interleave branch outputs comes from one of the inputs. */
  lemma MixInterleaveDrawsFromInputs(a: seq<byte>, b: seq<byte>, rawLog: nat, chunks: seq<Chunk>)
    requires |a| == |b| > 0
    ensures var r := Mix(a, b, Interleave(rawLog, chunks));
      r.Ok? ==> multiset(r.value) <= multiset(a) + multiset(b)
  {
    WeaveDrawsFromInputs(a, b, |a|, 0, 0, [], RandInt(6, 12, rawLog), chunks);
  }

  // ---------------------------------------------------------------------
  // random.sample and in-place byte replacement

  /** random.sample(pool, cnt): picks without replacement; the k-th pick is
      the element at `pick(k)` modulo the size of what is left. */
  function Sample(pool: seq<nat>, cnt: nat, pick: nat -> nat, k: nat): (r: seq<nat>)
    requires cnt <= |pool|
    ensures |r| == cnt
    ensures forall x :: x in r ==> x in pool
    decreases cnt
  {
    if cnt == 0 then []
    else
      var idx := pick(k) % |pool|;
      [pool[idx]] + Sample(pool[..idx] + pool[idx + 1..], cnt - 1, pick, k + 1)
  }

  /** A sample drawn from a pool without repetitions has none either. */
  lemma {:induction false} SampleDistinct(pool: seq<nat>, cnt: nat, pick: nat -> nat, k: nat)
    requires cnt <= |pool|
    requires Distinct(pool)
    ensures Distinct(Sample(pool, cnt, pick, k))
    decreases cnt
  {
    if cnt > 0 {
      var idx := pick(k) % |pool|;
      var rest := pool[..idx] + pool[idx + 1..];
      assert Distinct(rest) by {
        forall i, j | 0 <= i < j < |rest|
          ensures rest[i] != rest[j]
        {
          var i' := if i < idx then i else i + 1;
          var j' := if j < idx then j else j + 1;
          assert rest[i] == pool[i'] && rest[j] == pool[j'];
        }
      }
      assert pool[idx] !in rest by {
        forall i | 0 <= i < |rest|
          ensures rest[i] != pool[idx]
        {
          var i' := if i < idx then i else i + 1;
          assert rest[i] == pool[i'];
        }
      }
      SampleDistinct(rest, cnt - 1, pick, k + 1);
      var tail := Sample(rest, cnt - 1, pick, k + 1);
      var r := Sample(pool, cnt, pick, k);
      assert r == [pool[idx]] + tail;
      forall i, j | 0 <= i < j < |r|
        ensures r[i] != r[j]
      {
        if i == 0 {
          assert r[j] == tail[j - 1] && tail[j - 1] in rest;
        } else {
          assert r[i] == tail[i - 1] && r[j] == tail[j - 1];
        }
      }
    }
  }

  /** range(size) as a sequence. */
  function Range(size: nat): (r: seq<nat>)
    ensures |r| == size
    ensures forall i :: 0 <= i < size ==> r[i] == i
  {
    seq(size, i requires 0 <= i => i as nat)
  }

  lemma RangeDistinct(size: nat)
    ensures Distinct(Range(size))
  {
  }

  /** `for k in places: arr[k] = randint(0, 255)`, the n-th write taking
      `values(n)`. */
  function Overwrite(arr: seq<byte>, places: seq<nat>, values: nat -> byte, n: nat): (r: seq<byte>)
    requires forall k :: 0 <= k < |places| ==> places[k] < |arr|
    ensures |r| == |arr|
    ensures forall p :: 0 <= p < |arr| && p !in places ==> r[p] == arr[p]
    decreases |places|
  {
    if |places| == 0 then arr
    else Overwrite(arr[places[0] := values(n)], places[1..], values, n + 1)
  }

  /** With distinct places, every place receives its own draw. */
  lemma {:induction false} OverwriteSetsPlaces(arr: seq<byte>, places: seq<nat>, values: nat -> byte, n: nat)
    requires forall k :: 0 <= k < |places| ==> places[k] < |arr|
    requires Distinct(places)
    ensures var r := Overwrite(arr, places, values, n);
      forall m :: 0 <= m < |places| ==> r[places[m]] == values(n + m)
    decreases |places|
  {
    if |places| > 0 {
      var arr' := arr[places[0] := values(n)];
      var rest := places[1..];
      assert Distinct(rest);
      OverwriteSetsPlaces(arr', rest, values, n + 1);
      var r := Overwrite(arr, places, values, n);
      assert r == Overwrite(arr', rest, values, n + 1);
      forall m | 0 <= m < |places|
        ensures r[places[m]] == values(n + m)
      {
        if m == 0 {
          assert places[0] !in rest;
        } else {
          assert places[m] == rest[m - 1];
        }
      }
    }
  }

  /** The positions a sparse substitution writes: `cnt` distinct indices. */
  function Places(size: nat, cnt: nat, pick: nat -> nat): (ps: seq<nat>)
    requires cnt <= size
    ensures |ps| == cnt
    ensures forall k :: 0 <= k < |ps| ==> ps[k] < size
    ensures Distinct(ps)
  {
    var ps := Sample(Range(size), cnt, pick, 0);
    assert forall k :: 0 <= k < |ps| ==> ps[k] in Range(size);
    RangeDistinct(size);
    SampleDistinct(Range(size), cnt, pick, 0);
    ps
  }

  // ---------------------------------------------------------------------
  // mutate_input

  /** The branch mutate_input takes, with the values it draws. */
  datatype InputDraw =
    | Sparse(rawPart: nat, pick: nat -> nat, values: nat -> byte)   // t < 0.5
    | Reverse(rawL: nat, rawR: nat)

  /** The reversed sequence. */
  function Reversed(s: seq<byte>): (r: seq<byte>)
    ensures |r| == |s|
  {
    seq(|s|, i requires 0 <= i < |s| => s[|s| - 1 - i])
  }

  /** How many positions the sparse branch of mutate_input rewrites. */
  function SparseCount(size: nat, rawPart: nat): (cnt: nat)
    requires size > 0
    ensures 1 <= cnt <= size
  {
    var part := RandInt(8, 32768, rawPart);
    Max(size / part, 1)
  }

  /** mutate_input(arr). Python raises ValueError on an empty buffer (both
      `sample` and `randint(0, -1)`), so the buffer must be non-empty. */
  function MutateInput(arr: seq<byte>, d: InputDraw): (r: seq<byte>)
    requires |arr| > 0
    ensures |r| == |arr|
  {
    var size := |arr|;
    match d
    case Sparse(rawPart, pick, values) =>
      Overwrite(arr, Places(size, SparseCount(size, rawPart), pick), values, 0)
    case Reverse(rawL, rawR) =>
      var (l, r) := WindowPoints(size, rawL, rawR);
      ReverseSpan(arr, l, r)
  }

  /** `arr[0:l] + arr[l:r][::-1] + arr[r:]`. */
  function ReverseSpan(arr: seq<byte>, l: nat, r: nat): (res: seq<byte>)
    requires l <= r <= |arr|
    ensures |res| == |arr|
  {
    arr[0..l] + Reversed(arr[l..r]) + arr[r..]
  }

  /** The span [l, r) is mirrored and nothing outside it moves. */
  lemma ReverseSpanLayout(arr: seq<byte>, l: nat, r: nat)
    requires l <= r <= |arr|
    ensures var res := ReverseSpan(arr, l, r);
      && (forall k :: 0 <= k < l ==> res[k] == arr[k])
      && (forall k :: l <= k < r ==> res[k] == arr[l + r - 1 - k])
      && (forall k :: r <= k < |arr| ==> res[k] == arr[k])
  {
  }

  /** Reversing the same span twice restores the buffer. */
  lemma ReverseSpanTwice(arr: seq<byte>, l: nat, r: nat)
    requires l <= r <= |arr|
    ensures ReverseSpan(ReverseSpan(arr, l, r), l, r) == arr
  {
    var once := ReverseSpan(arr, l, r);
    var twice := ReverseSpan(once, l, r);
    ReverseSpanLayout(arr, l, r);
    ReverseSpanLayout(once, l, r);
    forall k | 0 <= k < |arr|
      ensures twice[k] == arr[k]
    {
      if l <= k < r {
        assert twice[k] == once[l + r - 1 - k];
      }
    }
    assert twice == arr;
  }

  /** The sparse branch changes at most `SparseCount` positions, at least one
      and at most the whole buffer. */
  lemma MutateInputSparseTouches(arr: seq<byte>, rawPart: nat, pick: nat -> nat, values: nat -> byte)
    requires |arr| > 0
    ensures var cnt := SparseCount(|arr|, rawPart);
      var ps := Places(|arr|, cnt, pick);
      var r := MutateInput(arr, Sparse(rawPart, pick, values));
      && 1 <= |ps| <= |arr|
      && (forall p :: 0 <= p < |arr| && p !in ps ==> r[p] == arr[p])
      && (forall m :: 0 <= m < |ps| ==> r[ps[m]] == values(m))
  {
    var ps := Places(|arr|, SparseCount(|arr|, rawPart), pick);
    OverwriteSetsPlaces(arr, ps, values, 0);
  }

  /** The reversal branch mirrors [l, r) and leaves everything else alone;
      the last byte is never inside the span, since r <= size - 1. */
  lemma MutateInputReverseLayout(arr: seq<byte>, rawL: nat, rawR: nat)
    requires |arr| > 0
    ensures var (l, r) := WindowPoints(|arr|, rawL, rawR);
      var res := MutateInput(arr, Reverse(rawL, rawR));
      && (forall k :: 0 <= k < l ==> res[k] == arr[k])
      && (forall k :: l <= k < r ==> res[k] == arr[l + r - 1 - k])
      && (forall k :: r <= k < |arr| ==> res[k] == arr[k])
      && res[|arr| - 1] == arr[|arr| - 1]
  {
    var (l, r) := WindowPoints(|arr|, rawL, rawR);
    ReverseSpanLayout(arr, l, r);
  }

  /** Reversing the same span twice restores the buffer. */
  lemma MutateInputReverseTwice(arr: seq<byte>, rawL: nat, rawR: nat)
    requires |arr| > 0
    ensures MutateInput(MutateInput(arr, Reverse(rawL, rawR)), Reverse(rawL, rawR)) == arr
  {
    var (l, r) := WindowPoints(|arr|, rawL, rawR);
    ReverseSpanTwice(arr, l, r);
  }

  // ---------------------------------------------------------------------
  // mutate_local

  /** One round of the insertion/deletion branch. `rawSize` is the draw of
      int(2 ** uniform(1, 15)), a value in [2, 32768]; `flip` is the
      random() < 0.5 that replaces a deletion size by its complement. */
  datatype EditRound = EditRound(rawSize: nat, rawPos: nat, flip: bool, base: BaseDraw)

  /** One round of the relocation branch. `rawSize` is the draw of
      int(2 ** uniform(10, 16)), a value in [1024, 65536]; `cut` is the
      random() < 0.8 that removes the part from its source. */
  datatype Move = Move(rawSrc: nat, rawSize: nat, cut: bool, rawDst: nat)

  /** The branch mutate_local takes, with the values it draws. */
  datatype LocalDraw =
    | Substitute(small: bool, rawSmall: nat, rawDiv: nat, pick: nat -> nat, values: nat -> byte)
    | InsertDelete(insert: bool, rawRounds: nat, rounds: nat -> EditRound)
    | Relocate(few: bool, rawCount: nat, moves: nat -> Move)
    | MixNoise(base: BaseDraw, mix: MixDraw)

  /** Number of positions the substitution branch rewrites. */
  function SubstituteCount(size: nat, small: bool, rawSmall: nat, rawDiv: nat): (cnt: nat)
    requires size > 0
    ensures 1 <= cnt <= size
  {
    var raw := if small then RandInt(1, 3, rawSmall) else size / (1 + RandInt(8, 65536, rawDiv));
    Max(Min(raw, size), 1)
  }

  /** One insertion: a fresh gen_base buffer of min(sz, 2 len) bytes at pos. */
  function InsertRound(arr: seq<byte>, e: EditRound): (r: seq<byte>)
    ensures |r| == |arr| + Min(RandInt(2, 32768, e.rawSize), 2 * |arr|)
  {
    var sz := Min(RandInt(2, 32768, e.rawSize), 2 * |arr|);
    var pos := RandInt(0, |arr|, e.rawPos);
    arr[..pos] + GenBase(sz, e.base) + arr[pos..]
  }

  /** The number of bytes one deletion removes. */
  function DeleteSize(len: nat, e: EditRound): (sz: nat)
    requires len > 0
    ensures sz <= len
    ensures len >= 2 ==> 1 <= sz <= len - 1
  {
    var sz := Max(Min(RandInt(2, 32768, e.rawSize), len - 1), 1);
    if e.flip then len - sz else sz
  }

  /** One deletion of a contiguous span. */
  function DeleteRound(arr: seq<byte>, e: EditRound): (r: seq<byte>)
    requires |arr| > 0
    ensures |r| == |arr| - DeleteSize(|arr|, e)
  {
    var sz := DeleteSize(|arr|, e);
    var pos := RandInt(0, |arr| - sz, e.rawPos);
    arr[..pos] + arr[pos + sz..]
  }

  /** The deletion removes one contiguous span: what is left is a prefix of
      the buffer followed by a suffix of it. */
  lemma DeleteRoundKeepsEnds(arr: seq<byte>, e: EditRound)
    requires |arr| > 0
    ensures var r := DeleteRound(arr, e);
      exists pos :: 0 <= pos <= |r| && r == arr[..pos] + arr[|arr| - (|r| - pos)..]
  {
    var sz := DeleteSize(|arr|, e);
    var pos := RandInt(0, |arr| - sz, e.rawPos);
    var r := DeleteRound(arr, e);
    assert r == arr[..pos] + arr[|arr| - (|r| - pos)..];
  }

  /** Rounds k, k+1, ... of the insertion/deletion branch; the loop stops
      early once the buffer is empty. */
  function EditRounds(arr: seq<byte>, insert: bool, rounds: nat -> EditRound, k: nat, count: nat): (r: seq<byte>)
    ensures insert ==> |r| >= |arr|
    ensures !insert ==> |r| <= |arr|
    decreases count - k
  {
    if k >= count || |arr| == 0 then arr
    else if insert then EditRounds(InsertRound(arr, rounds(k)), insert, rounds, k + 1, count)
    else EditRounds(DeleteRound(arr, rounds(k)), insert, rounds, k + 1, count)
  }

  /** Where the relocated part starts: randint(0, len(arr)). */
  function MoveSrc(arr: seq<byte>, m: Move): (src: nat)
    ensures src <= |arr|
  {
    RandInt(0, |arr|, m.rawSrc)
  }

  /** Its length, min(randint(1024, 65536), len(arr) - src). */
  function MoveSize(arr: seq<byte>, m: Move): (sz: nat)
    ensures MoveSrc(arr, m) + sz <= |arr|
  {
    Min(RandInt(1024, 65536, m.rawSize), |arr| - MoveSrc(arr, m))
  }

  /** The buffer the part is pasted into: with the part cut out, or whole. */
  function MoveRest(arr: seq<byte>, m: Move): seq<byte>
  {
    var src, sz := MoveSrc(arr, m), MoveSize(arr, m);
    if m.cut then arr[..src] + arr[src + sz..] else arr
  }

  /** Where the part is pasted: randint(0, len(rest)). */
  function MoveDst(arr: seq<byte>, m: Move): (dst: nat)
    ensures dst <= |MoveRest(arr, m)|
  {
    RandInt(0, |MoveRest(arr, m)|, m.rawDst)
  }

  /** One relocation: take a part, optionally cut it out, and paste it over
      the bytes at the destination (overwriting, not inserting). The result
      is `rest[:dst] ++ part ++ rest[dst+sz:]`, of length
      max(len(rest), dst + sz). */
  function MoveRound(arr: seq<byte>, m: Move): (r: seq<byte>)
    ensures var src, sz, rest, dst := MoveSrc(arr, m), MoveSize(arr, m), MoveRest(arr, m), MoveDst(arr, m);
      && |r| == Max(|rest|, dst + sz)
      && r[..dst] == rest[..dst]
      && r[dst..dst + sz] == arr[src..src + sz]
      && r[dst + sz..] == rest[Min(dst + sz, |rest|)..]
  {
    var src, sz, rest, dst := MoveSrc(arr, m), MoveSize(arr, m), MoveRest(arr, m), MoveDst(arr, m);
    rest[..dst] + arr[src..src + sz] + rest[Min(dst + sz, |rest|)..]
  }

  function MoveRounds(arr: seq<byte>, moves: nat -> Move, k: nat, count: nat): seq<byte>
    decreases count - k
  {
    if k >= count then arr else MoveRounds(MoveRound(arr, moves(k)), moves, k + 1, count)
  }

  /** mutate_local(arr). `fallback` is the draw of the gen_base(1024) call
      that replaces an empty buffer. */
  function MutateLocal(arr: seq<byte>, d: LocalDraw, fallback: BaseDraw): (r: Result<seq<byte>>)
    ensures |arr| == 0 ==> r.Ok? && |r.value| == 1024
    ensures |arr| > 0 && d.Substitute? ==> r.Ok? && |r.value| == |arr|
    ensures |arr| > 0 && d.MixNoise? && r.Ok? ==> |r.value| == |arr|
  {
    if |arr| == 0 then Ok(GenBase(1024, fallback))
    else
      var size := |arr|;
      match d
      case Substitute(small, rawSmall, rawDiv, pick, values) =>
        var cnt := SubstituteCount(size, small, rawSmall, rawDiv);
        Ok(Overwrite(arr, Places(size, cnt, pick), values, 0))
      case InsertDelete(insert, rawRounds, rounds) =>
        Ok(EditRounds(arr, insert, rounds, 0, RandInt(1, 3, rawRounds)))
      case Relocate(few, rawCount, moves) =>
        var count := if few then RandInt(1, 3, rawCount) else RandInt(100, 300, rawCount);
        Ok(MoveRounds(arr, moves, 0, count))
      case MixNoise(base, mix) =>
        Mix(arr, GenBase(size, base), mix)
  }

  /** Substitution rewrites between 1 and `size` distinct positions and
      nothing else. */
  lemma MutateLocalSubstituteTouches(arr: seq<byte>, small: bool, rawSmall: nat, rawDiv: nat,
                                     pick: nat -> nat, values: nat -> byte, fallback: BaseDraw)
    requires |arr| > 0
    ensures var cnt := SubstituteCount(|arr|, small, rawSmall, rawDiv);
      var ps := Places(|arr|, cnt, pick);
      var r := MutateLocal(arr, Substitute(small, rawSmall, rawDiv, pick, values), fallback).value;
      && 1 <= |ps| <= |arr|
      && (forall p :: 0 <= p < |arr| && p !in ps ==> r[p] == arr[p])
      && (forall m :: 0 <= m < |ps| ==> r[ps[m]] == values(m))
  {
    var ps := Places(|arr|, SubstituteCount(|arr|, small, rawSmall, rawDiv), pick);
    OverwriteSetsPlaces(arr, ps, values, 0);
  }

  // ---------------------------------------------------------------------
  // gen_input and gen_local

  /** All draws of one gen_input call. `rawSize` is the draw of
      int(2 ** uniform(8, 22)), a size in [256, 2^22]. */
  datatype InputPlan = InputPlan(rawSize: nat, base: BaseDraw,
                                 rawMixes: nat, mixes: nat -> (BaseDraw, MixDraw),
                                 rawMutations: nat, mutations: nat -> InputDraw)

  function InputSize(rawSize: nat): (size: nat)
    ensures 256 <= size <= Pow2(22)
  {
    Pow2Words();
    RandInt(256, Pow2(22), rawSize)
  }

  /** `for i in range(count): data = mix_inputs(data, gen_base(size))`. */
  function MixRounds(data: seq<byte>, mixes: nat -> (BaseDraw, MixDraw), k: nat, count: nat): (r: Result<seq<byte>>)
    ensures r.Ok? ==> |r.value| == |data|
    decreases count - k
  {
    if k >= count then Ok(data)
    else
      var (base, mix) := mixes(k);
      match Mix(data, GenBase(|data|, base), mix)
      case Fail(e) => Fail(e)
      case Ok(next) => MixRounds(next, mixes, k + 1, count)
  }

  function MutateRounds(data: seq<byte>, mutations: nat -> InputDraw, k: nat, count: nat): (r: seq<byte>)
    requires |data| > 0
    ensures |r| == |data|
    decreases count - k
  {
    if k >= count then data else MutateRounds(MutateInput(data, mutations(k)), mutations, k + 1, count)
  }

  /** gen_input(): a base buffer, 0-3 mixes with fresh buffers, 0-3 global
      mutations. */
  function GenInput(p: InputPlan): (r: Result<seq<byte>>)
    ensures r.Ok? ==> |r.value| == InputSize(p.rawSize)
  {
    var size := InputSize(p.rawSize);
    var data := GenBase(size, p.base);
    match MixRounds(data, p.mixes, 0, RandInt(0, 3, p.rawMixes))
    case Fail(e) => Fail(e)
    case Ok(mixed) => Ok(MutateRounds(mixed, p.mutations, 0, RandInt(0, 3, p.rawMutations)))
  }

  /** gen_input's size bounds: every generated original has between 256
      bytes and 4 MiB. */
  lemma GenInputSizeBounds(p: InputPlan)
    ensures GenInput(p).Ok? ==> 256 <= |GenInput(p).value| <= 0x40_0000
  {
    Pow2Words();
  }

  function LocalRounds(res: seq<byte>, steps: nat -> (LocalDraw, BaseDraw), k: nat, count: nat): Result<seq<byte>>
    decreases count - k
  {
    if k >= count then Ok(res)
    else
      var (d, fallback) := steps(k);
      match MutateLocal(res, d, fallback)
      case Fail(e) => Fail(e)
      case Ok(next) => LocalRounds(next, steps, k + 1, count)
  }

  /** gen_local(arr): 0-2 local mutations of a copy of `arr`. The argument is
      a value here, so it is never changed; with zero rounds the copy comes
      back unchanged. */
  function GenLocal(arr: seq<byte>, rawRounds: nat, steps: nat -> (LocalDraw, BaseDraw)): (r: Result<seq<byte>>)
    ensures RandInt(0, 2, rawRounds) == 0 ==> r == Ok(arr)
  {
    LocalRounds(arr, steps, 0, RandInt(0, 2, rawRounds))
  }
}
