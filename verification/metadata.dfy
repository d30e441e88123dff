/** The metadata file: `FileInfo` and its packed byte layout (tdmsync.h,
    FileInfo::serialize and FileInfo::deserialize in tdmsync.cpp).

    The layout is the in-memory layout of the fields on a little-endian
    machine: int64 fileSize, int32 blockSize, int32 block count, then one
    packed 32-byte record per block (int64 offset, uint32 chksum, 20 hash
    bytes). */
module Metadata {
  import opened Common

  const HASH_SIZE: nat := 20
  /** sizeof(BlockInfo) under #pragma pack(1). */
  const RECORD_SIZE: nat := 32
  /** sizeof(fileSize) + sizeof(blockSize) + sizeof(blocksCount). */
  const HEADER_SIZE: nat := 16
  /** INT_MAX / 2, the bound serialize asserts on the total size. */
  const SIZE_LIMIT: nat := 0x3FFF_FFFF

  datatype BlockInfo = BlockInfo(offset: int, chksum: u32, hash: seq<byte>)

  datatype FileInfo = FileInfo(fileSize: int, blockSize: int, blocks: seq<BlockInfo>)

  /** Field values the C++ types can hold. */
  predicate ValidBlock(b: BlockInfo)
  {
    IsInt64(b.offset) && |b.hash| == HASH_SIZE
  }

  predicate ValidInfo(info: FileInfo)
  {
    && IsInt64(info.fileSize)
    && IsInt32(info.blockSize)
    && forall i :: 0 <= i < |info.blocks| ==> ValidBlock(info.blocks[i])
  }

  // ---------------------------------------------------------------------
  // Little-endian integers.

  /** 256^n. */
  function Radix(n: nat): (r: nat)
    ensures r >= 1
  {
    if n == 0 then 1 else 256 * Radix(n - 1)
  }

  /** The n low-order bytes of v, least significant first. */
  function EncodeLE(v: nat, n: nat): (r: seq<byte>)
    ensures |r| == n
  {
    if n == 0 then [] else [Low8(v)] + EncodeLE(v / 256, n - 1)
  }

  /** The unsigned value of a little-endian byte string. */
  function DecodeLE(s: seq<byte>): (v: nat)
    ensures v < Radix(|s|)
  {
    if |s| == 0 then 0 else s[0] as nat + 256 * DecodeLE(s[1..])
  }

  lemma Low8Value(v: nat)
    ensures Low8(v) as nat == v % 256
  {
  }

  lemma {:induction false} DecodeEncodeLE(v: nat, n: nat)
    requires v < Radix(n)
    ensures DecodeLE(EncodeLE(v, n)) == v
  {
    if n > 0 {
      var e := EncodeLE(v, n);
      assert e[1..] == EncodeLE(v / 256, n - 1);
      DecodeEncodeLE(v / 256, n - 1);
      Low8Value(v);
    }
  }

  /** Two's complement: the unsigned image of a signed value of `bits` bits. */
  function ToUnsigned(v: int, n: nat): (u: nat)
    requires -(Radix(n) as int) <= 2 * v < Radix(n)
    ensures u < Radix(n)
  {
    if v < 0 then v + Radix(n) else v
  }

  function ToSigned(u: nat, n: nat): (v: int)
    requires u < Radix(n)
    ensures -(Radix(n) as int) <= 2 * v < Radix(n)
  {
    if 2 * u >= Radix(n) then u - Radix(n) else u
  }

  lemma ConstantsAgree()
    ensures Radix(4) == TWO32 && 2 * TWO31 == TWO32
    ensures Radix(8) == TWO64 && 2 * TWO63 == TWO64
    ensures HEADER_SIZE == 8 + 4 + 4 && RECORD_SIZE == 8 + 4 + HASH_SIZE
  {
    assert Radix(4) == TWO32 by {
      assert Radix(1) == 256;
      assert Radix(2) == 65536;
    }
    assert Radix(8) == TWO64 by {
      assert Radix(5) == 256 * TWO32;
      assert Radix(6) == 256 * Radix(5);
      assert Radix(7) == 256 * Radix(6);
    }
  }

  function EncodeI64(v: int): (r: seq<byte>)
    requires IsInt64(v)
    ensures |r| == 8
  {
    ConstantsAgree();
    EncodeLE(ToUnsigned(v, 8), 8)
  }

  function EncodeI32(v: int): (r: seq<byte>)
    requires IsInt32(v)
    ensures |r| == 4
  {
    ConstantsAgree();
    EncodeLE(ToUnsigned(v, 4), 4)
  }

  function DecodeI64(s: seq<byte>): (v: int)
    requires |s| == 8
    ensures IsInt64(v)
  {
    ConstantsAgree();
    ToSigned(DecodeLE(s), 8)
  }

  function DecodeI32(s: seq<byte>): (v: int)
    requires |s| == 4
    ensures IsInt32(v)
  {
    ConstantsAgree();
    ToSigned(DecodeLE(s), 4)
  }

  lemma DecodeEncodeI64(v: int)
    requires IsInt64(v)
    ensures DecodeI64(EncodeI64(v)) == v
  {
    ConstantsAgree();
    DecodeEncodeLE(ToUnsigned(v, 8), 8);
  }

  lemma DecodeEncodeI32(v: int)
    requires IsInt32(v)
    ensures DecodeI32(EncodeI32(v)) == v
  {
    ConstantsAgree();
    DecodeEncodeLE(ToUnsigned(v, 4), 4);
  }

  lemma DecodeEncodeU32(c: u32)
    ensures DecodeLE(EncodeLE(c, 4)) == c
  {
    ConstantsAgree();
    DecodeEncodeLE(c, 4);
  }

  // ---------------------------------------------------------------------
  // Records.

  function EncodeBlock(b: BlockInfo): (r: seq<byte>)
    requires ValidBlock(b)
    ensures |r| == RECORD_SIZE
  {
    EncodeI64(b.offset) + EncodeLE(b.chksum, 4) + b.hash
  }

  function DecodeBlock(s: seq<byte>): (b: BlockInfo)
    requires |s| == RECORD_SIZE
    ensures ValidBlock(b)
  {
    ConstantsAgree();
    BlockInfo(DecodeI64(s[0..8]), DecodeLE(s[8..12]), s[12..32])
  }

  lemma DecodeEncodeBlock(b: BlockInfo)
    requires ValidBlock(b)
    ensures DecodeBlock(EncodeBlock(b)) == b
  {
    var s := EncodeBlock(b);
    assert s[0..8] == EncodeI64(b.offset);
    assert s[8..12] == EncodeLE(b.chksum, 4);
    assert s[12..32] == b.hash;
    DecodeEncodeI64(b.offset);
    DecodeEncodeU32(b.chksum);
  }

  function EncodeBlocks(bs: seq<BlockInfo>): (r: seq<byte>)
    requires forall i :: 0 <= i < |bs| ==> ValidBlock(bs[i])
    ensures |r| == RECORD_SIZE * |bs|
  {
    if |bs| == 0 then [] else EncodeBlock(bs[0]) + EncodeBlocks(bs[1..])
  }

  function DecodeBlocks(s: seq<byte>, n: nat): (bs: seq<BlockInfo>)
    requires |s| == RECORD_SIZE * n
    ensures |bs| == n
    ensures forall i :: 0 <= i < n ==> ValidBlock(bs[i])
  {
    if n == 0 then [] else [DecodeBlock(s[..RECORD_SIZE])] + DecodeBlocks(s[RECORD_SIZE..], n - 1)
  }

  lemma {:induction false} DecodeEncodeBlocks(bs: seq<BlockInfo>)
    requires forall i :: 0 <= i < |bs| ==> ValidBlock(bs[i])
    ensures DecodeBlocks(EncodeBlocks(bs), |bs|) == bs
  {
    if |bs| > 0 {
      var s := EncodeBlocks(bs);
      assert s[..RECORD_SIZE] == EncodeBlock(bs[0]);
      assert s[RECORD_SIZE..] == EncodeBlocks(bs[1..]);
      DecodeEncodeBlock(bs[0]);
      DecodeEncodeBlocks(bs[1..]);
    }
  }

  // ---------------------------------------------------------------------
  // serialize / deserialize

  /** FileInfo::serialize. Fails when the total size reaches INT_MAX / 2. */
  function Serialize(info: FileInfo): (r: Result<seq<byte>>)
    requires ValidInfo(info)
    ensures r.Ok? <==> HEADER_SIZE + RECORD_SIZE * |info.blocks| < SIZE_LIMIT
    ensures r.Ok? ==> |r.value| == HEADER_SIZE + RECORD_SIZE * |info.blocks|
  {
    var size := HEADER_SIZE + RECORD_SIZE * |info.blocks|;
    if size >= SIZE_LIMIT then Fail("serialize: dataSize < INT_MAX / 2")
    else Ok(EncodeI64(info.fileSize) + EncodeI32(info.blockSize) + EncodeI32(|info.blocks|)
            + EncodeBlocks(info.blocks))
  }

  /** The fields of a serialized file sit at their fixed offsets. */
  lemma SerializeLayout(info: FileInfo)
    requires ValidInfo(info)
    requires Serialize(info).Ok?
    ensures var d := Serialize(info).value;
      && DecodeI64(d[0..8]) == info.fileSize
      && DecodeI32(d[8..12]) == info.blockSize
      && DecodeI32(d[12..16]) == |info.blocks|
      && d[HEADER_SIZE..] == EncodeBlocks(info.blocks)
  {
    var d := Serialize(info).value;
    var a, b, c := EncodeI64(info.fileSize), EncodeI32(info.blockSize), EncodeI32(|info.blocks|);
    var e := EncodeBlocks(info.blocks);
    assert d == a + b + c + e;
    assert d[0..8] == a;
    assert d[8..12] == b;
    assert d[12..16] == c;
    assert d[HEADER_SIZE..] == e;
    DecodeEncodeI64(info.fileSize);
    DecodeEncodeI32(info.blockSize);
    DecodeEncodeI32(|info.blocks|);
  }

  /** Record i of a serialized file occupies bytes [16 + 32 i, 16 + 32 (i + 1)). */
  lemma SerializeRecordAt(info: FileInfo, i: nat)
    requires ValidInfo(info)
    requires Serialize(info).Ok?
    requires i < |info.blocks|
    ensures var d := Serialize(info).value;
      d[HEADER_SIZE + RECORD_SIZE * i .. HEADER_SIZE + RECORD_SIZE * (i + 1)] == EncodeBlock(info.blocks[i])
  {
    var d := Serialize(info).value;
    SerializeLayout(info);
    EncodeBlocksAt(info.blocks, i);
    assert d[HEADER_SIZE + RECORD_SIZE * i .. HEADER_SIZE + RECORD_SIZE * (i + 1)]
        == d[HEADER_SIZE..][RECORD_SIZE * i .. RECORD_SIZE * (i + 1)];
  }

  lemma {:induction false} EncodeBlocksAt(bs: seq<BlockInfo>, i: nat)
    requires forall k :: 0 <= k < |bs| ==> ValidBlock(bs[k])
    requires i < |bs|
    ensures EncodeBlocks(bs)[RECORD_SIZE * i .. RECORD_SIZE * (i + 1)] == EncodeBlock(bs[i])
  {
    var s := EncodeBlocks(bs);
    if i > 0 {
      EncodeBlocksAt(bs[1..], i - 1);
      assert s[RECORD_SIZE * i .. RECORD_SIZE * (i + 1)]
          == EncodeBlocks(bs[1..])[RECORD_SIZE * (i - 1) .. RECORD_SIZE * i];
    }
  }

  /** FileInfo::deserialize, with the record-area size computed exactly. */
  function Deserialize(data: seq<byte>): (r: Result<FileInfo>)
    ensures |data| < HEADER_SIZE ==> r.Fail?
    ensures r.Ok? ==> |data| == HEADER_SIZE + RECORD_SIZE * |r.value.blocks|
    ensures r.Ok? ==> ValidInfo(r.value)
  {
    if |data| < HEADER_SIZE then Fail("deserialize: data shorter than the header")
    else
      var fileSize := DecodeI64(data[0..8]);
      var blockSize := DecodeI32(data[8..12]);
      var count := DecodeI32(data[12..16]);
      if count < 0 || HEADER_SIZE + RECORD_SIZE * count != |data| then Fail("deserialize: size mismatch")
      else Ok(FileInfo(fileSize, blockSize, DecodeBlocks(data[HEADER_SIZE..], count)))
  }

  /** Round trip: deserializing what serialize wrote restores every field. */
  lemma DeserializeSerialize(info: FileInfo)
    requires ValidInfo(info)
    requires Serialize(info).Ok?
    ensures Deserialize(Serialize(info).value) == Ok(info)
  {
    SerializeLayout(info);
    DecodeEncodeBlocks(info.blocks);
  }

  /** deserialize rejects every length that is not 16 + 32 * count. */
  lemma DeserializeRejectsMismatch(data: seq<byte>)
    requires |data| >= HEADER_SIZE
    requires HEADER_SIZE + RECORD_SIZE * DecodeI32(data[12..16]) != |data|
    ensures Deserialize(data).Fail?
  {
  }

  // ---------------------------------------------------------------------
  // deserialize as written: `int sz = blocksCount * sizeof(BlockInfo)`.

  /** The int that `blocksCount * sizeof(BlockInfo)` lands in: the product is
      computed in size_t and truncated to 32 signed bits. */
  function TruncatedRecordBytes(count: int): (sz: int)
    ensures IsInt32(sz)
    ensures sz % RECORD_SIZE == 0
  {
    ConstantsAgree();
    TruncationKeepsRecords(count);
    ToSigned((RECORD_SIZE * count) % TWO32, 4)
  }

  /** Wrapping a multiple of 32 modulo 2^32, and reading it as signed,
      leaves a multiple of 32. */
  lemma TruncationKeepsRecords(count: int)
    ensures var m := (RECORD_SIZE * count) % TWO32;
      m % RECORD_SIZE == 0 && (m - TWO32) % RECORD_SIZE == 0
  {
    var m, q := (RECORD_SIZE * count) % TWO32, (RECORD_SIZE * count) / TWO32;
    assert RECORD_SIZE * count == TWO32 * q + m;
    var k := count - 0x800_0000 * q;
    assert m == RECORD_SIZE * k;
    ModUnique(m, RECORD_SIZE, k, 0);
    ModUnique(m - TWO32, RECORD_SIZE, k - 0x800_0000, 0);
  }

  /** A zero-initialised record, as `blocks.resize` creates. */
  function ZeroBlock(): BlockInfo
  {
    BlockInfo(0, 0, seq(HASH_SIZE, _ => 0 as byte))
  }

  /** deserialize as the C++ code computes it: the size check compares the
      truncated record-area size, `resize` makes `count` records (a negative
      count makes resize throw), and only `sz` bytes are copied into them. */
  function DeserializeAsWritten(data: seq<byte>): (r: Result<FileInfo>)
    ensures |data| < HEADER_SIZE ==> r.Fail?
    ensures r.Ok? ==> |data| == HEADER_SIZE + (RECORD_SIZE * |r.value.blocks|) % TWO32
    ensures r.Ok? ==> forall i :: (|data| - HEADER_SIZE) / RECORD_SIZE <= i < |r.value.blocks| ==>
      r.value.blocks[i] == ZeroBlock()
    ensures r.Ok? ==> ValidInfo(r.value)
  {
    if |data| < HEADER_SIZE then Fail("deserialize: data shorter than the header")
    else
      var fileSize := DecodeI64(data[0..8]);
      var blockSize := DecodeI32(data[8..12]);
      var count := DecodeI32(data[12..16]);
      var sz := TruncatedRecordBytes(count);
      if HEADER_SIZE + sz != |data| then Fail("deserialize: size mismatch")
      else if count < 0 then Fail("deserialize: vector::resize length error")
      else
        var copied := sz / RECORD_SIZE;
        if copied > count then Fail("deserialize: copy overruns the block array")
        else Ok(FileInfo(fileSize, blockSize,
                         DecodeBlocks(data[HEADER_SIZE..], copied) + seq(count - copied, _ => ZeroBlock())))
  }

  /** A 16-byte header whose count field is 2^27: 32 * 2^27 == 2^32 truncates
      to 0, so the as-written size check passes and 2^27 zero records come
      back, while the exact check refuses the data. */
  lemma DeserializeTruncationCounterexample(fs: seq<byte>, bs: seq<byte>)
    requires |fs| == 8 && |bs| == 4
    ensures var data := fs + bs + [0 as byte, 0, 0, 8];
      && DecodeI32(data[12..16]) == 0x800_0000
      && DeserializeAsWritten(data).Ok?
      && |DeserializeAsWritten(data).value.blocks| == 0x800_0000
      && Deserialize(data).Fail?
  {
    var data := fs + bs + [0 as byte, 0, 0, 8];
    var c := data[12..16];
    assert c == [0 as byte, 0, 0, 8];
    assert DecodeLE(c) == 0x800_0000 by {
      assert DecodeLE([]) == 0;
      assert [8 as byte][1..] == [];
      assert DecodeLE([8 as byte]) == 8;
      assert [0 as byte, 8][1..] == [8 as byte];
      assert DecodeLE([0 as byte, 8]) == 0x800;
      assert [0 as byte, 0, 8][1..] == [0 as byte, 8];
      assert DecodeLE([0 as byte, 0, 8]) == 0x8_0000;
      assert c[1..] == [0 as byte, 0, 8];
    }
    ConstantsAgree();
    assert TruncatedRecordBytes(0x800_0000) == 0;
  }

  /** For every count below 2^26 the product fits in an int, and the
      as-written deserialize accepts exactly what the exact one accepts,
      with the same result. */
  lemma DeserializeAgreesBelowTruncation(data: seq<byte>)
    requires |data| >= HEADER_SIZE
    requires DecodeI32(data[12..16]) < 0x400_0000
    ensures DeserializeAsWritten(data).Ok? <==> Deserialize(data).Ok?
    ensures Deserialize(data).Ok? ==> DeserializeAsWritten(data) == Deserialize(data)
  {
    var count := DecodeI32(data[12..16]);
    ConstantsAgree();
    if count >= 0 {
      ModUnique(RECORD_SIZE * count, TWO32, 0, RECORD_SIZE * count);
      assert TruncatedRecordBytes(count) == RECORD_SIZE * count;
      if HEADER_SIZE + RECORD_SIZE * count == |data| {
        var blocks := DecodeBlocks(data[HEADER_SIZE..], count);
        assert blocks + seq(0, _ => ZeroBlock()) == blocks;
      }
    }
  }
}
