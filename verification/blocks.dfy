/** FileInfo::computeFromFile (tdmsync.cpp): cut the remote file into
    blockSize-byte blocks, the last one clamped back inside the file, and sort
    them by checksum.

    The block checksum (`checksumCompute`, which is buzhash_compute) and the
    SHA-1 digest are parameters: their bodies are not part of this model. */
module Blocks {
  import opened Common
  import opened Metadata
  import opened Sorting

  /** A SHA-1 digest. */
  type Digest = h: seq<byte> | |h| == 20 witness seq(20, _ => 0 as byte)


  /** `(fileSize + blockSize - 1) / blockSize`: the number of blocks. */
  function BlockCount(fileSize: nat, bs: nat): nat
    requires bs > 0
  {
    (fileSize + bs - 1) / bs
  }

  /** The offset of block i: `min(i * blockSize, fileSize - blockSize)`. */
  function BlockOffset(fileSize: nat, bs: nat, i: nat): int
  {
    Min(i * bs, fileSize - bs)
  }

  /** The window of `bs` bytes starting at `offset`. */
  function Window(contents: seq<byte>, offset: nat, bs: nat): seq<byte>
    requires offset + bs <= |contents|
  {
    contents[offset..offset + bs]
  }

  /** The record computeFromFile builds for block i. */
  function BlockAt(contents: seq<byte>, bs: nat, i: nat,
                   checksum: seq<byte> -> u32, sha1: seq<byte> -> Digest): (b: BlockInfo)
    requires 0 < bs <= |contents|
  {
    var off := BlockOffset(|contents|, bs, i);
    var off' := if off < 0 then 0 else off;
    BlockInfo(off, checksum(Window(contents, off', bs)), sha1(Window(contents, off', bs)))
  }

  /** The blocks in the order the loop pushes them. */
  function BlocksInFileOrder(contents: seq<byte>, bs: nat,
                             checksum: seq<byte> -> u32, sha1: seq<byte> -> Digest): (bs': seq<BlockInfo>)
    requires 0 < bs <= |contents|
    ensures |bs'| == BlockCount(|contents|, bs)
  {
    seq(BlockCount(|contents|, bs), i requires 0 <= i => BlockAt(contents, bs, i, checksum, sha1))
  }

  /** `operator<` on BlockInfo, as the "may precede" relation std::sort keeps. */
  function ChecksumLe(a: BlockInfo, b: BlockInfo): bool
  {
    a.chksum <= b.chksum
  }

  lemma ChecksumLeIsTotalPreorder()
    ensures TotalPreorder(ChecksumLe)
  {
  }

  /** Block b lies inside the file and carries the checksum and digest of the
      bytes it covers. */
  predicate BlockMatches(contents: seq<byte>, bs: nat, checksum: seq<byte> -> u32,
                         sha1: seq<byte> -> Digest, b: BlockInfo)
  {
    && 0 <= b.offset && b.offset + bs <= |contents|
    && b.chksum == checksum(contents[b.offset..b.offset + bs])
    && b.hash == sha1(contents[b.offset..b.offset + bs])
  }

  /** The `int blockCount` of computeFromFile: the 64-bit quotient
      `(fileSize + blockSize - 1) / blockSize`, truncated toward zero, then
      stored in a 32-bit int. For a positive block size it is the true count
      until that count reaches 2^31, and wraps from there on. */
  function CutCount(fileSize: nat, bs: int): (n: int)
    requires bs != 0
    ensures IsInt32(n)
    ensures bs > 0 ==> n <= BlockCount(fileSize, bs)
    ensures bs > 0 ==> (n == BlockCount(fileSize, bs) <==> BlockCount(fileSize, bs) < TWO31)
  {
    ToInt32(TruncDiv(fileSize + bs - 1, bs))
  }

  /** FileInfo::computeFromFile. A file shorter than one block gets no
      blocks. Otherwise the wrapped count decides: a negative count makes
      `reserve` throw, a zero count gives no blocks, and a positive count
      runs the loop, whose first checksumCompute asserts `(len & 31) == 0`
      on the block size read as a size_t (the same residue as `bs % 32`
      here) and, for a negative block size, reads far past the file. */
  function ComputeFromFile(contents: seq<byte>, bs: int,
                           checksum: seq<byte> -> u32, sha1: seq<byte> -> Digest): (r: Result<FileInfo>)
    requires bs != 0 && IsInt32(bs) && |contents| < TWO63
    ensures |contents| < bs ==> r == Ok(FileInfo(|contents|, bs, []))
    ensures |contents| >= bs ==>
      (r.Ok? <==> (var n := CutCount(|contents|, bs); n == 0 || (n > 0 && bs > 0 && bs % 32 == 0)))
    ensures r.Ok? ==> r.value.fileSize == |contents| && r.value.blockSize == bs
    ensures r.Ok? && |contents| >= bs ==> |r.value.blocks| == CutCount(|contents|, bs)
    ensures r.Ok? ==> SortedBy(r.value.blocks, ChecksumLe)
    ensures r.Ok? && 0 < bs <= |contents| ==>
      (var n := CutCount(|contents|, bs);
       0 <= n && multiset(r.value.blocks) == multiset(BlocksInFileOrder(contents, bs, checksum, sha1)[..n]))
    ensures r.Ok? ==> ValidInfo(r.value)
  {
    if |contents| < bs then Ok(FileInfo(|contents|, bs, []))
    else
      var n := CutCount(|contents|, bs);
      if n < 0 then Fail("vector::reserve: length_error")
      else if n == 0 then Ok(FileInfo(|contents|, bs, []))
      else if bs % 32 != 0 then Fail("checksumCompute: (len & 31) == 0")
      else if bs < 0 then Fail("checksumCompute: read past the end of the file")
      else
        ChecksumLeIsTotalPreorder();
        var blocks := Sort(BlocksInFileOrder(contents, bs, checksum, sha1)[..n], ChecksumLe);
        BlocksValid(contents, bs, checksum, sha1, n, blocks);
        Ok(FileInfo(|contents|, bs, blocks))
  }

  /** While the block count fits in an int, computeFromFile succeeds exactly
      when the block size is a multiple of 32 and returns every block of the
      file, sorted. */
  lemma ComputeFromFileFits(contents: seq<byte>, bs: nat,
                            checksum: seq<byte> -> u32, sha1: seq<byte> -> Digest)
    requires 0 < bs <= |contents| && bs < TWO31 && |contents| < TWO63
    requires BlockCount(|contents|, bs) < TWO31
    ensures var r := ComputeFromFile(contents, bs, checksum, sha1);
      && (r.Ok? <==> bs % 32 == 0)
      && (r.Ok? ==> |r.value.blocks| == BlockCount(|contents|, bs)
                    && multiset(r.value.blocks) == multiset(BlocksInFileOrder(contents, bs, checksum, sha1)))
  {
    var ordered := BlocksInFileOrder(contents, bs, checksum, sha1);
    assert ordered[..BlockCount(|contents|, bs)] == ordered;
  }

  /** A 2^36-byte file cut into 32-byte blocks has 2^31 blocks, which the
      int count wraps to -2^31, so `reserve` throws instead of cutting it. */
  lemma ComputeFromFileCountOverflows(contents: seq<byte>,
                                      checksum: seq<byte> -> u32, sha1: seq<byte> -> Digest)
    requires |contents| == 0x10_0000_0000
    ensures BlockCount(|contents|, 32) == TWO31
    ensures ComputeFromFile(contents, 32, checksum, sha1).Fail?
  {
  }

  /** A file of 2^37 + 32 bytes has 2^32 + 1 blocks of 32 bytes, which the
      int count wraps to 1: the file is described by its first block alone,
      and its remaining bytes lie in no block. */
  lemma ComputeFromFileCountWraps(contents: seq<byte>,
                                  checksum: seq<byte> -> u32, sha1: seq<byte> -> Digest)
    requires |contents| == 0x20_0000_0020
    ensures BlockCount(|contents|, 32) == TWO32 + 1
    ensures var r := ComputeFromFile(contents, 32, checksum, sha1);
      r.Ok? && |r.value.blocks| == 1 && r.value.blocks[0].offset == 0
  {
    var r := ComputeFromFile(contents, 32, checksum, sha1);
    assert |r.value.blocks| == 1;
    assert r.value.blocks[0] in multiset(BlocksInFileOrder(contents, 32, checksum, sha1)[..1]);
  }

  /** A negative block size (an `atoi` of "-32", say) never cuts a block:
      a file of at least two bytes shorter than 1 - 2 * blockSize gets an
      empty list, a longer one a negative count that `reserve` rejects, and
      a file of zero or one byte a positive count whose checksumCompute
      fails. */
  lemma ComputeFromFileNegativeSize(contents: seq<byte>, bs: int,
                                    checksum: seq<byte> -> u32, sha1: seq<byte> -> Digest)
    requires bs < 0 && IsInt32(bs) && |contents| < TWO31
    ensures var r := ComputeFromFile(contents, bs, checksum, sha1);
      && (r.Ok? <==> 2 <= |contents| < 1 - 2 * bs)
      && (r.Ok? ==> r.value.blocks == [])
  {
    NegativeSizeCount(|contents|, bs);
  }

  /** The wrapped count for a negative block size: zero for files of two
      bytes up to 1 - 2 * blockSize, positive for files of at most one byte
      and negative for longer files. */
  lemma NegativeSizeCount(fs: nat, bs: int)
    requires bs < 0 && IsInt32(bs) && fs < TWO31
    ensures var n := CutCount(fs, bs);
      && (n == 0 <==> 2 <= fs < 1 - 2 * bs)
      && (fs <= 1 ==> n > 0)
  {
    var b: nat := -bs;
    var a := fs + bs - 1;
    var q := TruncDiv(a, bs);
    if a < 0 {
      // q is |a| / b, positive exactly when |a| >= b, that is fs <= 1
      var m: nat := 1 + b - fs;
      assert q == m / b;
      if fs <= 1 {
        DivAtLeastOne(m, b);
        DivAtMostTwo(m, b);
      } else {
        DivZero(m, b);
      }
    } else {
      // q is -(a / b), zero exactly when a < b
      var m: nat := a;
      assert q == -(m / b);
      DivAtMost(m, b);
      if m >= b {
        DivAtLeastOne(m, b);
      } else {
        DivZero(m, b);
      }
    }
    assert IsInt32(q);
  }

  lemma DivZero(a: nat, b: nat)
    requires a < b
    ensures a / b == 0
  {
  }

  lemma DivAtMost(a: nat, b: nat)
    requires 0 < b
    ensures a / b <= a
  {
    var q := a / b;
    assert a == b * q + a % b;
    MulMono(1, b, q);
  }

  lemma DivAtMostTwo(a: nat, b: nat)
    requires 0 < b && a <= b + 1
    ensures a / b <= 2
  {
  }

  lemma DivAtLeastOne(a: nat, b: nat)
    requires 0 < b <= a
    ensures a / b >= 1
  {
  }

  /** A reordering of a prefix of the file-order blocks holds only valid
      records. */
  lemma BlocksValid(contents: seq<byte>, bs: nat, checksum: seq<byte> -> u32,
                    sha1: seq<byte> -> Digest, n: nat, blocks: seq<BlockInfo>)
    requires 0 < bs <= |contents| < TWO63
    requires n <= BlockCount(|contents|, bs)
    requires multiset(blocks) == multiset(BlocksInFileOrder(contents, bs, checksum, sha1)[..n])
    ensures forall i :: 0 <= i < |blocks| ==> ValidBlock(blocks[i])
  {
    var ordered := BlocksInFileOrder(contents, bs, checksum, sha1)[..n];
    forall i | 0 <= i < |blocks|
      ensures ValidBlock(blocks[i])
    {
      assert blocks[i] in multiset(ordered);
      var k :| 0 <= k < |ordered| && ordered[k] == blocks[i];
      OffsetInRange(|contents|, bs, k);
    }
  }

  lemma OffsetInRange(fileSize: nat, bs: nat, i: nat)
    requires 0 < bs <= fileSize
    ensures 0 <= BlockOffset(fileSize, bs, i) <= fileSize - bs
  {
  }

  /** The block count is the ceiling of fileSize / blockSize: the blocks
      placed at multiples of blockSize reach the end of the file and no
      block is spare. */
  lemma BlockCountIsCeiling(fileSize: nat, bs: nat)
    requires 0 < bs <= fileSize
    ensures var n := BlockCount(fileSize, bs);
      n >= 1 && (n - 1) * bs < fileSize <= n * bs
  {
    var n := BlockCount(fileSize, bs);
    var q, r := (fileSize + bs - 1) / bs, (fileSize + bs - 1) % bs;
    assert fileSize + bs - 1 == q * bs + r;
    assert n * bs == fileSize + bs - 1 - r;
  }

  /** Every block computeFromFile returns lies in the file and carries the
      checksum and digest of its bytes. */
  lemma ComputeFromFileBlocksMatch(contents: seq<byte>, bs: int,
                                   checksum: seq<byte> -> u32, sha1: seq<byte> -> Digest)
    requires bs != 0 && IsInt32(bs) && |contents| < TWO63
    ensures var r := ComputeFromFile(contents, bs, checksum, sha1);
      r.Ok? ==> forall b :: b in r.value.blocks ==> bs > 0 && BlockMatches(contents, bs, checksum, sha1, b)
  {
    var r := ComputeFromFile(contents, bs, checksum, sha1);
    if r.Ok? && |contents| >= bs && bs > 0 {
      var ordered := BlocksInFileOrder(contents, bs, checksum, sha1)[..CutCount(|contents|, bs)];
      forall b | b in r.value.blocks
        ensures BlockMatches(contents, bs, checksum, sha1, b)
      {
        assert b in multiset(r.value.blocks);
        var k :| 0 <= k < |ordered| && ordered[k] == b;
        FileOrderBlockMatches(contents, bs, checksum, sha1, k);
      }
    }
  }

  lemma FileOrderBlockMatches(contents: seq<byte>, bs: nat,
                              checksum: seq<byte> -> u32, sha1: seq<byte> -> Digest, k: nat)
    requires 0 < bs <= |contents|
    requires k < BlockCount(|contents|, bs)
    ensures BlockMatches(contents, bs, checksum, sha1, BlocksInFileOrder(contents, bs, checksum, sha1)[k])
  {
    var b := BlocksInFileOrder(contents, bs, checksum, sha1)[k];
    assert b == BlockAt(contents, bs, k, checksum, sha1);
    OffsetInRange(|contents|, bs, k);
  }

  /** The blocks cover the whole file: clamping the last offset makes the
      last block end exactly at the end of the file. This needs the block
      count to fit in an int; ComputeFromFileCountWraps shows a file whose
      wrapped count leaves most of it uncovered. */
  lemma ComputeFromFileCoversFile(contents: seq<byte>, bs: nat,
                                  checksum: seq<byte> -> u32, sha1: seq<byte> -> Digest, p: nat)
    requires 0 < bs < TWO31 && bs % 32 == 0 && |contents| < TWO63
    requires p < |contents|
    requires bs <= |contents| && BlockCount(|contents|, bs) < TWO31
    ensures ComputeFromFile(contents, bs, checksum, sha1).Ok?
    ensures exists b :: b in ComputeFromFile(contents, bs, checksum, sha1).value.blocks
                        && b.offset <= p < b.offset + bs
  {
    ComputeFromFileFits(contents, bs, checksum, sha1);
    var ordered := BlocksInFileOrder(contents, bs, checksum, sha1);
    var blocks := ComputeFromFile(contents, bs, checksum, sha1).value.blocks;
    var i := BlockCovers(|contents|, bs, p);
    var b := ordered[i];
    assert b.offset == BlockOffset(|contents|, bs, i);
    assert b in multiset(blocks);
    assert b in blocks && b.offset <= p < b.offset + bs;
  }

  /** Position p lies in block p / blockSize, which exists. */
  lemma BlockCovers(fs: nat, bs: nat, p: nat) returns (i: nat)
    requires 0 < bs <= fs && p < fs
    ensures i < BlockCount(fs, bs)
    ensures BlockOffset(fs, bs, i) <= p < BlockOffset(fs, bs, i) + bs
  {
    i := p / bs;
    assert p == bs * i + p % bs;
    BlockCountIsCeiling(fs, bs);
    var n := BlockCount(fs, bs);
    if i >= n {
      MulMono(n, i, bs);
    }
  }

  lemma MulMono(a: nat, b: nat, c: nat)
    requires a <= b
    ensures a * c <= b * c
  {
  }

  /** In file order, block i starts at i * blockSize except for the last,
      which ends at the end of the file. */
  lemma BlocksInFileOrderOffsets(contents: seq<byte>, bs: nat,
                                 checksum: seq<byte> -> u32, sha1: seq<byte> -> Digest)
    requires 0 < bs <= |contents|
    ensures var ordered := BlocksInFileOrder(contents, bs, checksum, sha1);
      && (forall i :: 0 <= i < |ordered| - 1 ==> ordered[i].offset == i * bs)
      && ordered[|ordered| - 1].offset == |contents| - bs
  {
    var fs := |contents|;
    var n := BlockCount(fs, bs);
    BlockCountIsCeiling(fs, bs);
    var ordered := BlocksInFileOrder(contents, bs, checksum, sha1);
    forall i | 0 <= i < n - 1
      ensures ordered[i].offset == i * bs
    {
      assert i * bs <= (n - 2) * bs;
      assert (n - 2) * bs == (n - 1) * bs - bs;
    }
    assert (n - 1) * bs >= fs - bs;
  }
}
