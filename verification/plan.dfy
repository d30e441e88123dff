/** FileInfo::createUpdatePlan (tdmsync.cpp): find remote blocks in the
    local file with a rolling checksum, sort and merge the local segments,
    fill the gaps with remote segments, and add up the byte totals.

    The rolling checksum is `checksumCompute` for the first window and
    `checksumUpdate` for every slide; both, and SHA-1, are parameters. The
    branchless binary search (its body is not part of this model) is
    `LowerBound`: the first index whose checksum is not below the digest. */
module Plan {
  import opened Common
  import opened Metadata
  import opened Sorting
  import opened Blocks
  import opened Segments

  /** checksumUpdate(value, added, removed). */
  type Update = (u32, byte, byte) -> u32

  // ---------------------------------------------------------------------
  // The rolling checksum and the lookup

  /** The checksum the loop holds at `offset`: computed for the first window,
      then updated once per slide. */
  function Rolled(contents: seq<byte>, bs: nat, offset: nat,
                  checksum: seq<byte> -> u32, update: Update): u32
    requires 0 < bs && offset + bs <= |contents|
    decreases offset
  {
    if offset == 0 then checksum(contents[..bs])
    else update(Rolled(contents, bs, offset - 1, checksum, update), contents[offset - 1 + bs], contents[offset - 1])
  }

  /** `update` is a rolling form of `checksum` on bs-byte windows: sliding a
      window by one byte maps its checksum to the next window's. */
  ghost predicate RollsWith(checksum: seq<byte> -> u32, update: Update, bs: nat)
  {
    forall w: seq<byte> :: |w| == bs + 1 ==>
      update(checksum(w[..bs]), w[bs], w[0]) == checksum(w[1..])
  }

  /** With a rolling update, the value the loop carries at each offset is
      the checksum computed afresh on the window there. */
  lemma {:induction false} RolledIsWindowChecksum(contents: seq<byte>, bs: nat, offset: nat,
                                                  checksum: seq<byte> -> u32, update: Update)
    requires 0 < bs && offset + bs <= |contents|
    requires RollsWith(checksum, update, bs)
    ensures Rolled(contents, bs, offset, checksum, update) == checksum(contents[offset..offset + bs])
  {
    if offset > 0 {
      RolledIsWindowChecksum(contents, bs, offset - 1, checksum, update);
      var w := contents[offset - 1..offset + bs];
      assert w[..bs] == contents[offset - 1..offset - 1 + bs];
      assert w[1..] == contents[offset..offset + bs];
      assert w[bs] == contents[offset - 1 + bs] && w[0] == contents[offset - 1];
    }
  }

  /** The lookup: the first index at or after `from` whose checksum is not
      below `key`. */
  function LowerBound(blocks: seq<BlockInfo>, key: u32, from: nat): (i: nat)
    requires from <= |blocks|
    ensures from <= i <= |blocks|
    ensures forall k :: from <= k < i ==> blocks[k].chksum < key
    ensures i < |blocks| ==> blocks[i].chksum >= key
    decreases |blocks| - from
  {
    if from == |blocks| || blocks[from].chksum >= key then from
    else LowerBound(blocks, key, from + 1)
  }

  /** Over checksum-sorted blocks, [left, right) from the lookup and the
      equality scan is exactly the set of blocks whose checksum is the key. */
  lemma EqualRange(blocks: seq<BlockInfo>, key: u32, left: nat, right: nat)
    requires SortedBy(blocks, ChecksumLe)
    requires left == LowerBound(blocks, key, 0)
    requires left <= right <= |blocks|
    requires forall k :: left <= k < right ==> blocks[k].chksum == key
    requires right < |blocks| ==> blocks[right].chksum != key
    ensures forall k :: 0 <= k < |blocks| ==> (blocks[k].chksum == key <==> left <= k < right)
  {
    forall k | 0 <= k < |blocks| && right <= k
      ensures blocks[k].chksum != key
    {
      assert right < |blocks|;
      if left < |blocks| {
        assert ChecksumLe(blocks[left], blocks[right]) || left == right;
      }
      assert blocks[right].chksum > key;
      if k > right {
        assert ChecksumLe(blocks[right], blocks[k]);
      }
    }
  }

  // ---------------------------------------------------------------------
  // Matching

  /** Remote block b is found at local offset o: same rolling checksum and
      same SHA-1 digest. */
  predicate MatchesAt(contents: seq<byte>, bs: nat, checksum: seq<byte> -> u32, update: Update,
                      sha1: seq<byte> -> Digest, b: BlockInfo, o: nat)
    requires 0 < bs
  {
    && o + bs <= |contents|
    && Rolled(contents, bs, o, checksum, update) == b.chksum
    && sha1(contents[o..o + bs]) == b.hash
  }

  /** The local segment the loop emits for block b. */
  predicate IsMatch(contents: seq<byte>, bs: nat, checksum: seq<byte> -> u32, update: Update,
                    sha1: seq<byte> -> Digest, seg: SegmentUse, b: BlockInfo)
    requires 0 < bs
  {
    && !seg.remote && seg.size == bs && seg.dst == b.offset && 0 <= seg.src
    && MatchesAt(contents, bs, checksum, update, sha1, b, seg.src)
  }

  /** found[j] records exactly the block indices in `used`, each once. */
  ghost predicate Bookkeeping(blocks: seq<BlockInfo>, found: seq<bool>, segs: seq<SegmentUse>, used: seq<nat>)
  {
    && |found| == |blocks| && |segs| == |used| && Distinct(used)
    && (forall k :: 0 <= k < |used| ==> used[k] < |blocks|)
    && (forall j :: 0 <= j < |blocks| ==> (found[j] <==> j in used))
  }

  /** Every segment so far matches its block, at a source offset no later
      than `bound`, in nondecreasing source order. */
  ghost predicate SegmentsMatch(contents: seq<byte>, bs: nat, checksum: seq<byte> -> u32, update: Update,
                                sha1: seq<byte> -> Digest, blocks: seq<BlockInfo>,
                                segs: seq<SegmentUse>, used: seq<nat>, bound: int)
    requires 0 < bs
    requires |segs| == |used| && forall k :: 0 <= k < |used| ==> used[k] < |blocks|
  {
    && (forall k :: 0 <= k < |used| ==>
          IsMatch(contents, bs, checksum, update, sha1, segs[k], blocks[used[k]]) && segs[k].src <= bound)
    && (forall k, l :: 0 <= k < l < |segs| ==> segs[k].src <= segs[l].src)
  }

  /** Every block that matches at an offset below `offset` has been found. */
  ghost predicate FoundBefore(contents: seq<byte>, bs: nat, checksum: seq<byte> -> u32, update: Update,
                              sha1: seq<byte> -> Digest, blocks: seq<BlockInfo>, found: seq<bool>, offset: nat)
    requires 0 < bs && |found| == |blocks|
  {
    forall j, o: nat ::
      (0 <= j < |blocks| && o < offset && MatchesAt(contents, bs, checksum, update, sha1, blocks[j], o)) ==> found[j]
  }

  /** Claim, in index order, every not-yet-found block in [left, right)
      whose SHA-1 digest is that of the window at `offset`. */
  method Claim(blocks: seq<BlockInfo>, bs: nat, contents: seq<byte>,
               checksum: seq<byte> -> u32, update: Update, sha1: seq<byte> -> Digest,
               offset: nat, left: nat, right: nat, found: seq<bool>, segs: seq<SegmentUse>, used: seq<nat>)
    returns (found': seq<bool>, segs': seq<SegmentUse>, used': seq<nat>)
    requires 0 < bs && offset + bs <= |contents| && left <= right <= |blocks|
    requires forall i :: left <= i < right ==> blocks[i].chksum == Rolled(contents, bs, offset, checksum, update)
    requires Bookkeeping(blocks, found, segs, used)
    requires SegmentsMatch(contents, bs, checksum, update, sha1, blocks, segs, used, offset)
    requires FoundBefore(contents, bs, checksum, update, sha1, blocks, found, offset)
    ensures Bookkeeping(blocks, found', segs', used')
    ensures SegmentsMatch(contents, bs, checksum, update, sha1, blocks, segs', used', offset)
    ensures FoundBefore(contents, bs, checksum, update, sha1, blocks, found', offset)
    ensures forall i :: 0 <= i < |blocks| && found[i] ==> found'[i]
    ensures forall i ::
      (left <= i < right && MatchesAt(contents, bs, checksum, update, sha1, blocks[i], offset)) ==> found'[i]
  {
    var tmp := sha1(contents[offset..offset + bs]);
    found', segs', used' := found, segs, used;
    for j := left to right
      invariant Bookkeeping(blocks, found', segs', used')
      invariant SegmentsMatch(contents, bs, checksum, update, sha1, blocks, segs', used', offset)
      invariant FoundBefore(contents, bs, checksum, update, sha1, blocks, found', offset)
      invariant forall i :: 0 <= i < |blocks| && found[i] ==> found'[i]
      invariant forall i ::
        (left <= i < j && MatchesAt(contents, bs, checksum, update, sha1, blocks[i], offset)) ==> found'[i]
    {
      if !found'[j] && blocks[j].hash == tmp {
        found' := found'[j := true];
        segs' := segs' + [SegmentUse(offset, blocks[j].offset, bs, false)];
        used' := used' + [j];
      }
    }
  }

  /** The body of the matching loop for one local offset: look the digest up,
      and claim every not-yet-found block of that checksum whose SHA-1 agrees. */
  method ScanOffset(blocks: seq<BlockInfo>, bs: nat, contents: seq<byte>,
                    checksum: seq<byte> -> u32, update: Update, sha1: seq<byte> -> Digest,
                    offset: nat, digest: u32, found: seq<bool>, segs: seq<SegmentUse>, used: seq<nat>)
    returns (found': seq<bool>, segs': seq<SegmentUse>, used': seq<nat>)
    requires 0 < bs && offset + bs <= |contents|
    requires SortedBy(blocks, ChecksumLe)
    requires digest == Rolled(contents, bs, offset, checksum, update)
    requires Bookkeeping(blocks, found, segs, used)
    requires SegmentsMatch(contents, bs, checksum, update, sha1, blocks, segs, used, offset - 1)
    requires FoundBefore(contents, bs, checksum, update, sha1, blocks, found, offset)
    ensures Bookkeeping(blocks, found', segs', used')
    ensures SegmentsMatch(contents, bs, checksum, update, sha1, blocks, segs', used', offset)
    ensures FoundBefore(contents, bs, checksum, update, sha1, blocks, found', offset + 1)
  {
    var left := LowerBound(blocks, digest, 0);
    var right := left;
    while right < |blocks| && blocks[right].chksum == digest
      invariant left <= right <= |blocks|
      invariant forall k :: left <= k < right ==> blocks[k].chksum == digest
    {
      right := right + 1;
    }
    EqualRange(blocks, digest, left, right);

    var newFound := 0;
    for j := left to right
      invariant newFound == 0 <==> forall k :: left <= k < j ==> found[k]
    {
      if !found[j] {
        newFound := newFound + 1;
      }
    }

    found', segs', used' := found, segs, used;
    if newFound > 0 {
      found', segs', used' := Claim(blocks, bs, contents, checksum, update, sha1, offset, left, right, found, segs, used);
    }
    forall j, o: nat | 0 <= j < |blocks| && o < offset + 1 && MatchesAt(contents, bs, checksum, update, sha1, blocks[j], o)
      ensures found'[j]
    {
      if o == offset {
        assert left <= j < right;
      }
    }
  }

  /** The matching loop of createUpdatePlan. `used[k]` is the block index
      segment k was made for. */
  method MatchBlocks(blocks: seq<BlockInfo>, bs: nat, contents: seq<byte>,
                     checksum: seq<byte> -> u32, update: Update, sha1: seq<byte> -> Digest)
    returns (segs: seq<SegmentUse>, used: seq<nat>)
    requires 0 < bs <= |contents|
    requires SortedBy(blocks, ChecksumLe)
    ensures |segs| == |used| && Distinct(used)
    ensures forall k :: 0 <= k < |used| ==> used[k] < |blocks|
    ensures forall k :: 0 <= k < |used| ==> IsMatch(contents, bs, checksum, update, sha1, segs[k], blocks[used[k]])
    ensures forall j, o: nat ::
      (0 <= j < |blocks| && MatchesAt(contents, bs, checksum, update, sha1, blocks[j], o)) ==> j in used
    ensures forall k, l :: 0 <= k < l < |segs| ==> segs[k].src <= segs[l].src
  {
    var found := seq(|blocks|, _ => false);
    segs, used := [], [];
    var curr := checksum(contents[..bs]);
    var offset := 0;
    while offset + bs <= |contents|
      invariant offset + bs <= |contents| + 1
      invariant offset + bs <= |contents| ==> curr == Rolled(contents, bs, offset, checksum, update)
      invariant Bookkeeping(blocks, found, segs, used)
      invariant SegmentsMatch(contents, bs, checksum, update, sha1, blocks, segs, used, offset - 1)
      invariant FoundBefore(contents, bs, checksum, update, sha1, blocks, found, offset)
      decreases |contents| - offset
    {
      found, segs, used := ScanOffset(blocks, bs, contents, checksum, update, sha1, offset, curr, found, segs, used);
      if offset + bs < |contents| {
        curr := update(curr, contents[offset + bs], contents[offset]);
      }
      offset := offset + 1;
    }
    forall j, o: nat | 0 <= j < |blocks| && MatchesAt(contents, bs, checksum, update, sha1, blocks[j], o)
      ensures j in used
    {
      assert found[j];
    }
  }

  // ---------------------------------------------------------------------
  // What the plan promises

  /** std::is_sorted over the block checksums: each no greater than the next. */
  function ChecksumsSorted(blocks: seq<BlockInfo>): (b: bool)
    ensures b <==> SortedBy(blocks, ChecksumLe)
  {
    if |blocks| < 2 then true
    else
      var rest := ChecksumsSorted(blocks[1..]);
      assert SortedBy(blocks, ChecksumLe) ==> SortedBy(blocks[1..], ChecksumLe) by {
        if SortedBy(blocks, ChecksumLe) {
          forall i, j | 0 <= i < j < |blocks| - 1
            ensures ChecksumLe(blocks[1..][i], blocks[1..][j])
          {
            assert ChecksumLe(blocks[i + 1], blocks[j + 1]);
          }
        }
      }
      blocks[0].chksum <= blocks[1].chksum && rest
  }

  /** Remote block b occurs somewhere in the local file. */
  ghost predicate FoundSomewhere(contents: seq<byte>, bs: nat, checksum: seq<byte> -> u32, update: Update,
                                 sha1: seq<byte> -> Digest, b: BlockInfo)
    requires 0 < bs
  {
    exists o: nat :: MatchesAt(contents, bs, checksum, update, sha1, b, o)
  }

  /** The indices of the remote blocks that occur in the local file. */
  ghost function MatchedBlocks(contents: seq<byte>, bs: nat, checksum: seq<byte> -> u32, update: Update,
                               sha1: seq<byte> -> Digest, blocks: seq<BlockInfo>): set<nat>
    requires 0 < bs
  {
    set j: nat | j < |blocks| && FoundSomewhere(contents, bs, checksum, update, sha1, blocks[j])
  }

  /** Writing result byte d from local byte s is backed by a remote block
      found at a local offset, at the same distance into both. */
  ghost predicate Justified(contents: seq<byte>, bs: nat, checksum: seq<byte> -> u32, update: Update,
                            sha1: seq<byte> -> Digest, blocks: seq<BlockInfo>, d: int, s: int)
    requires 0 < bs
  {
    exists j: nat, o: nat :: j < |blocks| && MatchesAt(contents, bs, checksum, update, sha1, blocks[j], o)
      && SegMaps(SegmentUse(o, blocks[j].offset, bs, false), d, s)
  }

  /** The segment layout of a plan: n local segments (non-empty, inside the
      local file, in destination order, none mergeable with the next), then
      the remote gaps between them, which overlap none of them. */
  ghost predicate Layout(segs: seq<SegmentUse>, n: nat, localSize: int, fileSize: int)
    requires n <= |segs|
  {
    && LocalRun(segs[..n], localSize) && DstSorted(segs[..n]) && Maximal(segs[..n])
    && Gaps(segs[n..]) && GapsBetween(segs[..n], fileSize, segs[n..]) && GapsApart(segs[..n], segs[n..])
  }

  lemma MapsPermutation(a: seq<SegmentUse>, b: seq<SegmentUse>, d: int, s: int)
    requires multiset(a) == multiset(b)
    ensures Maps(a, d, s) <==> Maps(b, d, s)
  {
    if Maps(a, d, s) {
      var k :| 0 <= k < |a| && SegMaps(a[k], d, s);
      assert a[k] in multiset(b);
      var k' :| 0 <= k' < |b| && b[k'] == a[k];
    }
    if Maps(b, d, s) {
      var k :| 0 <= k < |b| && SegMaps(b[k], d, s);
      assert b[k] in multiset(a);
      var k' :| 0 <= k' < |a| && a[k'] == b[k];
    }
  }

  /** The sorted matches keep the shape of the matches: local, one block
      long, inside the local file; sorted by destination, hence by end too. */
  lemma SortedMatchesShape(contents: seq<byte>, bs: nat, checksum: seq<byte> -> u32, update: Update,
                           sha1: seq<byte> -> Digest, blocks: seq<BlockInfo>,
                           segs: seq<SegmentUse>, used: seq<nat>, sorted: seq<SegmentUse>)
    requires 0 < bs
    requires |segs| == |used| && forall k :: 0 <= k < |used| ==> used[k] < |blocks|
    requires forall k :: 0 <= k < |used| ==> IsMatch(contents, bs, checksum, update, sha1, segs[k], blocks[used[k]])
    requires multiset(sorted) == multiset(segs) && SortedBy(sorted, SegLe)
    ensures LocalRun(sorted, |contents|)
    ensures forall k :: 0 <= k < |sorted| ==> sorted[k].size == bs
    ensures DstSorted(sorted) && EndSorted(sorted)
  {
    forall k | 0 <= k < |sorted|
      ensures !sorted[k].remote && sorted[k].size == bs && 0 <= sorted[k].src && sorted[k].src + bs <= |contents|
    {
      assert sorted[k] in multiset(segs);
      var k' :| 0 <= k' < |segs| && segs[k'] == sorted[k];
      assert IsMatch(contents, bs, checksum, update, sha1, segs[k'], blocks[used[k']]);
    }
    SortedLocalByDst(sorted);
  }

  /** What the local half of the plan says, in terms of the matches: it writes
      exactly the (result byte, local byte) pairs the matches write. */
  lemma MergedMatches(contents: seq<byte>, bs: nat, checksum: seq<byte> -> u32, update: Update,
                      sha1: seq<byte> -> Digest, blocks: seq<BlockInfo>,
                      segs: seq<SegmentUse>, used: seq<nat>, sorted: seq<SegmentUse>, d: int, s: int)
    requires 0 < bs
    requires |segs| == |used| && forall k :: 0 <= k < |used| ==> used[k] < |blocks|
    requires forall k :: 0 <= k < |used| ==> IsMatch(contents, bs, checksum, update, sha1, segs[k], blocks[used[k]])
    requires multiset(sorted) == multiset(segs)
    requires forall k :: 0 <= k < |sorted| ==> sorted[k].size >= 0
    ensures Maps(Merge(sorted), d, s) <==> Maps(segs, d, s)
    ensures Maps(segs, d, s) ==> Justified(contents, bs, checksum, update, sha1, blocks, d, s)
  {
    MergeMaps(sorted, d, s);
    MapsPermutation(sorted, segs, d, s);
    if Maps(segs, d, s) {
      var k :| 0 <= k < |segs| && SegMaps(segs[k], d, s);
      var j: nat, o: nat := used[k], segs[k].src;
      assert IsMatch(contents, bs, checksum, update, sha1, segs[k], blocks[j]);
      assert MatchesAt(contents, bs, checksum, update, sha1, blocks[j], o);
      assert SegMaps(SegmentUse(o, blocks[j].offset, bs, false), d, s);
    }
  }

  /** Every byte of a block found in the local file is written by a match. */
  lemma FoundBlockMapped(contents: seq<byte>, bs: nat, checksum: seq<byte> -> u32, update: Update,
                         sha1: seq<byte> -> Digest, blocks: seq<BlockInfo>,
                         segs: seq<SegmentUse>, used: seq<nat>, j: nat, o: nat, d: int) returns (s: int)
    requires 0 < bs
    requires |segs| == |used| && forall k :: 0 <= k < |used| ==> used[k] < |blocks|
    requires forall k :: 0 <= k < |used| ==> IsMatch(contents, bs, checksum, update, sha1, segs[k], blocks[used[k]])
    requires forall j, o: nat ::
      (0 <= j < |blocks| && MatchesAt(contents, bs, checksum, update, sha1, blocks[j], o)) ==> j in used
    requires j < |blocks| && MatchesAt(contents, bs, checksum, update, sha1, blocks[j], o)
    requires blocks[j].offset <= d < blocks[j].offset + bs
    ensures Maps(segs, d, s)
  {
    var k :| 0 <= k < |used| && used[k] == j;
    s := segs[k].src + (d - segs[k].dst);
    assert SegMaps(segs[k], d, s);
  }

  /** The blocks found in the local file are exactly the ones matched, each
      once. */
  lemma MatchedCount(contents: seq<byte>, bs: nat, checksum: seq<byte> -> u32, update: Update,
                     sha1: seq<byte> -> Digest, blocks: seq<BlockInfo>,
                     segs: seq<SegmentUse>, used: seq<nat>)
    requires 0 < bs
    requires |segs| == |used| && Distinct(used) && forall k :: 0 <= k < |used| ==> used[k] < |blocks|
    requires forall k :: 0 <= k < |used| ==> IsMatch(contents, bs, checksum, update, sha1, segs[k], blocks[used[k]])
    requires forall j, o: nat ::
      (0 <= j < |blocks| && MatchesAt(contents, bs, checksum, update, sha1, blocks[j], o)) ==> j in used
    ensures |MatchedBlocks(contents, bs, checksum, update, sha1, blocks)| == |used|
  {
    var m := MatchedBlocks(contents, bs, checksum, update, sha1, blocks);
    var u: set<nat> := set x: nat | x in used;
    forall j | j in m
      ensures j in u
    {
      var o: nat :| MatchesAt(contents, bs, checksum, update, sha1, blocks[j], o);
    }
    forall j | j in u
      ensures j in m
    {
      var k :| 0 <= k < |used| && used[k] == j;
      assert MatchesAt(contents, bs, checksum, update, sha1, blocks[j], segs[k].src);
    }
    assert m == u;
    DistinctCard<nat>(used);
  }

  /** Sort, merge, gap fill and totals over the matches, with the promises
      of createUpdatePlan stated against the blocks. */
  method PlanFromMatches(contents: seq<byte>, bs: nat, checksum: seq<byte> -> u32, update: Update,
                         sha1: seq<byte> -> Digest, blocks: seq<BlockInfo>, fileSize: int,
                         segs: seq<SegmentUse>, used: seq<nat>)
    returns (plan: SyncPlan)
    requires 0 < bs
    requires |segs| == |used| && Distinct(used) && forall k :: 0 <= k < |used| ==> used[k] < |blocks|
    requires forall k :: 0 <= k < |used| ==> IsMatch(contents, bs, checksum, update, sha1, segs[k], blocks[used[k]])
    requires forall j, o: nat ::
      (0 <= j < |blocks| && MatchesAt(contents, bs, checksum, update, sha1, blocks[j], o)) ==> j in used
    ensures exists n :: 0 <= n <= |plan.segments| && Layout(plan.segments, n, |contents|, fileSize)
    ensures forall p :: 0 <= p < fileSize ==> Covered(plan.segments, p)
    ensures plan.bytesLocal == LocalBytes(plan.segments) && plan.bytesRemote == RemoteBytes(plan.segments)
    ensures plan.bytesLocal == bs * |MatchedBlocks(contents, bs, checksum, update, sha1, blocks)|
    ensures forall j: nat, o: nat, d: int ::
      (j < |blocks| && MatchesAt(contents, bs, checksum, update, sha1, blocks[j], o)
       && blocks[j].offset <= d < blocks[j].offset + bs) ==> LocallyCovered(plan.segments, d)
    ensures forall k, d ::
      (0 <= k < |plan.segments| && !plan.segments[k].remote && SegCovers(plan.segments[k], d))
      ==> Justified(contents, bs, checksum, update, sha1, blocks, d, plan.segments[k].src + (d - plan.segments[k].dst))
  {
    SegLessIsStrictWeakOrder();
    var sorted := Sort(segs, SegLe);
    SortedMatchesShape(contents, bs, checksum, update, sha1, blocks, segs, used, sorted);
    var merged := Merge(sorted);
    MergeLocal(sorted, |contents|);
    MergeOrder(sorted);
    MergeMaximal(sorted);
    var all := GapFill(merged, fileSize);
    var n := |merged|;
    GapsAvoidLocals(merged, fileSize, all[n..]);
    var bytesLocal, bytesRemote := Totals(all);
    plan := SyncPlan(all, bytesLocal, bytesRemote);
    assert Layout(all, n, |contents|, fileSize);
    LocalTotal(contents, bs, checksum, update, sha1, blocks, segs, used, sorted, all);
    LocalsComplete(contents, bs, checksum, update, sha1, blocks, segs, used, sorted, all);
    LocalsJustified(contents, bs, checksum, update, sha1, blocks, segs, used, sorted, all);
  }

  /** The local total is one block per block found. */
  lemma LocalTotal(contents: seq<byte>, bs: nat, checksum: seq<byte> -> u32, update: Update,
                   sha1: seq<byte> -> Digest, blocks: seq<BlockInfo>,
                   segs: seq<SegmentUse>, used: seq<nat>, sorted: seq<SegmentUse>, all: seq<SegmentUse>)
    requires 0 < bs
    requires |segs| == |used| && Distinct(used) && forall k :: 0 <= k < |used| ==> used[k] < |blocks|
    requires forall k :: 0 <= k < |used| ==> IsMatch(contents, bs, checksum, update, sha1, segs[k], blocks[used[k]])
    requires forall j, o: nat ::
      (0 <= j < |blocks| && MatchesAt(contents, bs, checksum, update, sha1, blocks[j], o)) ==> j in used
    requires |sorted| == |segs| && forall k :: 0 <= k < |sorted| ==> sorted[k].size == bs
    requires LocalRun(Merge(sorted), |contents|)
    requires |Merge(sorted)| <= |all| && all[..|Merge(sorted)|] == Merge(sorted) && Gaps(all[|Merge(sorted)|..])
    ensures LocalBytes(all) == bs * |MatchedBlocks(contents, bs, checksum, update, sha1, blocks)|
  {
    var merged := Merge(sorted);
    var n := |merged|;
    assert all == merged + all[n..];
    LocalBytesAppend(merged, all[n..]);
    BytesOfOneKind(merged);
    BytesOfOneKind(all[n..]);
    MergeSizes(sorted);
    SizeSumUniform(sorted, bs);
    MatchedCount(contents, bs, checksum, update, sha1, blocks, segs, used);
  }

  /** Every block found locally is copied locally. */
  lemma LocalsComplete(contents: seq<byte>, bs: nat, checksum: seq<byte> -> u32, update: Update,
                       sha1: seq<byte> -> Digest, blocks: seq<BlockInfo>,
                       segs: seq<SegmentUse>, used: seq<nat>, sorted: seq<SegmentUse>, all: seq<SegmentUse>)
    requires 0 < bs
    requires |segs| == |used| && forall k :: 0 <= k < |used| ==> used[k] < |blocks|
    requires forall k :: 0 <= k < |used| ==> IsMatch(contents, bs, checksum, update, sha1, segs[k], blocks[used[k]])
    requires forall j, o: nat ::
      (0 <= j < |blocks| && MatchesAt(contents, bs, checksum, update, sha1, blocks[j], o)) ==> j in used
    requires multiset(sorted) == multiset(segs) && forall k :: 0 <= k < |sorted| ==> sorted[k].size >= 0
    requires LocalRun(Merge(sorted), |contents|)
    requires |Merge(sorted)| <= |all| && all[..|Merge(sorted)|] == Merge(sorted)
    ensures forall j: nat, o: nat, d: int ::
      (j < |blocks| && MatchesAt(contents, bs, checksum, update, sha1, blocks[j], o)
       && blocks[j].offset <= d < blocks[j].offset + bs) ==> LocallyCovered(all, d)
  {
    var merged := Merge(sorted);
    forall j: nat, o: nat, d: int | j < |blocks| && MatchesAt(contents, bs, checksum, update, sha1, blocks[j], o)
                                  && blocks[j].offset <= d < blocks[j].offset + bs
      ensures LocallyCovered(all, d)
    {
      var s := FoundBlockMapped(contents, bs, checksum, update, sha1, blocks, segs, used, j, o, d);
      MergedMatches(contents, bs, checksum, update, sha1, blocks, segs, used, sorted, d, s);
      var k :| 0 <= k < |merged| && SegMaps(merged[k], d, s);
      assert all[k] == merged[k];
      assert !all[k].remote && SegCovers(all[k], d);
    }
  }

  /** Every local byte is backed by a block found at the same distance into
      it. */
  lemma LocalsJustified(contents: seq<byte>, bs: nat, checksum: seq<byte> -> u32, update: Update,
                        sha1: seq<byte> -> Digest, blocks: seq<BlockInfo>,
                        segs: seq<SegmentUse>, used: seq<nat>, sorted: seq<SegmentUse>, all: seq<SegmentUse>)
    requires 0 < bs
    requires |segs| == |used| && forall k :: 0 <= k < |used| ==> used[k] < |blocks|
    requires forall k :: 0 <= k < |used| ==> IsMatch(contents, bs, checksum, update, sha1, segs[k], blocks[used[k]])
    requires multiset(sorted) == multiset(segs) && forall k :: 0 <= k < |sorted| ==> sorted[k].size >= 0
    requires |Merge(sorted)| <= |all| && all[..|Merge(sorted)|] == Merge(sorted)
    requires forall k :: |Merge(sorted)| <= k < |all| ==> all[k].remote
    ensures forall k, d ::
      (0 <= k < |all| && !all[k].remote && SegCovers(all[k], d))
      ==> Justified(contents, bs, checksum, update, sha1, blocks, d, all[k].src + (d - all[k].dst))
  {
    var merged := Merge(sorted);
    forall k, d | 0 <= k < |all| && !all[k].remote && SegCovers(all[k], d)
      ensures Justified(contents, bs, checksum, update, sha1, blocks, d, all[k].src + (d - all[k].dst))
    {
      var s := all[k].src + (d - all[k].dst);
      assert k < |merged|;
      assert all[k] == merged[k] && SegMaps(merged[k], d, s);
      MergedMatches(contents, bs, checksum, update, sha1, blocks, segs, used, sorted, d, s);
    }
  }

  /** FileInfo::createUpdatePlan. A local file shorter than a block matches
      nothing and is all download; otherwise the remote checksums must be
      sorted and the block size a multiple of 32. A negative block size (it
      comes from the metadata) never plans: the file is never shorter than
      it, and the first checksumCompute either fails its assertion or reads
      far past the file. */
  method CreateUpdatePlan(info: FileInfo, contents: seq<byte>,
                          checksum: seq<byte> -> u32, update: Update, sha1: seq<byte> -> Digest)
    returns (r: Result<SyncPlan>)
    requires info.blockSize != 0
    ensures info.blockSize < 0 ==> r.Fail?
    ensures |contents| < info.blockSize ==> r.Ok?
    ensures 0 < info.blockSize <= |contents| ==>
      (r.Ok? <==> SortedBy(info.blocks, ChecksumLe) && info.blockSize % 32 == 0)
    ensures r.Ok? ==>
      exists n :: 0 <= n <= |r.value.segments| && Layout(r.value.segments, n, |contents|, info.fileSize)
    ensures r.Ok? ==> forall p :: 0 <= p < info.fileSize ==> Covered(r.value.segments, p)
    ensures r.Ok? ==>
      (r.value.bytesLocal == LocalBytes(r.value.segments) && r.value.bytesRemote == RemoteBytes(r.value.segments))
    ensures r.Ok? ==>
      r.value.bytesLocal == info.blockSize * |MatchedBlocks(contents, info.blockSize, checksum, update, sha1, info.blocks)|
    ensures r.Ok? ==> forall j: nat, o: nat, d: int ::
      (j < |info.blocks| && MatchesAt(contents, info.blockSize, checksum, update, sha1, info.blocks[j], o)
       && info.blocks[j].offset <= d < info.blocks[j].offset + info.blockSize)
      ==> LocallyCovered(r.value.segments, d)
    ensures r.Ok? ==> forall k, d ::
      (0 <= k < |r.value.segments| && !r.value.segments[k].remote && SegCovers(r.value.segments[k], d))
      ==> Justified(contents, info.blockSize, checksum, update, sha1, info.blocks,
                    d, r.value.segments[k].src + (d - r.value.segments[k].dst))
  {
    if info.blockSize < 0 {
      if !ChecksumsSorted(info.blocks) {
        return Fail("std::is_sorted(checksums)");
      }
      if info.blockSize % 32 != 0 {
        return Fail("checksumCompute: (len & 31) == 0");
      }
      return Fail("checksumCompute: read past the end of the file");
    }
    var bs: nat := info.blockSize;
    var segs: seq<SegmentUse> := [];
    var used: seq<nat> := [];
    if |contents| >= bs {
      if !ChecksumsSorted(info.blocks) {
        return Fail("std::is_sorted(checksums)");
      }
      if bs % 32 != 0 {
        return Fail("checksumCompute: (len & 31) == 0");
      }
      segs, used := MatchBlocks(info.blocks, bs, contents, checksum, update, sha1);
    }
    var plan := PlanFromMatches(contents, bs, checksum, update, sha1, info.blocks, info.fileSize, segs, used);
    r := Ok(plan);
  }
}
