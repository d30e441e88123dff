/** The tail of FileInfo::createUpdatePlan (tdmsync.cpp): the segment
    record, its sort order, merging of contiguous local segments, filling the
    gaps with remote segments, and the byte totals. */
module Segments {
  import opened Sorting

  /** One piece of the result file: `size` bytes at `dst`, taken from the
      local file at `src` or, when `remote`, downloaded (then src == dst). */
  datatype SegmentUse = SegmentUse(src: int, dst: int, size: int, remote: bool)

  datatype SyncPlan = SyncPlan(segments: seq<SegmentUse>, bytesLocal: int, bytesRemote: int)

  // ---------------------------------------------------------------------
  // operator< on SegmentUse

  /** Remote segments first; within each kind, by destination offset. */
  function SegLess(a: SegmentUse, b: SegmentUse): bool
  {
    if a.remote != b.remote then a.remote && !b.remote else a.dst < b.dst
  }

  /** The order std::sort leaves behind: b never strictly before a. */
  function SegLe(a: SegmentUse, b: SegmentUse): bool
  {
    !SegLess(b, a)
  }

  /** operator< is a strict weak ordering, so std::sort is well defined on it. */
  lemma SegLessIsStrictWeakOrder()
    ensures forall a :: !SegLess(a, a)
    ensures forall a, b, c :: SegLess(a, b) && SegLess(b, c) ==> SegLess(a, c)
    ensures TotalPreorder(SegLe)
  {
  }

  /** Among local segments the sorted order is by destination offset. */
  lemma SortedLocalByDst(segs: seq<SegmentUse>)
    requires SortedBy(segs, SegLe)
    requires forall i :: 0 <= i < |segs| ==> !segs[i].remote
    ensures DstSorted(segs)
  {
    forall i, j | 0 <= i < j < |segs|
      ensures segs[i].dst <= segs[j].dst
    {
      assert SegLe(segs[i], segs[j]);
    }
  }

  // ---------------------------------------------------------------------
  // What a list of segments says about the result file

  /** Segment `seg` writes result byte d from source byte s. */
  predicate SegMaps(seg: SegmentUse, d: int, s: int)
  {
    seg.dst <= d < seg.dst + seg.size && s == seg.src + (d - seg.dst)
  }

  /** Some segment writes result byte d from source byte s. */
  predicate Maps(segs: seq<SegmentUse>, d: int, s: int)
  {
    exists k :: 0 <= k < |segs| && SegMaps(segs[k], d, s)
  }

  predicate SegCovers(seg: SegmentUse, p: int)
  {
    seg.dst <= p < seg.dst + seg.size
  }

  /** Result byte p is written by some segment. */
  predicate Covered(segs: seq<SegmentUse>, p: int)
  {
    exists k :: 0 <= k < |segs| && SegCovers(segs[k], p)
  }

  /** Result byte p is written by some local segment. */
  predicate LocallyCovered(segs: seq<SegmentUse>, p: int)
  {
    exists k :: 0 <= k < |segs| && !segs[k].remote && SegCovers(segs[k], p)
  }

  predicate DstSorted(segs: seq<SegmentUse>)
  {
    forall i, j :: 0 <= i < j < |segs| ==> segs[i].dst <= segs[j].dst
  }

  predicate EndSorted(segs: seq<SegmentUse>)
  {
    forall i, j :: 0 <= i < j < |segs| ==> segs[i].dst + segs[i].size <= segs[j].dst + segs[j].size
  }

  /** Non-empty local segments whose source bytes lie in a local file of
      `len` bytes. */
  predicate LocalRun(segs: seq<SegmentUse>, len: int)
  {
    forall k :: 0 <= k < |segs| ==>
      !segs[k].remote && segs[k].size > 0 && 0 <= segs[k].src && segs[k].src + segs[k].size <= len
  }

  function SizeSum(segs: seq<SegmentUse>): int
  {
    if |segs| == 0 then 0 else SizeSum(segs[..|segs| - 1]) + segs[|segs| - 1].size
  }

  lemma {:induction false} SizeSumAppend(a: seq<SegmentUse>, b: seq<SegmentUse>)
    ensures SizeSum(a + b) == SizeSum(a) + SizeSum(b)
    decreases |b|
  {
    if |b| > 0 {
      assert (a + b)[..|a + b| - 1] == a + b[..|b| - 1];
      SizeSumAppend(a, b[..|b| - 1]);
    } else {
      assert a + b == a;
    }
  }

  /** Segments of one size n contribute n bytes each. */
  lemma {:induction false} SizeSumUniform(segs: seq<SegmentUse>, n: int)
    requires forall k :: 0 <= k < |segs| ==> segs[k].size == n
    ensures SizeSum(segs) == n * |segs|
  {
    if |segs| > 0 {
      SizeSumUniform(segs[..|segs| - 1], n);
    }
  }

  lemma {:induction false} MapsConcat(a: seq<SegmentUse>, b: seq<SegmentUse>, d: int, s: int)
    ensures Maps(a + b, d, s) <==> Maps(a, d, s) || Maps(b, d, s)
  {
    if Maps(a + b, d, s) {
      var k :| 0 <= k < |a + b| && SegMaps((a + b)[k], d, s);
      if k < |a| {
        assert SegMaps(a[k], d, s);
      } else {
        assert SegMaps(b[k - |a|], d, s);
      }
    }
    if Maps(a, d, s) {
      var k :| 0 <= k < |a| && SegMaps(a[k], d, s);
      assert (a + b)[k] == a[k];
    }
    if Maps(b, d, s) {
      var k :| 0 <= k < |b| && SegMaps(b[k], d, s);
      assert (a + b)[|a| + k] == b[k];
    }
  }

  lemma MapsSingle(x: SegmentUse, d: int, s: int)
    ensures Maps([x], d, s) <==> SegMaps(x, d, s)
  {
    assert [x][0] == x;
  }

  // ---------------------------------------------------------------------
  // Merge

  /** b continues a in both the result and the source file. */
  predicate Mergeable(a: SegmentUse, b: SegmentUse)
  {
    a.dst + a.size == b.dst && a.src + a.size == b.src
  }

  /** No two neighbours could be merged. */
  predicate Maximal(segs: seq<SegmentUse>)
  {
    forall k :: 0 <= k < |segs| - 1 ==> !Mergeable(segs[k], segs[k + 1])
  }

  /** The merge loop, with `acc` the segments [0, n) kept so far and `rest`
      the segments [i, size) still to visit. */
  function MergeFrom(acc: seq<SegmentUse>, rest: seq<SegmentUse>): (r: seq<SegmentUse>)
    requires |acc| > 0
    ensures |acc| <= |r| <= |acc| + |rest|
    decreases |rest|
  {
    if |rest| == 0 then acc
    else
      var last := acc[|acc| - 1];
      if Mergeable(last, rest[0]) then
        MergeFrom(acc[..|acc| - 1] + [last.(size := last.size + rest[0].size)], rest[1..])
      else
        MergeFrom(acc + [rest[0]], rest[1..])
  }

  /** The merge pass of createUpdatePlan: each segment either extends the
      last kept one or is kept after it. */
  function Merge(segs: seq<SegmentUse>): (r: seq<SegmentUse>)
    ensures |r| <= |segs|
    ensures |r| == 0 <==> |segs| == 0
  {
    if |segs| == 0 then [] else MergeFrom([segs[0]], segs[1..])
  }

  /** Merging keeps the total number of bytes. */
  lemma {:induction false} MergeFromSizes(acc: seq<SegmentUse>, rest: seq<SegmentUse>)
    requires |acc| > 0
    ensures SizeSum(MergeFrom(acc, rest)) == SizeSum(acc) + SizeSum(rest)
    decreases |rest|
  {
    if |rest| > 0 {
      var last := acc[|acc| - 1];
      var init := acc[..|acc| - 1];
      SizeSumAppend([rest[0]], rest[1..]);
      assert [rest[0]] + rest[1..] == rest;
      if Mergeable(last, rest[0]) {
        var acc' := init + [last.(size := last.size + rest[0].size)];
        MergeFromSizes(acc', rest[1..]);
        assert acc'[..|acc'| - 1] == init;
      } else {
        MergeFromSizes(acc + [rest[0]], rest[1..]);
        assert (acc + [rest[0]])[..|acc|] == acc;
      }
    }
  }

  lemma MergeSizes(segs: seq<SegmentUse>)
    ensures SizeSum(Merge(segs)) == SizeSum(segs)
  {
    if |segs| > 0 {
      MergeFromSizes([segs[0]], segs[1..]);
      SizeSumAppend([segs[0]], segs[1..]);
      assert [segs[0]] + segs[1..] == segs;
    }
  }

  /** After merging no two neighbours are contiguous in both files. */
  lemma {:induction false} MergeFromMaximal(acc: seq<SegmentUse>, rest: seq<SegmentUse>)
    requires |acc| > 0 && Maximal(acc)
    ensures Maximal(MergeFrom(acc, rest))
    decreases |rest|
  {
    if |rest| > 0 {
      var last := acc[|acc| - 1];
      if Mergeable(last, rest[0]) {
        var acc' := acc[..|acc| - 1] + [last.(size := last.size + rest[0].size)];
        assert forall k :: 0 <= k < |acc'| ==> acc'[k].dst == acc[k].dst && acc'[k].src == acc[k].src;
        assert forall k :: 0 <= k < |acc'| - 1 ==> acc'[k] == acc[k];
        MergeFromMaximal(acc', rest[1..]);
      } else {
        MergeFromMaximal(acc + [rest[0]], rest[1..]);
      }
    }
  }

  lemma MergeMaximal(segs: seq<SegmentUse>)
    ensures Maximal(Merge(segs))
  {
    if |segs| > 0 {
      MergeFromMaximal([segs[0]], segs[1..]);
    }
  }

  /** Joining b onto a writes exactly the bytes a and b wrote. */
  lemma JoinMaps(a: SegmentUse, b: SegmentUse, d: int, s: int)
    requires Mergeable(a, b) && a.size >= 0 && b.size >= 0
    ensures SegMaps(a.(size := a.size + b.size), d, s) <==> SegMaps(a, d, s) || SegMaps(b, d, s)
  {
  }

  /** Merging writes the same result bytes from the same source bytes. */
  lemma {:induction false} MergeFromMaps(acc: seq<SegmentUse>, rest: seq<SegmentUse>, d: int, s: int)
    requires |acc| > 0
    requires forall k :: 0 <= k < |acc| ==> acc[k].size >= 0
    requires forall k :: 0 <= k < |rest| ==> rest[k].size >= 0
    ensures Maps(MergeFrom(acc, rest), d, s) <==> Maps(acc + rest, d, s)
    decreases |rest|
  {
    if |rest| > 0 {
      var last := acc[|acc| - 1];
      var init := acc[..|acc| - 1];
      if Mergeable(last, rest[0]) {
        var joined := last.(size := last.size + rest[0].size);
        assert MergeFrom(acc, rest) == MergeFrom(init + [joined], rest[1..]);
        MergeFromMaps(init + [joined], rest[1..], d, s);
        JoinFirstMaps(acc, rest, d, s);
      } else {
        assert MergeFrom(acc, rest) == MergeFrom(acc + [rest[0]], rest[1..]);
        MergeFromMaps(acc + [rest[0]], rest[1..], d, s);
        assert acc + [rest[0]] + rest[1..] == acc + rest;
      }
    } else {
      assert acc + rest == acc;
    }
  }

  /** Joining rest[0] onto the last of acc writes the same bytes. */
  lemma JoinFirstMaps(acc: seq<SegmentUse>, rest: seq<SegmentUse>, d: int, s: int)
    requires |acc| > 0 && |rest| > 0
    requires Mergeable(acc[|acc| - 1], rest[0])
    requires acc[|acc| - 1].size >= 0 && rest[0].size >= 0
    ensures Maps(JoinFirst(acc, rest), d, s) <==> Maps(acc + rest, d, s)
  {
    var last, init := acc[|acc| - 1], acc[..|acc| - 1];
    var joined := last.(size := last.size + rest[0].size);
    MapsConcat(init + [joined], rest[1..], d, s);
    MapsConcat(init, [joined], d, s);
    assert acc + rest == init + [last, rest[0]] + rest[1..];
    MapsConcat(init + [last, rest[0]], rest[1..], d, s);
    MapsConcat(init, [last, rest[0]], d, s);
    MapsConcat([last], [rest[0]], d, s);
    assert [last] + [rest[0]] == [last, rest[0]];
    JoinMaps(last, rest[0], d, s);
    MapsSingle(joined, d, s);
    MapsSingle(last, d, s);
    MapsSingle(rest[0], d, s);
  }

  lemma MergeMaps(segs: seq<SegmentUse>, d: int, s: int)
    requires forall k :: 0 <= k < |segs| ==> segs[k].size >= 0
    ensures Maps(Merge(segs), d, s) <==> Maps(segs, d, s)
  {
    if |segs| > 0 {
      MergeFromMaps([segs[0]], segs[1..], d, s);
      assert [segs[0]] + segs[1..] == segs;
    }
  }

  /** Merging keeps segments local, non-empty and inside the local file. */
  lemma {:induction false} MergeFromLocal(acc: seq<SegmentUse>, rest: seq<SegmentUse>, len: int)
    requires |acc| > 0 && LocalRun(acc, len) && LocalRun(rest, len)
    ensures LocalRun(MergeFrom(acc, rest), len)
    decreases |rest|
  {
    if |rest| > 0 {
      var last := acc[|acc| - 1];
      if Mergeable(last, rest[0]) {
        MergeFromLocal(acc[..|acc| - 1] + [last.(size := last.size + rest[0].size)], rest[1..], len);
      } else {
        MergeFromLocal(acc + [rest[0]], rest[1..], len);
      }
    }
  }

  lemma MergeLocal(segs: seq<SegmentUse>, len: int)
    requires LocalRun(segs, len)
    ensures LocalRun(Merge(segs), len)
  {
    if |segs| > 0 {
      MergeFromLocal([segs[0]], segs[1..], len);
    }
  }

  /** A merged segment starts where its first part started and ends where its
      last part ended, so both orders survive merging. */
  lemma {:induction false} MergeFromOrder(acc: seq<SegmentUse>, rest: seq<SegmentUse>)
    requires |acc| > 0
    ensures DstSorted(acc + rest) ==> DstSorted(MergeFrom(acc, rest))
    ensures EndSorted(acc + rest) ==> EndSorted(MergeFrom(acc, rest))
    decreases |rest|
  {
    if |rest| > 0 {
      var last := acc[|acc| - 1];
      if Mergeable(last, rest[0]) {
        var acc' := acc[..|acc| - 1] + [last.(size := last.size + rest[0].size)];
        if DstSorted(acc + rest) {
          JoinKeepsDstOrder(acc, rest);
        }
        if EndSorted(acc + rest) {
          JoinKeepsEndOrder(acc, rest);
        }
        assert MergeFrom(acc, rest) == MergeFrom(acc', rest[1..]);
        MergeFromOrder(acc', rest[1..]);
      } else {
        assert acc + [rest[0]] + rest[1..] == acc + rest;
        MergeFromOrder(acc + [rest[0]], rest[1..]);
      }
    } else {
      assert acc + rest == acc;
    }
  }

  /** The segments after joining rest[0] onto the last of acc. */
  function JoinFirst(acc: seq<SegmentUse>, rest: seq<SegmentUse>): seq<SegmentUse>
    requires |acc| > 0 && |rest| > 0
  {
    var last := acc[|acc| - 1];
    acc[..|acc| - 1] + [last.(size := last.size + rest[0].size)] + rest[1..]
  }

  /** The joined segment starts where the last of acc started. */
  lemma JoinKeepsDstOrder(acc: seq<SegmentUse>, rest: seq<SegmentUse>)
    requires |acc| > 0 && |rest| > 0
    requires DstSorted(acc + rest)
    ensures DstSorted(JoinFirst(acc, rest))
  {
    var x, y := JoinFirst(acc, rest), acc + rest;
    assert forall i :: 0 <= i < |x| ==> x[i].dst == y[Skip(i, |acc|)].dst;
    forall i, j | 0 <= i < j < |x|
      ensures x[i].dst <= x[j].dst
    {
      assert Skip(i, |acc|) < Skip(j, |acc|);
    }
  }

  /** The joined segment ends where rest[0] ended, when the two are
      contiguous. */
  lemma JoinKeepsEndOrder(acc: seq<SegmentUse>, rest: seq<SegmentUse>)
    requires |acc| > 0 && |rest| > 0
    requires Mergeable(acc[|acc| - 1], rest[0])
    requires EndSorted(acc + rest)
    ensures EndSorted(JoinFirst(acc, rest))
  {
    var x, y := JoinFirst(acc, rest), acc + rest;
    assert forall i :: 0 <= i < |x| ==> x[i].dst + x[i].size == y[Skip(i, |acc| - 1)].dst + y[Skip(i, |acc| - 1)].size;
    forall i, j | 0 <= i < j < |x|
      ensures x[i].dst + x[i].size <= x[j].dst + x[j].size
    {
      assert Skip(i, |acc| - 1) < Skip(j, |acc| - 1);
    }
  }

  /** Index i of a sequence with the element at `at` removed. */
  function Skip(i: nat, at: int): nat
  {
    if i < at then i else i + 1
  }

  lemma MergeOrder(segs: seq<SegmentUse>)
    ensures DstSorted(segs) ==> DstSorted(Merge(segs))
    ensures EndSorted(segs) ==> EndSorted(Merge(segs))
  {
    if |segs| > 0 {
      MergeFromOrder([segs[0]], segs[1..]);
      assert [segs[0]] + segs[1..] == segs;
    }
  }

  // ---------------------------------------------------------------------
  // Gap fill

  lemma CoveredAppend(segs: seq<SegmentUse>, x: SegmentUse, p: int)
    requires Covered(segs, p)
    ensures Covered(segs + [x], p)
  {
    var k :| 0 <= k < |segs| && SegCovers(segs[k], p);
    assert (segs + [x])[k] == segs[k];
  }

  /** Local segment a and remote segment b share no result byte. */
  predicate Apart(a: SegmentUse, b: SegmentUse)
  {
    a.dst + a.size <= b.dst || b.dst + b.size <= a.dst
  }

  /** Remote segments, non-empty, read from where they write, in
      increasing, non-overlapping order. */
  predicate Gaps(gaps: seq<SegmentUse>)
  {
    && (forall k :: 0 <= k < |gaps| ==> gaps[k].remote && gaps[k].size > 0 && gaps[k].src == gaps[k].dst)
    && (forall k, l :: 0 <= k < l < |gaps| ==> gaps[k].dst + gaps[k].size <= gaps[l].dst)
  }

  /** No gap shares a result byte with a local segment. */
  predicate GapsApart(locals: seq<SegmentUse>, gaps: seq<SegmentUse>)
  {
    forall k, l :: 0 <= k < |locals| && 0 <= l < |gaps| ==> Apart(locals[k], gaps[l])
  }

  /** Every segment lies in a file of `size` bytes. */
  predicate AllWithin(segs: seq<SegmentUse>, size: int)
  {
    forall k :: 0 <= k < |segs| ==> 0 <= segs[k].dst && segs[k].dst + segs[k].size <= size
  }

  lemma CoveredConcat(a: seq<SegmentUse>, b: seq<SegmentUse>, p: int)
    ensures Covered(a + b, p) <==> Covered(a, p) || Covered(b, p)
  {
    if Covered(a, p) {
      var k :| 0 <= k < |a| && SegCovers(a[k], p);
      assert (a + b)[k] == a[k];
    }
    if Covered(b, p) {
      var k :| 0 <= k < |b| && SegCovers(b[k], p);
      assert (a + b)[|a| + k] == b[k];
    }
    if Covered(a + b, p) {
      var k :| 0 <= k < |a + b| && SegCovers((a + b)[k], p);
      if k < |a| {
        assert SegCovers(a[k], p);
      } else {
        assert SegCovers(b[k - |a|], p);
      }
    }
  }

  /** Where local segment i - 1 ends (0 before the first). */
  function GapStart(locals: seq<SegmentUse>, i: nat): int
    requires i <= |locals|
  {
    if i == 0 then 0 else locals[i - 1].dst + locals[i - 1].size
  }

  /** Where local segment i starts (the file size after the last). */
  function GapEnd(locals: seq<SegmentUse>, fileSize: int, i: nat): int
    requires i <= |locals|
  {
    if i < |locals| then locals[i].dst else fileSize
  }

  /** g is exactly the stretch between local segments i - 1 and i. */
  predicate GapBetween(locals: seq<SegmentUse>, fileSize: int, i: nat, g: SegmentUse)
    requires i <= |locals|
  {
    g.dst == GapStart(locals, i) && g.dst + g.size == GapEnd(locals, fileSize, i)
  }

  /** g is the stretch between two neighbouring local segments. */
  predicate IsGap(locals: seq<SegmentUse>, fileSize: int, g: SegmentUse)
  {
    exists i :: 0 <= i <= |locals| && GapBetween(locals, fileSize, i, g)
  }

  /** Every gap is the stretch between two neighbouring local segments. */
  predicate GapsBetween(locals: seq<SegmentUse>, fileSize: int, gaps: seq<SegmentUse>)
  {
    forall l :: 0 <= l < |gaps| ==> IsGap(locals, fileSize, gaps[l])
  }

  /** A gap after the last one keeps the gaps in order. */
  lemma GapsSnoc(gaps: seq<SegmentUse>, gap: SegmentUse)
    requires Gaps(gaps)
    requires gap.remote && gap.size > 0 && gap.src == gap.dst
    requires |gaps| > 0 ==> gaps[|gaps| - 1].dst + gaps[|gaps| - 1].size <= gap.dst
    ensures Gaps(gaps + [gap])
  {
    var g := gaps + [gap];
    forall k, l | 0 <= k < l < |g|
      ensures g[k].dst + g[k].size <= g[l].dst
    {
      if l == |gaps| && k < |gaps| - 1 {
        assert g[k].dst + g[k].size <= gaps[|gaps| - 1].dst;
      }
    }
  }

  /** A gap starting where coverage stops extends the coverage to its end. */
  lemma CoverGap(locals: seq<SegmentUse>, gaps: seq<SegmentUse>, gap: SegmentUse)
    requires gap.size > 0
    requires forall p :: 0 <= p < gap.dst ==> Covered(locals, p) || Covered(gaps, p)
    ensures forall p :: 0 <= p < gap.dst + gap.size ==> Covered(locals, p) || Covered(gaps + [gap], p)
  {
    forall p | 0 <= p < gap.dst + gap.size
      ensures Covered(locals, p) || Covered(gaps + [gap], p)
    {
      CoveredConcat(gaps, [gap], p);
      if p >= gap.dst {
        assert SegCovers([gap][0], p);
      }
    }
  }

  /** Local segment i covers its own stretch (nothing past the last one). */
  lemma CoverLocal(locals: seq<SegmentUse>, gaps: seq<SegmentUse>, i: nat, offset: int, size: int, from: int)
    requires i < |locals| ==> offset == locals[i].dst && size == locals[i].size
    requires i >= |locals| ==> size == 0
    requires offset <= from
    requires forall p :: 0 <= p < from ==> Covered(locals, p) || Covered(gaps, p)
    ensures forall p :: 0 <= p < offset + size ==> Covered(locals, p) || Covered(gaps, p)
  {
    forall p | 0 <= p < offset + size
      ensures Covered(locals, p) || Covered(gaps, p)
    {
      if p >= from {
        assert SegCovers(locals[i], p);
      }
    }
  }

  /** The gap-fill loop: walking the local segments in destination order
      (then the end of the file), every stretch not yet covered becomes a
      remote segment. */
  method FindGaps(locals: seq<SegmentUse>, fileSize: int) returns (gaps: seq<SegmentUse>)
    requires forall k :: 0 <= k < |locals| ==> locals[k].size >= 0
    requires DstSorted(locals)
    ensures Gaps(gaps)
    ensures GapsBetween(locals, fileSize, gaps)
    ensures forall p :: 0 <= p < fileSize ==> Covered(locals, p) || Covered(gaps, p)
  {
    var n := |locals|;
    gaps := [];
    ghost var at: seq<nat> := [];
    var lastCovered := 0;
    for i := 0 to n + 1
      invariant Gaps(gaps)
      invariant |at| == |gaps|
      invariant forall l :: 0 <= l < |gaps| ==> at[l] < i && at[l] <= n && GapBetween(locals, fileSize, at[l], gaps[l])
      invariant i <= n ==> lastCovered == GapStart(locals, i)
      invariant 0 < |gaps| && i <= n ==> gaps[|gaps| - 1].dst + gaps[|gaps| - 1].size <= lastCovered
      invariant 0 < |gaps| && i < n ==> gaps[|gaps| - 1].dst + gaps[|gaps| - 1].size <= locals[i].dst
      invariant i == n + 1 ==> lastCovered == fileSize
      invariant forall p :: 0 <= p < lastCovered ==> Covered(locals, p) || Covered(gaps, p)
    {
      var offset := if i < n then locals[i].dst else fileSize;
      var size := if i < n then locals[i].size else 0;
      if offset > lastCovered {
        var gap := SegmentUse(lastCovered, lastCovered, offset - lastCovered, true);
        GapsSnoc(gaps, gap);
        CoverGap(locals, gaps, gap);
        gaps, at := gaps + [gap], at + [i];
      }
      CoverLocal(locals, gaps, i, offset, size, if offset > lastCovered then offset else lastCovered);
      lastCovered := offset + size;
    }
    forall l | 0 <= l < |gaps|
      ensures IsGap(locals, fileSize, gaps[l])
    {
      assert GapBetween(locals, fileSize, at[l], gaps[l]);
    }
  }

  /** The gap fill of createUpdatePlan: the gaps are appended after the
      local segments, and together they cover the whole file. */
  method GapFill(locals: seq<SegmentUse>, fileSize: int) returns (segs: seq<SegmentUse>)
    requires forall k :: 0 <= k < |locals| ==> locals[k].size >= 0
    requires DstSorted(locals)
    ensures |locals| <= |segs| && segs[..|locals|] == locals
    ensures Gaps(segs[|locals|..])
    ensures GapsBetween(locals, fileSize, segs[|locals|..])
    ensures forall p :: 0 <= p < fileSize ==> Covered(segs, p)
  {
    var gaps := FindGaps(locals, fileSize);
    segs := locals + gaps;
    assert segs[..|locals|] == locals && segs[|locals|..] == gaps;
    forall p | 0 <= p < fileSize
      ensures Covered(segs, p)
    {
      CoveredConcat(locals, gaps, p);
    }
  }

  /** When the local ends are in order too, no gap overlaps a local segment. */
  lemma GapsAvoidLocals(locals: seq<SegmentUse>, fileSize: int, gaps: seq<SegmentUse>)
    requires forall k :: 0 <= k < |locals| ==> locals[k].size >= 0
    requires DstSorted(locals) && EndSorted(locals)
    requires GapsBetween(locals, fileSize, gaps)
    ensures GapsApart(locals, gaps)
  {
    forall k, l | 0 <= k < |locals| && 0 <= l < |gaps|
      ensures Apart(locals[k], gaps[l])
    {
      var i :| 0 <= i <= |locals| && GapBetween(locals, fileSize, i, gaps[l]);
      if k < i {
        assert locals[k].dst + locals[k].size <= GapStart(locals, i);
      } else {
        assert GapEnd(locals, fileSize, i) <= locals[k].dst;
      }
    }
  }

  /** When the local segments lie in the file, so do the gaps. */
  lemma GapsInsideFile(locals: seq<SegmentUse>, fileSize: int, gaps: seq<SegmentUse>)
    requires forall k :: 0 <= k < |locals| ==> locals[k].size >= 0
    requires AllWithin(locals, fileSize) && 0 <= fileSize
    requires GapsBetween(locals, fileSize, gaps)
    ensures AllWithin(gaps, fileSize)
  {
    forall l | 0 <= l < |gaps|
      ensures 0 <= gaps[l].dst && gaps[l].dst + gaps[l].size <= fileSize
    {
      var i :| 0 <= i <= |locals| && GapBetween(locals, fileSize, i, gaps[l]);
    }
  }

  // ---------------------------------------------------------------------
  // Totals

  /** Bytes the plan takes from the local file. */
  function LocalBytes(segs: seq<SegmentUse>): int
  {
    if |segs| == 0 then 0
    else LocalBytes(segs[..|segs| - 1]) + (if segs[|segs| - 1].remote then 0 else segs[|segs| - 1].size)
  }

  /** Bytes the plan downloads. */
  function RemoteBytes(segs: seq<SegmentUse>): int
  {
    if |segs| == 0 then 0
    else RemoteBytes(segs[..|segs| - 1]) + (if segs[|segs| - 1].remote then segs[|segs| - 1].size else 0)
  }

  /** The totals loop: each segment's size goes to the local or the remote
      count. */
  method Totals(segs: seq<SegmentUse>) returns (bytesLocal: int, bytesRemote: int)
    ensures bytesLocal == LocalBytes(segs) && bytesRemote == RemoteBytes(segs)
    ensures bytesLocal + bytesRemote == SizeSum(segs)
  {
    bytesLocal, bytesRemote := 0, 0;
    for i := 0 to |segs|
      invariant bytesLocal == LocalBytes(segs[..i]) && bytesRemote == RemoteBytes(segs[..i])
      invariant bytesLocal + bytesRemote == SizeSum(segs[..i])
    {
      assert segs[..i + 1][..i] == segs[..i];
      if segs[i].remote {
        bytesRemote := bytesRemote + segs[i].size;
      } else {
        bytesLocal := bytesLocal + segs[i].size;
      }
    }
    assert segs[..|segs|] == segs;
  }

  lemma {:induction false} LocalBytesAppend(a: seq<SegmentUse>, b: seq<SegmentUse>)
    ensures LocalBytes(a + b) == LocalBytes(a) + LocalBytes(b)
    ensures RemoteBytes(a + b) == RemoteBytes(a) + RemoteBytes(b)
    decreases |b|
  {
    if |b| > 0 {
      assert (a + b)[..|a + b| - 1] == a + b[..|b| - 1];
      LocalBytesAppend(a, b[..|b| - 1]);
    } else {
      assert a + b == a;
    }
  }

  /** Over local segments only, the local total is every byte and the remote
      total is nothing; over remote segments only, the other way round. */
  lemma {:induction false} BytesOfOneKind(segs: seq<SegmentUse>)
    ensures (forall k :: 0 <= k < |segs| ==> !segs[k].remote) ==>
      LocalBytes(segs) == SizeSum(segs) && RemoteBytes(segs) == 0
    ensures (forall k :: 0 <= k < |segs| ==> segs[k].remote) ==>
      RemoteBytes(segs) == SizeSum(segs) && LocalBytes(segs) == 0
  {
    if |segs| > 0 {
      BytesOfOneKind(segs[..|segs| - 1]);
    }
  }
}
