/** The HTTP byte-range request of CurlDownloader::downloadMissingParts
    (tdmsync_curl.cpp): one `first-last` item per remote segment of the
    plan, comma-separated, plus the count and size of what is to come and
    the choice between no request, a single range and a multi-range one. */
module Ranges {
  import opened Common
  import opened Segments

  // ---------------------------------------------------------------------
  // Decimal numbers, as printf's %lld writes them

  function DigitChar(d: nat): char
    requires d < 10
  {
    ['0', '1', '2', '3', '4', '5', '6', '7', '8', '9'][d]
  }

  predicate IsDigit(c: char)
  {
    '0' <= c <= '9'
  }

  function DigitValue(c: char): nat
    requires IsDigit(c)
  {
    (c as int - '0' as int) as nat
  }

  predicate AllDigits(s: string)
  {
    forall i :: 0 <= i < |s| ==> IsDigit(s[i])
  }

  /** The decimal digits of n, no leading zero ("0" for zero). */
  function DecimalNat(n: nat): (s: string)
    ensures |s| > 0
    ensures AllDigits(s)
  {
    if n < 10 then [DigitChar(n)] else DecimalNat(n / 10) + [DigitChar(n % 10)]
  }

  /** %lld: a minus sign before the digits of a negative number. */
  function Decimal(n: int): (s: string)
    ensures n >= 0 ==> s == DecimalNat(n)
  {
    if n < 0 then "-" + DecimalNat(-n) else DecimalNat(n)
  }

  /** The value of a string of decimal digits. */
  function ParseNat(s: string): nat
    requires AllDigits(s)
  {
    if |s| == 0 then 0 else 10 * ParseNat(s[..|s| - 1]) + DigitValue(s[|s| - 1])
  }

  lemma DigitRoundTrip(d: nat)
    requires d < 10
    ensures IsDigit(DigitChar(d)) && DigitValue(DigitChar(d)) == d
  {
  }

  lemma {:induction false} ParseDecimal(n: nat)
    ensures ParseNat(DecimalNat(n)) == n
  {
    DigitRoundTrip(n % 10);
    if n >= 10 {
      var s := DecimalNat(n);
      assert s[..|s| - 1] == DecimalNat(n / 10);
      ParseDecimal(n / 10);
    }
  }

  // ---------------------------------------------------------------------
  // Joining and splitting

  /** The items separated by `sep`: no separator before the first or after
      the last. */
  function Join(items: seq<string>, sep: char): string
  {
    if |items| == 0 then ""
    else if |items| == 1 then items[0]
    else items[0] + [sep] + Join(items[1..], sep)
  }

  /** The index of the first `c` in s, if any. */
  function IndexOf(s: string, c: char): (r: Option<nat>)
    ensures r.Some? ==> r.value < |s| && s[r.value] == c && c !in s[..r.value]
    ensures r.None? <==> c !in s
  {
    if |s| == 0 then None
    else if s[0] == c then Some(0)
    else
      var rest := IndexOf(s[1..], c);
      assert s == [s[0]] + s[1..];
      if rest.None? then None else Some(rest.value + 1)
  }

  /** IndexOf finds the first occurrence and no later one. */
  lemma IndexOfFirst(s: string, c: char, i: nat)
    requires i < |s| && s[i] == c && c !in s[..i]
    ensures IndexOf(s, c) == Some(i)
  {
    assert s[i] in s;
  }

  /** The pieces of s between occurrences of `sep`. */
  function Split(s: string, sep: char): (parts: seq<string>)
    ensures |parts| > 0
    decreases |s|
  {
    match IndexOf(s, sep)
    case None => [s]
    case Some(i) => [s[..i]] + Split(s[i + 1..], sep)
  }

  lemma {:induction false} SplitJoin(items: seq<string>, sep: char)
    requires |items| > 0
    requires forall k :: 0 <= k < |items| ==> sep !in items[k]
    ensures Split(Join(items, sep), sep) == items
  {
    if |items| > 1 {
      var x, rest := items[0], Join(items[1..], sep);
      var s := x + [sep] + rest;
      assert Join(items, sep) == s;
      assert s[..|x|] == x && s[|x|] == sep;
      IndexOfFirst(s, sep, |x|);
      assert s[|x| + 1..] == rest;
      assert Split(s, sep) == [x] + Split(rest, sep);
      SplitJoin(items[1..], sep);
      assert items == [x] + items[1..];
    } else {
      assert Join(items, sep) == items[0];
    }
  }

  // ---------------------------------------------------------------------
  // The Range header value

  /** The item for one remote segment: its first and last byte. */
  function RangeItem(seg: SegmentUse): string
  {
    Decimal(seg.dst) + "-" + Decimal(seg.dst + seg.size - 1)
  }

  /** The remote segments, in plan order. */
  function Remotes(segs: seq<SegmentUse>): (rs: seq<SegmentUse>)
    ensures |rs| <= |segs|
  {
    if |segs| == 0 then []
    else if segs[|segs| - 1].remote then Remotes(segs[..|segs| - 1]) + [segs[|segs| - 1]]
    else Remotes(segs[..|segs| - 1])
  }

  lemma {:induction false} RemotesAreRemote(segs: seq<SegmentUse>)
    ensures forall x :: x in Remotes(segs) ==> x in segs && x.remote
  {
    if |segs| > 0 {
      var init := segs[..|segs| - 1];
      RemotesAreRemote(init);
      assert forall x :: x in init ==> x in segs;
    }
  }

  /** The items of the remote segments, in plan order. */
  function RangeItems(segs: seq<SegmentUse>): (items: seq<string>)
  {
    var rs := Remotes(segs);
    seq(|rs|, k requires 0 <= k < |rs| => RangeItem(rs[k]))
  }

  function RemoteCount(segs: seq<SegmentUse>): nat
  {
    |Remotes(segs)|
  }

  /** The first and last byte of a segment. */
  function Interval(seg: SegmentUse): (int, int)
  {
    (seg.dst, seg.dst + seg.size - 1)
  }

  /** The byte interval of each remote segment, in plan order. */
  function RemoteIntervals(segs: seq<SegmentUse>): seq<(int, int)>
  {
    var rs := Remotes(segs);
    seq(|rs|, k requires 0 <= k < |rs| => Interval(rs[k]))
  }

  /** No item is empty: each holds at least the '-'. */
  lemma RangeItemsNonEmpty(segs: seq<SegmentUse>)
    ensures forall k :: 0 <= k < |RangeItems(segs)| ==> |RangeItems(segs)[k]| > 0
  {
  }

  lemma {:induction false} JoinAppend(items: seq<string>, x: string, sep: char)
    ensures Join(items + [x], sep) == if |items| == 0 then x else Join(items, sep) + [sep] + x
    decreases |items|
  {
    if |items| > 1 {
      assert (items + [x])[1..] == items[1..] + [x];
      JoinAppend(items[1..], x, sep);
    } else if |items| == 1 {
      assert (items + [x])[1..] == [x];
    }
  }

  /** How downloadMissingParts fetches the remote bytes. */
  datatype Mode = NoRequest | SingleRange | MultiRange

  datatype Request = Request(ranges: string, totalCount: int, totalSize: int, mode: Mode)

  /** The ranges loop of downloadMissingParts, its check that the sizes
      agree with the plan's remote total, and the dispatch on the count. */
  method PrepareRequest(plan: SyncPlan) returns (r: Result<Request>)
    ensures r.Ok? <==> RemoteBytes(plan.segments) == plan.bytesRemote
    ensures r.Ok? ==> r.value.ranges == Join(RangeItems(plan.segments), ',')
    ensures r.Ok? ==> r.value.totalCount == RemoteCount(plan.segments)
    ensures r.Ok? ==> r.value.totalSize == plan.bytesRemote
    ensures r.Ok? ==> r.value.mode == (if r.value.totalCount == 0 then NoRequest
                                       else if r.value.totalCount == 1 then SingleRange else MultiRange)
  {
    var segs := plan.segments;
    var ranges := "";
    var totalCount, totalSize := 0, 0;
    for i := 0 to |segs|
      invariant ranges == Join(RangeItems(segs[..i]), ',')
      invariant totalCount == RemoteCount(segs[..i])
      invariant totalSize == RemoteBytes(segs[..i])
    {
      PrefixStep(segs, i);
      if segs[i].remote {
        RangeItemsNonEmpty(segs[..i]);
        JoinSnoc(RangeItems(segs[..i]), RangeItem(segs[i]), ',');
        assert "," == [','];
        if ranges != "" {
          ranges := ranges + ",";
        }
        ranges := ranges + RangeItem(segs[i]);
        totalCount := totalCount + 1;
        totalSize := totalSize + segs[i].size;
      }
    }
    assert segs[..|segs|] == segs;
    assert ranges == Join(RangeItems(segs), ',');
    assert totalCount == RemoteCount(segs) && totalSize == RemoteBytes(segs);
    if totalSize != plan.bytesRemote {
      return Fail("totalSize == plan->bytesRemote");
    }
    var mode := if totalCount == 0 then NoRequest else if totalCount == 1 then SingleRange else MultiRange;
    r := Ok(Request(ranges, totalCount, totalSize, mode));
  }

  /** One more segment in the prefix adds its item, count and size when it
      is remote. */
  lemma PrefixStep(segs: seq<SegmentUse>, i: nat)
    requires i < |segs|
    ensures var pre, post, seg := segs[..i], segs[..i + 1], segs[i];
      && RangeItems(post) == (if seg.remote then RangeItems(pre) + [RangeItem(seg)] else RangeItems(pre))
      && RemoteCount(post) == RemoteCount(pre) + (if seg.remote then 1 else 0)
      && RemoteBytes(post) == RemoteBytes(pre) + (if seg.remote then seg.size else 0)
  {
    assert segs[..i + 1][..i] == segs[..i];
    if segs[i].remote {
      assert Remotes(segs[..i + 1]) == Remotes(segs[..i]) + [segs[i]];
      assert RangeItems(segs[..i + 1]) == RangeItems(segs[..i]) + [RangeItem(segs[i])];
    }
  }

  /** Appending an item the way the loop does: a comma first unless the
      string is still empty. */
  lemma JoinSnoc(items: seq<string>, x: string, sep: char)
    requires forall k :: 0 <= k < |items| ==> |items[k]| > 0
    ensures Join(items + [x], sep) == (if Join(items, sep) != "" then Join(items, sep) + [sep] else "") + x
  {
    JoinAppend(items, x, sep);
    if |items| > 0 {
      JoinNonEmpty(items, sep);
    } else {
      assert Join(items, sep) == "";
    }
  }

  lemma JoinNonEmpty(items: seq<string>, sep: char)
    requires |items| > 0 && |items[0]| > 0
    ensures |Join(items, sep)| > 0
  {
  }

  // ---------------------------------------------------------------------
  // Reading the header value back

  /** One `first-last` item. */
  function ParseItem(t: string): Option<(int, int)>
  {
    var parts := Split(t, '-');
    if |parts| == 2 && AllDigits(parts[0]) && AllDigits(parts[1])
    then Some((ParseNat(parts[0]), ParseNat(parts[1])))
    else None
  }

  function ParseItems(items: seq<string>): Option<seq<(int, int)>>
  {
    if |items| == 0 then Some([])
    else
      match (ParseItems(items[..|items| - 1]), ParseItem(items[|items| - 1]))
      case (Some(xs), Some(x)) => Some(xs + [x])
      case _ => None
  }

  /** A Range header value: its comma-separated items. */
  function ParseRanges(s: string): Option<seq<(int, int)>>
  {
    if s == "" then Some([]) else ParseItems(Split(s, ','))
  }

  lemma ItemRoundTrip(seg: SegmentUse)
    requires seg.dst >= 0 && seg.size >= 1
    ensures ParseItem(RangeItem(seg)) == Some(Interval(seg))
    ensures ',' !in RangeItem(seg)
  {
    var a, b := DecimalNat(seg.dst), DecimalNat(seg.dst + seg.size - 1);
    DigitsOnly(a);
    DigitsOnly(b);
    assert RangeItem(seg) == a + "-" + b;
    assert Join([a, b], '-') == a + "-" + b;
    SplitJoin([a, b], '-');
    ParseDecimal(seg.dst);
    ParseDecimal(seg.dst + seg.size - 1);
  }

  /** Digits are neither of the two separators. */
  lemma DigitsOnly(s: string)
    requires AllDigits(s)
    ensures '-' !in s && ',' !in s
  {
  }

  /** Items that each parse give the sequence of their intervals. */
  lemma {:induction false} ParseItemsAll(items: seq<string>, ivs: seq<(int, int)>)
    requires |items| == |ivs|
    requires forall k :: 0 <= k < |items| ==> ParseItem(items[k]) == Some(ivs[k])
    ensures ParseItems(items) == Some(ivs)
  {
    if |items| > 0 {
      var n := |items| - 1;
      ParseItemsAll(items[..n], ivs[..n]);
      assert ParseItem(items[n]) == Some(ivs[n]);
      assert ivs == ivs[..n] + [ivs[n]];
    }
  }

  /** Every item reads back as its segment's interval, and holds no comma. */
  lemma ItemsRoundTrip(segs: seq<SegmentUse>)
    requires forall k :: 0 <= k < |segs| && segs[k].remote ==> segs[k].dst >= 0 && segs[k].size >= 1
    ensures ParseItems(RangeItems(segs)) == Some(RemoteIntervals(segs))
    ensures forall k :: 0 <= k < |RangeItems(segs)| ==> ',' !in RangeItems(segs)[k]
  {
    var rs := Remotes(segs);
    RemotesAreRemote(segs);
    forall k | 0 <= k < |rs|
      ensures ParseItem(RangeItems(segs)[k]) == Some(RemoteIntervals(segs)[k])
      ensures ',' !in RangeItems(segs)[k]
    {
      assert rs[k] in rs;
      ItemRoundTrip(rs[k]);
    }
    ParseItemsAll(RangeItems(segs), RemoteIntervals(segs));
  }

  /** Parsing the Range header value gives back the first and last byte of
      every remote segment, in plan order. */
  lemma RangesRoundTrip(segs: seq<SegmentUse>)
    requires forall k :: 0 <= k < |segs| && segs[k].remote ==> segs[k].dst >= 0 && segs[k].size >= 1
    ensures ParseRanges(Join(RangeItems(segs), ',')) == Some(RemoteIntervals(segs))
  {
    var items := RangeItems(segs);
    RangeItemsNonEmpty(segs);
    ItemsRoundTrip(segs);
    if |items| == 0 {
      assert Join(items, ',') == "";
    } else {
      JoinNonEmpty(items, ',');
      SplitJoin(items, ',');
    }
  }
}
