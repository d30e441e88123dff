/** The write callbacks of CurlDownloader (tdmsync_curl.cpp): the header
    callback that records whether the server speaks HTTP, accepts byte
    ranges and which multipart boundary it uses; the single-range callback
    that appends body bytes to the output file up to the announced total;
    and the multi-range callback that collects the body in a 16 KiB buffer
    and cuts the parts out of it between boundary lines.

    curl itself, the output file and the memory behind the C pointers are
    not modelled: a callback receives the bytes curl hands it as a
    sequence, and the output file is the sequence of bytes written to it.
    A read outside the buffer, which C leaves undefined, is a `Fail`. */
module Download {
  import opened Common

  /** `BufferSize = 16 << 10` (tdmsync_curl.h). */
  const BUFFER_SIZE: int := 16384
  /** `TailSize` in processBuffer: bytes kept back while more data may come. */
  const TAIL_SIZE: int := 1024

  const NUL: char := 0 as char
  const CRLFCRLF: string := "\r\n\r\n"
  const HTTP_PREFIX: string := "HTTP"
  const ACCEPT_RANGES_PREFIX: string := "Accept-Ranges: " + "bytes"
  const MULTIPART_PREFIX: string := "Content-Type: " + "multipart/" + "byteranges; " + "boundary="

  /** The fields of CurlDownloader the callbacks read and write. `output` is
      what has been written to the download file; `buffer` is bufferData,
      BufferSize + 1 bytes so that a NUL can follow the data. */
  datatype Downloader = Downloader(
    header: string, isHttp: bool, acceptRanges: bool, boundary: string,
    totalSize: int, writtenSize: int, output: seq<char>,
    buffer: seq<char>, bufferAvail: int)

  // ---------------------------------------------------------------------
  // C integer conversions

  /** A signed value converted to size_t (or uint64_t). */
  function ToU64(x: int): nat { x % TWO64 }

  /** A value stored back into an int64_t. */
  function ToI64(x: int): int
  {
    var u := x % TWO64;
    if u < TWO63 then u else u - TWO64
  }

  // ---------------------------------------------------------------------
  // C strings

  /** `s.c_str()[i]`: a NUL past the last character. */
  function CharAt(s: string, i: nat): char
  {
    if i < |s| then s[i] else NUL
  }

  /** `strncmp(a.c_str() + i, b + i, n - i) == 0`. */
  function StrNEqual(a: string, b: string, i: nat, n: nat): bool
    decreases n - i
  {
    if i >= n then true
    else if CharAt(a, i) != CharAt(b, i) then false
    else if CharAt(a, i) == NUL then true
    else StrNEqual(a, b, i + 1, n)
  }

  /** startsWith: the position just past `prefix` when `line` starts with it. */
  function StartsWith(line: string, prefix: string): (r: Option<nat>)
    ensures r.Some? ==> r.value == |prefix|
  {
    if StrNEqual(line, prefix, 0, |prefix|) then Some(|prefix|) else None
  }

  /** a agrees with b from position i to the end of b. */
  predicate AgreeFrom(a: string, b: string, i: nat)
  {
    (i < |b| ==> |b| <= |a|) && forall k :: i <= k < |b| ==> a[k] == b[k]
  }

  lemma AgreeStep(a: string, b: string, i: nat)
    requires i < |b|
    ensures AgreeFrom(a, b, i) <==> (i < |a| && a[i] == b[i] && AgreeFrom(a, b, i + 1))
  {
  }

  lemma {:induction false} StrNEqualFrom(a: string, b: string, i: nat)
    requires NUL !in b && i <= |b|
    ensures StrNEqual(a, b, i, |b|) <==> AgreeFrom(a, b, i)
    decreases |b| - i
  {
    if i < |b| {
      assert b[i] in b;
      StrNEqualFrom(a, b, i + 1);
      AgreeStep(a, b, i);
    }
  }

  /** For a prefix without NUL, startsWith is the prefix test. */
  lemma StartsWithIsPrefix(line: string, prefix: string)
    requires NUL !in prefix
    ensures StartsWith(line, prefix).Some? <==> prefix <= line
  {
    StrNEqualFrom(line, prefix, 0);
    if prefix <= line {
      assert forall k :: 0 <= k < |prefix| ==> line[k] == line[..|prefix|][k];
    }
    if AgreeFrom(line, prefix, 0) {
      assert line[..|prefix|] == prefix;
    }
  }

  // ---------------------------------------------------------------------
  // headerWriteCallback

  lemma PrefixesHaveNoNul()
    ensures NUL !in HTTP_PREFIX && NUL !in ACCEPT_RANGES_PREFIX && NUL !in MULTIPART_PREFIX && NUL !in CRLFCRLF
  {
  }

  /** `added.substr(pos, added.size() - 2 - pos)`: the count is unsigned, so
      a line that ends less than two bytes after pos keeps all of its tail. */
  function BoundaryToken(added: string, pos: nat): string
    requires pos <= |added|
  {
    var count := ToU64(|added| - 2 - pos);
    if pos + count <= |added| then added[pos..pos + count] else added[pos..]
  }

  /** headerWriteCallback: append the header line, switch on the HTTP and
      byte-range flags, and take the multipart boundary from its line. The
      callback accepts every byte. */
  function HeaderWriteCallback(d: Downloader, added: string): (r: (Downloader, nat))
    requires |added| < TWO63
    ensures r.1 == |added|
    ensures r.0.header == d.header + added
    ensures r.0.isHttp == (d.isHttp || HTTP_PREFIX <= added)
    ensures r.0.acceptRanges == (d.acceptRanges || ACCEPT_RANGES_PREFIX <= added)
    ensures !(MULTIPART_PREFIX <= added) ==> r.0.boundary == d.boundary
    ensures MULTIPART_PREFIX <= added ==> "\r\n--" <= r.0.boundary
    ensures r.0.(header := d.header, isHttp := d.isHttp, acceptRanges := d.acceptRanges, boundary := d.boundary) == d
  {
    PrefixesHaveNoNul();
    StartsWithIsPrefix(added, HTTP_PREFIX);
    StartsWithIsPrefix(added, ACCEPT_RANGES_PREFIX);
    StartsWithIsPrefix(added, MULTIPART_PREFIX);
    var d1 := d.(header := d.header + added);
    var d2 := if StartsWith(added, HTTP_PREFIX).Some? then d1.(isHttp := true) else d1;
    var d3 := if StartsWith(added, ACCEPT_RANGES_PREFIX).Some? then d2.(acceptRanges := true) else d2;
    var d4 :=
      match StartsWith(added, MULTIPART_PREFIX)
      case Some(pos) => d3.(boundary := "\r\n--" + BoundaryToken(added, pos))
      case None => d3;
    (d4, |added|)
  }

  /** The boundary line a server sends gives back its token. */
  lemma HeaderBoundary(d: Downloader, token: string)
    requires |MULTIPART_PREFIX + token + "\r\n"| < TWO63
    ensures HeaderWriteCallback(d, MULTIPART_PREFIX + token + "\r\n").0.boundary == "\r\n--" + token
  {
    var added := MULTIPART_PREFIX + token + "\r\n";
    PrefixesHaveNoNul();
    StartsWithIsPrefix(added, MULTIPART_PREFIX);
    assert MULTIPART_PREFIX <= added;
    var pos := |MULTIPART_PREFIX|;
    assert ToU64(|added| - 2 - pos) == |token|;
    assert added[pos..pos + |token|] == token;
  }

  // ---------------------------------------------------------------------
  // singleWriteCallback

  /** What has been written agrees with writtenSize, which stays within the
      announced total. */
  predicate Written(d: Downloader)
  {
    0 <= d.writtenSize <= d.totalSize < TWO63 && |d.output| == d.writtenSize
  }

  /** singleWriteCallback with `size` 1 and `nmemb` as the size_t it
      receives: refuse everything before the headers said HTTP with byte
      ranges, refuse a chunk that would pass totalSize (compared as
      unsigned), otherwise append. `src` is the memory from `ptr` on. */
  function SingleWriteCallback(d: Downloader, src: seq<char>, nmemb: nat): (r: Result<(Downloader, nat)>)
    requires nmemb < TWO64
    ensures r.Ok? ==> OnlyWrote(d, r.value.0)
    ensures r.Ok? && r.value.1 == 0 ==> r.value.0.output == d.output
    ensures (!d.isHttp || !d.acceptRanges) ==> r == Ok((d, 0))
    ensures Written(d) && nmemb <= |src| && nmemb < TWO63 ==> r.Ok? && Written(r.value.0)
  {
    NoWrap(d.writtenSize, nmemb);
    NoWrap(d.totalSize, 0);
    if !d.isHttp || !d.acceptRanges then Ok((d, 0))
    else if (ToU64(d.writtenSize) + nmemb) % TWO64 > ToU64(d.totalSize) then Ok((d, 0))
    else if nmemb > |src| then Fail("write reads past the end of the data")
    else Ok((d.(output := d.output + src[..nmemb], writtenSize := ToI64(d.writtenSize + nmemb)), nmemb))
  }

  /** Sizes below 2^63 pass through the unsigned and signed conversions
      unchanged. */
  lemma NoWrap(w: int, n: nat)
    ensures 0 <= w < TWO63 && n < TWO63 ==> ToU64(w) == w && (ToU64(w) + n) % TWO64 == w + n
    ensures 0 <= w && w + n < TWO63 ==> ToI64(w + n) == w + n
  {
  }

  /** A chunk curl hands over is written whole exactly when the flags are on
      and it fits under totalSize; the written bytes never pass totalSize. */
  lemma SingleWriteKeepsBound(d: Downloader, src: seq<char>, nmemb: nat)
    requires Written(d) && nmemb <= |src| && nmemb < TWO63
    ensures var r := SingleWriteCallback(d, src, nmemb);
      && r.Ok? && Written(r.value.0)
      && (r.value.1 == nmemb && nmemb > 0 <==> d.isHttp && d.acceptRanges && 0 < nmemb && d.writtenSize + nmemb <= d.totalSize)
      && (r.value.0.output == if d.isHttp && d.acceptRanges && d.writtenSize + nmemb <= d.totalSize
                              then d.output + src[..nmemb] else d.output)
  {
    assert ToU64(d.writtenSize) == d.writtenSize && ToU64(d.totalSize) == d.totalSize;
    assert (d.writtenSize + nmemb) % TWO64 == d.writtenSize + nmemb;
  }

  // ---------------------------------------------------------------------
  // findBoundary and strstr

  /** findBoundary's test at i: the byte after "\r\n--" first, then the
      whole boundary. `boundary[4]` of a four-byte boundary is its NUL. */
  predicate Hit(buf: seq<char>, b: string, i: nat)
    requires i + |b| < |buf| && 4 <= |b|
  {
    buf[i + 4] == CharAt(b, 4) && buf[i..i + |b|] == b
  }

  /** memcmp of the boundary at i. */
  predicate Occurs(buf: seq<char>, b: string, i: nat)
    requires i + |b| <= |buf|
  {
    buf[i..i + |b|] == b
  }

  /** findBoundary(ptr, from, to): the first i in [from, to) that hits, or -1. */
  function FindBoundary(buf: seq<char>, b: string, lo: int, hi: int): (r: int)
    requires 0 <= lo && 4 <= |b| && hi + |b| <= |buf|
    ensures r == -1 || (lo <= r < hi && Occurs(buf, b, r))
    decreases hi - lo
  {
    if lo >= hi then -1
    else if Hit(buf, b, lo) then lo
    else FindBoundary(buf, b, lo + 1, hi)
  }

  /** With at least one byte of token, the pre-test on `boundary[4]` changes
      nothing: findBoundary finds the first occurrence, and -1 means none. */
  lemma {:induction false} FindBoundaryFirst(buf: seq<char>, b: string, lo: int, hi: int)
    requires 0 <= lo && 5 <= |b| && hi + |b| <= |buf|
    ensures FindBoundary(buf, b, lo, hi) == -1 <==> (forall i :: lo <= i < hi ==> !Occurs(buf, b, i))
    ensures (forall i :: lo <= i < FindBoundary(buf, b, lo, hi) ==> !Occurs(buf, b, i))
    decreases hi - lo
  {
    if lo < hi {
      if Occurs(buf, b, lo) {
        assert buf[lo + 4] == buf[lo..lo + |b|][4] == b[4];
      } else {
        FindBoundaryFirst(buf, b, lo + 1, hi);
      }
    }
  }

  /** With at least one byte of token, the first occurrence is what
      findBoundary returns. */
  lemma FindBoundaryFirstAt(buf: seq<char>, b: string, lo: int, hi: int, at: int)
    requires 0 <= lo <= at < hi && 5 <= |b| && hi + |b| <= |buf|
    requires Occurs(buf, b, at) && forall i :: lo <= i < at ==> !Occurs(buf, b, i)
    ensures FindBoundary(buf, b, lo, hi) == at
  {
    FindBoundaryFirst(buf, b, lo, hi);
  }

  /** A hit at `at` with none before it is what findBoundary returns. */
  lemma {:induction false} FindBoundaryAt(buf: seq<char>, b: string, lo: int, hi: int, at: int)
    requires 0 <= lo && 4 <= |b| && hi + |b| <= |buf|
    requires lo <= at < hi && Hit(buf, b, at)
    requires forall i :: lo <= i < at ==> !Hit(buf, b, i)
    ensures FindBoundary(buf, b, lo, hi) == at
    decreases at - lo
  {
    if lo < at {
      FindBoundaryAt(buf, b, lo + 1, hi, at);
    }
  }

  /** strstr(buf + pos, pat): the first occurrence of pat before the NUL
      that ends the C string at pos. */
  function StrStr(buf: seq<char>, pos: nat, pat: string): (r: Option<nat>)
    requires 0 < |pat| && NUL !in pat
    ensures r.Some? ==> pos <= r.value && r.value + |pat| <= |buf| && buf[r.value..r.value + |pat|] == pat
    ensures r.Some? ==> forall k :: pos <= k < r.value + |pat| ==> buf[k] != NUL
    decreases |buf| - pos
  {
    if pos >= |buf| || buf[pos] == NUL then None
    else if pos + |pat| <= |buf| && buf[pos..pos + |pat|] == pat then
      assert forall k :: pos <= k < pos + |pat| ==> buf[k] == pat[k - pos];
      Some(pos)
    else StrStr(buf, pos + 1, pat)
  }

  /** An occurrence at `at`, with no NUL and no occurrence before it, is
      what strstr returns. */
  lemma {:induction false} StrStrAt(buf: seq<char>, pos: nat, pat: string, at: nat)
    requires 0 < |pat| && NUL !in pat
    requires pos <= at && at + |pat| <= |buf| && buf[at..at + |pat|] == pat
    requires forall k :: pos <= k < at ==> buf[k] != NUL && buf[k..k + |pat|] != pat
    ensures StrStr(buf, pos, pat) == Some(at)
    decreases at - pos
  {
    if pos < at {
      StrStrAt(buf, pos + 1, pat, at);
    } else {
      assert buf[at] == pat[0] && pat[0] in pat;
    }
  }

  // ---------------------------------------------------------------------
  // processBuffer

  /** The buffer invariant of the multi-range download: BufferSize + 1
      bytes, at most BufferSize of them data, and a boundary of "\r\n--"
      plus a token short enough for the reads near the end of the data to
      stay inside the buffer. */
  predicate Shaped(d: Downloader)
  {
    |d.buffer| == BUFFER_SIZE + 1 && 0 <= d.bufferAvail <= BUFFER_SIZE && 4 <= |d.boundary| <= TAIL_SIZE
  }

  /** Everything but the output and its size is as before. */
  predicate OnlyWrote(d: Downloader, d': Downloader)
  {
    && d'.header == d.header && d'.isHttp == d.isHttp && d'.acceptRanges == d.acceptRanges
    && d'.boundary == d.boundary && d'.totalSize == d.totalSize
    && d'.buffer == d.buffer && d'.bufferAvail == d.bufferAvail
    && d.output <= d'.output
  }

  /** `singleWriteCallback(bufferData + pos, 1, until - pos)`. */
  function WriteSpan(d: Downloader, pos: nat, until: int): (r: Result<Downloader>)
    requires pos <= |d.buffer|
    ensures r.Ok? ==> OnlyWrote(d, r.value)
    ensures pos <= until <= |d.buffer| < TWO63 ==> r.Ok?
    ensures pos <= until <= |d.buffer| < TWO63 && Written(d) ==> Written(r.value)
  {
    var w := SingleWriteCallback(d, d.buffer[pos..], ToU64(until - pos));
    if w.Fail? then Fail(w.reason) else Ok(w.value.0)
  }

  /** `end` in processBuffer: data up to there may be written, the rest
      might hold the start of a boundary still arriving. */
  function End(d: Downloader, flush: bool): int
  {
    if flush then d.bufferAvail - |d.boundary| else d.bufferAvail - TAIL_SIZE
  }

  /** The loop of processBuffer from `pos` on: write the data up to the next
      boundary (or up to `end`) and go on after the boundary. The result is
      the state, the position the loop stopped at and whether processBuffer
      goes on to succeed.

      `guarded` selects the write of the corrected processBuffer, which
      never moves back before `pos`; without it this is the code as written,
      where `until - pos` goes negative when a part header ends past `end`. */
  function ScanParts(d: Downloader, flush: bool, pos: nat, guarded: bool): (r: Result<(Downloader, int, bool)>)
    requires Shaped(d) && d.buffer[d.bufferAvail] == NUL && pos <= d.bufferAvail
    ensures r.Ok? ==> OnlyWrote(d, r.value.0) && r.value.1 <= d.bufferAvail
    ensures guarded ==> r.Ok? && pos <= r.value.1
    ensures guarded && Written(d) ==> Written(r.value.0)
    ensures guarded && !flush && r.value.2 ==> r.value.1 >= End(d, false)
    decreases |d.buffer| - pos, 1
  {
    var end := End(d, flush);
    var delim := FindBoundary(d.buffer, d.boundary, pos, end);
    var until := if delim == -1 then (if guarded && end < pos then pos else end) else delim;
    var w := WriteSpan(d, pos, until);
    if w.Fail? then Fail(w.reason)
    else if delim == -1 then Ok((w.value, until, true))
    else AfterBoundary(w.value, flush, until + |d.boundary|, guarded)
  }

  /** The loop after a boundary that ends at `p`: stop at "--" (an error
      unless flushing), otherwise skip the part header up to its blank line
      and scan on; a header with no blank line yet stops with a failure. */
  function AfterBoundary(d: Downloader, flush: bool, p: nat, guarded: bool): (r: Result<(Downloader, int, bool)>)
    requires Shaped(d) && d.buffer[d.bufferAvail] == NUL && p < d.bufferAvail
    ensures r.Ok? ==> OnlyWrote(d, r.value.0) && r.value.1 <= d.bufferAvail
    ensures guarded ==> r.Ok? && p <= r.value.1
    ensures guarded && Written(d) ==> Written(r.value.0)
    ensures guarded && !flush && r.value.2 ==> r.value.1 >= End(d, false)
    decreases |d.buffer| - p, 0
  {
    if d.buffer[p] == '-' && d.buffer[p + 1] == '-' then Ok((d, p, flush))
    else
      match StrStr(d.buffer, p, CRLFCRLF)
      case None => Ok((d, p, false))
      case Some(q) =>
        assert d.buffer[d.bufferAvail] == NUL;
        ScanParts(d, flush, q + 4, guarded)
  }

  /** `bufferData[bufferAvail] = 0`. */
  function Terminated(d: Downloader): (buf: seq<char>)
    requires Shaped(d)
    ensures |buf| == |d.buffer| && buf[d.bufferAvail] == NUL
  {
    d.buffer[d.bufferAvail := NUL]
  }

  /** processBuffer with the given write: terminate the data with a NUL, run
      the loop, and on success move the unconsumed bytes to the front. */
  function ProcessBufferWith(d: Downloader, flush: bool, guarded: bool): (r: Result<(Downloader, bool)>)
    requires Shaped(d)
    ensures guarded ==> r.Ok?
    ensures r.Ok? ==> d.output <= r.value.0.output && Shaped(r.value.0)
    ensures r.Ok? && !r.value.1 ==> r.value.0.bufferAvail == d.bufferAvail
    ensures r.Ok? && r.value.1 ==> r.value.0.bufferAvail <= d.bufferAvail
  {
    var d0 := d.(buffer := Terminated(d));
    match ScanParts(d0, flush, 0, guarded)
    case Fail(e) => Fail(e)
    case Ok((d1, pos, ok)) =>
      if !ok then Ok((d1, false))
      else if pos < 0 then Fail("memmove reads before the buffer")
      else Ok((Consume(d1, pos), true))
  }

  /** `memmove(bufferData, bufferData + pos, bufferAvail - pos)` and
      `bufferAvail -= pos`: the bytes after pos move to the front. */
  function Consume(d: Downloader, pos: nat): (d': Downloader)
    requires Shaped(d) && pos <= d.bufferAvail
    ensures Shaped(d') && d'.bufferAvail == d.bufferAvail - pos
    ensures d'.(buffer := d.buffer, bufferAvail := d.bufferAvail) == d
  {
    var moved := d.buffer[pos..d.bufferAvail] + d.buffer[d.bufferAvail - pos..];
    d.(buffer := moved, bufferAvail := d.bufferAvail - pos)
  }

  /** The bytes Consume keeps are the ones after pos, in order. */
  lemma ConsumeMoves(d: Downloader, pos: nat)
    requires Shaped(d) && pos <= d.bufferAvail
    ensures Consume(d, pos).buffer[..d.bufferAvail - pos] == d.buffer[pos..d.bufferAvail]
  {
  }

  /** With no boundary before `end`, processBuffer writes the data up to
      `end` and consumes it. */
  lemma ProcessBufferStop(d: Downloader, flush: bool, guarded: bool)
    requires Shaped(d) && 0 <= End(d, flush)
    requires FindBoundary(Terminated(d), d.boundary, 0, End(d, flush)) == -1
    ensures WriteSpan(d.(buffer := Terminated(d)), 0, End(d, flush)).Ok?
    ensures ProcessBufferWith(d, flush, guarded)
         == Ok((Consume(WriteSpan(d.(buffer := Terminated(d)), 0, End(d, flush)).value, End(d, flush)), true))
  {
    ScanPartsStop(d.(buffer := Terminated(d)), flush, 0, guarded);
  }

  /** A boundary that is not the last one and whose part header has no
      blank line stops the loop with a failure. */
  lemma ScanPartsNoHeader(d: Downloader, flush: bool, pos: nat, guarded: bool, at: nat)
    requires Shaped(d) && d.buffer[d.bufferAvail] == NUL && pos <= d.bufferAvail
    requires FindBoundary(d.buffer, d.boundary, pos, End(d, flush)) == at
    requires !(d.buffer[at + |d.boundary|] == '-' && d.buffer[at + |d.boundary| + 1] == '-')
    requires StrStr(d.buffer, at + |d.boundary|, CRLFCRLF) == None
    ensures ScanParts(d, flush, pos, guarded).Ok? && !ScanParts(d, flush, pos, guarded).value.2
  {
    ScanPartsBoundary(d, flush, pos, guarded, at);
  }

  /** A boundary found at `at`: the data before it is written and the loop
      goes on after it. */
  lemma ScanPartsBoundary(d: Downloader, flush: bool, pos: nat, guarded: bool, at: nat)
    requires Shaped(d) && d.buffer[d.bufferAvail] == NUL && pos <= d.bufferAvail
    requires FindBoundary(d.buffer, d.boundary, pos, End(d, flush)) == at
    ensures WriteSpan(d, pos, at).Ok? && at + |d.boundary| < d.bufferAvail
    ensures ScanParts(d, flush, pos, guarded)
         == AfterBoundary(WriteSpan(d, pos, at).value, flush, at + |d.boundary|, guarded)
  {
    var end := End(d, flush);
    assert pos <= at < end <= d.bufferAvail - |d.boundary|;
    var w := WriteSpan(d, pos, at);
    assert w.Ok? && w.value.buffer == d.buffer && w.value.bufferAvail == d.bufferAvail;
    assert at + |d.boundary| < w.value.bufferAvail;
    assert ScanParts(d, flush, pos, guarded) == AfterBoundary(w.value, flush, at + |d.boundary|, guarded);
  }

  /** A loop that ends in failure makes processBuffer fail. */
  lemma ProcessBufferFalse(d: Downloader, flush: bool, guarded: bool)
    requires Shaped(d)
    requires ScanParts(d.(buffer := Terminated(d)), flush, 0, guarded).Ok?
    requires !ScanParts(d.(buffer := Terminated(d)), flush, 0, guarded).value.2
    ensures ProcessBufferWith(d, flush, guarded).Ok? && !ProcessBufferWith(d, flush, guarded).value.1
  {
  }

  /** The loop stops at `end` when there is no boundary before it. */
  lemma ScanPartsStop(d: Downloader, flush: bool, pos: nat, guarded: bool)
    requires Shaped(d) && d.buffer[d.bufferAvail] == NUL && pos <= d.bufferAvail
    requires pos <= End(d, flush) && FindBoundary(d.buffer, d.boundary, pos, End(d, flush)) == -1
    ensures WriteSpan(d, pos, End(d, flush)).Ok?
    ensures ScanParts(d, flush, pos, guarded) == Ok((WriteSpan(d, pos, End(d, flush)).value, End(d, flush), true))
  {
  }

  /** processBuffer as tdmsync_curl.cpp writes it. */
  function ProcessBufferAsWritten(d: Downloader, flush: bool): (r: Result<(Downloader, bool)>)
    requires Shaped(d)
    ensures r.Ok? ==> d.output <= r.value.0.output
  {
    ProcessBufferWith(d, flush, false)
  }

  /** processBuffer with the write of a negative count removed. */
  function ProcessBuffer(d: Downloader, flush: bool): (r: Result<(Downloader, bool)>)
    requires Shaped(d)
    ensures r.Ok? && Shaped(r.value.0)
    ensures Written(d) ==> Written(r.value.0)
    ensures d.output <= r.value.0.output
    ensures !r.value.1 ==> r.value.0.bufferAvail == d.bufferAvail
    ensures !flush && r.value.1 ==> r.value.0.bufferAvail <= TAIL_SIZE
    ensures r.value.1 ==> r.value.0.bufferAvail <= d.bufferAvail
  {
    ProcessBufferWith(d, flush, true)
  }

  /** Writing the NUL after the data changes nothing before it. */
  lemma TerminatedAgrees(d: Downloader, lo: nat, hi: nat)
    requires Shaped(d) && lo <= hi <= d.bufferAvail
    ensures Terminated(d)[lo..hi] == d.buffer[lo..hi]
  {
  }

  /** Occurrences of the boundary that end before the data does are the
      same once the NUL is written. */
  lemma TerminatedOccurs(d: Downloader, hi: int)
    requires Shaped(d) && hi + |d.boundary| <= d.bufferAvail
    ensures forall i :: 0 <= i < hi ==> Occurs(Terminated(d), d.boundary, i) == Occurs(d.buffer, d.boundary, i)
  {
    forall i | 0 <= i < hi
      ensures Occurs(Terminated(d), d.boundary, i) == Occurs(d.buffer, d.boundary, i)
    {
      TerminatedAgrees(d, i, i + |d.boundary|);
    }
  }

  /** A buffer with no boundary before `end` is plain part data: it goes to
      the output file up to `end` and the rest moves to the front. */
  lemma ProcessBufferPlainData(d: Downloader, flush: bool)
    requires Shaped(d) && Written(d) && 5 <= |d.boundary|
    requires d.isHttp && d.acceptRanges
    requires 0 <= End(d, flush) && d.writtenSize + End(d, flush) <= d.totalSize
    requires forall i :: 0 <= i < End(d, flush) ==> !Occurs(d.buffer, d.boundary, i)
    ensures ProcessBuffer(d, flush).value.1
    ensures ProcessBuffer(d, flush).value.0.output == d.output + d.buffer[..End(d, flush)]
    ensures ProcessBuffer(d, flush).value.0.bufferAvail == d.bufferAvail - End(d, flush)
    ensures ProcessBuffer(d, flush).value.0.buffer[..d.bufferAvail - End(d, flush)] == d.buffer[End(d, flush)..d.bufferAvail]
  {
    var end, b := End(d, flush), d.boundary;
    TerminatedOccurs(d, end);
    FindBoundaryFirst(Terminated(d), b, 0, end);
    ProcessBufferStop(d, flush, true);
    var d0 := d.(buffer := Terminated(d));
    WriteSpanAppends(d0, 0, end);
    TerminatedAgrees(d, 0, end);
    TerminatedAgrees(d, end, d.bufferAvail);
    ConsumeMoves(WriteSpan(d0, 0, end).value, end);
    assert ProcessBuffer(d, flush) == ProcessBufferWith(d, flush, true);
  }

  /** A span that fits under totalSize is appended to the output whole. */
  lemma WriteSpanAppends(d: Downloader, pos: nat, until: nat)
    requires Written(d) && d.isHttp && d.acceptRanges
    requires pos <= until <= |d.buffer| < TWO63 && d.writtenSize + (until - pos) <= d.totalSize
    ensures WriteSpan(d, pos, until)
         == Ok(d.(output := d.output + d.buffer[pos..until], writtenSize := d.writtenSize + (until - pos)))
  {
    NoWrap(d.writtenSize, until - pos);
    NoWrap(d.totalSize, 0);
    assert d.buffer[pos..][..until - pos] == d.buffer[pos..until];
  }

  /** Not flushing, a boundary followed by "--" is an end of message that
      came too early: processBuffer fails, as written and corrected. */
  lemma ProcessBufferPrematureEnd(d: Downloader, at: nat)
    requires Shaped(d) && 5 <= |d.boundary|
    requires at < End(d, false) && Occurs(d.buffer, d.boundary, at)
    requires forall i :: 0 <= i < at ==> !Occurs(d.buffer, d.boundary, i)
    requires at + |d.boundary| + 1 < d.bufferAvail
    requires d.buffer[at + |d.boundary|] == '-' && d.buffer[at + |d.boundary| + 1] == '-'
    ensures ProcessBuffer(d, false) == Ok((ProcessBuffer(d, false).value.0, false))
    ensures ProcessBufferAsWritten(d, false).Ok? && !ProcessBufferAsWritten(d, false).value.1
  {
    var b := d.boundary;
    var d0 := d.(buffer := Terminated(d));
    TerminatedOccurs(d, at + 1);
    FindBoundaryFirstAt(d0.buffer, b, 0, End(d, false), at);
    ScanPartsBoundary(d0, false, 0, true, at);
    ScanPartsBoundary(d0, false, 0, false, at);
    ProcessBufferFalse(d, false, true);
    ProcessBufferFalse(d, false, false);
    assert ProcessBuffer(d, false) == ProcessBufferWith(d, false, true);
    assert ProcessBufferAsWritten(d, false) == ProcessBufferWith(d, false, false);
  }

  /** strstr finds nothing when no occurrence ends before the NUL at `stop`. */
  lemma {:induction false} StrStrNone(buf: seq<char>, pos: nat, pat: string, stop: nat)
    requires 0 < |pat| && NUL !in pat
    requires pos <= stop < |buf| && buf[stop] == NUL
    requires forall k :: pos <= k && k + |pat| <= stop ==> !Occurs(buf, pat, k)
    ensures StrStr(buf, pos, pat) == None
    decreases stop - pos
  {
    if pos < stop && buf[pos] != NUL {
      assert !(pos + |pat| <= |buf| && buf[pos..pos + |pat|] == pat) by {
        if pos + |pat| <= stop {
          assert !Occurs(buf, pat, pos);
        } else if pos + |pat| <= |buf| {
          assert buf[pos..pos + |pat|][stop - pos] == buf[stop];
          assert pat[stop - pos] in pat;
        }
      }
      StrStrNone(buf, pos + 1, pat, stop);
    }
  }

  /** A part header with no blank line before the end of the data makes
      processBuffer fail, as written and corrected. */
  lemma ProcessBufferHeaderMissing(d: Downloader, flush: bool, at: nat)
    requires Shaped(d) && 5 <= |d.boundary|
    requires at < End(d, flush) && Occurs(d.buffer, d.boundary, at)
    requires forall i :: 0 <= i < at ==> !Occurs(d.buffer, d.boundary, i)
    requires at + |d.boundary| + 1 < d.bufferAvail
    requires !(d.buffer[at + |d.boundary|] == '-' && d.buffer[at + |d.boundary| + 1] == '-')
    requires forall k :: at + |d.boundary| <= k && k + 4 <= d.bufferAvail ==> !Occurs(d.buffer, CRLFCRLF, k)
    ensures ProcessBuffer(d, flush).Ok? && !ProcessBuffer(d, flush).value.1
    ensures ProcessBufferAsWritten(d, flush).Ok? && !ProcessBufferAsWritten(d, flush).value.1
  {
    var d0 := d.(buffer := Terminated(d));
    TerminatedHeaderMissing(d, flush, at);
    ScanPartsNoHeader(d0, flush, 0, true, at);
    ScanPartsNoHeader(d0, flush, 0, false, at);
    ProcessBufferFalse(d, flush, true);
    ProcessBufferFalse(d, flush, false);
    assert ProcessBuffer(d, flush) == ProcessBufferWith(d, flush, true);
    assert ProcessBufferAsWritten(d, flush) == ProcessBufferWith(d, flush, false);
  }

  /** The facts of ProcessBufferHeaderMissing, once the NUL is written
      after the data. */
  lemma TerminatedHeaderMissing(d: Downloader, flush: bool, at: nat)
    requires Shaped(d) && 5 <= |d.boundary|
    requires at < End(d, flush) && Occurs(d.buffer, d.boundary, at)
    requires forall i :: 0 <= i < at ==> !Occurs(d.buffer, d.boundary, i)
    requires at + |d.boundary| + 1 < d.bufferAvail
    requires !(d.buffer[at + |d.boundary|] == '-' && d.buffer[at + |d.boundary| + 1] == '-')
    requires forall k :: at + |d.boundary| <= k && k + 4 <= d.bufferAvail ==> !Occurs(d.buffer, CRLFCRLF, k)
    ensures var buf, p := Terminated(d), at + |d.boundary|;
      && FindBoundary(buf, d.boundary, 0, End(d, flush)) == at
      && !(buf[p] == '-' && buf[p + 1] == '-')
      && StrStr(buf, p, CRLFCRLF) == None
  {
    var b, p := d.boundary, at + |d.boundary|;
    var buf := Terminated(d);
    TerminatedOccurs(d, at + 1);
    FindBoundaryFirstAt(buf, b, 0, End(d, flush), at);
    forall k | p <= k && k + 4 <= d.bufferAvail
      ensures !Occurs(buf, CRLFCRLF, k)
    {
      TerminatedAgrees(d, k, k + 4);
      assert !Occurs(d.buffer, CRLFCRLF, k);
    }
    PrefixesHaveNoNul();
    StrStrNone(buf, p, CRLFCRLF, d.bufferAvail);
    assert buf[p] == d.buffer[p] && buf[p + 1] == d.buffer[p + 1];
  }

  // ---------------------------------------------------------------------
  // A part header that ends past `end`

  /** One loop pass over a boundary that is not the last one: write up to
      it, skip it and its part header, and go on after the blank line. */
  lemma ScanPartsHeader(d: Downloader, flush: bool, pos: nat, guarded: bool, at: nat, q: nat)
    requires Shaped(d) && d.buffer[d.bufferAvail] == NUL && pos <= d.bufferAvail
    requires FindBoundary(d.buffer, d.boundary, pos, End(d, flush)) == at
    requires !(d.buffer[at + |d.boundary|] == '-' && d.buffer[at + |d.boundary| + 1] == '-')
    requires StrStr(d.buffer, at + |d.boundary|, CRLFCRLF) == Some(q)
    ensures WriteSpan(d, pos, at).Ok? && q + 4 <= d.bufferAvail
    ensures ScanParts(d, flush, pos, guarded) == ScanParts(WriteSpan(d, pos, at).value, flush, q + 4, guarded)
  {
    ScanPartsBoundary(d, flush, pos, guarded, at);
    var d' := WriteSpan(d, pos, at).value;
    HeaderInData(d, at + |d.boundary|, q);
    assert d'.buffer == d.buffer && d'.bufferAvail == d.bufferAvail;
    AfterBoundaryHeader(d', flush, at + |d.boundary|, guarded, q);
  }

  /** After a boundary that is not the last, the loop goes on after the
      blank line that ends the part header. */
  lemma AfterBoundaryHeader(d: Downloader, flush: bool, p: nat, guarded: bool, q: nat)
    requires Shaped(d) && d.buffer[d.bufferAvail] == NUL && p < d.bufferAvail
    requires !(d.buffer[p] == '-' && d.buffer[p + 1] == '-')
    requires StrStr(d.buffer, p, CRLFCRLF) == Some(q)
    requires q + 4 <= d.bufferAvail
    ensures AfterBoundary(d, flush, p, guarded) == ScanParts(d, flush, q + 4, guarded)
  {
  }

  /** The blank line after a part header lies before the NUL that ends the
      data. */
  lemma HeaderInData(d: Downloader, p: nat, q: nat)
    requires Shaped(d) && d.buffer[d.bufferAvail] == NUL && p < d.bufferAvail
    requires StrStr(d.buffer, p, CRLFCRLF) == Some(q)
    ensures q + 4 <= d.bufferAvail
  {
    PrefixesHaveNoNul();
  }

  /** A pass that starts past `end` finds no boundary. As written it asks
      for a write of `end - pos` bytes, a negative count; corrected it writes
      nothing and stops where it is. */
  lemma ScanPartsPastEnd(d: Downloader, flush: bool, pos: nat)
    requires Shaped(d) && d.buffer[d.bufferAvail] == NUL && End(d, flush) < pos <= d.bufferAvail
    ensures WriteSpan(d, pos, pos).Ok?
    ensures ScanParts(d, flush, pos, true) == Ok((WriteSpan(d, pos, pos).value, pos, true))
    ensures WriteSpan(d, pos, End(d, flush)).Fail? ==> ScanParts(d, flush, pos, false).Fail?
  {
  }

  // ---------------------------------------------------------------------
  // multiWriteCallback

  /** `memcpy(bufferData + bufferAvail, ptr, added)` and
      `bufferAvail += added`. */
  function Append(d: Downloader, bytes: seq<char>): (d': Downloader)
    requires Shaped(d) && d.bufferAvail + |bytes| <= BUFFER_SIZE
    ensures Shaped(d') && d'.bufferAvail == d.bufferAvail + |bytes|
    ensures d'.buffer[..d'.bufferAvail] == d.buffer[..d.bufferAvail] + bytes
    ensures OnlyWroteBuffer(d, d')
  {
    var buf := d.buffer[..d.bufferAvail] + bytes + d.buffer[d.bufferAvail + |bytes|..];
    assert buf[..d.bufferAvail + |bytes|] == d.buffer[..d.bufferAvail] + bytes;
    d.(buffer := buf, bufferAvail := d.bufferAvail + |bytes|)
  }

  /** Only the buffer and its fill level differ. */
  predicate OnlyWroteBuffer(d: Downloader, d': Downloader)
  {
    d'.(buffer := d.buffer, bufferAvail := d.bufferAvail) == d
  }

  /** multiWriteCallback with `size` 1: refuse everything before the headers
      gave HTTP, byte ranges and a boundary; otherwise copy the chunk into
      the buffer, running processBuffer (the corrected one) each time the
      buffer fills, and refuse the rest of the chunk when processBuffer
      reports a failure. */
  method MultiWriteCallback(d: Downloader, chunk: seq<char>) returns (d': Downloader, n: nat)
    requires d.isHttp && d.acceptRanges && |d.boundary| > 0 ==> Shaped(d) && d.bufferAvail < BUFFER_SIZE
    requires |chunk| < TWO31
    ensures !d.isHttp || !d.acceptRanges || |d.boundary| == 0 ==> d' == d && n == 0
    ensures n == 0 || n == |chunk|
    ensures d.output <= d'.output
    ensures Written(d) ==> Written(d')
    ensures d'.boundary == d.boundary && d'.totalSize == d.totalSize
    ensures n == |chunk| && d.isHttp && d.acceptRanges && |d.boundary| > 0 ==> Shaped(d') && d'.bufferAvail < BUFFER_SIZE
    ensures n == 0 && 0 < |chunk| && |d.boundary| > 0 && d.isHttp && d.acceptRanges ==>
      Shaped(d') && d'.bufferAvail == BUFFER_SIZE
    ensures d.isHttp && d.acceptRanges && |d.boundary| > 0 && d.bufferAvail + |chunk| < BUFFER_SIZE ==>
      && n == |chunk| && d'.output == d.output && OnlyWroteBuffer(d, d')
      && d'.buffer[..d'.bufferAvail] == d.buffer[..d.bufferAvail] + chunk
  {
    if !d.isHttp || !d.acceptRanges || |d.boundary| == 0 {
      return d, 0;
    }
    d' := d;
    var rest := chunk;
    while |rest| > 0
      invariant Shaped(d') && d'.bufferAvail < BUFFER_SIZE
      invariant d.output <= d'.output
      invariant Written(d) ==> Written(d')
      invariant d'.boundary == d.boundary && d'.totalSize == d.totalSize
      invariant d'.isHttp && d'.acceptRanges
      invariant d.bufferAvail + |chunk| < BUFFER_SIZE ==>
        && d'.output == d.output && OnlyWroteBuffer(d, d')
        && d'.buffer[..d'.bufferAvail] + rest == d.buffer[..d.bufferAvail] + chunk
    {
      var added := if BUFFER_SIZE - d'.bufferAvail <= |rest| then BUFFER_SIZE - d'.bufferAvail else |rest|;
      d' := Append(d', rest[..added]);
      assert rest == rest[..added] + rest[added..];
      rest := rest[added..];
      if d'.bufferAvail == BUFFER_SIZE {
        var p := ProcessBuffer(d', false);
        if !p.value.1 {
          return p.value.0, 0;
        }
        d' := p.value.0;
      }
    }
    n := |chunk|;
  }

  /** The boundary of the example: "\r\n--" and the token "XY". */
  const EXAMPLE_BOUNDARY: string := "\r\n--XY"

  /** A full buffer whose only boundary starts 10 bytes before `end`
      (15360) and whose part header ("hhhhhhhhhhhhhh\r\n\r\n") ends 14 bytes
      after it. */
  function StraddlingBuffer(): (buf: seq<char>)
    ensures |buf| == BUFFER_SIZE + 1
  {
    seq(BUFFER_SIZE + 1, i requires 0 <= i =>
      if 15350 <= i < 15356 then EXAMPLE_BOUNDARY[i - 15350]
      else if 15356 <= i < 15370 then 'h'
      else if 15370 <= i < 15374 then (if i % 2 == 0 then '\r' else '\n')
      else 'a')
  }

  /** The downloader in the middle of a multi-range download, nothing
      written yet, the buffer full. */
  function StraddlingDownloader(): (d: Downloader)
    ensures Shaped(d) && Written(d)
  {
    Downloader("", true, true, EXAMPLE_BOUNDARY, 1000000, 0, [], StraddlingBuffer(), BUFFER_SIZE)
  }

  /** The first pass of the example: the boundary at 15350 is the first,
      and the part header after it ends at 15374, past `end`. */
  lemma StraddlingFirstPass(guarded: bool)
    ensures var d := StraddlingDownloader();
      var d0 := d.(buffer := Terminated(d));
      && WriteSpan(d0, 0, 15350).Ok?
      && ScanParts(d0, false, 0, guarded) == ScanParts(WriteSpan(d0, 0, 15350).value, false, 15374, guarded)
  {
    var d := StraddlingDownloader();
    var d0 := d.(buffer := Terminated(d));
    StraddlingBoundary();
    StraddlingHeader();
    ScanPartsHeader(d0, false, 0, guarded, 15350, 15370);
  }

  /** The first boundary in the example starts at 15350. */
  lemma StraddlingBoundary()
    ensures FindBoundary(Terminated(StraddlingDownloader()), EXAMPLE_BOUNDARY, 0, 15360) == 15350
  {
    var buf, b := Terminated(StraddlingDownloader()), EXAMPLE_BOUNDARY;
    forall i | 0 <= i < 15350
      ensures !Hit(buf, b, i)
    {
      assert buf[i..i + |b|][0] == buf[i] == 'a';
    }
    assert buf[15350..15356] == b;
    FindBoundaryAt(buf, b, 0, 15360, 15350);
  }

  /** The part header after it starts with 'h', not "--", and ends with
      the blank line at 15370. */
  lemma StraddlingHeader()
    ensures var buf := Terminated(StraddlingDownloader());
      && buf[15356] == 'h'
      && StrStr(buf, 15356, CRLFCRLF) == Some(15370)
  {
    var buf := Terminated(StraddlingDownloader());
    forall k | 15356 <= k < 15370
      ensures buf[k] != NUL && buf[k..k + |CRLFCRLF|] != CRLFCRLF
    {
      assert buf[k..k + |CRLFCRLF|][0] == buf[k] == 'h';
    }
    assert buf[15370..15374] == CRLFCRLF;
    PrefixesHaveNoNul();
    StrStrAt(buf, 15356, CRLFCRLF, 15370);
  }

  /** A write of `until - pos` bytes with until < pos, as written: the count
      becomes the size_t 2^64 - k for k = pos - until, the unsigned check
      `writtenSize + bytes > totalSize` wraps around to writtenSize - k and
      lets it through once k bytes have been written, and the copy reads
      past the end of the data. */
  lemma WriteSpanNegative(d: Downloader, pos: nat, until: int)
    requires Written(d) && d.isHttp && d.acceptRanges
    requires until < pos <= |d.buffer| < TWO63
    requires pos - until <= d.writtenSize
    ensures WriteSpan(d, pos, until).Fail?
  {
    var k := pos - until;
    assert ToU64(until - pos) == TWO64 - k;
    assert (ToU64(d.writtenSize) + (TWO64 - k)) % TWO64 == d.writtenSize - k;
  }

  /** The first write of the example appends the 15350 bytes before the
      boundary. */
  lemma StraddlingWrite()
    ensures var d := StraddlingDownloader();
      var d0 := d.(buffer := Terminated(d));
      WriteSpan(d0, 0, 15350) == Ok(d0.(output := StraddlingBuffer()[..15350], writtenSize := 15350))
  {
    var d := StraddlingDownloader();
    var d0 := d.(buffer := Terminated(d));
    WriteSpanAppends(d0, 0, 15350);
    TerminatedAgrees(d, 0, 15350);
    assert d.buffer[0..15350] == StraddlingBuffer()[..15350];
    assert d0.output + d0.buffer[0..15350] == StraddlingBuffer()[..15350];
  }

  /** processBuffer as written, on a full buffer whose part header ends past
      `end`: the second pass asks singleWriteCallback for end - pos = -14
      bytes, which WriteSpanNegative shows is let through and reads past the
      data. The corrected processBuffer writes the 15350 bytes before the
      boundary and keeps the 1010 bytes after the part header. */
  lemma ProcessBufferNegativeWrite()
    ensures ProcessBufferAsWritten(StraddlingDownloader(), false).Fail?
    ensures ProcessBuffer(StraddlingDownloader(), false).value.1
    ensures ProcessBuffer(StraddlingDownloader(), false).value.0.output == StraddlingBuffer()[..15350]
    ensures ProcessBuffer(StraddlingDownloader(), false).value.0.bufferAvail == 1010
  {
    var d := StraddlingDownloader();
    var d0 := d.(buffer := Terminated(d));
    StraddlingFirstPass(false);
    StraddlingFirstPass(true);
    StraddlingWrite();
    var d1 := d0.(output := StraddlingBuffer()[..15350], writtenSize := 15350);
    // as written: a write of (size_t)(15360 - 15374) bytes
    WriteSpanNegative(d1, 15374, 15360);
    ScanPartsPastEnd(d1, false, 15374);
    assert ProcessBufferAsWritten(d, false) == ProcessBufferWith(d, false, false);
    // corrected: an empty write, then the bytes after 15374 move to the front
    var d2 := WriteSpan(d1, 15374, 15374).value;
    assert d2.output == d1.output;
    assert ProcessBuffer(d, false) == ProcessBufferWith(d, false, true);
    assert ProcessBufferWith(d, false, true) == Ok((Consume(d2, 15374), true));
  }
}
