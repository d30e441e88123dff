/** The graph-based perfect hash function of phf.h (the construction of
    Czech, Havas and Majewski): two multiply-shift hash functions send each
    key to two cells, every key becomes an edge between its cells labelled
    with the key's index, and a breadth-first labelling of the cells makes
    `data[a] ^ data[b]` equal that index. The random draws of the hash
    multipliers are parameters. */
module Phf {
  import opened Common

  // ---------------------------------------------------------------------------
  // IntegerUhf: multiply-shift hashing of a word
  // ---------------------------------------------------------------------------

  /** `mult * key >> shift` on 64-bit words. */
  datatype Uhf = Uhf(mult: nat, shift: nat)

  /** A hash function whose results are logSize-bit cell numbers. */
  predicate Fits(f: Uhf, logSize: nat)
  {
    1 <= logSize <= 64 && f.mult < TWO64 && f.shift + logSize == 64
  }

  /** IntegerUhf::create, the random multiplier being `draw`: a logSize
      below one is raised to one, so the shift stays below the word width. */
  function CreateUhf(draw: nat, logSize: nat): (h: Uhf)
    requires draw < TWO64 && logSize <= 64
    ensures h.shift < 64
    ensures Fits(h, if logSize < 1 then 1 else logSize)
  {
    Uhf(draw, 64 - (if logSize < 1 then 1 else logSize))
  }

  /** IntegerUhf::evaluate: the product wraps at 2^64, then the top bits stay. */
  function UhfEvaluate(f: Uhf, key: nat): nat
  {
    Shr(WrapMul(f.mult, key), f.shift)
  }

  /** `x >> s`, one bit at a time. */
  function Shr(x: nat, s: nat): nat
  {
    if s == 0 then x else Shr(x / 2, s - 1)
  }

  /** Shifting out s bits of a value below 2^(s+l) leaves fewer than l bits. */
  lemma {:induction false} ShrBelow(x: nat, s: nat, l: nat)
    requires x < Pow2(s + l)
    ensures Shr(x, s) < Pow2(l)
  {
    if s > 0 {
      assert Pow2(s + l) == 2 * Pow2(s - 1 + l);
      ShrBelow(x / 2, s - 1, l);
    }
  }

  /** A value of at least 2^s keeps a set bit after shifting out s bits. */
  lemma {:induction false} ShrAtLeastOne(x: nat, s: nat)
    requires Pow2(s) <= x
    ensures Shr(x, s) >= 1
  {
    if s > 0 {
      ShrAtLeastOne(x / 2, s - 1);
    }
  }

  /** Shifting out s bits one at a time is the quotient by 2^s. */
  lemma {:induction false} ShrIsQuotient(x: nat, s: nat)
    ensures Shr(x, s) == x / Pow2(s)
  {
    if s > 0 {
      ShrIsQuotient(x / 2, s - 1);
      DivDiv(x, 2, Pow2(s - 1));
    }
  }

  /** Dividing by a and then by b is dividing by a * b. */
  lemma DivDiv(x: nat, a: nat, b: nat)
    requires a > 0 && b > 0
    ensures (x / a) / b == x / (a * b)
  {
    var ab := a * b;
    var q, r := x / ab, x % ab;
    var r1, r2 := r / a, r % a;
    assert x == ab * q + r;
    assert r == a * r1 + r2;
    QuotientBelow(r, a, b);
    Regroup(a, b, q, r1, r2);
    DivUnique(x, a, b * q + r1, r2);
    DivUnique(b * q + r1, b, q, r1);
  }

  lemma QuotientBelow(r: nat, a: nat, b: nat)
    requires a > 0 && r < a * b
    ensures r / a < b
  {
    assert r == a * (r / a) + r % a;
    if r / a >= b {
      MulLeftMono(a, b, r / a);
    }
  }

  lemma MulLeftMono(a: nat, b: nat, c: nat)
    requires b <= c
    ensures a * b <= a * c
  {
  }

  lemma Regroup(a: nat, b: nat, q: nat, r1: nat, r2: nat)
    ensures (a * b) * q + (a * r1 + r2) == a * (b * q + r1) + r2
  {
  }

  /** The quotient is the unique d with y == m * d + r and 0 <= r < m. */
  lemma DivUnique(y: nat, m: nat, d: nat, r: nat)
    requires m > 0 && 0 <= r < m
    requires y == m * d + r
    ensures y / m == d
  {
    ModUnique(y, m, d, r);
  }

  /** IntegerUhf::evaluate is the wrapped product divided by 2^shift: its
      top 64 - shift bits. */
  lemma UhfEvaluateIsQuotient(f: Uhf, key: nat)
    ensures UhfEvaluate(f, key) == WrapMul(f.mult, key) / Pow2(f.shift)
    ensures UhfEvaluate(f, key) * Pow2(f.shift) <= WrapMul(f.mult, key)
  {
    ShrIsQuotient(WrapMul(f.mult, key), f.shift);
    DivBounds(WrapMul(f.mult, key), Pow2(f.shift));
  }

  /** A product of words as `size_t` computes it, modulo 2^64. */
  function WrapMul(a: nat, b: nat): (r: nat)
    ensures r < TWO64
  {
    (a * b) % TWO64
  }

  /** A hash created for logSize lands in one of the 2^logSize cells. */
  lemma UhfInRange(f: Uhf, logSize: nat, key: nat)
    requires Fits(f, logSize)
    ensures UhfEvaluate(f, key) < Pow2(logSize)
  {
    Pow2Words();
    ShrBelow(WrapMul(f.mult, key), f.shift, logSize);
  }

  // ---------------------------------------------------------------------------
  // Table size
  // ---------------------------------------------------------------------------

  /** logSize is the least exponent from one up whose table holds three
      cells per key. */
  predicate LeastLogSize(num: nat, logSize: nat)
  {
    logSize >= 1 && Pow2(logSize) >= 3 * num && (logSize == 1 || Pow2(logSize - 1) < 3 * num)
  }

  /** The sizing loop at the start of PerfectHashFunc::create. */
  method ComputeLogSize(num: nat) returns (logSize: nat)
    ensures LeastLogSize(num, logSize)
  {
    logSize := 1;
    while Pow2(logSize) < 3 * num
      invariant logSize >= 1 && (logSize == 1 || Pow2(logSize - 1) < 3 * num)
      decreases 3 * num - Pow2(logSize)
    {
      logSize := logSize + 1;
    }
  }

  /** No smaller exponent from one up would do. */
  lemma LogSizeIsLeast(num: nat, logSize: nat, other: nat)
    requires LeastLogSize(num, logSize)
    requires other >= 1 && Pow2(other) >= 3 * num
    ensures logSize <= other
  {
    if other < logSize {
      Pow2Monotone(other, logSize - 1);
    }
  }

  /** With fewer than 2^32 keys the table has at most 2^34 cells. */
  lemma LogSizeBound(num: nat, logSize: nat)
    requires LeastLogSize(num, logSize) && num < TWO32
    ensures logSize <= 34
  {
    if logSize > 34 {
      Pow2Words();
      Pow2Add(32, 2);
      Pow2Monotone(34, logSize - 1);
    }
  }

  // ---------------------------------------------------------------------------
  // The key graph
  // ---------------------------------------------------------------------------

  datatype Status = Unseen | Visited | Ignored

  /** An entry of edgeLists[c]: the other end and the key index. */
  datatype Edge = Edge(end: nat, value: nat)

  /** Key i repeats its predecessor; keys are sorted, so this finds every repeat. */
  predicate Dup(keys: seq<u32>, i: nat)
  {
    0 < i < |keys| && keys[i] == keys[i - 1]
  }

  /** The entries key i with cells a and b pushes onto edgeLists[c]. */
  function KeyEdges(a: nat, b: nat, i: nat, c: nat): seq<Edge>
  {
    (if a == c then [Edge(b, i)] else []) + (if b == c then [Edge(a, i)] else [])
  }

  /** Reference definition of edgeLists[c] once the first n keys are added. */
  function EdgesAt(keys: seq<u32>, f0: Uhf, f1: Uhf, c: nat, n: nat): seq<Edge>
    requires n <= |keys|
  {
    if n == 0 then []
    else
      var i := n - 1;
      EdgesAt(keys, f0, f1, c, i)
        + (if Dup(keys, i) then [] else KeyEdges(UhfEvaluate(f0, keys[i]), UhfEvaluate(f1, keys[i]), i, c))
  }

  /** Every entry belongs to a key that is not a repeat and joins c to the
      entry's end through that key's two hashes. */
  lemma {:induction false} EdgesSound(keys: seq<u32>, f0: Uhf, f1: Uhf, c: nat, n: nat, e: Edge)
    requires n <= |keys| && e in EdgesAt(keys, f0, f1, c, n)
    ensures e.value < n && !Dup(keys, e.value)
    ensures var a, b := UhfEvaluate(f0, keys[e.value]), UhfEvaluate(f1, keys[e.value]);
      (a == c && b == e.end) || (b == c && a == e.end)
  {
    var i := n - 1;
    if e in EdgesAt(keys, f0, f1, c, i) {
      EdgesSound(keys, f0, f1, c, i, e);
    } else {
      assert !Dup(keys, i) && e in KeyEdges(UhfEvaluate(f0, keys[i]), UhfEvaluate(f1, keys[i]), i, c);
    }
  }

  /** Every key that is not a repeat has an entry in the lists of both of its cells. */
  lemma {:induction false} EdgeOfKey(keys: seq<u32>, f0: Uhf, f1: Uhf, n: nat, i: nat)
    requires i < n <= |keys| && !Dup(keys, i)
    ensures var a, b := UhfEvaluate(f0, keys[i]), UhfEvaluate(f1, keys[i]);
      Edge(b, i) in EdgesAt(keys, f0, f1, a, n) && Edge(a, i) in EdgesAt(keys, f0, f1, b, n)
  {
    var a, b := UhfEvaluate(f0, keys[i]), UhfEvaluate(f1, keys[i]);
    if i < n - 1 {
      EdgeOfKey(keys, f0, f1, n - 1, i);
    } else {
      assert Edge(b, i) in KeyEdges(a, b, i, a);
      assert Edge(a, i) in KeyEdges(a, b, i, b);
    }
  }

  /** Edge lists whose ends are cells and whose values are 32-bit. */
  predicate Graph(lists: seq<seq<Edge>>)
  {
    forall c, j :: 0 <= c < |lists| && 0 <= j < |lists[c]| ==> lists[c][j].end < |lists| && lists[c][j].value < TWO32
  }

  /** The edge-building loop of one attempt. A repeated key gets no edge;
      as written, it marks the CELL numbered like the key's index as ignored. */
  method BuildGraph(keys: seq<u32>, logSize: nat, f0: Uhf, f1: Uhf) returns (status: seq<Status>, lists: seq<seq<Edge>>)
    requires Fits(f0, logSize) && Fits(f1, logSize) && |keys| <= Pow2(logSize)
    ensures |status| == Pow2(logSize)
    ensures forall c :: 0 <= c < |status| ==> status[c] != Visited && (status[c] == Ignored <==> Dup(keys, c))
    ensures |lists| == Pow2(logSize)
    ensures forall c :: 0 <= c < |lists| ==> lists[c] == EdgesAt(keys, f0, f1, c, |keys|)
  {
    var cells := Pow2(logSize);
    status := seq(cells, _ => Unseen);
    lists := seq(cells, _ => []);
    var i := 0;
    while i < |keys|
      invariant i <= |keys| && |status| == cells && |lists| == cells
      invariant forall c :: 0 <= c < cells ==> status[c] != Visited && (status[c] == Ignored <==> c < i && Dup(keys, c))
      invariant forall c :: 0 <= c < cells ==> lists[c] == EdgesAt(keys, f0, f1, c, i)
    {
      if i > 0 && keys[i] == keys[i - 1] {
        status := status[i := Ignored];
        i := i + 1;
        continue;
      }
      var a, b := UhfEvaluate(f0, keys[i]), UhfEvaluate(f1, keys[i]);
      UhfInRange(f0, logSize, keys[i]);
      UhfInRange(f1, logSize, keys[i]);
      ghost var before := lists;
      lists := lists[a := lists[a] + [Edge(b, i)]];
      lists := lists[b := lists[b] + [Edge(a, i)]];
      PushEdges(keys, f0, f1, i, before, lists);
      i := i + 1;
    }
  }

  /** Pushing key i's two entries extends every list from i to i + 1 keys. */
  lemma PushEdges(keys: seq<u32>, f0: Uhf, f1: Uhf, i: nat, before: seq<seq<Edge>>, after: seq<seq<Edge>>)
    requires i < |keys| && !Dup(keys, i)
    requires var a, b := UhfEvaluate(f0, keys[i]), UhfEvaluate(f1, keys[i]);
      a < |before| && b < |before|
      && after == before[a := before[a] + [Edge(b, i)]][b := before[a := before[a] + [Edge(b, i)]][b] + [Edge(a, i)]]
    requires forall c :: 0 <= c < |before| ==> before[c] == EdgesAt(keys, f0, f1, c, i)
    ensures |after| == |before|
    ensures forall c :: 0 <= c < |after| ==> after[c] == EdgesAt(keys, f0, f1, c, i + 1)
  {
    var a, b := UhfEvaluate(f0, keys[i]), UhfEvaluate(f1, keys[i]);
    forall c | 0 <= c < |after|
      ensures after[c] == EdgesAt(keys, f0, f1, c, i + 1)
    {
      assert EdgesAt(keys, f0, f1, c, i + 1) == EdgesAt(keys, f0, f1, c, i) + KeyEdges(a, b, i, c);
    }
  }

  /** The lists of the reference definition form a graph over the table. */
  lemma ListsAreGraph(keys: seq<u32>, logSize: nat, f0: Uhf, f1: Uhf, lists: seq<seq<Edge>>)
    requires Fits(f0, logSize) && Fits(f1, logSize) && |keys| < TWO32
    requires |lists| == Pow2(logSize)
    requires forall c :: 0 <= c < |lists| ==> lists[c] == EdgesAt(keys, f0, f1, c, |keys|)
    ensures Graph(lists)
  {
    forall c, j | 0 <= c < |lists| && 0 <= j < |lists[c]|
      ensures lists[c][j].end < |lists| && lists[c][j].value < TWO32
    {
      var e := lists[c][j];
      EdgesSound(keys, f0, f1, c, |keys|, e);
      UhfInRange(f0, logSize, keys[e.value]);
      UhfInRange(f1, logSize, keys[e.value]);
    }
  }

  // ---------------------------------------------------------------------------
  // Labelling the cells
  // ---------------------------------------------------------------------------

  /** The `^` of two labels, kept to 32 bits as `uint32_t` data. */
  function Xor32(x: nat, y: nat): u32
  {
    Pow2Words();
    XorBits(x, y, 32)
  }

  /** A label set to `value ^ data[u]` makes the edge out of u consistent. */
  lemma XorRestores(x: nat, value: nat)
    requires value < TWO32
    ensures Xor32(x, Xor32(value, x)) == value
  {
    Pow2Words();
    XorBitsSymmetric(x, XorBits(value, x, 32), 32);
    XorBitsCancel(value, x, 32);
  }

  /** Edge e out of u is checked and consistent: its far end is labelled and
      the two labels xor to its value. */
  predicate Holds(status: seq<Status>, data: seq<u32>, u: nat, e: Edge)
  {
    u < |data| && e.end < |data| && e.end < |status|
      && status[e.end] != Unseen && Xor32(data[u], data[e.end]) == e.value
  }

  /** Edge e out of the visited cell u was examined and found inconsistent. */
  predicate Fails(status: seq<Status>, data: seq<u32>, u: nat, e: Edge)
  {
    u < |data| && u < |status| && e.end < |data| && e.end < |status|
      && status[u] == Visited && status[e.end] != Unseen && Xor32(data[u], data[e.end]) != e.value
  }

  /** Cell u is visited and all its edges hold. */
  predicate Checked(lists: seq<seq<Edge>>, status: seq<Status>, data: seq<u32>, u: nat)
  {
    u < |lists| && u < |status| && status[u] == Visited
      && forall j :: 0 <= j < |lists[u]| ==> Holds(status, data, u, lists[u][j])
  }

  /** A later labelling state keeps every earlier decision: ignored cells stay
      ignored and nothing else becomes ignored, visited cells stay visited,
      and only unseen cells get new labels. */
  predicate Keeps(st: seq<Status>, d: seq<u32>, st': seq<Status>, d': seq<u32>)
  {
    |st| == |d| == |st'| == |d'|
      && forall c :: 0 <= c < |st| ==>
        (st'[c] == Ignored <==> st[c] == Ignored)
        && (st[c] == Visited ==> st'[c] == Visited)
        && (st[c] != Unseen ==> d'[c] == d[c])
  }

  lemma KeepsTransitive(st: seq<Status>, d: seq<u32>, st': seq<Status>, d': seq<u32>, st'': seq<Status>, d'': seq<u32>)
    requires Keeps(st, d, st', d') && Keeps(st', d', st'', d'')
    ensures Keeps(st, d, st'', d'')
  {
  }

  lemma CheckedKept(lists: seq<seq<Edge>>, st: seq<Status>, d: seq<u32>, st': seq<Status>, d': seq<u32>, u: nat)
    requires Keeps(st, d, st', d') && Checked(lists, st, d, u)
    ensures Checked(lists, st', d', u)
  {
    forall j | 0 <= j < |lists[u]|
      ensures Holds(st', d', u, lists[u][j])
    {
      assert Holds(st, d, u, lists[u][j]);
    }
  }

  lemma HoldsKept(es: seq<Edge>, u: nat, st: seq<Status>, d: seq<u32>, st': seq<Status>, d': seq<u32>)
    requires Keeps(st, d, st', d') && u < |st| && st[u] == Visited
    requires forall e :: e in es ==> Holds(st, d, u, e)
    ensures forall e :: e in es ==> Holds(st', d', u, e)
  {
    forall e | e in es
      ensures Holds(st', d', u, e)
    {
      assert Holds(st, d, u, e);
    }
  }

  lemma FailsKept(st: seq<Status>, d: seq<u32>, st': seq<Status>, d': seq<u32>, u: nat, e: Edge)
    requires Keeps(st, d, st', d') && Fails(st, d, u, e)
    ensures Fails(st', d', u, e)
  {
  }

  /** The number of unseen cells. */
  function UnseenCount(st: seq<Status>): nat
  {
    if |st| == 0 then 0 else UnseenCount(st[..|st| - 1]) + (if st[|st| - 1] == Unseen then 1 else 0)
  }

  lemma {:induction false} UnseenFlip(st: seq<Status>, v: nat)
    requires v < |st| && st[v] == Unseen
    ensures UnseenCount(st[v := Visited]) + 1 == UnseenCount(st)
  {
    var st' := st[v := Visited];
    if v < |st| - 1 {
      assert st'[..|st| - 1] == st[..|st| - 1][v := Visited];
      UnseenFlip(st[..|st| - 1], v);
    } else {
      assert st'[..|st| - 1] == st[..|st| - 1];
    }
  }

  /** The queue grew by the cells that turned from unseen to visited. */
  predicate Enqueued(cells: nat, st: seq<Status>, st': seq<Status>, q: seq<nat>, q': seq<nat>)
    requires |st| == |st'| == cells
  {
    |q| <= |q'| && q'[..|q|] == q
      && (forall m :: |q| <= m < |q'| ==> q'[m] < cells && st'[q'[m]] == Visited)
      && (forall c :: 0 <= c < cells && st[c] != Visited && st'[c] == Visited ==> exists m :: |q| <= m < |q'| && q'[m] == c)
      && UnseenCount(st') + (|q'| - |q|) == UnseenCount(st)
  }

  /** The first half of the loop body over edgeLists[u]: an unseen far end
      gets the label that makes the edge consistent and joins the queue. */
  method Reach(cells: nat, u: nat, e: Edge, status: seq<Status>, data: seq<u32>, qarr: seq<nat>)
    returns (status': seq<Status>, data': seq<u32>, qarr': seq<nat>)
    requires |status| == |data| == cells && u < cells && e.end < cells && e.value < TWO32 && status[u] == Visited
    ensures Keeps(status, data, status', data')
    ensures status'[e.end] != Unseen
    ensures status[e.end] == Unseen ==> Holds(status', data', u, e)
    ensures Enqueued(cells, status, status', qarr, qarr')
    ensures |status'| == |data'| == cells
    ensures forall c :: 0 <= c < cells && c != e.end ==> status'[c] == status[c] && data'[c] == data[c]
    ensures status[e.end] != Unseen ==> status' == status && data' == data && qarr' == qarr
  {
    status', data', qarr' := status, data, qarr;
    var v := e.end;
    if status[v] == Unseen {
      UnseenFlip(status, v);
      XorRestores(data[u], e.value);
      data' := data[v := Xor32(e.value, data[u])];
      status' := status[v := Visited];
      qarr' := qarr + [v];
      assert qarr'[..|qarr|] == qarr;
      forall c | 0 <= c < cells && status[c] != Visited && status'[c] == Visited
        ensures exists m :: |qarr| <= m < |qarr'| && qarr'[m] == c
      {
        assert c == v && qarr'[|qarr|] == c;
      }
    }
  }

  /** Enqueued composes over consecutive steps. */
  lemma EnqueuedChain(cells: nat, st: seq<Status>, st': seq<Status>, st'': seq<Status>,
                      q: seq<nat>, q': seq<nat>, q'': seq<nat>)
    requires |st| == |st'| == |st''| == cells
    requires forall c :: 0 <= c < cells && st'[c] == Visited ==> st''[c] == Visited
    requires Enqueued(cells, st, st', q, q') && Enqueued(cells, st', st'', q', q'')
    ensures Enqueued(cells, st, st'', q, q'')
  {
    assert q''[..|q|] == q''[..|q'|][..|q|];
    forall m | |q| <= m < |q'|
      ensures q''[m] == q'[m]
    {
      assert q''[..|q'|][m] == q''[m];
    }
    forall c | 0 <= c < cells && st[c] != Visited && st''[c] == Visited
      ensures exists m :: |q| <= m < |q''| && q''[m] == c
    {
      if st'[c] == Visited {
        var m :| |q| <= m < |q'| && q'[m] == c;
        assert q''[m] == c;
      }
    }
  }

  /** The inner range-for over edgeLists[u]: every edge is reached and then
      compared, and a mismatch clears ok without stopping the scan. */
  method ScanEdges(lists: seq<seq<Edge>>, u: nat, status: seq<Status>, data: seq<u32>, qarr: seq<nat>)
    returns (status': seq<Status>, data': seq<u32>, qarr': seq<nat>, ok: bool)
    requires Graph(lists) && |status| == |data| == |lists| && u < |lists| && status[u] == Visited
    ensures Keeps(status, data, status', data')
    ensures Enqueued(|lists|, status, status', qarr, qarr')
    ensures ok ==> Checked(lists, status', data', u)
    ensures !ok ==> exists j :: 0 <= j < |lists[u]| && Fails(status', data', u, lists[u][j])
  {
    status', data', qarr', ok := status, data, qarr, true;
    ghost var bad := 0;
    var k := 0;
    while k < |lists[u]|
      invariant k <= |lists[u]|
      invariant Keeps(status, data, status', data')
      invariant Enqueued(|lists|, status, status', qarr, qarr')
      invariant ok ==> forall e :: e in lists[u][..k] ==> Holds(status', data', u, e)
      invariant !ok ==> bad < |lists[u]| && Fails(status', data', u, lists[u][bad])
    {
      var e := lists[u][k];
      var st, d, q := Reach(|lists|, u, e, status', data', qarr');
      KeepsTransitive(status, data, status', data', st, d);
      EnqueuedChain(|lists|, status, status', st, qarr, qarr', q);
      if ok {
        HoldsKept(lists[u][..k], u, status', data', st, d);
      } else {
        FailsKept(status', data', st, d, u, lists[u][bad]);
      }
      status', data', qarr' := st, d, q;
      if Xor32(data'[u], data'[e.end]) != e.value {
        ok := false;
        bad := k;
      }
      k := k + 1;
    }
  }

  function Zeros(n: nat): seq<u32>
  {
    seq(n, _ => 0)
  }

  /** The series of breadth-first searches: every unseen cell in turn roots a
      search that labels its component, until some edge is inconsistent. */
  method Label(lists: seq<seq<Edge>>, status0: seq<Status>) returns (ok: bool, status: seq<Status>, data: seq<u32>)
    requires Graph(lists) && |status0| == |lists|
    requires forall c :: 0 <= c < |status0| ==> status0[c] != Visited
    ensures Keeps(status0, Zeros(|lists|), status, data)
    ensures ok ==> forall c :: 0 <= c < |lists| ==> status[c] != Unseen
    ensures ok ==> forall c :: 0 <= c < |lists| && status[c] == Visited ==> Checked(lists, status, data, c)
    ensures !ok ==> exists u, j :: 0 <= u < |lists| && 0 <= j < |lists[u]| && Fails(status, data, u, lists[u][j])
  {
    var cells := |lists|;
    status, data, ok := status0, Zeros(cells), true;
    ghost var done: set<nat> := {};
    ghost var badU: nat, badJ: nat := 0, 0;
    var s := 0;
    while ok && s < cells
      invariant s <= cells
      invariant Keeps(status0, Zeros(cells), status, data)
      invariant ok ==> forall c :: 0 <= c < s ==> status[c] != Unseen
      invariant ok ==> forall c :: 0 <= c < cells && status[c] == Visited ==> c in done
      invariant ok ==> forall c :: c in done ==> Checked(lists, status, data, c)
      invariant !ok ==> badU < cells && badJ < |lists[badU]| && Fails(status, data, badU, lists[badU][badJ])
    {
      if status[s] == Unseen {
        data := data[s := 0];
        status := status[s := Visited];
        var qarr: seq<nat> := [s];
        assert qarr[0] == s;
        var i := 0;
        while ok && i < |qarr|
          invariant i <= |qarr|
          invariant Keeps(status0, Zeros(cells), status, data)
          invariant forall m :: 0 <= m < |qarr| ==> qarr[m] < cells && status[qarr[m]] == Visited
          invariant ok ==> forall c :: 0 <= c <= s ==> status[c] != Unseen
          invariant ok ==> forall c :: 0 <= c < cells && status[c] == Visited ==>
            c in done || exists m :: i <= m < |qarr| && qarr[m] == c
          invariant ok ==> forall c :: c in done ==> Checked(lists, status, data, c)
          invariant !ok ==> badU < cells && badJ < |lists[badU]| && Fails(status, data, badU, lists[badU][badJ])
          decreases UnseenCount(status), |qarr| - i
        {
          var u := qarr[i];
          var st', d', q', fine := ScanEdges(lists, u, status, data, qarr);
          KeepsTransitive(status0, Zeros(cells), status, data, st', d');
          forall c | c in done
            ensures Checked(lists, st', d', c)
          {
            CheckedKept(lists, status, data, st', d', c);
          }
          AfterScan(cells, status, st', qarr, q', i, done, u);
          if fine {
            done := done + {u};
          } else {
            ok := false;
            badU := u;
            badJ :| 0 <= badJ < |lists[u]| && Fails(st', d', u, lists[u][badJ]);
          }
          status, data, qarr := st', d', q';
          i := i + 1;
        }
      }
      s := s + 1;
    }
    if !ok {
      assert Fails(status, data, badU, lists[badU][badJ]);
    }
  }

  /** Bookkeeping of the queue after one cell's scan: whatever is visited is
      done, the cell just scanned, or still waiting in the queue. */
  lemma AfterScan(cells: nat, st: seq<Status>, st': seq<Status>, qarr: seq<nat>, q': seq<nat>, i: nat, done: set<nat>, u: nat)
    requires |st| == |st'| == cells && i < |qarr| && u == qarr[i]
    requires forall c :: 0 <= c < cells && st[c] == Visited ==> st'[c] == Visited
    requires Enqueued(cells, st, st', qarr, q')
    requires forall m :: 0 <= m < |qarr| ==> qarr[m] < cells && st[qarr[m]] == Visited
    requires forall c :: 0 <= c < cells && st[c] == Visited ==> c in done || exists m :: i <= m < |qarr| && qarr[m] == c
    ensures forall m :: 0 <= m < |q'| ==> q'[m] < cells && st'[q'[m]] == Visited
    ensures forall c :: 0 <= c < cells && st'[c] == Visited ==>
      c in done + {u} || exists m :: i + 1 <= m < |q'| && q'[m] == c
  {
    forall m | 0 <= m < |qarr|
      ensures q'[m] == qarr[m]
    {
      assert q'[..|qarr|][m] == q'[m];
    }
    forall c | 0 <= c < cells && st'[c] == Visited
      ensures c in done + {u} || exists m :: i + 1 <= m < |q'| && q'[m] == c
    {
      if st[c] == Visited && c !in done && c != u {
        var m :| i <= m < |qarr| && qarr[m] == c;
        assert q'[m] == c;
      }
    }
  }

  // ---------------------------------------------------------------------------
  // The perfect hash function and one attempt at building it
  // ---------------------------------------------------------------------------

  /** The members of PerfectHashFunc: logSize, mask, funcs[0..1] and data. */
  datatype PerfectHash = PerfectHash(logSize: nat, mask: nat, f0: Uhf, f1: Uhf, data: seq<u32>)

  predicate Valid(p: PerfectHash)
  {
    Fits(p.f0, p.logSize) && Fits(p.f1, p.logSize) && |p.data| == Pow2(p.logSize) && p.mask == |p.data| - 1
  }

  /** PerfectHashFunc::evaluate: the xor of the labels of the key's two cells.
      A key whose two cells coincide evaluates to 0 whatever the labels. */
  function Evaluate(p: PerfectHash, key: u32): (r: u32)
    requires Valid(p)
    ensures UhfEvaluate(p.f0, key) == UhfEvaluate(p.f1, key) ==> r == 0
  {
    UhfInRange(p.f0, p.logSize, key);
    UhfInRange(p.f1, p.logSize, key);
    XorBitsSelf(p.data[UhfEvaluate(p.f0, key)], 32);
    Xor32(p.data[UhfEvaluate(p.f0, key)], p.data[UhfEvaluate(p.f1, key)])
  }

  /** The two hash functions play symmetric roles: swapping them changes no
      value. */
  lemma EvaluateSymmetric(p: PerfectHash, key: u32)
    requires Valid(p)
    ensures Valid(p.(f0 := p.f1, f1 := p.f0))
    ensures Evaluate(p.(f0 := p.f1, f1 := p.f0), key) == Evaluate(p, key)
  {
    UhfInRange(p.f0, p.logSize, key);
    UhfInRange(p.f1, p.logSize, key);
    var a, b := p.data[UhfEvaluate(p.f0, key)], p.data[UhfEvaluate(p.f1, key)];
    Pow2Words();
    XorBitsSymmetric(a, b, 32);
  }

  /** p maps every key that is not a repeat to its index. */
  predicate Correct(keys: seq<u32>, p: PerfectHash)
  {
    Valid(p) && forall i :: 0 <= i < |keys| && !Dup(keys, i) ==> Evaluate(p, keys[i]) == i
  }

  /** Entry j of cell u's list is inconsistent under the labels. */
  predicate Broken(keys: seq<u32>, f0: Uhf, f1: Uhf, labels: seq<u32>, u: nat, j: nat)
  {
    var es := EdgesAt(keys, f0, f1, u, |keys|);
    u < |labels| && j < |es| && es[j].end < |labels| && Xor32(labels[u], labels[es[j].end]) != es[j].value
  }

  /** Labels under which no entry of any list is inconsistent evaluate every
      key that is not a repeat to its index. */
  lemma ConsistentLabelsEvaluate(keys: seq<u32>, logSize: nat, f0: Uhf, f1: Uhf, labels: seq<u32>)
    requires Fits(f0, logSize) && Fits(f1, logSize) && |labels| == Pow2(logSize)
    requires forall u, j :: !Broken(keys, f0, f1, labels, u, j)
    ensures Correct(keys, PerfectHash(logSize, Pow2(logSize) - 1, f0, f1, labels))
  {
    var p := PerfectHash(logSize, Pow2(logSize) - 1, f0, f1, labels);
    forall i | 0 <= i < |keys| && !Dup(keys, i)
      ensures Evaluate(p, keys[i]) == i
    {
      var a, b := UhfEvaluate(f0, keys[i]), UhfEvaluate(f1, keys[i]);
      UhfInRange(f0, logSize, keys[i]);
      UhfInRange(f1, logSize, keys[i]);
      EdgeOfKey(keys, f0, f1, |keys|, i);
      var es := EdgesAt(keys, f0, f1, a, |keys|);
      var j :| 0 <= j < |es| && es[j] == Edge(b, i);
      assert !Broken(keys, f0, f1, labels, a, j);
    }
  }

  /** Connects a finished labelling to the reference lists: when ok, no entry
      out of a cell that started unseen is inconsistent; otherwise one is. */
  lemma LabelOutcome(keys: seq<u32>, f0: Uhf, f1: Uhf, lists: seq<seq<Edge>>, status0: seq<Status>,
                     ok: bool, status: seq<Status>, data: seq<u32>)
    requires |status0| == |lists| && forall c :: 0 <= c < |lists| ==> lists[c] == EdgesAt(keys, f0, f1, c, |keys|)
    requires forall c :: 0 <= c < |status0| ==> status0[c] != Visited
    requires Keeps(status0, Zeros(|lists|), status, data)
    requires ok ==> forall c :: 0 <= c < |lists| ==> status[c] != Unseen
    requires ok ==> forall c :: 0 <= c < |lists| && status[c] == Visited ==> Checked(lists, status, data, c)
    requires !ok ==> exists u, j :: 0 <= u < |lists| && 0 <= j < |lists[u]| && Fails(status, data, u, lists[u][j])
    ensures ok <==> forall u: nat, j: nat :: u < |status0| && status0[u] != Ignored ==> !Broken(keys, f0, f1, data, u, j)
  {
    if ok {
      forall u: nat, j: nat | u < |status0| && status0[u] != Ignored
        ensures !Broken(keys, f0, f1, data, u, j)
      {
        assert Checked(lists, status, data, u);
        if j < |lists[u]| {
          assert Holds(status, data, u, lists[u][j]);
        }
      }
    } else {
      var u, j :| 0 <= u < |lists| && 0 <= j < |lists[u]| && Fails(status, data, u, lists[u][j]);
      assert Broken(keys, f0, f1, data, u, j);
    }
  }

  /** One pass of the do-while loop of PerfectHashFunc::create. */
  datatype Attempt =
    | Retry                                    // ok became false: draw new functions
    | Built(phf: PerfectHash)                  // the loop ends
    | Thrown(index: nat, got: nat, key: nat)   // std::runtime_error from the final check

  /** The table size fixed before the loop, for fewer than 2^32 keys. */
  predicate Sized(keys: seq<u32>, logSize: nat)
  {
    |keys| < TWO32 && LeastLogSize(|keys|, logSize) && logSize <= 34
  }

  /** One attempt as written. Because the repeat marker lands in the cell
      array, a cell numbered like a repeated key is never a search root and
      its own list is never scanned: it keeps label 0, and an edge between
      two such cells (a self-loop on one included) is checked from neither
      end. An edge from an ordinary cell into such a cell is still checked
      from the ordinary end. The final check then throws when the key of an
      unchecked edge evaluates wrongly. `labels` is the data member
      afterwards. */
  method CreateAttemptAsWritten(keys: seq<u32>, logSize: nat, draw0: nat, draw1: nat) returns (r: Attempt, labels: seq<u32>)
    requires Sized(keys, logSize) && draw0 < TWO64 && draw1 < TWO64
    ensures var f0, f1 := CreateUhf(draw0, logSize), CreateUhf(draw1, logSize);
      && |labels| == Pow2(logSize)
      && (forall c :: 0 <= c < |labels| && Dup(keys, c) ==> labels[c] == 0)
      && (r.Retry? <==> exists u, j :: !Dup(keys, u) && Broken(keys, f0, f1, labels, u, j))
      && (r.Built? <==> !r.Retry? && Correct(keys, PerfectHash(logSize, Pow2(logSize) - 1, f0, f1, labels)))
      && (r.Built? ==> r.phf == PerfectHash(logSize, Pow2(logSize) - 1, f0, f1, labels))
    ensures r.Thrown? ==> var p := PerfectHash(logSize, Pow2(logSize) - 1, CreateUhf(draw0, logSize), CreateUhf(draw1, logSize), labels);
      Valid(p) && r.index < |keys| && !Dup(keys, r.index) && r.key == keys[r.index]
      && r.got == Evaluate(p, keys[r.index]) != r.index
      && forall i :: 0 <= i < r.index && !Dup(keys, i) ==> Evaluate(p, keys[i]) == i
  {
    var cells := Pow2(logSize);
    var f0, f1 := CreateUhf(draw0, logSize), CreateUhf(draw1, logSize);
    var status0, lists := BuildGraph(keys, logSize, f0, f1);
    ListsAreGraph(keys, logSize, f0, f1, lists);
    var ok, status;
    ok, status, labels := Label(lists, status0);
    LabelOutcome(keys, f0, f1, lists, status0, ok, status, labels);
    AliasedCells(keys, f0, f1, status0, ok, status, labels);
    if !ok {
      return Retry, labels;
    }
    var p := PerfectHash(logSize, cells - 1, f0, f1, labels);
    var bad := FinalCheck(keys, p, status);
    if bad.Some? {
      return Thrown(bad.value, Evaluate(p, keys[bad.value]), keys[bad.value]), labels;
    }
    return Built(p), labels;
  }

  /** In the as-written attempt the cells marked ignored are exactly those
      numbered like a repeated key; they keep label 0. */
  lemma AliasedCells(keys: seq<u32>, f0: Uhf, f1: Uhf, status0: seq<Status>, ok: bool, status: seq<Status>, labels: seq<u32>)
    requires |keys| <= |status0|
    requires forall c :: 0 <= c < |status0| ==> (status0[c] == Ignored <==> Dup(keys, c))
    requires Keeps(status0, Zeros(|status0|), status, labels)
    requires ok <==> forall u: nat, j: nat :: u < |status0| && status0[u] != Ignored ==> !Broken(keys, f0, f1, labels, u, j)
    ensures forall i :: 0 <= i < |keys| ==> (status[i] == Ignored <==> Dup(keys, i))
    ensures forall c :: 0 <= c < |labels| && Dup(keys, c) ==> labels[c] == 0
    ensures !ok <==> exists u, j :: !Dup(keys, u) && Broken(keys, f0, f1, labels, u, j)
  {
    if !ok {
      var u: nat, j: nat :| u < |status0| && status0[u] != Ignored && Broken(keys, f0, f1, labels, u, j);
      assert !Dup(keys, u);
    }
  }

  /** The final loop of an attempt that kept ok: the first key that is not
      marked ignored and does not evaluate to its index, if any. */
  method FinalCheck(keys: seq<u32>, p: PerfectHash, status: seq<Status>) returns (bad: Option<nat>)
    requires Valid(p) && |keys| <= |status|
    ensures bad.None? <==> forall i :: 0 <= i < |keys| && status[i] != Ignored ==> Evaluate(p, keys[i]) == i
    ensures bad.Some? ==>
      && bad.value < |keys| && status[bad.value] != Ignored && Evaluate(p, keys[bad.value]) != bad.value
      && (forall i :: 0 <= i < bad.value && status[i] != Ignored ==> Evaluate(p, keys[i]) == i)
  {
    var i := 0;
    while i < |keys|
      invariant i <= |keys|
      invariant forall m :: 0 <= m < i && status[m] != Ignored ==> Evaluate(p, keys[m]) == m
    {
      if status[i] != Ignored && Evaluate(p, keys[i]) != i {
        return Some(i);
      }
      i := i + 1;
    }
    return None;
  }

  /** One attempt with the repeat marker kept per key rather than per cell:
      every cell is labelled, so an attempt that keeps ok builds a correct
      function and the final check can no longer throw. */
  method CreateAttempt(keys: seq<u32>, logSize: nat, draw0: nat, draw1: nat) returns (r: Attempt, labels: seq<u32>)
    requires Sized(keys, logSize) && draw0 < TWO64 && draw1 < TWO64
    ensures !r.Thrown?
    ensures var f0, f1 := CreateUhf(draw0, logSize), CreateUhf(draw1, logSize);
      && |labels| == Pow2(logSize)
      && (r.Retry? <==> exists u, j :: Broken(keys, f0, f1, labels, u, j))
      && (r.Built? ==> r.phf == PerfectHash(logSize, Pow2(logSize) - 1, f0, f1, labels) && Correct(keys, r.phf))
  {
    var cells := Pow2(logSize);
    var f0, f1 := CreateUhf(draw0, logSize), CreateUhf(draw1, logSize);
    var _, lists := BuildGraph(keys, logSize, f0, f1);
    ListsAreGraph(keys, logSize, f0, f1, lists);
    var status0 := seq(cells, _ => Unseen);
    var ok, status;
    ok, status, labels := Label(lists, status0);
    LabelOutcome(keys, f0, f1, lists, status0, ok, status, labels);
    if !ok {
      return Retry, labels;
    }
    ConsistentLabelsEvaluate(keys, logSize, f0, f1, labels);
    return Built(PerfectHash(logSize, cells - 1, f0, f1, labels)), labels;
  }

  /** The two hash functions of p are the ones created from the draw. */
  predicate DrawnBy(p: PerfectHash, draw: (nat, nat))
  {
    && draw.0 < TWO64 && draw.1 < TWO64 && p.logSize <= 64
    && p.f0 == CreateUhf(draw.0, p.logSize) && p.f1 == CreateUhf(draw.1, p.logSize)
  }

  /** PerfectHashFunc::create: size the table, then attempt with successive
      draws until one builds. The draws run out where the source would go on.
      The attempts are the corrected ones (CreateAttempt), so no draw ends in
      the exception the as-written attempt can raise. */
  method Create(keys: seq<u32>, draws: seq<(nat, nat)>) returns (r: Option<PerfectHash>)
    requires |keys| < TWO32
    requires forall k :: 0 <= k < |draws| ==> draws[k].0 < TWO64 && draws[k].1 < TWO64
    ensures r.Some? ==> Correct(keys, r.value) && LeastLogSize(|keys|, r.value.logSize)
    ensures r.Some? ==> exists k :: 0 <= k < |draws| && DrawnBy(r.value, draws[k])
    ensures |draws| == 0 ==> r.None?
  {
    var logSize := ComputeLogSize(|keys|);
    LogSizeBound(|keys|, logSize);
    var k := 0;
    while k < |draws|
      invariant k <= |draws|
    {
      var a, _ := CreateAttempt(keys, logSize, draws[k].0, draws[k].1);
      if a.Built? {
        return Some(a.phf);
      }
      k := k + 1;
    }
    return None;
  }

  // ---------------------------------------------------------------------------
  // A repeated key that aliases a cell
  // ---------------------------------------------------------------------------

  /** Keys 5, 5, 7 make a 16-cell table; with these multipliers key 5 hashes
      to cells 0 and 0 and key 7 to cells 1 and 1. */
  const EXAMPLE_DRAW: nat := 164703072086692426

  lemma ExampleHashes()
    ensures LeastLogSize(3, 4)
    ensures var f0, f1 := CreateUhf(EXAMPLE_DRAW, 4), CreateUhf(EXAMPLE_DRAW + 1, 4);
      UhfEvaluate(f0, 5) == 0 && UhfEvaluate(f1, 5) == 0 && UhfEvaluate(f0, 7) == 1 && UhfEvaluate(f1, 7) == 1
  {
    Pow2Sixty();
    assert Pow2(4) == 16 && Pow2(3) == 8;
    assert WrapMul(EXAMPLE_DRAW, 5) == 0xb6d_b6db_6db6_db72;
    assert WrapMul(EXAMPLE_DRAW + 1, 5) == 0xb6d_b6db_6db6_db77;
    assert WrapMul(EXAMPLE_DRAW, 7) == 0x1000_0000_0000_0006;
    assert WrapMul(EXAMPLE_DRAW + 1, 7) == 0x1000_0000_0000_000d;
    ShrBelow(0xb6d_b6db_6db6_db72, 60, 0);
    ShrBelow(0xb6d_b6db_6db6_db77, 60, 0);
    ShrBelow(0x1000_0000_0000_0006, 60, 1);
    ShrBelow(0x1000_0000_0000_000d, 60, 1);
    ShrAtLeastOne(0x1000_0000_0000_0006, 60);
    ShrAtLeastOne(0x1000_0000_0000_000d, 60);
  }

  lemma Pow2Sixty()
    ensures Pow2(0) == 1 && Pow2(1) == 2 && Pow2(60) == 0x1000_0000_0000_0000 && Pow2(61) == 0x2000_0000_0000_0000
  {
    Pow2Words();
    Pow2Add(8, 4);
    Pow2Add(16, 12);
    Pow2Add(32, 28);
  }

  /** The lists of the example: two self-loops, key 0 on cell 0 and key 2 on cell 1. */
  lemma ExampleEdges(c: nat)
    ensures var keys: seq<u32> := [5, 5, 7];
      EdgesAt(keys, CreateUhf(EXAMPLE_DRAW, 4), CreateUhf(EXAMPLE_DRAW + 1, 4), c, 3)
        == (if c == 0 then [Edge(0, 0), Edge(0, 0)] else if c == 1 then [Edge(1, 2), Edge(1, 2)] else [])
  {
    var keys: seq<u32> := [5, 5, 7];
    var f0, f1 := CreateUhf(EXAMPLE_DRAW, 4), CreateUhf(EXAMPLE_DRAW + 1, 4);
    ExampleHashes();
    assert Dup(keys, 1) && !Dup(keys, 2);
    assert EdgesAt(keys, f0, f1, c, 1) == KeyEdges(0, 0, 0, c);
    assert EdgesAt(keys, f0, f1, c, 2) == EdgesAt(keys, f0, f1, c, 1);
    assert EdgesAt(keys, f0, f1, c, 3) == EdgesAt(keys, f0, f1, c, 2) + KeyEdges(1, 1, 2, c);
  }

  /** As written, the attempt on the example keeps ok (cell 1 is marked like
      the repeated key 1, so its self-loop is never examined) and then the
      final check throws for key 7, index 2, whose labels xor to 0. */
  method AliasedSelfLoopThrows() returns (r: Attempt)
    ensures r.Thrown? && r.index == 2 && r.got == 0 && r.key == 7
  {
    var keys: seq<u32> := [5, 5, 7];
    var f0, f1 := CreateUhf(EXAMPLE_DRAW, 4), CreateUhf(EXAMPLE_DRAW + 1, 4);
    ExampleHashes();
    Pow2Words();
    var labels;
    r, labels := CreateAttemptAsWritten(keys, 4, EXAMPLE_DRAW, EXAMPLE_DRAW + 1);
    forall u, j | !Dup(keys, u)
      ensures !Broken(keys, f0, f1, labels, u, j)
    {
      ExampleEdges(u);
      if u == 0 {
        XorBitsSelf(labels[0], 32);
      }
    }
    var p := PerfectHash(4, 15, f0, f1, labels);
    XorBitsSelf(labels[1], 32);
    XorBitsSelf(labels[0], 32);
    assert Evaluate(p, 7) == 0;
    assert Evaluate(p, 5) == 0;
    assert !Dup(keys, 2) && !Dup(keys, 0) && Dup(keys, 1);
  }

  /** With the marker kept per key, the same input retries: cell 1 is
      labelled and its self-loop for index 2 is found inconsistent. */
  method SelfLoopRetries() returns (r: Attempt)
    ensures r.Retry?
  {
    var keys: seq<u32> := [5, 5, 7];
    var f0, f1 := CreateUhf(EXAMPLE_DRAW, 4), CreateUhf(EXAMPLE_DRAW + 1, 4);
    ExampleHashes();
    Pow2Words();
    var labels;
    r, labels := CreateAttempt(keys, 4, EXAMPLE_DRAW, EXAMPLE_DRAW + 1);
    ExampleEdges(1);
    XorBitsSelf(labels[1], 32);
    assert Broken(keys, f0, f1, labels, 1, 0);
  }
}
