/** The request queue as a flat disk: what reads return, when the fetch order matters, and that
    the way bytes are cut into segments and requests does not. */
module BlockOrder {
  import opened Bytes
  import opened BlockDevice

  function Size(r: Request): nat {
    |Concat(r.segs)|
  }

  function Data(r: Request): seq<byte> {
    Concat(r.segs)
  }

  /** The request lies on the disk and touches the byte at `x`. */
  predicate Touches(size: nat, r: Request, x: nat) {
    InRange(size, r) && Addr(r) <= x < Addr(r) + Size(r)
  }

  /** The byte the request puts at `x`, if it writes there. */
  function Put(size: nat, r: Request, x: nat): Option<byte> {
    if r.write && Touches(size, r, x) then Some(Data(r)[x - Addr(r)]) else None
  }

  /** Request `i` is the most recent of the first `n` to write at `x`. */
  predicate MostRecent(size: nat, q: seq<Request>, n: nat, x: nat, i: nat)
    requires n <= |q|
  {
    i < n && Put(size, q[i], x).Some? && forall j :: i < j < n ==> Put(size, q[j], x) == None
  }

  predicate NeverWritten(size: nat, q: seq<Request>, n: nat, x: nat)
    requires n <= |q|
  {
    forall j :: 0 <= j < n ==> Put(size, q[j], x) == None
  }

  /** `b` is what the most recent of the first `n` requests to write at `x` put there, or the
      byte the disk had before if there was none. */
  ghost predicate Latest(disk: seq<byte>, q: seq<Request>, n: nat, x: nat, b: byte)
    requires n <= |q| && x < |disk|
  {
    || (NeverWritten(|disk|, q, n, x) && b == disk[x])
    || (exists i: nat :: MostRecent(|disk|, q, n, x, i) && Put(|disk|, q[i], x) == Some(b))
  }

  lemma ServePut(disk: seq<byte>, r: Request, x: nat)
    requires Fresh(r) && x < |disk|
    ensures DiskWith(disk, r)[x] == match Put(|disk|, r, x) { case None => disk[x] case Some(b) => b }
  {
  }

  lemma LatestSnoc(disk: seq<byte>, q: seq<Request>, n: nat, x: nat, b: byte)
    requires n < |q| && x < |disk| && Latest(disk, q, n, x, b)
    ensures Latest(disk, q, n + 1, x, match Put(|disk|, q[n], x) { case None => b case Some(b') => b' })
  {
  }

  lemma LatestServed(disk: seq<byte>, before: seq<byte>, q: seq<Request>, n: nat, x: nat)
    requires AllFresh(q) && n < |q| && |before| == |disk| && x < |disk| && Latest(disk, q, n, x, before[x])
    ensures Latest(disk, q, n + 1, x, DiskWith(before, q[n])[x])
  {
    ServePut(before, q[n], x);
    LatestSnoc(disk, q, n, x, before[x]);
  }

  lemma NothingYet(disk: seq<byte>, q: seq<Request>, x: nat)
    requires x < |disk|
    ensures Latest(disk, q, 0, x, disk[x])
  {
  }

  /** The disk after the first `n` requests, byte by byte. */
  lemma {:induction false} DiskIsLatest(disk: seq<byte>, q: seq<Request>, n: nat, x: nat)
    requires AllFresh(q) && n <= |q| && x < |disk|
    ensures Latest(disk, q, n, x, DiskAfter(disk, q, n)[x])
    decreases n
  {
    if n == 0 {
      NothingYet(disk, q, x);
    } else {
      DiskIsLatest(disk, q, n - 1, x);
      LatestServed(disk, DiskAfter(disk, q, n - 1), q, n - 1, x);
    }
  }

  /** There is only one such byte. */
  lemma LatestUnique(disk: seq<byte>, q: seq<Request>, n: nat, x: nat, a: byte, b: byte)
    requires n <= |q| && x < |disk| && Latest(disk, q, n, x, a) && Latest(disk, q, n, x, b)
    ensures a == b
  {
  }

  lemma ServeRead(disk: seq<byte>, r: Request)
    requires Fresh(r) && !r.write && InRange(|disk|, r)
    ensures Data(DoneWith(disk, r)) == disk[Addr(r)..Addr(r) + Size(r)]
  {
  }

  /** The queue refines a flat disk: every in-range read in the queue gets, for each of its bytes,
      the byte of the most recent earlier write there, or the initial byte. */
  lemma ReadsGetLatest(disk: seq<byte>, q: seq<Request>, i: nat, k: nat)
    requires AllFresh(q) && i < |q| && !q[i].write && InRange(|disk|, q[i]) && k < Size(q[i])
    ensures var done := LeftAs(disk, q, i);
            Size(done) == Size(q[i]) && Latest(disk, q, i, Addr(q[i]) + k, Data(done)[k])
  {
    var x := Addr(q[i]) + k;
    var before := DiskAfter(disk, q, i);
    ServeRead(before, q[i]);
    DiskIsLatest(disk, q, i, x);
    assert Data(LeftAs(disk, q, i))[k] == before[x];
  }

  /** How a request is left: all its segments ended, unless it reached beyond the disk; then only
      the first one is, and its data is untouched. */
  lemma Completion(disk: seq<byte>, q: seq<Request>, i: nat)
    requires AllFresh(q) && i < |q|
    ensures var r, done := q[i], LeftAs(disk, q, i);
            && done.id == r.id && |done.segs| == |r.segs|
            && (forall j :: 0 <= j < |r.segs| ==> |done.segs[j]| == |r.segs[j]|)
            && (InRange(|disk|, r) ==> done.cur == |r.segs| && Addr(done) == Addr(r) + Size(r))
            && (!InRange(|disk|, r) ==> done.cur == 1 && done.segs == r.segs && Addr(done) == Addr(r) + |r.segs[0]|)
            && (r.write ==> done.segs == r.segs)
  {
    SectorsOnly(q[i].segs);
    assert WholeSector(q[i].segs[0]);
  }

  /** Within the capacity the driver sets, every request is ended with exactly its bytes. */
  lemma CompletionUnderCapacity(disk: seq<byte>, q: seq<Request>, i: nat)
    requires AllFresh(q) && i < |q| && |disk| == SIMP_BLKDEV_BYTES
    requires q[i].pos + Size(q[i]) / 512 <= CAPACITY
    ensures var done := LeftAs(disk, q, i);
            && done.cur == |done.segs| == |q[i].segs| && RqBytes(done) == 0
            && Addr(done) == Addr(q[i]) + Size(q[i])
  {
    CapacityAccepted(q[i]);
    SectorsOnly(q[i].segs);
    Completion(disk, q, i);
    var done := LeftAs(disk, q, i);
    assert done.segs[done.cur..] == [];
  }

  // ---- fetch order ---------------------------------------------------------------------------

  /** The two overlap and at least one writes. */
  predicate Conflict(size: nat, a: Request, b: Request) {
    && (a.write || b.write)
    && InRange(size, a) && InRange(size, b)
    && Addr(a) < Addr(b) + Size(b) && Addr(b) < Addr(a) + Size(a)
  }

  /** `q2` is `q1` in another order: its `k`-th request is the `to[k]`-th of `q1`. */
  ghost predicate Reordered(q1: seq<Request>, q2: seq<Request>, to: seq<nat>, from: seq<nat>) {
    && |q1| == |q2| == |to| == |from|
    && (forall k :: 0 <= k < |to| ==> to[k] < |q1| && q2[k] == q1[to[k]] && from[to[k]] == k)
    && (forall i :: 0 <= i < |from| ==> from[i] < |q2| && to[from[i]] == i)
  }

  /** Conflicting requests are fetched in the same order in both. */
  ghost predicate KeepsConflicts(size: nat, q2: seq<Request>, to: seq<nat>)
    requires |to| == |q2|
  {
    forall k, l :: 0 <= k < l < |q2| && Conflict(size, q2[k], q2[l]) ==> to[k] < to[l]
  }

  lemma TouchConflict(size: nat, a: Request, b: Request, x: nat)
    requires Put(size, a, x).Some? && Touches(size, b, x)
    ensures Conflict(size, a, b) && Conflict(size, b, a)
  {
  }

  /** The most recent write before a request at a byte it touches is the same one in both. */
  lemma MostRecentMoves(size: nat, q1: seq<Request>, q2: seq<Request>, to: seq<nat>, from: seq<nat>,
                        k: nat, x: nat, i: nat)
    requires Reordered(q1, q2, to, from) && KeepsConflicts(size, q2, to)
    requires k < |q2| && Touches(size, q2[k], x) && MostRecent(size, q1, to[k], x, i)
    ensures MostRecent(size, q2, k, x, from[i])
  {
  }

  lemma NeverMoves(size: nat, q1: seq<Request>, q2: seq<Request>, to: seq<nat>, from: seq<nat>, k: nat, x: nat)
    requires Reordered(q1, q2, to, from) && KeepsConflicts(size, q2, to)
    requires k < |q2| && Touches(size, q2[k], x) && NeverWritten(size, q1, to[k], x)
    ensures NeverWritten(size, q2, k, x)
  {
  }

  /** The last write of all at `x` is the same one in both. */
  lemma LastMoves(size: nat, q1: seq<Request>, q2: seq<Request>, to: seq<nat>, from: seq<nat>, x: nat, i: nat)
    requires Reordered(q1, q2, to, from) && KeepsConflicts(size, q2, to)
    requires MostRecent(size, q1, |q1|, x, i)
    ensures MostRecent(size, q2, |q2|, x, from[i])
  {
  }

  lemma LatestMovesFinal(disk: seq<byte>, q1: seq<Request>, q2: seq<Request>, to: seq<nat>, from: seq<nat>,
                         x: nat, b: byte)
    requires x < |disk| && Reordered(q1, q2, to, from) && KeepsConflicts(|disk|, q2, to)
    requires Latest(disk, q1, |q1|, x, b)
    ensures Latest(disk, q2, |q2|, x, b)
  {
    if i: nat :| MostRecent(|disk|, q1, |q1|, x, i) && Put(|disk|, q1[i], x) == Some(b) {
      LastMoves(|disk|, q1, q2, to, from, x, i);
      assert q2[from[i]] == q1[to[from[i]]];
    } else {
      assert forall j :: 0 <= j < |q2| ==> q2[j] == q1[to[j]];
      assert NeverWritten(|disk|, q2, |q2|, x);
    }
  }

  /** Reordering safety: two fetch orders of the same requests that agree on every conflicting
      pair leave the same byte everywhere on the disk... */
  lemma ReorderingKeepsDisk(disk: seq<byte>, q1: seq<Request>, q2: seq<Request>, to: seq<nat>, from: seq<nat>, x: nat)
    requires AllFresh(q1) && AllFresh(q2) && x < |disk|
    requires Reordered(q1, q2, to, from) && KeepsConflicts(|disk|, q2, to)
    ensures DiskAfter(disk, q2, |q2|)[x] == DiskAfter(disk, q1, |q1|)[x]
  {
    DiskIsLatest(disk, q1, |q1|, x);
    DiskIsLatest(disk, q2, |q2|, x);
    var b := DiskAfter(disk, q1, |q1|)[x];
    LatestMovesFinal(disk, q1, q2, to, from, x, b);
    LatestUnique(disk, q2, |q2|, x, DiskAfter(disk, q2, |q2|)[x], b);
  }

  /** What a request leaves of itself depends only on the bytes it touches. */
  lemma ServeDependsOn(e1: seq<byte>, e2: seq<byte>, r: Request)
    requires Fresh(r) && |e1| == |e2|
    requires InRange(|e1|, r) ==> e1[Addr(r)..Addr(r) + Size(r)] == e2[Addr(r)..Addr(r) + Size(r)]
    ensures DoneWith(e1, r) == DoneWith(e2, r)
  {
  }

  /** ...and leave every request, with the data it read, the same. */
  lemma ReorderingKeepsRequests(disk: seq<byte>, q1: seq<Request>, q2: seq<Request>, to: seq<nat>, from: seq<nat>,
                                k: nat)
    requires AllFresh(q1) && AllFresh(q2) && k < |q2|
    requires Reordered(q1, q2, to, from) && KeepsConflicts(|disk|, q2, to)
    ensures LeftAs(disk, q2, k) == LeftAs(disk, q1, to[k])
  {
    var r := q2[k];
    assert r == q1[to[k]];
    var e1, e2 := DiskAfter(disk, q1, to[k]), DiskAfter(disk, q2, k);
    if InRange(|disk|, r) {
      forall x | Addr(r) <= x < Addr(r) + Size(r)
        ensures e1[x] == e2[x]
      {
        SameByteFound(disk, q1, q2, to, from, k, x);
      }
      assert e1[Addr(r)..Addr(r) + Size(r)] == e2[Addr(r)..Addr(r) + Size(r)];
    }
    ServeDependsOn(e1, e2, r);
  }

  lemma LatestMoves(disk: seq<byte>, q1: seq<Request>, q2: seq<Request>, to: seq<nat>, from: seq<nat>,
                    k: nat, x: nat, b: byte)
    requires k < |q2| && x < |disk| && Touches(|disk|, q2[k], x)
    requires Reordered(q1, q2, to, from) && KeepsConflicts(|disk|, q2, to)
    requires Latest(disk, q1, to[k], x, b)
    ensures Latest(disk, q2, k, x, b)
  {
    if i: nat :| MostRecent(|disk|, q1, to[k], x, i) && Put(|disk|, q1[i], x) == Some(b) {
      MostRecentMoves(|disk|, q1, q2, to, from, k, x, i);
      assert q2[from[i]] == q1[to[from[i]]];
    } else {
      NeverMoves(|disk|, q1, q2, to, from, k, x);
    }
  }

  lemma SameByteFound(disk: seq<byte>, q1: seq<Request>, q2: seq<Request>, to: seq<nat>, from: seq<nat>, k: nat, x: nat)
    requires AllFresh(q1) && AllFresh(q2) && k < |q2| && x < |disk| && Touches(|disk|, q2[k], x)
    requires Reordered(q1, q2, to, from) && KeepsConflicts(|disk|, q2, to)
    ensures DiskAfter(disk, q2, k)[x] == DiskAfter(disk, q1, to[k])[x]
  {
    DiskIsLatest(disk, q1, to[k], x);
    DiskIsLatest(disk, q2, k, x);
    var b := DiskAfter(disk, q1, to[k])[x];
    LatestMoves(disk, q1, q2, to, from, k, x, b);
    LatestUnique(disk, q2, k, x, DiskAfter(disk, q2, k)[x], b);
  }

  /** Two requests, one after the other: at each byte the second one's counts, then the first's. */
  lemma TwoRequests(disk: seq<byte>, a: Request, b: Request, x: nat)
    requires Fresh(a) && Fresh(b) && x < |disk|
    ensures DiskAfter(disk, [a, b], 2)[x]
            == match Put(|disk|, b, x)
               case Some(v) => v
               case None => match Put(|disk|, a, x) { case Some(v) => v case None => disk[x] }
  {
    var q := [a, b];
    assert DiskAfter(disk, q, 1) == DiskWith(DiskAfter(disk, q, 0), q[0]);
    var d := DiskAfter(disk, q, 1);
    assert DiskAfter(disk, q, 2) == DiskWith(d, q[1]);
    ServePut(disk, a, x);
    ServePut(d, b, x);
  }

  /** The condition cannot be dropped: swapping two overlapping writes of different bytes changes
      the disk. */
  lemma SwappedWritesDiffer(disk: seq<byte>, a: Request, b: Request, x: nat)
    requires Fresh(a) && Fresh(b) && x < |disk|
    requires Put(|disk|, a, x).Some? && Put(|disk|, b, x).Some? && Put(|disk|, a, x) != Put(|disk|, b, x)
    ensures Conflict(|disk|, a, b)
    ensures DiskAfter(disk, [a, b], 2)[x] != DiskAfter(disk, [b, a], 2)[x]
  {
    TouchConflict(|disk|, a, b, x);
    TwoRequests(disk, a, b, x);
    TwoRequests(disk, b, a, x);
  }

  /** Request `a` reads a byte that `b` changes. */
  predicate Spoils(disk: seq<byte>, a: Request, b: Request, x: nat) {
    x < |disk| && !a.write && Touches(|disk|, a, x) && Put(|disk|, b, x).Some? && Put(|disk|, b, x) != Some(disk[x])
  }

  /** Both put a byte there, and not the same. */
  predicate Differ(disk: seq<byte>, a: Request, b: Request, x: nat) {
    Put(|disk|, a, x).Some? && Put(|disk|, b, x).Some? && Put(|disk|, a, x) != Put(|disk|, b, x)
  }

  /** A read gets the same bytes whether or not `b` is served before it, if and only if it reads
      none that `b` changes. */
  lemma ReadsTheSame(disk: seq<byte>, a: Request, b: Request)
    requires Fresh(a) && Fresh(b) && !a.write && InRange(|disk|, a)
    ensures DiskWith(disk, b)[Addr(a)..Addr(a) + Size(a)] == disk[Addr(a)..Addr(a) + Size(a)]
            <==> forall x: nat :: !Spoils(disk, a, b, x)
  {
    var after := DiskWith(disk, b);
    var from, to := Addr(a), Addr(a) + Size(a);
    forall x: nat | from <= x < to
      ensures after[x] != disk[x] <==> Spoils(disk, a, b, x)
    {
      ServePut(disk, b, x);
    }
    if x: nat :| Spoils(disk, a, b, x) {
      assert after[from..to][x - from] != disk[from..to][x - from];
    } else {
      assert after[from..to] == disk[from..to];
    }
  }

  /** So is a request left the same. */
  lemma LeftTheSame(disk: seq<byte>, a: Request, b: Request)
    requires Fresh(a) && Fresh(b)
    ensures DoneWith(DiskWith(disk, b), a) == DoneWith(disk, a) <==> forall x: nat :: !Spoils(disk, a, b, x)
  {
    var after := DiskWith(disk, b);
    if a.write || !InRange(|disk|, a) {
      ServeDependsOnNothing(disk, after, a);
    } else {
      ReadsTheSame(disk, a, b);
      ServeRead(disk, a);
      ServeRead(after, a);
      if after[Addr(a)..Addr(a) + Size(a)] == disk[Addr(a)..Addr(a) + Size(a)] {
        ServeDependsOn(after, disk, a);
      }
    }
  }

  lemma ServeDependsOnNothing(e1: seq<byte>, e2: seq<byte>, r: Request)
    requires Fresh(r) && |e1| == |e2| && (r.write || !InRange(|e1|, r))
    ensures DoneWith(e1, r) == DoneWith(e2, r)
  {
  }

  lemma DisksTheSame(disk: seq<byte>, a: Request, b: Request)
    requires Fresh(a) && Fresh(b)
    ensures DiskAfter(disk, [a, b], 2) == DiskAfter(disk, [b, a], 2) <==> forall x: nat :: !Differ(disk, a, b, x)
  {
    var ab, ba := DiskAfter(disk, [a, b], 2), DiskAfter(disk, [b, a], 2);
    forall x: nat | x < |disk|
      ensures ab[x] != ba[x] <==> Differ(disk, a, b, x)
    {
      TwoRequests(disk, a, b, x);
      TwoRequests(disk, b, a, x);
    }
    assert forall x: nat :: Differ(disk, a, b, x) ==> x < |disk|;
    if ab != ba {
      var x: nat :| x < |disk| && ab[x] != ba[x];
      assert Differ(disk, a, b, x);
    }
  }

  lemma LeftInOrder(disk: seq<byte>, a: Request, b: Request)
    requires Fresh(a) && Fresh(b)
    ensures LeftAs(disk, [a, b], 0) == DoneWith(disk, a)
    ensures LeftAs(disk, [a, b], 1) == DoneWith(DiskWith(disk, a), b)
  {
    assert DiskAfter(disk, [a, b], 1) == DiskWith(DiskAfter(disk, [a, b], 0), a);
  }

  /** Two requests leave the same disk and the same requests, with the data read, in both orders if
      and only if they put the same bytes wherever both write and neither reads a byte that the
      other changes. */
  lemma OrderMattersExactly(disk: seq<byte>, a: Request, b: Request)
    requires Fresh(a) && Fresh(b)
    ensures && DiskAfter(disk, [a, b], 2) == DiskAfter(disk, [b, a], 2)
            && LeftAs(disk, [a, b], 0) == LeftAs(disk, [b, a], 1)
            && LeftAs(disk, [a, b], 1) == LeftAs(disk, [b, a], 0)
            <==> forall x: nat :: !Differ(disk, a, b, x) && !Spoils(disk, a, b, x) && !Spoils(disk, b, a, x)
  {
    DisksTheSame(disk, a, b);
    LeftTheSame(disk, a, b);
    LeftTheSame(disk, b, a);
    LeftInOrder(disk, a, b);
    LeftInOrder(disk, b, a);
  }

  // ---- segmentation --------------------------------------------------------------------------

  /** Only the bytes matter, not how they are cut into segments. */
  lemma SegmentationIrrelevant(disk: seq<byte>, r: Request, r': Request)
    requires Fresh(r) && Fresh(r') && r.write == r'.write && r.pos == r'.pos
    requires if r.write then Data(r) == Data(r') else Size(r) == Size(r')
    ensures DiskWith(disk, r) == DiskWith(disk, r')
    ensures InRange(|disk|, r) ==> Data(DoneWith(disk, r)) == Data(DoneWith(disk, r'))
  {
  }

  function Datas(q: seq<Request>): (r: seq<seq<byte>>)
    ensures |r| == |q| && forall i :: 0 <= i < |q| ==> r[i] == Data(q[i])
  {
    seq(|q|, i requires 0 <= i < |q| => Data(q[i]))
  }

  /** Where the first `k` requests end if they follow each other from address `at` on. */
  function EndOf(at: nat, q: seq<Request>, k: nat): nat
    requires k <= |q|
  {
    at + |Concat(Datas(q[..k]))|
  }

  /** The requests follow each other on the disk without gap from address `at` on. */
  ghost predicate Adjacent(at: nat, q: seq<Request>) {
    forall i :: 0 <= i < |q| ==> Addr(q[i]) == EndOf(at, q, i)
  }

  lemma DatasSnoc(q: seq<Request>, k: nat)
    requires k < |q|
    ensures Concat(Datas(q[..k + 1])) == Concat(Datas(q[..k])) + Data(q[k])
  {
    assert Datas(q[..k + 1])[..k] == Datas(q[..k]);
    ConcatSnoc(Datas(q[..k + 1]), k);
    assert Datas(q[..k + 1])[..k + 1] == Datas(q[..k + 1]);
  }

  lemma {:induction false} AdjacentWrites(disk: seq<byte>, at: nat, q: seq<Request>, k: nat)
    requires AllFresh(q) && k <= |q| && Adjacent(at, q) && (forall i :: 0 <= i < |q| ==> q[i].write)
    requires at + |Concat(Datas(q[..k]))| <= |disk|
    ensures DiskAfter(disk, q, k) == Store(disk, at, Concat(Datas(q[..k])))
    decreases k
  {
    if k == 0 {
      assert q[..0] == [] && Datas(q[..0]) == [];
      StoreNothing(disk, at);
    } else {
      DatasSnoc(q, k - 1);
      AdjacentWrites(disk, at, q, k - 1);
      StoreAppend(disk, at, Concat(Datas(q[..k - 1])), Data(q[k - 1]));
    }
  }

  /** Splitting a write into adjacent writes, or merging them, gives the same disk. */
  lemma SplitWrite(disk: seq<byte>, whole: Request, parts: seq<Request>)
    requires Fresh(whole) && whole.write && InRange(|disk|, whole)
    requires AllFresh(parts) && (forall i :: 0 <= i < |parts| ==> parts[i].write)
    requires Adjacent(Addr(whole), parts) && Concat(Datas(parts)) == Data(whole)
    ensures DiskAfter(disk, parts, |parts|) == DiskWith(disk, whole)
  {
    assert parts[..|parts|] == parts;
    AdjacentWrites(disk, Addr(whole), parts, |parts|);
  }

  lemma {:induction false} ReadsKeepDisk(disk: seq<byte>, q: seq<Request>, n: nat)
    requires AllFresh(q) && n <= |q| && forall i :: 0 <= i < |q| ==> !q[i].write
    ensures DiskAfter(disk, q, n) == disk
    decreases n
  {
    if n == 0 {
    } else {
      ReadsKeepDisk(disk, q, n - 1);
    }
  }

  lemma ReadAlone(disk: seq<byte>, q: seq<Request>, m: nat)
    requires AllFresh(q) && m < |q| && (forall i :: 0 <= i < |q| ==> !q[i].write) && InRange(|disk|, q[m])
    ensures Data(LeftAs(disk, q, m)) == disk[Addr(q[m])..Addr(q[m]) + Size(q[m])]
  {
    ReadsKeepDisk(disk, q, m);
    ServeRead(disk, q[m]);
  }

  lemma AllLeftSnoc(disk: seq<byte>, q: seq<Request>, m: nat)
    requires AllFresh(q) && m < |q|
    ensures Concat(Datas(AllLeft(disk, q, m + 1))) == Concat(Datas(AllLeft(disk, q, m))) + Data(LeftAs(disk, q, m))
  {
    AllLeftNext(disk, q, m);
    DatasPlus(AllLeft(disk, q, m), LeftAs(disk, q, m));
  }

  lemma NoDatas(disk: seq<byte>, at: nat, q: seq<Request>)
    requires AllFresh(q)
    ensures EndOf(at, q, 0) == at && Concat(Datas(AllLeft(disk, q, 0))) == []
  {
  }

  lemma NextRead(disk: seq<byte>, at: nat, q: seq<Request>, m: nat)
    requires AllFresh(q) && m < |q| && Adjacent(at, q) && (forall i :: 0 <= i < |q| ==> !q[i].write)
    requires EndOf(at, q, m + 1) <= |disk|
    ensures at <= EndOf(at, q, m) <= EndOf(at, q, m + 1)
    ensures Data(LeftAs(disk, q, m)) == disk[EndOf(at, q, m)..EndOf(at, q, m + 1)]
  {
    DatasSnoc(q, m);
    assert Addr(q[m]) == EndOf(at, q, m);
    ReadAlone(disk, q, m);
  }

  lemma {:induction false} AdjacentReads(disk: seq<byte>, at: nat, q: seq<Request>, k: nat)
    requires AllFresh(q) && k <= |q| && Adjacent(at, q) && (forall i :: 0 <= i < |q| ==> !q[i].write)
    requires EndOf(at, q, k) <= |disk|
    ensures Concat(Datas(AllLeft(disk, q, k))) == disk[at..EndOf(at, q, k)]
    decreases k
  {
    if k == 0 {
      NoDatas(disk, at, q);
    } else {
      var m := k - 1;
      var mid, end := EndOf(at, q, m), EndOf(at, q, k);
      NextRead(disk, at, q, m);
      AdjacentReads(disk, at, q, m);
      AllLeftSnoc(disk, q, m);
      SliceOn(disk, at, mid, end);
      calc {
        Concat(Datas(AllLeft(disk, q, k)));
        Concat(Datas(AllLeft(disk, q, m))) + Data(LeftAs(disk, q, m));
        disk[at..mid] + disk[mid..end];
        disk[at..end];
      }
    }
  }

  lemma DatasPlus(q: seq<Request>, r: Request)
    ensures Concat(Datas(q + [r])) == Concat(Datas(q)) + Data(r)
  {
    DatasSnoc(q + [r], |q|);
    assert (q + [r])[..|q|] == q && (q + [r])[..|q| + 1] == q + [r];
  }

  /** Splitting a read into adjacent reads gives the same bytes. */
  lemma SplitRead(disk: seq<byte>, whole: Request, parts: seq<Request>)
    requires Fresh(whole) && !whole.write && InRange(|disk|, whole)
    requires AllFresh(parts) && (forall i :: 0 <= i < |parts| ==> !parts[i].write)
    requires Adjacent(Addr(whole), parts) && |Concat(Datas(parts))| == Size(whole)
    ensures Concat(Datas(AllLeft(disk, parts, |parts|))) == Data(DoneWith(disk, whole))
  {
    assert parts[..|parts|] == parts;
    AdjacentReads(disk, Addr(whole), parts, |parts|);
    ServeRead(disk, whole);
  }
}
