/** The RAM block device: what a queue of requests does to the disk, and the request loop.

    The block layer is not part of this model; what the driver uses of it is assumed here:
    `blk_fetch_request` takes the next request off the queue; `__blk_end_request_cur` ends the
    request's current segment, moves its position on by the segment's sectors and says whether
    bytes are left; a request has at least one segment and segments are whole sectors. */
module BlockDevice {
  import opened Bytes

  const SIMP_BLKDEV_BYTES: nat := 16 * 1024 * 1024
  const CAPACITY: nat := SIMP_BLKDEV_BYTES / 512
  const WORD: nat := 0x1_0000_0000_0000_0000

  /** A request: `cur` of its segments have been ended, and `pos` is the sector it has got to.
      For a write the segments hold the data, for a read they are the buffers to fill. */
  datatype Request = Request(id: nat, write: bool, pos: nat, segs: seq<seq<byte>>, cur: nat)

  /** The bytes the request has still to move. */
  function RqBytes(r: Request): nat
    requires r.cur <= |r.segs|
  {
    |Concat(r.segs[r.cur..])|
  }

  /** A segment is one or more whole sectors of 512 bytes. */
  predicate WholeSector(seg: seq<byte>) {
    |seg| > 0 && |seg| % 512 == 0
  }

  predicate WholeSectors(segs: seq<seq<byte>>) {
    forall i {:trigger WholeSector(segs[i])} :: 0 <= i < |segs| ==> WholeSector(segs[i])
  }

  /** What the block layer hands out: a fresh request, with a byte address and a byte count the
      driver's integer types can hold. */
  predicate Fresh(r: Request) {
    && r.cur == 0 && r.segs != []
    && WholeSectors(r.segs)
    && |Concat(r.segs)| < 0x1_0000_0000
    && 512 * r.pos + |Concat(r.segs)| < WORD
  }

  predicate InRange(size: nat, r: Request) {
    512 * r.pos + |Concat(r.segs)| <= size
  }

  /** The driver's guard in 64-bit arithmetic: reject if the shifted sector plus the byte count
      is beyond the end. */
  function GuardSum(pos: nat, bytes: nat): nat {
    ((pos * 512) % WORD + bytes) % WORD
  }

  predicate Rejects(size: nat, pos: nat, bytes: nat) {
    GuardSum(pos, bytes) > size
  }

  /** For requests whose end fits 64 bits the guard is the unbounded comparison. */
  lemma GuardExact(size: nat, pos: nat, bytes: nat)
    requires 512 * pos + bytes < WORD
    ensures Rejects(size, pos, bytes) <==> 512 * pos + bytes > size
  {
  }

  lemma {:induction false} ModShift(x: nat, q: nat)
    ensures (x + q * WORD) % WORD == x % WORD
    decreases q
  {
    if q == 0 {
    } else {
      ModShift(x, q - 1);
      assert (x + q * WORD) == (x + (q - 1) * WORD) + WORD;
    }
  }

  /** Sector numbers 2^55 apart have the same shifted value. */
  const LAP: nat := 0x80_0000_0000_0000

  lemma ShiftedLap(pos: nat)
    ensures (pos * 512) % WORD == 512 * (pos % LAP)
  {
    var q := pos / LAP;
    assert pos * 512 == 512 * (pos % LAP) + q * WORD;
    ModShift(512 * (pos % LAP), q);
  }

  /** In general it differs from the unbounded comparison exactly for the sectors that have gone
      round past 2^55 back onto the disk, or whose request runs over that end back onto it. */
  lemma GuardAgrees(size: nat, pos: nat, bytes: nat)
    requires size < WORD && bytes < WORD
    ensures var at := 512 * (pos % LAP);
            !(Rejects(size, pos, bytes) <==> 512 * pos + bytes > size)
            <==> (pos >= LAP && at + bytes <= size) || (at + bytes >= WORD && at + bytes - WORD <= size)
  {
    ShiftedLap(pos);
    var at := 512 * (pos % LAP);
    assert at + bytes >= WORD ==> (at + bytes) % WORD == at + bytes - WORD;
    assert pos < LAP ==> pos % LAP == pos;
  }

  /** A sector that has gone round: the guard lets it pass.  It is far beyond the capacity set, so
      the block layer does not hand it out. */
  lemma GuardWraps()
    ensures var pos := 0x80_0000_0000_0000;
            !Rejects(SIMP_BLKDEV_BYTES, pos, 512) && 512 * pos + 512 > SIMP_BLKDEV_BYTES && pos + 1 > CAPACITY
  {
  }

  /** The guard accepts just the requests within the capacity the driver sets. */
  lemma CapacityAccepted(r: Request)
    requires Fresh(r)
    ensures !Rejects(SIMP_BLKDEV_BYTES, r.pos, |Concat(r.segs)|) <==> r.pos + |Concat(r.segs)| / 512 <= CAPACITY
  {
    SectorsOnly(r.segs);
  }

  lemma {:induction false} SectorsOnly(segs: seq<seq<byte>>)
    requires WholeSectors(segs)
    ensures |Concat(segs)| % 512 == 0
  {
    if segs == [] {
    } else {
      var rest := segs[1..];
      assert WholeSector(segs[0]);
      assert forall i :: 0 <= i < |rest| ==> rest[i] == segs[i + 1] && WholeSector(segs[i + 1]);
      SectorsOnly(rest);
      assert |Concat(segs)| == |segs[0]| + |Concat(rest)|;
    }
  }

  /** `__blk_end_request_cur`: the assumed effect on the request. */
  function EndCur(r: Request): (e: Request)
    requires r.cur < |r.segs|
  {
    Request(r.id, r.write, r.pos + |r.segs[r.cur]| / 512, r.segs, r.cur + 1)
  }

  // ---- what requests mean --------------------------------------------------------------------

  /** `flat` cut into pieces of the lengths of `shape`. */
  function Cut(flat: seq<byte>, shape: seq<seq<byte>>): (r: seq<seq<byte>>)
    requires |flat| == |Concat(shape)|
    ensures |r| == |shape| && Concat(r) == flat
    ensures forall i :: 0 <= i < |r| ==> |r[i]| == |shape[i]|
  {
    if shape == [] then []
    else [flat[..|shape[0]|]] + Cut(flat[|shape[0]|..], shape[1..])
  }

  /** The byte address of a request. */
  function Addr(r: Request): nat {
    512 * r.pos
  }

  /** The disk after one fetched request: an in-range write puts its bytes in place. */
  function DiskWith(disk: seq<byte>, r: Request): (d: seq<byte>)
    requires Fresh(r)
    ensures |d| == |disk|
  {
    if r.write && InRange(|disk|, r) then Store(disk, Addr(r), Concat(r.segs)) else disk
  }

  /** The request afterwards: a read has its buffers filled.  A request beyond the end moves no
      data, and only its first segment is ended. */
  function DoneWith(disk: seq<byte>, r: Request): Request
    requires Fresh(r)
  {
    if !InRange(|disk|, r) then EndCur(r)
    else
      var n := |Concat(r.segs)|;
      var segs := if r.write then r.segs else Cut(disk[Addr(r)..Addr(r) + n], r.segs);
      Request(r.id, r.write, r.pos + n / 512, segs, |r.segs|)
  }

  predicate AllFresh(q: seq<Request>) {
    forall i :: 0 <= i < |q| ==> Fresh(q[i])
  }

  /** The disk after the first `n` requests of the queue. */
  function DiskAfter(disk: seq<byte>, q: seq<Request>, n: nat): (r: seq<byte>)
    requires AllFresh(q) && n <= |q|
    ensures |r| == |disk|
  {
    if n == 0 then disk else DiskWith(DiskAfter(disk, q, n - 1), q[n - 1])
  }

  /** The `i`-th request as the driver leaves it. */
  function LeftAs(disk: seq<byte>, q: seq<Request>, i: nat): Request
    requires AllFresh(q) && i < |q|
  {
    DoneWith(DiskAfter(disk, q, i), q[i])
  }

  function AllLeft(disk: seq<byte>, q: seq<Request>, n: nat): (r: seq<Request>)
    requires AllFresh(q) && n <= |q|
    ensures |r| == n && forall i :: 0 <= i < n ==> r[i] == LeftAs(disk, q, i)
  {
    seq(n, i requires 0 <= i < n => LeftAs(disk, q, i))
  }

  lemma DiskNext(disk: seq<byte>, q: seq<Request>, n: nat)
    requires AllFresh(q) && n < |q|
    ensures DiskAfter(disk, q, n + 1) == DiskWith(DiskAfter(disk, q, n), q[n])
  {
  }

  lemma AllLeftNext(disk: seq<byte>, q: seq<Request>, n: nat)
    requires AllFresh(q) && n < |q|
    ensures AllLeft(disk, q, n + 1) == AllLeft(disk, q, n) + [LeftAs(disk, q, n)]
  {
    OneMore(AllLeft(disk, q, n), AllLeft(disk, q, n + 1));
  }

  lemma OneMore(short: seq<Request>, long: seq<Request>)
    requires |long| == |short| + 1 && forall i :: 0 <= i < |short| ==> short[i] == long[i]
    ensures long == short + [long[|short|]]
  {
  }

  // ---- the driver ----------------------------------------------------------------------------

  class BlkDev {
    const data: array<byte>
    var queue: seq<Request>
    var ended: seq<Request>     // every fetched request, as the driver left it

    constructor ()
      ensures data.Length == SIMP_BLKDEV_BYTES == 0x100_0000 && forall i :: 0 <= i < data.Length ==> data[i] == 0
      ensures queue == [] && ended == [] && fresh(data)
    {
      data := new byte[SIMP_BLKDEV_BYTES](i => 0);
      queue, ended := [], [];
    }

    method MemcpyToDisk(at: nat, bytes: seq<byte>)
      requires at + |bytes| <= data.Length
      modifies data
      ensures data[..] == Store(old(data[..]), at, bytes)
    {
      ghost var before := data[..];
      forall i | 0 <= i < |bytes| {
        data[at + i] := bytes[i];
      }
      assert forall x :: 0 <= x < |before| ==> data[..][x] == Store(before, at, bytes)[x];
    }

    /** The WRITE loop: a segment a time, to the place the request has got to. */
    method WriteSegments(r: Request) returns (done: Request)
      requires Fresh(r) && r.write && InRange(data.Length, r)
      modifies data
      ensures data[..] == DiskWith(old(data[..]), r) && done == DoneWith(old(data[..]), r)
    {
      ghost var before := data[..];
      var req := r;
      var more := true;
      StoreNothing(before, Addr(r));
      while more
        invariant WrittenSoFar(before, data[..], r, req)
        invariant more <==> req.cur < |r.segs|
        decreases |r.segs| - req.cur
      {
        WriteNext(before, data[..], r, req);
        MemcpyToDisk(Addr(req), req.segs[req.cur]);
        req := EndCur(req);
        more := req.cur < |req.segs|;
      }
      WriteAll(before, data[..], r, req);
      done := req;
    }

    /** The READ loop: the request's next buffer is filled from the place it has got to. */
    method ReadSegments(r: Request) returns (done: Request)
      requires Fresh(r) && !r.write && InRange(data.Length, r)
      ensures data[..] == DiskWith(data[..], r) && done == DoneWith(data[..], r)
    {
      var req := r;
      var more := true;
      while more
        invariant ReadSoFar(data[..], r, req)
        invariant more <==> req.cur < |r.segs|
        decreases |r.segs| - req.cur
      {
        ReadNext(data[..], r, req);
        var at, len := Addr(req), |req.segs[req.cur]|;
        ghost var next := FillCur(data[..], req);
        req := req.(segs := req.segs[req.cur := data[at..at + len]]);   // memcpy to bio_data
        req := EndCur(req);
        assert req == next;
        more := req.cur < |req.segs|;
      }
      ReadAll(data[..], r, req);
      done := req;
    }

    /** One turn of the request loop, after the fetch. */
    method ServeOne(req: Request) returns (done: Request)
      requires Fresh(req) && data.Length < WORD
      modifies data
      ensures data[..] == DiskWith(old(data[..]), req) && done == DoneWith(old(data[..]), req)
    {
      assert req.segs[0..] == req.segs;
      GuardExact(data.Length, req.pos, RqBytes(req));
      if Rejects(data.Length, req.pos, RqBytes(req)) {
        done := EndCur(req);
      } else if req.write {
        done := WriteSegments(req);
      } else {
        done := ReadSegments(req);
      }
    }

    /** `simp_blkdev_do_request`. */
    method DoRequest()
      requires AllFresh(queue) && data.Length < WORD
      modifies this`queue, this`ended, data
      ensures queue == []
      ensures data[..] == DiskAfter(old(data[..]), old(queue), |old(queue)|)
      ensures ended == old(ended) + AllLeft(old(data[..]), old(queue), |old(queue)|)
    {
      ghost var disk, q, was := data[..], queue, ended;
      ghost var k := 0;
      while queue != []
        invariant 0 <= k <= |q| && queue == q[k..]
        invariant data[..] == DiskAfter(disk, q, k)
        invariant ended == was + AllLeft(disk, q, k)
        decreases |queue|
      {
        assert q[k..][1..] == q[k + 1..];
        var req := queue[0];            // blk_fetch_request
        queue := queue[1..];
        assert req == q[k];
        var done := ServeOne(req);
        assert done == LeftAs(disk, q, k);
        ended := ended + [done];
        DiskNext(disk, q, k);
        AllLeftNext(disk, q, k);
        k := k + 1;
      }
    }
  }

  /** A write request with its first `cur` segments on the disk. */
  ghost predicate WrittenSoFar(before: seq<byte>, disk: seq<byte>, r: Request, req: Request) {
    && Fresh(r) && InRange(|before|, r) && r.write
    && req.cur <= |r.segs| && req.segs == r.segs && req.id == r.id && req.write == r.write
    && Addr(req) == Addr(r) + |Concat(r.segs[..req.cur])| <= |before|
    && disk == Store(before, Addr(r), Concat(r.segs[..req.cur]))
  }

  lemma WriteNext(before: seq<byte>, disk: seq<byte>, r: Request, req: Request)
    requires WrittenSoFar(before, disk, r, req) && req.cur < |r.segs|
    ensures var bytes := req.segs[req.cur];
            && Addr(req) + |bytes| <= |disk|
            && WrittenSoFar(before, Store(disk, Addr(req), bytes), r, EndCur(req))
  {
    SegmentNext(r, req.cur);
    StoreAppend(before, Addr(r), Concat(r.segs[..req.cur]), r.segs[req.cur]);
  }

  lemma WriteAll(before: seq<byte>, disk: seq<byte>, r: Request, req: Request)
    requires WrittenSoFar(before, disk, r, req) && req.cur == |r.segs|
    ensures disk == DiskWith(before, r) && req == DoneWith(before, r)
  {
    assert r.segs[..req.cur] == r.segs;
    SectorsOnly(r.segs);
  }

  /** A read request with its first `cur` buffers filled from the disk. */
  ghost predicate ReadSoFar(disk: seq<byte>, r: Request, req: Request) {
    && Fresh(r) && InRange(|disk|, r) && !r.write
    && req.cur <= |r.segs| == |req.segs| && req.id == r.id && req.write == r.write
    && (forall i :: 0 <= i < |r.segs| ==> |req.segs[i]| == |r.segs[i]|)
    && Addr(req) == Addr(r) + |Concat(r.segs[..req.cur])| <= |disk|
    && Concat(req.segs[..req.cur]) == disk[Addr(r)..Addr(req)]
  }

  /** The request with its next buffer filled and ended. */
  function FillCur(disk: seq<byte>, req: Request): Request
    requires req.cur < |req.segs| && Addr(req) + |req.segs[req.cur]| <= |disk|
  {
    EndCur(req.(segs := req.segs[req.cur := disk[Addr(req)..Addr(req) + |req.segs[req.cur]|]]))
  }

  /** Filling the `k`-th buffer keeps those before it and all lengths. */
  lemma FillNext(segs: seq<seq<byte>>, k: nat, bytes: seq<byte>)
    requires k < |segs| && |bytes| == |segs[k]|
    ensures var filled := segs[k := bytes];
            && Concat(filled[..k + 1]) == Concat(segs[..k]) + bytes
            && forall i :: 0 <= i < |segs| ==> |filled[i]| == |segs[i]|
  {
    var filled := segs[k := bytes];
    assert filled[..k] == segs[..k];
    ConcatSnoc(filled, k);
  }

  lemma ReadNext(disk: seq<byte>, r: Request, req: Request)
    requires ReadSoFar(disk, r, req) && req.cur < |r.segs|
    ensures var at, len := Addr(req), |req.segs[req.cur]|;
            at + len <= |disk| && ReadSoFar(disk, r, FillCur(disk, req))
  {
    var at, len, k := Addr(req), |req.segs[req.cur]|, req.cur;
    ReadFits(disk, r, req);
    FillNext(req.segs, k, disk[at..at + len]);
    SliceOn(disk, Addr(r), at, at + len);
  }

  /** The next buffer's bytes lie on the disk, and end where the segments so far do. */
  lemma ReadFits(disk: seq<byte>, r: Request, req: Request)
    requires ReadSoFar(disk, r, req) && req.cur < |r.segs|
    ensures var at, len, k := Addr(req), |req.segs[req.cur]|, req.cur;
            && at + len == Addr(r) + |Concat(r.segs[..k + 1])| <= |disk|
            && at + len == Addr(FillCur(disk, req))
  {
    SegmentNext(r, req.cur);
  }

  lemma ReadAll(disk: seq<byte>, r: Request, req: Request)
    requires ReadSoFar(disk, r, req) && req.cur == |r.segs|
    ensures disk == DiskWith(disk, r) && req == DoneWith(disk, r)
  {
    var n := |Concat(r.segs)|;
    assert r.segs[..req.cur] == r.segs && req.segs[..req.cur] == req.segs;
    CutUnique(disk[Addr(r)..Addr(r) + n], r.segs, req.segs);
    SectorsOnly(r.segs);
  }

  /** The segment the request has got to lies behind those before it and inside the request. */
  lemma SegmentNext(r: Request, k: nat)
    requires Fresh(r) && k < |r.segs|
    ensures Concat(r.segs[..k + 1]) == Concat(r.segs[..k]) + r.segs[k]
    ensures |Concat(r.segs[..k + 1])| <= |Concat(r.segs)|
    ensures 512 * (|r.segs[k]| / 512) == |r.segs[k]|
  {
    assert WholeSector(r.segs[k]);
    ConcatSnoc(r.segs, k);
    ConcatAppend(r.segs[..k + 1], r.segs[k + 1..]);
    assert r.segs[..k + 1] + r.segs[k + 1..] == r.segs;
  }

  /** There is only one way to cut bytes into pieces of given lengths. */
  lemma {:induction false} CutUnique(flat: seq<byte>, shape: seq<seq<byte>>, pieces: seq<seq<byte>>)
    requires |flat| == |Concat(shape)| && |pieces| == |shape| && Concat(pieces) == flat
    requires forall i :: 0 <= i < |shape| ==> |pieces[i]| == |shape[i]|
    ensures pieces == Cut(flat, shape)
  {
    if shape == [] {
    } else {
      assert flat[..|shape[0]|] == pieces[0];
      assert flat[|shape[0]|..] == Concat(pieces[1..]);
      CutUnique(flat[|shape[0]|..], shape[1..], pieces[1..]);
    }
  }
}
