/** The shared-memory character device: one call at a time.

    `Atomic` is the meaning of a whole system call; the class `ShareDevice` is the driver's
    own code, with its byte loops, proved to compute it.  The interleaved behaviour of the same
    code is in module `Threads`. */
module SharedMemory {
  import opened Bytes

  const MEM_SIZE: nat := 128
  const EFAULT: int := 14
  const EINVAL: int := 22

  const TWO32: int := 0x1_0000_0000
  const TWO63: int := 0x8000_0000_0000_0000

  /** A system call on an open file.  `room` is how many bytes of the caller's read buffer are
      writable: `copy_to_user` fails when it runs past them.  `data` is what the copies of a write
      store: a byte that cannot be copied in is the zero that `copy_from_user` leaves for it, and
      the driver goes on and returns the count all the same. */
  datatype Call =
    | Seek(offset: int, whence: int)
    | Read(cnt: nat, room: nat)
    | Write(data: seq<byte>)

  /** What a call gives back: its return value and the bytes put in the caller's buffer. */
  datatype Result = Result(ret: int, data: seq<byte>)

  /** `unsigned int count = cnt`, cut to what is left of the memory behind `p`. */
  function Clamp(size: nat, p: nat, cnt: nat): (count: nat)
    requires p < size
    ensures p + count <= size
    ensures cnt < TWO32 ==> count == Min(cnt, size - p)
  {
    var count := cnt % 0x1_0000_0000;
    if count > size - p then size - p else count
  }

  /** Signed 64-bit wrap-around of `loff_t` arithmetic. */
  function Wrap64(x: int): (r: int)
    ensures -TWO63 <= r < TWO63
    ensures -TWO63 <= x < TWO63 ==> r == x
  {
    (x + 0x8000_0000_0000_0000) % 0x1_0000_0000_0000_0000 - 0x8000_0000_0000_0000
  }

  /** Where the seek wants to go, as the driver computes it. */
  function SeekTarget(size: nat, pos: int, offset: int, whence: int): Option<int> {
    if whence == 0 then Some(Wrap64(offset))
    else if whence == 1 then Some(Wrap64(pos + offset))
    else if whence == 2 then Some(Wrap64(size - 1 + offset))
    else None
  }

  /** New position and return value of a seek. */
  function SeekPos(size: nat, pos: nat, offset: int, whence: int): (r: (nat, int))
    ensures pos <= size ==> r.0 <= size
    ensures r.1 < 0 ==> r.0 == pos && r.1 == -EINVAL
    ensures r.1 >= 0 ==> r.1 == r.0
  {
    var target := SeekTarget(size, pos, offset, whence);
    if target.None? || target.value < 0 || target.value > size then (pos, -EINVAL)
    else (target.value, target.value)
  }

  /** For every 64-bit offset the wrapping arithmetic accepts and rejects exactly as unbounded
      integers would, and goes to the same place. */
  lemma SeekArithmeticExact(size: nat, pos: nat, offset: int, whence: int)
    requires pos <= size < 0x8000_0000
    requires -TWO63 <= offset < TWO63
    ensures var ideal := if whence == 0 then offset else if whence == 1 then pos + offset else size - 1 + offset;
            SeekPos(size, pos, offset, whence)
            == if 0 <= whence <= 2 && 0 <= ideal <= size then (ideal, ideal) else (pos, -22)
  {
  }

  datatype Effect = Effect(mem: seq<byte>, pos: nat, result: Result)

  /** A whole call, done at once. */
  function Atomic(mem: seq<byte>, pos: nat, call: Call): (e: Effect)
    ensures |e.mem| == |mem|
    ensures pos <= |mem| ==> e.pos <= |mem|
    ensures !call.Write? ==> e.mem == mem
  {
    match call
    case Seek(offset, whence) =>
      var r := SeekPos(|mem|, pos, offset, whence);
      Effect(mem, r.0, Result(r.1, []))
    case Read(cnt, room) =>
      if pos >= |mem| then Effect(mem, pos, Result(0, []))
      else
        var count := Clamp(|mem|, pos, cnt);
        if room < count then Effect(mem, pos, Result(-EFAULT, mem[pos..pos + room]))
        else Effect(mem, pos + count, Result(count, mem[pos..pos + count]))
    case Write(data) =>
      if pos >= |mem| then Effect(mem, pos, Result(0, []))
      else
        var count := Clamp(|mem|, pos, |data|);
        Effect(Store(mem, pos, data[..count]), pos + count, Result(count, []))
  }

  /** What the return value of a read tells: it is negative, and then -14, exactly when the read
      would put bytes where the caller's buffer cannot take them; it is 0 exactly when nothing was
      asked for or nothing is left; and otherwise it is how far the position has moved. */
  lemma ReadReports(mem: seq<byte>, pos: nat, cnt: nat, room: nat)
    requires pos <= |mem| && cnt < TWO32
    ensures var e := Atomic(mem, pos, Read(cnt, room));
            var r := e.result;
            && (r.ret < 0 <==> pos < |mem| && room < Min(cnt, |mem| - pos))
            && (r.ret < 0 ==> r.ret == -14 && e.pos == pos && r.data == mem[pos..pos + room])
            && (r.ret == 0 <==> cnt == 0 || pos == |mem|)
            && (r.ret >= 0 ==> r.ret == e.pos - pos == |r.data| == Min(cnt, |mem| - pos) && r.data == mem[pos..e.pos])
            && e.mem == mem
  {
  }

  /** And that of a write: how far the position has moved, which is how many bytes have been put in
      the memory there, and no other byte has changed. */
  lemma WriteReports(mem: seq<byte>, pos: nat, data: seq<byte>)
    requires pos <= |mem| && |data| < TWO32
    ensures var e := Atomic(mem, pos, Write(data));
            && e.result.ret == e.pos - pos == Min(|data|, |mem| - pos) && e.result.data == []
            && e.mem[pos..e.pos] == data[..e.result.ret]
            && e.mem[..pos] == mem[..pos] && e.mem[e.pos..] == mem[e.pos..]
  {
  }

  /** Counts 2^32 apart are the same to the driver, which keeps the count in 32 bits. */
  lemma CountWraps(mem: seq<byte>, pos: nat, cnt: nat, room: nat)
    ensures Atomic(mem, pos, Read(cnt + 0x1_0000_0000, room)) == Atomic(mem, pos, Read(cnt, room))
    ensures Atomic(mem, pos, Read(0x1_0000_0000, room)).pos == pos
  {
  }

  /** One open file after another call by call: its calls, position and results so far. */
  datatype Session = Session(calls: seq<Call>, pos: nat, results: seq<Result>)

  /** The session `calls` run with nobody else on the device. */
  function Alone(mem: seq<byte>, s: Session): (r: (seq<byte>, Session))
    ensures |r.0| == |mem|
    ensures s.pos <= |mem| ==> r.1.pos <= |mem|
    ensures r.1.calls == []
    decreases |s.calls|
  {
    if s.calls == [] then (mem, s)
    else
      var e := Atomic(mem, s.pos, s.calls[0]);
      Alone(e.mem, Session(s.calls[1..], e.pos, s.results + [e.result]))
  }

  // ---- chunking -----------------------------------------------------------------------------

  /** The session that writes the chunks `ds` one after the other. */
  function Writes(ds: seq<seq<byte>>): (calls: seq<Call>)
    ensures |calls| == |ds| && forall i :: 0 <= i < |ds| ==> calls[i] == Write(ds[i])
  {
    seq(|ds|, i requires 0 <= i < |ds| => Write(ds[i]))
  }

  /** Positive reads, into buffers of any length. */
  predicate PositiveReads(calls: seq<Call>) {
    forall i :: 0 <= i < |calls| ==> calls[i].Read? && 0 < calls[i].cnt < TWO32
  }

  /** What the reads that have not failed have returned. */
  function Gathered(rs: seq<Result>): seq<byte> {
    if rs == [] then [] else (if rs[0].ret >= 0 then rs[0].data else []) + Gathered(rs[1..])
  }

  /** How many have not. */
  function Succeeded(rs: seq<Result>): nat {
    if rs == [] then 0 else (if rs[0].ret >= 0 then 1 else 0) + Succeeded(rs[1..])
  }

  lemma {:induction false} GatheredSnoc(rs: seq<Result>, r: Result)
    ensures Gathered(rs + [r]) == Gathered(rs) + if r.ret >= 0 then r.data else []
    ensures Succeeded(rs + [r]) == Succeeded(rs) + if r.ret >= 0 then 1 else 0
  {
    if rs == [] {
      assert (rs + [r])[1..] == [];
    } else {
      assert (rs + [r])[0] == rs[0] && (rs + [r])[1..] == rs[1..] + [r];
      GatheredSnoc(rs[1..], r);
    }
  }

  /** A session of writes, one write on. */
  lemma WritesUnfold(mem: seq<byte>, pos: nat, ds: seq<seq<byte>>, rs: seq<Result>) returns (k: nat, r: Result)
    requires pos <= |mem| && ds != [] && |ds[0]| < TWO32
    ensures k == Min(|ds[0]|, |mem| - pos) == r.ret
    ensures Alone(mem, Session(Writes(ds), pos, rs))
            == Alone(Store(mem, pos, ds[0][..k]), Session(Writes(ds[1..]), pos + k, rs + [r]))
  {
    assert Writes(ds)[1..] == Writes(ds[1..]);
    k := Min(|ds[0]|, |mem| - pos);
    var e := Atomic(mem, pos, Write(ds[0]));
    r := e.result;
    if pos == |mem| {
      StoreNothing(mem, pos);
      assert ds[0][..0] == [];
    }
    assert e == Effect(Store(mem, pos, ds[0][..k]), pos + k, r);
  }

  /** What of `all` fits behind `pos`. */
  function Fit(mem: seq<byte>, pos: nat, all: seq<byte>): (r: seq<byte>)
    requires pos <= |mem|
    ensures pos + |r| <= |mem|
  {
    all[..Min(|all|, |mem| - pos)]
  }

  lemma FitAppend(mem: seq<byte>, pos: nat, a: seq<byte>, b: seq<byte>)
    requires pos <= |mem|
    ensures var fa := Fit(mem, pos, a);
            var m := Store(mem, pos, fa);
            Store(m, pos + |fa|, Fit(m, pos + |fa|, b)) == Store(mem, pos, Fit(mem, pos, a + b))
            && |fa| + |Fit(m, pos + |fa|, b)| == |Fit(mem, pos, a + b)|
  {
  }

  /** What some calls have returned together. */
  function Returned(rs: seq<Result>): int {
    if rs == [] then 0 else rs[0].ret + Returned(rs[1..])
  }

  lemma {:induction false} ReturnedSnoc(rs: seq<Result>, r: Result)
    ensures Returned(rs + [r]) == Returned(rs) + r.ret
  {
    if rs == [] {
      assert (rs + [r])[1..] == [];
    } else {
      assert (rs + [r])[0] == rs[0] && (rs + [r])[1..] == rs[1..] + [r];
      ReturnedSnoc(rs[1..], r);
    }
  }

  /** Writing data in any chunks leaves the memory, and the position, of one clamped store of
      all of it, and the writes return its length together. */
  lemma {:induction false} ChunkedWrites(mem: seq<byte>, pos: nat, ds: seq<seq<byte>>, rs: seq<Result>)
    requires pos <= |mem|
    requires forall i :: 0 <= i < |ds| ==> |ds[i]| < TWO32
    ensures var fit := Fit(mem, pos, Concat(ds));
            var end := Alone(mem, Session(Writes(ds), pos, rs));
            && end.0 == Store(mem, pos, fit) && end.1.pos == pos + |fit|
            && Returned(end.1.results) == Returned(rs) + |fit|
    decreases |ds|
  {
    if ds == [] {
      StoreNothing(mem, pos);
    } else {
      var k, r := WritesUnfold(mem, pos, ds, rs);
      ChunkedWrites(Store(mem, pos, ds[0][..k]), pos + k, ds[1..], rs + [r]);
      FitAppend(mem, pos, ds[0], Concat(ds[1..]));
      ReturnedSnoc(rs, r);
    }
  }

  /** So any chunking of at most 2^32 - 1 bytes does what one write of them does. */
  lemma ChunkingIsOneWrite(mem: seq<byte>, pos: nat, ds: seq<seq<byte>>)
    requires pos <= |mem|
    requires forall i :: 0 <= i < |ds| ==> |ds[i]| < TWO32
    requires |Concat(ds)| < TWO32
    ensures var one := Atomic(mem, pos, Write(Concat(ds)));
            var end := Alone(mem, Session(Writes(ds), pos, []));
            end.0 == one.mem && end.1.pos == one.pos && Returned(end.1.results) == one.result.ret
  {
    ChunkedWrites(mem, pos, ds, []);
    if pos == |mem| {
      StoreNothing(mem, pos);
      assert Fit(mem, pos, Concat(ds)) == [];
    }
  }

  /** A session of reads, one read on. */
  lemma ReadsUnfold(mem: seq<byte>, pos: nat, calls: seq<Call>, rs: seq<Result>) returns (q: nat, r: Result)
    requires pos <= |mem| && calls != [] && PositiveReads(calls)
    ensures pos <= q <= |mem|
    ensures if r.ret < 0 then q == pos else r == Result(q - pos, mem[pos..q]) && (q == pos <==> pos == |mem|)
    ensures Alone(mem, Session(calls, pos, rs)) == Alone(mem, Session(calls[1..], q, rs + [r]))
  {
    ReadReports(mem, pos, calls[0].cnt, calls[0].room);
    var e := Atomic(mem, pos, calls[0]);
    q, r := e.pos, e.result;
  }

  /** What the session `end` has read, starting from `pos` with results `rs`, over `n` more reads. */
  ghost predicate ReadUpTo(mem: seq<byte>, pos: nat, rs: seq<Result>, n: nat, end: Session) {
    && pos <= end.pos <= |mem|
    && |end.results| == |rs| + n
    && Gathered(end.results) == Gathered(rs) + mem[pos..end.pos]
    && (end.pos < |mem| ==> end.pos - pos >= Succeeded(end.results) - Succeeded(rs))
  }

  lemma ReadUpToCons(mem: seq<byte>, pos: nat, q: nat, rs: seq<Result>, r: Result, n: nat, end: Session)
    requires pos <= q <= |mem|
    requires if r.ret < 0 then q == pos else r.data == mem[pos..q] && (q == pos <==> pos == |mem|)
    requires ReadUpTo(mem, q, rs + [r], n, end)
    ensures ReadUpTo(mem, pos, rs, n + 1, end)
  {
    GatheredSnoc(rs, r);
    SliceOn(mem, pos, q, end.pos);
    assert mem[pos..pos] == [];
  }

  /** Reading in any positive chunks gathers the memory from the starting position on. */
  lemma {:induction false} ChunkedReads(mem: seq<byte>, pos: nat, calls: seq<Call>, rs: seq<Result>)
    returns (end: Session)
    requires pos <= |mem| && PositiveReads(calls)
    ensures Alone(mem, Session(calls, pos, rs)) == (mem, end)
    ensures ReadUpTo(mem, pos, rs, |calls|, end)
    decreases |calls|
  {
    if calls == [] {
      end := Session([], pos, rs);
      assert mem[pos..pos] == [];
    } else {
      var q, r := ReadsUnfold(mem, pos, calls, rs);
      end := ChunkedReads(mem, q, calls[1..], rs + [r]);
      ReadUpToCons(mem, pos, q, rs, r, |calls| - 1, end);
    }
  }

  lemma {:induction false} AloneAppend(mem: seq<byte>, calls: seq<Call>, more: seq<Call>, pos: nat, rs: seq<Result>)
    ensures var mid := Alone(mem, Session(calls, pos, rs));
            Alone(mem, Session(calls + more, pos, rs)) == Alone(mid.0, Session(more, mid.1.pos, mid.1.results))
    decreases |calls|
  {
    if calls == [] {
      assert calls + more == more;
    } else {
      assert (calls + more)[0] == calls[0] && (calls + more)[1..] == calls[1..] + more;
      var e := Atomic(mem, pos, calls[0]);
      AloneAppend(e.mem, calls[1..], more, e.pos, rs + [e.result]);
    }
  }

  /** What the result `r` of a read tells about the results `before` it, since position `pos`. */
  ghost predicate Tells(mem: seq<byte>, pos: nat, before: seq<Result>, r: Result, cnt: nat, room: nat)
    requires pos <= |mem|
  {
    && (r.ret == 0 <==> Gathered(before) == mem[pos..])
    && (Succeeded(before) >= |mem| - pos ==> r.ret == 0)
    && |Gathered(before)| <= |mem| - pos
    && (r.ret < 0 <==> room < Min(cnt, |mem| - pos - |Gathered(before)|))
  }

  /** Positive reads into any buffers: one returns 0 exactly when those before it have returned, in
      all, the memory from the starting position to the end, which is so after at most one
      successful read per byte left; and it fails exactly when there is more than its buffer can
      take of what it asks for. */
  lemma ReadUntilZero(mem: seq<byte>, pos: nat, calls: seq<Call>, cnt: nat, room: nat)
    requires pos <= |mem| && PositiveReads(calls) && 0 < cnt < TWO32
    ensures var end := Alone(mem, Session(calls + [Read(cnt, room)], pos, [])).1;
            && |end.results| == |calls| + 1
            && Tells(mem, pos, end.results[..|calls|], end.results[|calls|], cnt, room)
  {
    var mid := ChunkedReads(mem, pos, calls, []);
    OneMoreRead(mem, pos, calls, cnt, room, mid);
    NextReadTells(mem, pos, |calls|, mid, cnt, room);
  }

  /** What the next read tells of those before it. */
  lemma NextReadTells(mem: seq<byte>, pos: nat, n: nat, mid: Session, cnt: nat, room: nat)
    requires pos <= |mem| && ReadUpTo(mem, pos, [], n, mid) && 0 < cnt < TWO32
    ensures Tells(mem, pos, mid.results, Atomic(mem, mid.pos, Read(cnt, room)).result, cnt, room)
  {
    ReadReports(mem, mid.pos, cnt, room);
    assert Gathered(mid.results) == mem[pos..mid.pos];
    if mid.pos < |mem| {
      assert |mem[pos..mid.pos]| < |mem[pos..]|;
    }
  }

  /** One read after a session that has left the memory alone. */
  lemma OneMoreRead(mem: seq<byte>, pos: nat, calls: seq<Call>, cnt: nat, room: nat, mid: Session)
    requires pos <= |mem| && Alone(mem, Session(calls, pos, [])) == (mem, mid) && |mid.results| == |calls|
    ensures var end := Alone(mem, Session(calls + [Read(cnt, room)], pos, [])).1;
            && |end.results| == |calls| + 1 && end.results[..|calls|] == mid.results
            && end.results[|calls|] == Atomic(mem, mid.pos, Read(cnt, room)).result
  {
    AloneAppend(mem, calls, [Read(cnt, room)], pos, []);
    AloneOnce(mem, Session([Read(cnt, room)], mid.pos, mid.results));
  }

  lemma AloneOnce(mem: seq<byte>, s: Session)
    requires |s.calls| == 1
    ensures var e := Atomic(mem, s.pos, s.calls[0]);
            Alone(mem, s) == (e.mem, Session([], e.pos, s.results + [e.result]))
  {
  }

  // ---- the driver's code --------------------------------------------------------------------

  class OpenFile {
    var f_pos: nat

    constructor ()
      ensures f_pos == 0
    {
      f_pos := 0;
    }
  }

  class ShareDevice {
    const mem: array<byte>
    var held: bool         // share_mutex
    var writecount: int    // static in _write; wraps at 32 bits in C, and only picks a delay

    ghost predicate Valid()
      reads this
    {
      !held && 0 < mem.Length < 0x8000_0000
    }

    constructor ()
      ensures Valid() && fresh(mem)
      ensures mem.Length == MEM_SIZE == 128 && forall i :: 0 <= i < MEM_SIZE ==> mem[i] == 0
    {
      mem := new byte[MEM_SIZE](i => 0);
      held := false;
      writecount := 0;
    }

    method Llseek(f: OpenFile, offset: int, whence: int) returns (ret: int)
      requires Valid()
      requires -TWO63 <= offset < TWO63
      modifies f
      ensures var e := Atomic(mem[..], old(f.f_pos), Seek(offset, whence));
              f.f_pos == e.pos && ret == e.result.ret
      ensures old(f.f_pos) <= mem.Length ==> f.f_pos <= mem.Length
    {
      var newPos := 0;
      if whence == 0 {
        newPos := offset;
      } else if whence == 1 {
        newPos := Wrap64(f.f_pos + offset);
      } else if whence == 2 {
        newPos := Wrap64(mem.Length - 1 + offset);
      } else {
        return -EINVAL;
      }
      if newPos < 0 || newPos > mem.Length {
        return -EINVAL;
      }
      f.f_pos := newPos;
      return newPos;
    }

    method Read(f: OpenFile, cnt: nat, room: nat) returns (ret: int, buff: seq<byte>)
      requires Valid()
      modifies this`held, f
      ensures Valid()
      ensures var e := Atomic(mem[..], old(f.f_pos), Call.Read(cnt, room));
              f.f_pos == e.pos && Result(ret, buff) == e.result
      ensures old(f.f_pos) <= mem.Length ==> f.f_pos <= mem.Length
    {
      ret, buff := 0, [];
      var p := f.f_pos;
      var count := cnt % 0x1_0000_0000;
      if p >= mem.Length {
        return;
      }
      if count > mem.Length - p {
        count := mem.Length - p;
      }
      held := true;
      while |buff| < count && |buff| < room     // copy_to_user
        invariant |buff| <= count && |buff| <= room
        invariant buff == mem[p..p + |buff|]
      {
        buff := buff + [mem[p + |buff|]];
      }
      if |buff| < count {
        ret := -EFAULT;
      } else {
        f.f_pos := f.f_pos + count;
        ret := count;
      }
      held := false;
    }

    /** `copy_from_user` of one byte. */
    method CopyByte(at: nat, b: byte)
      requires at < mem.Length
      modifies mem
      ensures mem[..] == old(mem[..])[at := b]
    {
      mem[at] := b;
    }

    method Write(f: OpenFile, data: seq<byte>) returns (ret: int)
      requires Valid()
      modifies this, mem, f
      ensures Valid()
      ensures var e := Atomic(old(mem[..]), old(f.f_pos), Call.Write(data));
              mem[..] == e.mem && f.f_pos == e.pos && ret == e.result.ret
      ensures old(f.f_pos) <= mem.Length ==> f.f_pos <= mem.Length
    {
      var p := f.f_pos;
      var count := |data| % 0x1_0000_0000;
      writecount := writecount + 1;
      if p >= mem.Length {
        return 0;
      }
      if count > mem.Length - p {
        count := mem.Length - p;
      }
      held := true;
      ghost var before := mem[..];
      StoreNothing(before, p);
      if writecount % 2 == 1 {
        for i := 0 to count
          modifies mem
          invariant mem[..] == Store(before, p, data[..i])
        {
          StoreNext(before, p, data, i);
          CopyByte(p + i, data[i]);
        }
      } else {
        for i := 0 to count
          modifies mem
          invariant mem[..] == Store(before, p, data[..i])
        {
          StoreNext(before, p, data, i);
          CopyByte(p + i, data[i]);
        }
      }
      held := false;
      f.f_pos := f.f_pos + count;
      ret := count;
    }
  }
}
