/** The append-then-drain buffer device: three cursors over a fixed array.

    The bytes between `postion` and `buff_pos` are the ones written and not yet read.  They make a
    byte queue as long as no read takes more than there are; `buff_len`, which is what the driver
    goes by, may count more of them than there are once a write comes at a `postion` other than 0. */
module AppendDrain {
  import opened Bytes

  const CAPACITY: nat := 100
  const EFAULT: int := 14
  /** The most bytes the kernel's VFS layer passes to one read or write. */
  const MAX_RW_COUNT: nat := 0x7fff_f000

  /** The driver's globals: `byte`, `postion`, `buff_len`, `buff_pos`. */
  datatype State = State(buf: seq<byte>, postion: int, len: int, pos: int)

  datatype Reply = Reply(ret: int, data: seq<byte>)

  // ---- one call ------------------------------------------------------------------------------

  /** What every call keeps, in phase or not, as long as the bytes it copies lie in the array. */
  predicate Sane(s: State) {
    && |s.buf| == CAPACITY
    && 0 <= s.len <= s.pos <= CAPACITY
    && s.pos - s.postion <= s.len                   // whatever is unread is counted
    && 0 <= s.postion <= CAPACITY + MAX_RW_COUNT    // so it fits the driver's `int`
    && (s.pos == 0 ==> s.postion == 0)
  }

  /** The bytes a read of `size` copies out lie in the array. */
  predicate CopyFits(s: State, size: nat) {
    Min(s.len, size) > 0 ==> s.postion + Min(s.len, size) <= CAPACITY
  }

  /** `example_read` into a buffer with `room` writable bytes. */
  function ReadOp(s: State, size: nat, room: nat): (r: (State, Reply))
    requires Sane(s) && CopyFits(s, size)
  {
    if s.len < size && s.len == 0 then
      (s.(pos := 0, postion := 0), Reply(0, []))
    else
      var rlen := Min(s.len, size);
      if room < rlen then (s, Reply(-EFAULT, []))
      else
        (s.(postion := s.postion + size, len := s.len - rlen),
         Reply(rlen, if rlen == 0 then [] else s.buf[s.postion..s.postion + rlen]))
  }

  /** The array with the byte zeroed at which `example_write` breaks off, if it does: that is what
      `copy_from_user` leaves of a byte it cannot copy. */
  function Behind(s: State, data: seq<byte>, size: nat): (r: seq<byte>)
    requires Fits(s, data, size)
    ensures |r| == |s.buf|
    ensures forall x :: 0 <= x < |r| ==> r[x] == if |data| < size && x == s.pos + |data| then 0 else s.buf[x]
  {
    if |data| < size then s.buf[s.pos + |data| := 0] else s.buf
  }

  /** `example_write` of `size` bytes, of which the first `|data|` can be copied in. */
  function WriteOp(s: State, data: seq<byte>, size: nat): (r: (State, Reply))
    requires Fits(s, data, size)
  {
    (State(Store(Behind(s, data, size), s.pos, data), s.postion, s.pos + |data|, s.pos + |data|), Reply(size, []))
  }

  /** The driver has no bound check of its own: every byte it copies must lie in the array. */
  predicate Fits(s: State, data: seq<byte>, size: nat) {
    && |s.buf| == CAPACITY && 0 <= s.pos
    && |data| <= size && s.pos + |data| <= CAPACITY
    && (|data| < size ==> s.pos + |data| < CAPACITY)
  }

  /** All the counted bytes lie in the array, so any read may be made. */
  predicate CountedIn(s: State) {
    s.len > 0 ==> s.postion + s.len <= CAPACITY
  }

  /** The bytes counted, which is what reading until 0 will return. */
  function Held(s: State): (q: seq<byte>)
    requires Sane(s) && CountedIn(s)
    ensures |q| == s.len
  {
    if s.len == 0 then [] else s.buf[s.postion..s.postion + s.len]
  }

  predicate Zeroed(s: State) {
    s.postion == 0 && s.len == 0 && s.pos == 0
  }

  /** The bytes written since the last reset and not yet read. */
  function Live(s: State): (q: seq<byte>)
    requires Sane(s)
  {
    if s.postion <= s.pos then s.buf[s.postion..s.pos] else []
  }

  /** The cursor relation: while bytes are counted, they end where the last write ended. */
  predicate Phased(s: State) {
    if s.len > 0 then s.postion + s.len == s.pos else s.postion >= s.pos
  }

  /** Then the bytes counted are those written and not yet read. */
  predicate Sound(s: State) {
    Sane(s) && Phased(s)
  }

  lemma SoundIsLive(s: State)
    requires Sane(s) && CountedIn(s)
    ensures Sound(s) <==> Held(s) == Live(s)
  {
  }

  /** Calls that stay in the array keep the cursors sane. */
  lemma StaysSane(s: State, size: nat, room: nat, data: seq<byte>)
    requires Sane(s)
    ensures CopyFits(s, size) && size <= MAX_RW_COUNT ==> Sane(ReadOp(s, size, room).0)
    ensures Fits(s, data, size) ==> Sane(WriteOp(s, data, size).0)
  {
  }

  /** What a read does to the cursors. */
  lemma ReadCursors(s: State, size: nat, room: nat)
    requires Sane(s) && CountedIn(s) && size <= MAX_RW_COUNT
    ensures var d := ReadOp(s, size, room).0;
            Sane(d) && CountedIn(d) && (Phased(s) ==> Phased(d)) && d.buf == s.buf
  {
  }

  /** A successful read of the non-empty device. */
  lemma ReadFront(s: State, size: nat, room: nat)
    requires Sane(s) && CountedIn(s) && size <= MAX_RW_COUNT && s.len > 0 && room >= Min(s.len, size)
    requires Sane(ReadOp(s, size, room).0) && CountedIn(ReadOp(s, size, room).0)
    ensures var r := ReadOp(s, size, room);
            Held(s) == r.1.data + Held(r.0) && r.1.ret == |r.1.data| == Min(s.len, size)
  {
    var d, reply := ReadOp(s, size, room).0, ReadOp(s, size, room).1;
    var rlen := Min(s.len, size);
    var at := s.postion;
    SliceOn(s.buf, at, at + rlen, at + s.len);
    assert reply.data == s.buf[at..at + rlen];
    assert Held(d) == s.buf[at + rlen..at + s.len];
  }

  /** In phase or not: a read takes bytes off the front, and a positive read of the empty buffer
      resets it. */
  lemma ReadTakes(s: State, size: nat, room: nat)
    requires Sane(s) && CountedIn(s) && size <= MAX_RW_COUNT
    ensures var r := ReadOp(s, size, room);
            && Sane(r.0) && CountedIn(r.0) && (Phased(s) ==> Phased(r.0))
            && Held(s) == r.1.data + Held(r.0)
            && (r.1.ret >= 0 ==> r.1.ret == |r.1.data| == Min(s.len, size))
            && (r.1.ret < 0 ==> r.0 == s && room < Min(s.len, size))
            && (size > 0 && Held(s) == [] ==> Zeroed(r.0) && r.1.ret == 0)
  {
    ReadCursors(s, size, room);
    if s.len > 0 && room >= Min(s.len, size) {
      ReadFront(s, size, room);
    } else {
      assert [] + Held(s) == Held(s);
    }
  }

  /** A write is in phase if nothing has been read since the last reset. */
  predicate InPhase(s: State) {
    s.postion == 0
  }

  /** In phase, a write appends what it could copy. */
  lemma WriteAppends(s: State, data: seq<byte>, size: nat)
    requires Sane(s) && Fits(s, data, size) && InPhase(s)
    ensures var w := WriteOp(s, data, size).0;
            && Sound(s) && Sound(w) && InPhase(w) && w.pos == s.pos + |data|
            && Held(w) == Held(s) + data
  {
  }

  // ---- the phase boundary --------------------------------------------------------------------

  /** How far reads have gone beyond the last byte written. */
  function Overshoot(s: State): (gone: nat) {
    if s.postion <= s.pos then 0 else s.postion - s.pos
  }

  /** The exact phase boundary, for any write at all: it leaves the cursor relation if and only if
      it is in phase.  Otherwise it counts too many bytes: as many as `postion`, or `buff_pos` if
      that is less. */
  lemma PhaseBoundary(s: State, data: seq<byte>, size: nat)
    requires Sane(s) && Fits(s, data, size)
    ensures var w := WriteOp(s, data, size).0;
            && (Sound(w) <==> InPhase(s))
            && w.len == |Live(s) + data| + Min(s.postion, s.pos)
            && (Min(s.postion, s.pos) == 0 <==> InPhase(s))
  {
  }

  /** A slice of the array from `a` on, after a store that it covers, starts in, or lies behind. */
  lemma SliceOfStore(m: seq<byte>, off: nat, d: seq<byte>, a: nat, b: nat)
    requires a <= b <= |m| && off + |d| <= |m|
    ensures var r := Store(m, off, d)[a..b];
            && (a <= off && off + |d| <= b ==> r == m[a..off] + d + m[off + |d|..b])
            && (off <= a <= off + |d| <= b ==> r == d[a - off..] + m[off + |d|..b])
            && (off + |d| <= a ==> r == m[a..b])
  {
    var s, end := Store(m, off, d), off + |d|;
    if end <= a {
      assert s[a..b] == m[a..b];
    } else if end <= b {
      assert s[end..b] == m[end..b];
      if off <= a {
        SliceOn(s, a, end, b);
        assert s[a..end] == d[a - off..];
      } else {
        SliceOn(s, a, off, end);
        SliceOn(s, a, end, b);
        assert s[a..off] == m[a..off] && s[off..end] == d;
      }
    }
    if a == end <= b {
      assert d[a - off..] == [];
    }
    if a <= off && d == [] && off <= b {
      SliceOn(m, a, off, b);
      assert m[a..off] + [] == m[a..off];
    }
  }

  /** With `postion` not beyond the bytes written, the new ones come behind the unread ones. */
  lemma CountedOn(s: State, data: seq<byte>, size: nat)
    requires Sane(s) && s.postion <= s.pos && s.pos + |data| > 0
    requires Fits(s, data, size) && CountedIn(WriteOp(s, data, size).0)
    ensures var w := WriteOp(s, data, size).0;
            Held(w) == Live(s) + data + Behind(s, data, size)[w.pos..w.pos + s.postion]
  {
    var w := WriteOp(s, data, size).0;
    var from, to := s.postion, s.postion + w.len;
    SliceOfStore(Behind(s, data, size), s.pos, data, from, to);
    assert Held(w) == w.buf[from..to] && to == w.pos + s.postion && Live(s) == Behind(s, data, size)[from..s.pos];
  }

  /** With `postion` beyond them, it may lie in the new bytes or behind them. */
  lemma CountedPast(s: State, data: seq<byte>, size: nat)
    requires Sane(s) && s.postion > s.pos && Fits(s, data, size) && CountedIn(WriteOp(s, data, size).0)
    ensures var w, gone := WriteOp(s, data, size).0, Overshoot(s);
            if gone <= |data| then Held(w) == data[gone..] + Behind(s, data, size)[w.pos..w.pos + s.postion]
            else Held(w) == Behind(s, data, size)[s.postion..s.postion + w.len]
  {
    var w, gone := WriteOp(s, data, size).0, Overshoot(s);
    var from, to := s.postion, s.postion + w.len;
    SliceOfStore(Behind(s, data, size), s.pos, data, from, to);
    assert Held(w) == w.buf[from..to] && to == w.pos + s.postion && gone == from - s.pos;
  }

  /** What is counted after any write: the unread bytes and the new ones, less as many as reads
      have gone too far, and behind them bytes of the array that no write since the reset has put
      there. */
  lemma WhatIsCounted(s: State, data: seq<byte>, size: nat)
    requires Sane(s) && Fits(s, data, size) && CountedIn(WriteOp(s, data, size).0)
    ensures var w, gone := WriteOp(s, data, size).0, Overshoot(s);
            if gone <= |data| then
              Held(w) == (Live(s) + data)[gone..] + Behind(s, data, size)[w.pos..w.pos + s.postion]
            else
              Held(w) == Behind(s, data, size)[s.postion..s.postion + w.len]
  {
    if s.postion > s.pos {
      CountedPast(s, data, size);
      assert Live(s) + data == data;
    } else if s.pos + |data| > 0 {
      CountedOn(s, data, size);
      assert (Live(s) + data)[0..] == Live(s) + data;
    } else {
      assert Behind(s, data, size)[0..0] == [];
    }
  }

  /** The counted bytes are the queue's contents if and only if the write is in phase. */
  lemma CountedExactly(s: State, data: seq<byte>, size: nat)
    requires Sane(s) && Fits(s, data, size)
    ensures var w := WriteOp(s, data, size).0;
            CountedIn(w) && Sane(w) && Held(w) == Live(s) + data <==> InPhase(s)
  {
    PhaseBoundary(s, data, size);
    if InPhase(s) {
      WriteAppends(s, data, size);
      SoundIsLive(s);
    }
  }

  // ---- first in, first out -------------------------------------------------------------------

  datatype Op = Read(size: nat, room: nat) | Write(data: seq<byte>, size: nat)

  /** The call copies to and from the array only. */
  predicate InArray(s: State, op: Op) {
    match op
    case Read(size, _) => size <= MAX_RW_COUNT && CopyFits(s, size)
    case Write(data, size) => Fits(s, data, size)
  }

  function Do(s: State, op: Op): (State, Reply)
    requires Sane(s) && InArray(s, op)
  {
    match op
    case Read(size, room) => ReadOp(s, size, room)
    case Write(data, size) => WriteOp(s, data, size)
  }

  function Input(op: Op): seq<byte> {
    if op.Write? then op.data else []
  }

  /** A read returns no more bytes than are unread, or nothing because it faults; a write of any
      bytes comes when no read has gone beyond the last one written. */
  predicate InOrder(s: State, op: Op)
    requires Sane(s)
  {
    match op
    case Read(size, room) => room < Min(s.len, size) || Min(s.len, size) <= |Live(s)|
    case Write(data, _) => data == [] || s.postion <= s.pos
  }

  /** A read of what is there to read is such, and so is the one that returns 0. */
  lemma ReadInOrder(s: State, size: nat, room: nat)
    requires Sane(s) && size <= MAX_RW_COUNT && (s.postion + size <= s.pos || s.len == 0 || Sound(s))
    ensures InArray(s, Read(size, room)) && InOrder(s, Read(size, room))
  {
  }

  /** A positive read of no more than is unread. */
  lemma ReadWithin(s: State, size: nat, room: nat)
    requires Sane(s) && 0 < size <= room && s.postion + size <= s.pos
    ensures InArray(s, Read(size, room)) ==>
              ReadOp(s, size, room) == (State(s.buf, s.postion + size, s.len - size, s.pos),
                                        Reply(size, s.buf[s.postion..s.postion + size]))
    ensures Live(s) == s.buf[s.postion..s.postion + size] + s.buf[s.postion + size..s.pos]
  {
    SliceOn(s.buf, s.postion, s.postion + size, s.pos);
  }

  /** A read of more, in order, takes just what is unread. */
  lemma ReadToEnd(s: State, size: nat, room: nat)
    requires Sane(s) && InArray(s, Read(size, room)) && InOrder(s, Read(size, room))
    requires 0 < Min(s.len, size) <= room && s.postion + size > s.pos
    ensures var d := ReadOp(s, size, room);
            d.1.data == Live(s) && d.0.postion > d.0.pos
  {
    assert s.postion + Min(s.len, size) == s.pos;
  }

  lemma ReadLive(s: State, size: nat, room: nat)
    requires Sane(s) && InArray(s, Read(size, room)) && InOrder(s, Read(size, room))
    requires Sane(ReadOp(s, size, room).0)
    ensures Live(s) == ReadOp(s, size, room).1.data + Live(ReadOp(s, size, room).0)
  {
    if 0 < Min(s.len, size) <= room {
      if s.postion + size <= s.pos {
        ReadWithin(s, size, room);
      } else {
        ReadToEnd(s, size, room);
        assert Live(s) + [] == Live(s);
      }
    } else {
      assert [] + Live(s) == Live(s);
    }
  }

  lemma WriteLive(s: State, data: seq<byte>, size: nat)
    requires Sane(s) && Fits(s, data, size) && InOrder(s, Write(data, size))
    requires Sane(WriteOp(s, data, size).0)
    ensures Live(WriteOp(s, data, size).0) == Live(s) + data
  {
    var behind, w := Behind(s, data, size), WriteOp(s, data, size).0;
    var from, end := s.postion, s.pos + |data|;
    if from <= s.pos {
      SliceOfStore(behind, s.pos, data, from, end);
      assert behind[from..s.pos] == s.buf[from..s.pos] && behind[end..end] == [];
      assert Live(w) == w.buf[from..end];
    } else {
      assert data == [] && Live(w) == [] && Live(s) == [];
    }
  }

  /** One call keeps the queue's order, losing nothing and making nothing up, if and only if it is
      in order. */
  lemma QueueExactly(s: State, op: Op)
    requires Sane(s) && InArray(s, op)
    ensures Sane(Do(s, op).0)
    ensures Live(s) + Input(op) == Do(s, op).1.data + Live(Do(s, op).0) <==> InOrder(s, op)
  {
    match op
    case Read(size, room) =>
      StaysSane(s, size, room, []);
      assert Live(s) + [] == Live(s);
      if InOrder(s, op) {
        ReadLive(s, size, room);
      }
    case Write(data, size) =>
      StaysSane(s, 0, 0, data);
      StaysSane(s, size, 0, data);
      assert [] + Live(WriteOp(s, data, size).0) == Live(WriteOp(s, data, size).0);
      if InOrder(s, op) {
        WriteLive(s, data, size);
      }
  }

  // ---- whole runs ----------------------------------------------------------------------------

  /** Where a run ends, the bytes read and written in it, in order, and what the calls returned. */
  datatype Outcome = Outcome(end: State, read: seq<byte>, written: seq<byte>, replies: seq<Reply>)

  /** A run of calls, if each copies to and from the array only. */
  ghost function Run(s: State, ops: seq<Op>): (r: Option<Outcome>)
    requires Sane(s)
    ensures r.Some? ==> Sane(r.value.end) && |r.value.replies| == |ops|
    decreases |ops|
  {
    if ops == [] then Some(Outcome(s, [], [], []))
    else if !InArray(s, ops[0]) then None
    else
      QueueExactly(s, ops[0]);
      var d := Do(s, ops[0]);
      match Run(d.0, ops[1..])
      case None => None
      case Some(o) => Some(Outcome(o.end, d.1.data + o.read, Input(ops[0]) + o.written, [d.1] + o.replies))
  }

  /** Each call of the run is in order when it comes. */
  ghost predicate RunsInOrder(s: State, ops: seq<Op>)
    requires Sane(s) && Run(s, ops).Some?
    decreases |ops|
  {
    ops == [] || (InOrder(s, ops[0]) && (QueueExactly(s, ops[0]); RunsInOrder(Do(s, ops[0]).0, ops[1..])))
  }

  /** First in, first out, nothing lost and nothing made up: over every run of calls in order,
      with writes at any time, what was unread and what is written is what is read and what is
      left unread. */
  lemma {:induction false} QueueConservation(s: State, ops: seq<Op>)
    requires Sane(s) && Run(s, ops).Some? && RunsInOrder(s, ops)
    ensures var o := Run(s, ops).value;
            Live(s) + o.written == o.read + Live(o.end)
    decreases |ops|
  {
    if ops == [] {
      assert Live(s) + [] == [] + Live(s);
    } else {
      QueueExactly(s, ops[0]);
      var d := Do(s, ops[0]);
      QueueConservation(d.0, ops[1..]);
      var o := Run(d.0, ops[1..]).value;
      Rearrange(Live(s), Input(ops[0]), o.written, d.1.data, Live(d.0), o.read, Live(o.end));
    }
  }

  lemma Rearrange(h: seq<byte>, w: seq<byte>, ws: seq<byte>, r: seq<byte>, h1: seq<byte>, rs: seq<byte>, h2: seq<byte>)
    requires h + w == r + h1 && h1 + ws == rs + h2
    ensures h + (w + ws) == (r + rs) + h2
  {
    assert h + (w + ws) == (h + w) + ws;
    assert (r + h1) + ws == r + (h1 + ws);
    assert r + (rs + h2) == (r + rs) + h2;
  }

  // ---- what the calls return -----------------------------------------------------------------

  /** A write returns what it was asked for.  That is how far `buff_pos` has moved, unless the copy
      has stopped early: then, and only then, it is more. */
  lemma WriteReports(s: State, data: seq<byte>, size: nat)
    requires Sane(s) && Fits(s, data, size)
    ensures var w, r := WriteOp(s, data, size).0, WriteOp(s, data, size).1;
            && r.ret == size >= w.pos - s.pos == |data| && r.data == []
            && (r.ret > w.pos - s.pos <==> |data| < size)
            && (|data| < size ==> w.pos < |w.buf| && w.buf[w.pos] == 0)
            && (forall x :: 0 <= x < |s.buf| && !(s.pos <= x < w.pos) && !(|data| < size && x == w.pos) ==>
                  w.buf[x] == s.buf[x])
  {
  }

  /** A read fails exactly when its buffer cannot take what it would copy, and then nothing has
      changed; it returns 0 exactly when nothing is counted or asked for. */
  lemma ReadReports(s: State, size: nat, room: nat)
    requires Sane(s) && CopyFits(s, size)
    ensures var d, r := ReadOp(s, size, room).0, ReadOp(s, size, room).1;
            && (r.ret < 0 <==> room < Min(s.len, size)) && (r.ret < 0 ==> r.ret == -14 && d == s && r.data == [])
            && (r.ret >= 0 ==> r.ret == |r.data| == Min(s.len, size))
            && (r.ret == 0 <==> s.len == 0 || size == 0)
            && (r.ret > 0 ==> s.len - d.len == r.ret)
  {
  }

  /** What the calls of one kind have returned together, failed reads aside. */
  function Total(ops: seq<Op>, replies: seq<Reply>, writes: bool): int
    requires |replies| == |ops|
  {
    if ops == [] then 0
    else
      (if ops[0].Write? == writes && replies[0].ret >= 0 then replies[0].ret else 0)
      + Total(ops[1..], replies[1..], writes)
  }

  /** The bytes that writes were asked for and could not copy. */
  function Missing(ops: seq<Op>): int {
    if ops == [] then 0
    else (if ops[0].Write? then ops[0].size - |ops[0].data| else 0) + Missing(ops[1..])
  }

  lemma {:induction false} TotalsCount(s: State, ops: seq<Op>)
    requires Sane(s) && Run(s, ops).Some?
    ensures var o := Run(s, ops).value;
            && Total(ops, o.replies, true) == |o.written| + Missing(ops)
            && Total(ops, o.replies, false) == |o.read|
    decreases |ops|
  {
    if ops == [] {
    } else {
      QueueExactly(s, ops[0]);
      var d := Do(s, ops[0]);
      TotalsCount(d.0, ops[1..]);
      var o := Run(s, ops).value;
      assert o.replies[1..] == Run(d.0, ops[1..]).value.replies;
      match ops[0]
      case Write(data, size) => WriteReports(s, data, size);
      case Read(size, room) => ReadReports(s, size, room);
    }
  }

  /** The books balance: over every run of calls in order, the bytes that were unread and what the
      writes have returned are what the reads have returned, the bytes left unread, and the bytes
      that could not be copied in. */
  lemma NumbersBalance(s: State, ops: seq<Op>)
    requires Sane(s) && Run(s, ops).Some? && RunsInOrder(s, ops)
    ensures var o := Run(s, ops).value;
            |Live(s)| + Total(ops, o.replies, true)
            == Total(ops, o.replies, false) + |Live(o.end)| + Missing(ops)
  {
    QueueConservation(s, ops);
    TotalsCount(s, ops);
    var o := Run(s, ops).value;
    assert |Live(s) + o.written| == |o.read + Live(o.end)|;
  }

  // ---- where the cursors go ------------------------------------------------------------------

  /** The call is a read that resets the cursors. */
  predicate Resets(s: State, op: Op) {
    op.Read? && s.len == 0 < op.size
  }

  ghost predicate NeverResets(s: State, ops: seq<Op>)
    requires Sane(s) && Run(s, ops).Some?
    decreases |ops|
  {
    ops == [] || (!Resets(s, ops[0]) && (QueueExactly(s, ops[0]); NeverResets(Do(s, ops[0]).0, ops[1..])))
  }

  /** The sizes that the successful reads have asked for. */
  function Asked(ops: seq<Op>, replies: seq<Reply>): nat
    requires |replies| == |ops|
  {
    if ops == [] then 0
    else (if ops[0].Read? && replies[0].ret >= 0 then ops[0].size else 0) + Asked(ops[1..], replies[1..])
  }

  /** Between resets `postion` goes by what reads ask for, whatever they get, and `buff_pos` by the
      bytes written, whatever is read; and while nothing is written, the count goes by what reads
      get.  A reset puts all three at 0. */
  lemma {:induction false} CursorsMove(s: State, ops: seq<Op>)
    requires Sane(s) && Run(s, ops).Some? && NeverResets(s, ops)
    ensures var o := Run(s, ops).value;
            && o.end.postion == s.postion + Asked(ops, o.replies)
            && o.end.pos == s.pos + |o.written|
            && ((forall i :: 0 <= i < |ops| ==> ops[i].Read?) ==>
                  o.end.len == s.len - Total(ops, o.replies, false) && o.end.buf == s.buf)
    decreases |ops|
  {
    if ops == [] {
    } else {
      QueueExactly(s, ops[0]);
      var d := Do(s, ops[0]);
      CursorsMove(d.0, ops[1..]);
      var o := Run(s, ops).value;
      assert o.replies[1..] == Run(d.0, ops[1..]).value.replies;
      CursorsMoveOnce(s, ops[0]);
    }
  }

  lemma CursorsMoveOnce(s: State, op: Op)
    requires Sane(s) && InArray(s, op) && !Resets(s, op)
    ensures var d, r := Do(s, op).0, Do(s, op).1;
            && d.postion == s.postion + (if op.Read? && r.ret >= 0 then op.size else 0)
            && d.pos == s.pos + |Input(op)|
            && (op.Read? ==> d.len == s.len - (if r.ret >= 0 then r.ret else 0) && d.buf == s.buf)
  {
  }

  lemma ResetZeroes(s: State, op: Op)
    requires Sane(s) && InArray(s, op)
    ensures Resets(s, op) ==> Zeroed(Do(s, op).0) && Do(s, op).0.buf == s.buf && Do(s, op).1 == Reply(0, [])
  {
  }

  /** What a read that asks for all that is counted or more does to the cursors. */
  lemma ReadsPast(s: State, n: nat, room: nat)
    requires Sane(s) && 0 < s.len <= n <= MAX_RW_COUNT && s.len <= room && CopyFits(s, n)
    ensures var d := ReadOp(s, n, room).0;
            Sane(d) && d.postion == s.postion + n >= d.pos == s.pos && d.len == 0 && d.buf == s.buf
  {
  }

  /** A write with `postion` at the end of the bytes written or beyond it. */
  lemma WritesPast(d: State, data: seq<byte>, size: nat)
    requires Sane(d) && d.postion >= d.pos && Fits(d, data, size)
    ensures var w, gone := WriteOp(d, data, size).0, d.postion - d.pos;
            && Sane(w) && w.len == d.pos + |data| && w.postion == d.postion
            && Live(w) == (if gone <= |data| then data[gone..] else [])
            && (CountedIn(w) && gone <= |data| ==> Held(w)[..|data| - gone] == data[gone..])
  {
    StaysSane(d, size, 0, data);
    var w, gone := WriteOp(d, data, size).0, d.postion - d.pos;
    var from, end := d.postion, d.pos + |data|;
    if gone <= |data| {
      SliceOfStore(Behind(d, data, size), d.pos, data, from, end);
      assert Behind(d, data, size)[end..end] == [];
      assert w.buf[from..end] == data[gone..] == Live(w);
      if CountedIn(w) && w.len > 0 {
        assert Held(w) == w.buf[from..from + w.len];
        assert w.buf[from..from + w.len][..end - from] == w.buf[from..end];
      }
    }
  }

  /** A read that asks for all that is counted or more, and then a write: exactly the new bytes
      that lie before the place the read has gone to are lost, and the next read starts behind
      them. */
  lemma OvershootLoses(s: State, n: nat, room: nat, data: seq<byte>, size: nat)
    requires Sane(s) && 0 < s.len <= n <= MAX_RW_COUNT && s.len <= room && CopyFits(s, n)
    requires Fits(ReadOp(s, n, room).0, data, size)
    ensures var gone := s.postion + n - s.pos;
            var w := WriteOp(ReadOp(s, n, room).0, data, size).0;
            && gone >= 0 && Sane(w) && w.len == s.pos + |data| && w.postion == s.postion + n
            && Live(w) == (if gone <= |data| then data[gone..] else [])
            && (CountedIn(w) && gone <= |data| ==> Held(w)[..|data| - gone] == data[gone..])
  {
    ReadsPast(s, n, room);
    WritesPast(ReadOp(s, n, room).0, data, size);
  }

  // ---- turn by turn --------------------------------------------------------------------------

  /** What one program writes, the other one reads, turn by turn. */
  function Turns(ds: seq<seq<byte>>): seq<Op> {
    if ds == [] then [] else [Write(ds[0], |ds[0]|), Read(|ds[0]|, |ds[0]|)] + Turns(ds[1..])
  }

  /** What each call of them should return. */
  function TurnReplies(ds: seq<seq<byte>>): seq<Reply> {
    if ds == [] then [] else [Reply(|ds[0]|, []), Reply(|ds[0]|, ds[0])] + TurnReplies(ds[1..])
  }

  lemma OneTurn(s: State, d: seq<byte>) returns (w: State, r: State)
    requires Sane(s) && s.postion == s.pos && s.pos + |d| <= CAPACITY
    ensures InArray(s, Write(d, |d|)) && InOrder(s, Write(d, |d|))
    ensures Do(s, Write(d, |d|)) == (w, Reply(|d|, [])) && Sane(w)
    ensures InArray(w, Read(|d|, |d|)) && InOrder(w, Read(|d|, |d|)) && Do(w, Read(|d|, |d|)) == (r, Reply(|d|, d))
    ensures Sane(r) && r.postion == r.pos == s.pos + |d|
  {
    StaysSane(s, |d|, 0, d);
    w := WriteOp(s, d, |d|).0;
    StaysSane(w, |d|, |d|, []);
    r := ReadOp(w, |d|, |d|).0;
  }

  /** A run, one call on. */
  lemma RunOn(s: State, op: Op, rest: seq<Op>)
    requires Sane(s) && InArray(s, op) && Sane(Do(s, op).0)
    ensures var d := Do(s, op);
            match Run(d.0, rest)
            case None => Run(s, [op] + rest) == None
            case Some(o) =>
              && Run(s, [op] + rest)
                 == Some(Outcome(o.end, d.1.data + o.read, Input(op) + o.written, [d.1] + o.replies))
              && (RunsInOrder(s, [op] + rest) <==> InOrder(s, op) && RunsInOrder(d.0, rest))
  {
    assert ([op] + rest)[1..] == rest;
  }

  /** A run, two calls on. */
  lemma RunTwoOn(s: State, one: Op, two: Op, rest: seq<Op>, w: State, a: Reply, r: State, b: Reply) returns (o: Outcome)
    requires Sane(s) && Sane(w) && Sane(r) && Run(r, rest).Some?
    requires InArray(s, one) && Do(s, one) == (w, a) && InArray(w, two) && Do(w, two) == (r, b)
    ensures Run(s, [one] + ([two] + rest)) == Some(o) && o.end == Run(r, rest).value.end
    ensures o.read == a.data + (b.data + Run(r, rest).value.read)
    ensures o.written == Input(one) + (Input(two) + Run(r, rest).value.written)
    ensures o.replies == [a] + ([b] + Run(r, rest).value.replies)
    ensures RunsInOrder(s, [one] + ([two] + rest)) <==> InOrder(s, one) && InOrder(w, two) && RunsInOrder(r, rest)
  {
    RunOn(w, two, rest);
    RunOn(s, one, [two] + rest);
    o := Run(s, [one] + ([two] + rest)).value;
  }

  lemma TurnSums(d: seq<byte>, read: seq<byte>, written: seq<byte>, replies: seq<Reply>)
    ensures [] + (d + read) == d + read && d + ([] + written) == d + written
    ensures [Reply(|d|, [])] + ([Reply(|d|, d)] + replies) == [Reply(|d|, []), Reply(|d|, d)] + replies
  {
  }

  /** Writing and reading the same number of bytes by turns is always in order: each write returns
      its length and each read what the write before it wrote, until the array is full.  From the
      second write on it is never in phase. */
  lemma {:induction false} TurnsReturn(s: State, ds: seq<seq<byte>>)
    requires Sane(s) && s.postion == s.pos && s.pos + |Concat(ds)| <= CAPACITY
    ensures var r := Run(s, Turns(ds));
            && r.Some? && RunsInOrder(s, Turns(ds))
            && r.value.replies == TurnReplies(ds) && r.value.read == r.value.written == Concat(ds)
            && r.value.end.postion == r.value.end.pos == s.pos + |Concat(ds)|
    decreases |ds|
  {
    if ds == [] {
    } else {
      var w, r := OneTurn(s, ds[0]);
      TurnsReturn(r, ds[1..]);
      var last := Run(r, Turns(ds[1..])).value;
      var o := OneTurnOn(s, ds[0], Turns(ds[1..]), w, r);
      TurnsUnfold(ds);
    }
  }

  lemma OneTurnOn(s: State, d: seq<byte>, rest: seq<Op>, w: State, r: State) returns (o: Outcome)
    requires Sane(s) && Sane(w) && Sane(r) && Run(r, rest).Some?
    requires InArray(s, Write(d, |d|)) && Do(s, Write(d, |d|)) == (w, Reply(|d|, []))
    requires InArray(w, Read(|d|, |d|)) && Do(w, Read(|d|, |d|)) == (r, Reply(|d|, d))
    ensures var turn, last := [Write(d, |d|)] + ([Read(|d|, |d|)] + rest), Run(r, rest).value;
            && Run(s, turn) == Some(o) && o.end == last.end && o.read == d + last.read && o.written == d + last.written
            && o.replies == [Reply(|d|, []), Reply(|d|, d)] + last.replies
            && (RunsInOrder(s, turn) <==>
                  InOrder(s, Write(d, |d|)) && InOrder(w, Read(|d|, |d|)) && RunsInOrder(r, rest))
  {
    o := RunTwoOn(s, Write(d, |d|), Read(|d|, |d|), rest, w, Reply(|d|, []), r, Reply(|d|, d));
    var last := Run(r, rest).value;
    TurnSums(d, last.read, last.written, last.replies);
  }

  lemma TurnsUnfold(ds: seq<seq<byte>>)
    requires ds != []
    ensures var d := ds[0];
            && Turns(ds) == [Write(d, |d|)] + ([Read(|d|, |d|)] + Turns(ds[1..]))
            && TurnReplies(ds) == [Reply(|d|, []), Reply(|d|, d)] + TurnReplies(ds[1..])
            && Concat(ds) == d + Concat(ds[1..])
  {
  }

  // ---- write some, read until 0 --------------------------------------------------------------

  function Writes(ds: seq<seq<byte>>): (ops: seq<Op>)
    ensures |ops| == |ds| && forall i :: 0 <= i < |ds| ==> ops[i] == Write(ds[i], |ds[i]|)
  {
    seq(|ds|, i requires 0 <= i < |ds| => Write(ds[i], |ds[i]|))
  }

  /** Each returns the length of its data. */
  predicate ReturnLengths(replies: seq<Reply>, ds: seq<seq<byte>>) {
    |replies| == |ds| && forall i :: 0 <= i < |ds| ==> replies[i] == Reply(|ds[i]|, [])
  }

  /** A run of writes, one write on. */
  lemma WritesUnfold(s: State, ds: seq<seq<byte>>) returns (w: State)
    requires Sane(s) && s.postion == 0 && ds != [] && s.pos + |ds[0]| <= CAPACITY
    ensures Sound(s) && Sound(w) && w.postion == 0 && w.pos == s.pos + |ds[0]| && Held(w) == Held(s) + ds[0]
    ensures match Run(w, Writes(ds[1..]))
            case None => Run(s, Writes(ds)) == None
            case Some(o) =>
              Run(s, Writes(ds)) == Some(Outcome(o.end, o.read, ds[0] + o.written, [Reply(|ds[0]|, [])] + o.replies))
  {
    WriteAppends(s, ds[0], |ds[0]|);
    w := WriteOp(s, ds[0], |ds[0]|).0;
    var ops := Writes(ds);
    assert ops[0] == Write(ds[0], |ds[0]|) && ops[1..] == Writes(ds[1..]);
    assert InArray(s, ops[0]) && Do(s, ops[0]) == (w, Reply(|ds[0]|, []));
    var rest := Run(w, Writes(ds[1..]));
    if rest.Some? {
      assert [] + rest.value.read == rest.value.read;
    }
  }

  lemma {:induction false} WritesFill(s: State, ds: seq<seq<byte>>) returns (o: Outcome)
    requires Sound(s) && s.postion == 0 && s.pos + |Concat(ds)| <= CAPACITY
    ensures Run(s, Writes(ds)) == Some(o) && ReturnLengths(o.replies, ds)
    ensures Sound(o.end) && o.read == [] && Held(o.end) == Held(s) + Concat(ds)
    decreases |ds|
  {
    if ds == [] {
      o := Outcome(s, [], [], []);
      assert Held(s) + [] == Held(s);
    } else {
      var all := Concat(ds);
      assert all == ds[0] + Concat(ds[1..]);
      var w := WritesUnfold(s, ds);
      var rest := WritesFill(w, ds[1..]);
      o := Outcome(rest.end, [], ds[0] + rest.written, [Reply(|ds[0]|, [])] + rest.replies);
      Assoc(Held(s), ds[0], Concat(ds[1..]));
    }
  }

  predicate Positive(ns: seq<nat>) {
    forall i :: 0 <= i < |ns| ==> 0 < ns[i] <= MAX_RW_COUNT
  }

  /** Reads of the sizes `ns`, up to the first that returns 0, copy from the array only. */
  predicate DrainFits(s: State, ns: seq<nat>)
    requires Sane(s) && Positive(ns)
    decreases |ns|
  {
    ns == [] ||
    (CopyFits(s, ns[0]) &&
     (var d := ReadOp(s, ns[0], ns[0]);
      StaysSane(s, ns[0], ns[0], []);
      d.1.ret == 0 || DrainFits(d.0, ns[1..])))
  }

  /** They do if and only if all the counted bytes lie in the array. */
  lemma {:induction false} DrainFitsExactly(s: State, ns: seq<nat>)
    requires Sane(s) && Positive(ns) && |ns| > s.len
    ensures DrainFits(s, ns) <==> CountedIn(s)
    decreases |ns|
  {
    if s.len == 0 || !CopyFits(s, ns[0]) {
    } else {
      StaysSane(s, ns[0], ns[0], []);
      DrainFitsExactly(ReadOp(s, ns[0], ns[0]).0, ns[1..]);
    }
  }

  /** The bytes returned by reads of the sizes `ns`, up to and including the first read that
      returns 0; `None` if none does. */
  function Drain(s: State, ns: seq<nat>): (r: Option<(State, seq<byte>)>)
    requires Sane(s) && Positive(ns) && DrainFits(s, ns)
    decreases |ns|
  {
    if ns == [] then None
    else
      var d := ReadOp(s, ns[0], ns[0]);
      if d.1.ret == 0 then Some((d.0, []))
      else
        StaysSane(s, ns[0], ns[0], []);
        match Drain(d.0, ns[1..])
        case None => None
        case Some(e) => Some((e.0, d.1.data + e.1))
  }

  lemma {:induction false} CountedFits(s: State, ns: seq<nat>)
    requires Sane(s) && Positive(ns) && CountedIn(s)
    ensures DrainFits(s, ns)
    decreases |ns|
  {
    if ns == [] {
    } else {
      ReadTakes(s, ns[0], ns[0]);
      CountedFits(ReadOp(s, ns[0], ns[0]).0, ns[1..]);
    }
  }

  /** In phase or not, reading until 0 returns everything counted and resets the cursors; it ends
      after at most one read per byte and one more. */
  lemma {:induction false} DrainReturnsAll(s: State, ns: seq<nat>)
    requires Sane(s) && CountedIn(s) && Positive(ns)
    ensures DrainFits(s, ns)
    ensures var d := Drain(s, ns);
            && (d.Some? ==> Zeroed(d.value.0) && d.value.0.buf == s.buf && d.value.1 == Held(s))
            && (|ns| > |Held(s)| ==> d.Some?)
    decreases |ns|
  {
    CountedFits(s, ns);
    if ns == [] {
    } else {
      ReadTakes(s, ns[0], ns[0]);
      var d := ReadOp(s, ns[0], ns[0]);
      if d.1.ret != 0 {
        DrainReturnsAll(d.0, ns[1..]);
      } else {
        assert Held(s) == [];
      }
    }
  }

  /** What a drain does after any write in any state: it leaves the array if and only if the bytes
      already read and those written do not fit it together; otherwise it returns the bytes
      described by `WhatIsCounted`, which are the queue's contents if and only if the write was in
      phase. */
  lemma WriteThenDrain(s: State, data: seq<byte>, size: nat, ns: seq<nat>)
    requires Sane(s) && Fits(s, data, size) && Positive(ns) && |ns| > s.pos + |data|
    ensures var w, gone := WriteOp(s, data, size).0, Overshoot(s);
            && Sane(w)
            && (DrainFits(w, ns) <==> s.postion + s.pos + |data| <= CAPACITY)
            && (DrainFits(w, ns) ==>
                  && Drain(w, ns).Some? && Zeroed(Drain(w, ns).value.0)
                  && Drain(w, ns).value.1 ==
                       (if gone <= |data| then
                          (Live(s) + data)[gone..] + Behind(s, data, size)[w.pos..w.pos + s.postion]
                        else Behind(s, data, size)[s.postion..s.postion + w.len]))
            && (DrainFits(w, ns) && Drain(w, ns).Some? && Drain(w, ns).value.1 == Live(s) + data <==> InPhase(s))
  {
    var w := WriteOp(s, data, size).0;
    StaysSane(s, size, 0, data);
    DrainFitsExactly(w, ns);
    CountedExactly(s, data, size);
    if CountedIn(w) {
      WhatIsCounted(s, data, size);
      DrainReturnsAll(w, ns);
    }
  }

  /** For example: of 3 bytes written, a read of 10 returns all; of the 2 bytes written next none
      is ever read, but 5 bytes of the array that were there before. */
  lemma LostWrite(s: State, d: seq<byte>, e: seq<byte>)
    requires Zeroed(s) && |s.buf| == CAPACITY && |d| == 3 && |e| == 2
    ensures var w1 := WriteOp(s, d, 3).0;
            var r := ReadOp(w1, 10, 10);
            && r.1 == Reply(3, d) && Sound(r.0) && r.0.postion == 10
            && (var w2 := WriteOp(r.0, e, 2).0;
                && CountedIn(w2) && w2.len == 5 && Held(w2) == s.buf[10..15])
  {
    WriteAppends(s, d, 3);
    var w1 := WriteOp(s, d, 3).0;
    ReadTakes(w1, 10, 10);
    assert w1.buf[0..3] == d;
    WhatIsCounted(ReadOp(w1, 10, 10).0, e, 2);
    assert w1.buf[10..15] == s.buf[10..15];
  }

  datatype Cycle = Cycle(chunks: seq<seq<byte>>, sizes: seq<nat>)

  predicate CycleOk(c: Cycle) {
    && |Concat(c.chunks)| <= CAPACITY
    && |c.sizes| > |Concat(c.chunks)|
    && Positive(c.sizes)
  }

  lemma ZeroedSound(s: State)
    requires Zeroed(s) && |s.buf| == CAPACITY
    ensures Sound(s) && Held(s) == []
  {
  }

  /** Where a cycle leaves the device, what its writes return, and what its reads return up to the
      0. */
  datatype Cycled = Cycled(end: State, replies: seq<Reply>, read: seq<byte>)

  ghost function RunCycle(s: State, c: Cycle): (r: Option<Cycled>)
    requires Zeroed(s) && |s.buf| == CAPACITY && CycleOk(c)
  {
    ZeroedSound(s);
    match Run(s, Writes(c.chunks))
    case None => None
    case Some(o) =>
      if !DrainFits(o.end, c.sizes) then None
      else
        match Drain(o.end, c.sizes)
        case None => None
        case Some(d) => Some(Cycled(d.0, o.replies, d.1))
  }

  /** The returned numbers together. */
  function Sum(replies: seq<Reply>): int {
    if replies == [] then 0 else replies[0].ret + Sum(replies[1..])
  }

  lemma {:induction false} LengthsSum(replies: seq<Reply>, ds: seq<seq<byte>>)
    requires ReturnLengths(replies, ds)
    ensures Sum(replies) == |Concat(ds)|
  {
    if ds == [] {
    } else {
      LengthsSum(replies[1..], ds[1..]);
    }
  }

  /** A cycle did what it should: each write returned its length, together that of all chunks; the
      reads returned the chunks' bytes; and all three cursors are at zero. */
  predicate WentRound(r: Cycled, c: Cycle) {
    && ReturnLengths(r.replies, c.chunks) && Sum(r.replies) == |r.read|
    && r.read == Concat(c.chunks) && Zeroed(r.end) && |r.end.buf| == CAPACITY
  }

  /** Round trip: a cycle of writes and draining reads returns exactly the concatenation of the
      writes and leaves all three cursors at zero. */
  lemma CycleRoundTrip(s: State, c: Cycle)
    requires Zeroed(s) && |s.buf| == CAPACITY && CycleOk(c)
    ensures RunCycle(s, c).Some? && WentRound(RunCycle(s, c).value, c)
  {
    ZeroedSound(s);
    var o := WritesFill(s, c.chunks);
    assert [] + Concat(c.chunks) == Concat(c.chunks);
    DrainReturnsAll(o.end, c.sizes);
    LengthsSum(o.replies, c.chunks);
  }

  /** And so for any number of cycles: each returns its own writes, whatever came before. */
  ghost function RunCycles(s: State, cs: seq<Cycle>): (r: Option<seq<Cycled>>)
    requires Zeroed(s) && |s.buf| == CAPACITY
    requires forall i :: 0 <= i < |cs| ==> CycleOk(cs[i])
    decreases |cs|
  {
    if cs == [] then Some([])
    else
      match RunCycle(s, cs[0])
      case None => None
      case Some(e) =>
        CycleRoundTrip(s, cs[0]);
        match RunCycles(e.end, cs[1..])
        case None => None
        case Some(rest) => Some([e] + rest)
  }

  lemma {:induction false} CyclesRoundTrip(s: State, cs: seq<Cycle>)
    requires Zeroed(s) && |s.buf| == CAPACITY
    requires forall i :: 0 <= i < |cs| ==> CycleOk(cs[i])
    ensures var r := RunCycles(s, cs);
            && r.Some? && |r.value| == |cs|
            && forall i :: 0 <= i < |cs| ==> WentRound(r.value[i], cs[i])
    decreases |cs|
  {
    if cs == [] {
    } else {
      CycleRoundTrip(s, cs[0]);
      CyclesRoundTrip(RunCycle(s, cs[0]).value.end, cs[1..]);
    }
  }

  lemma ZeroBehind(s: State, data: seq<byte>, size: nat)
    requires Fits(s, data, size) && |data| < size
    ensures Store(s.buf, s.pos, data)[s.pos + |data| := 0] == WriteOp(s, data, size).0.buf
  {
  }

  // ---- the driver ----------------------------------------------------------------------------

  class BufferDevice {
    const buf: array<byte>
    var postion: int
    var buff_len: int
    var buff_pos: int

    ghost function Now(): State
      reads this, buf
    {
      State(buf[..], postion, buff_len, buff_pos)
    }

    constructor ()
      ensures Sound(Now()) && Zeroed(Now()) && fresh(buf) && buf.Length == 100
    {
      buf := new byte[CAPACITY](i => 0);
      postion, buff_len, buff_pos := 0, 0, 0;
    }

    method Read(size: nat, room: nat) returns (ret: int, data: seq<byte>)
      requires Sane(Now()) && CopyFits(Now(), size) && size <= MAX_RW_COUNT
      modifies this
      ensures (Now(), Reply(ret, data)) == ReadOp(old(Now()), size, room)
      ensures Sane(Now())
    {
      ghost var s := Now();
      StaysSane(s, size, room, []);
      ret, data := 0, [];
      var rlen;
      if buff_len < size {
        rlen := buff_len;
        if rlen == 0 {
          buff_pos := 0;
          postion := 0;
          return;
        }
      } else {
        rlen := size;
      }
      if room < rlen {              // copy_to_user fails
        return -EFAULT, [];
      }
      if rlen > 0 {
        data := buf[postion..postion + rlen];
        assert data == s.buf[s.postion..s.postion + rlen];
      }
      postion := postion + size;
      buff_len := buff_len - rlen;
      ret := rlen;
      assert buf[..] == s.buf && rlen == Min(s.len, size);
    }

    method Write(data: seq<byte>, size: nat) returns (ret: int)
      requires Fits(Now(), data, size)
      modifies this, buf
      ensures old(Sane(Now())) ==> Sane(Now())
      ensures (Now(), Reply(ret, [])) == WriteOp(old(Now()), data, size)
    {
      ghost var s, before := Now(), buf[..];
      StoreNothing(before, buff_pos);
      assert data[..0] == [];
      buff_len := buff_pos;
      var i := 0;
      while buff_len < size + buff_pos
        invariant 0 <= i <= |data| && buff_len == buff_pos + i
        invariant buff_pos == old(buff_pos) && postion == old(postion)
        invariant buf[..] == Store(before, buff_pos, data[..i])
        decreases size + buff_pos - buff_len
      {
        if i == |data| {            // copy_from_user fails, with the byte zeroed
          ZeroBehind(s, data, size);
          assert data[..i] == data;
          buf[buff_len] := 0;
          break;
        }
        StoreNext(before, buff_pos, data, i);
        buf[buff_len] := data[i];
        i := i + 1;
        buff_len := buff_len + 1;
      }
      assert data[..i] == data;
      assert buf[..] == WriteOp(s, data, size).0.buf;
      buff_pos := buff_len;
      ret := size;
    }
  }
}
