/** The mailbox's copy phases as the driver writes them: each loop computes one function of the
    slot, and the machine's threads, left alone in a phase, compute the same. */
module MailboxPhases {
  import opened Bytes
  import opened Mailbox
  import opened MailboxDelivery

  datatype Slot = Slot(buf: seq<byte>, len: nat, have: bool)

  function SlotOf(c: Config): Slot {
    Slot(c.buf, c.len, c.have)
  }

  /** Copy-in and publish, as one phase. */
  function Put(s: Slot, msg: seq<byte>): Slot
    requires |s.buf| == CAPACITY && |msg| <= CAPACITY
  {
    Slot(Store(s.buf, 0, msg), |msg|, true)
  }

  /** Clear and copy-out, into a buffer with `room` writable bytes. */
  function Take(s: Slot, size: nat, room: nat): (Slot, Result)
    requires |s.buf| == CAPACITY && size <= CAPACITY
  {
    if room < size then (Slot(s.buf, s.len, false), Result(-EFAULT, s.buf[..room]))
    else (Slot(s.buf, 0, false), Result(s.len, s.buf[..size]))
  }

  /** A read after a write succeeds exactly when its buffer can take what it asks for, and then gets
      the message back exactly when it asks for enough. */
  lemma PutTake(s: Slot, msg: seq<byte>, size: nat, room: nat)
    requires |s.buf| == CAPACITY && |msg| <= CAPACITY && size <= CAPACITY
    ensures var r := Take(Put(s, msg), size, room).1;
            && (r.ret >= 0 <==> size <= room)
            && (r.ret >= 0 ==> r.ret == |msg| && |r.data| == size)
            && ((0 <= r.ret <= |r.data| && r.data[..r.ret] == msg) <==> |msg| <= size <= room)
  {
  }

  /** A writer in its copy loop, left alone, finishes the phase. */
  lemma {:induction false} CopyInAlone(c: Config, t: nat, start: seq<byte>) returns (s: seq<Choice>, e: Config)
    requires Inv(c) && t < |c.threads| && c.threads[t].pc.CopyIn? && |start| == CAPACITY
    requires c.buf == Store(start, 0, c.threads[t].calls[0].msg[..c.threads[t].pc.i])
    ensures Run(true, c, s) == Some(e) && e.threads[t] == c.threads[t].(pc := Wake)
    ensures SlotOf(e) == Put(Slot(start, 0, false), c.threads[t].calls[0].msg)
    decreases |c.threads[t].calls[0].msg| - c.threads[t].pc.i
  {
    var th, ch := c.threads[t], Choice(t, false);
    var i, msg := th.pc.i, th.calls[0].msg;
    assert PhaseOk(c, th);
    var d := Step(true, c, ch);
    PhaseStep(c, ch);
    HistoryStep(c, ch);
    if i < |msg| {
      StoreNext(start, 0, msg, i);
      var rest;
      rest, e := CopyInAlone(d, t, start);
      RunCons(true, c, ch, rest);
      s := [ch] + rest;
    } else {
      assert msg[..i] == msg;
      RunCons(true, c, ch, []);
      s, e := [ch] + [], d;
    }
  }

  /** The machine's writer does `Put`. */
  lemma WriterPhase(c: Config, t: nat) returns (s: seq<Choice>, e: Config)
    requires Inv(c) && Enabled(true, c, Choice(t, false))
    requires c.threads[t].pc.Idle? && c.threads[t].calls[0].Write?
    ensures Run(true, c, s) == Some(e) && e.threads[t] == c.threads[t].(pc := Wake)
    ensures SlotOf(e) == Put(SlotOf(c), c.threads[t].calls[0].msg)
  {
    var ch := Choice(t, false);
    PhaseStep(c, ch);
    HistoryStep(c, ch);
    StoreNothing(c.buf, 0);
    assert c.threads[t].calls[0].msg[..0] == [];
    var rest;
    rest, e := CopyInAlone(Step(true, c, ch), t, c.buf);
    RunCons(true, c, ch, rest);
    s := [ch] + rest;
  }

  /** A writer that has published, left alone, wakes the readers and returns the shared length. */
  lemma WriterLeaves(c: Config, t: nat) returns (s: seq<Choice>, e: Config)
    requires Ok(c) && t < |c.threads| && c.threads[t].pc.Wake?
    ensures Run(true, c, s) == Some(e) && SlotOf(e) == SlotOf(c)
    ensures e.threads[t] == Return(c.threads[t], Result(c.len, []))
  {
    var ch := Choice(t, false);
    var d := Step(true, c, ch);
    e := Step(true, d, ch);
    RunCons(true, d, ch, []);
    RunCons(true, c, ch, [ch] + []);
    s := [ch] + ([ch] + []);
  }

  lemma {:induction false} RunJoin(phased: bool, c: Config, s: seq<Choice>, d: Config, s': seq<Choice>)
    requires Ok(c) && Run(phased, c, s) == Some(d)
    ensures Run(phased, c, s + s') == Run(phased, d, s')
    decreases |s|
  {
    if s == [] {
      assert [] + s' == s';
    } else {
      assert (s + s')[0] == s[0] && (s + s')[1..] == s[1..] + s';
      RunJoin(phased, Step(phased, c, s[0]), s[1..], d, s');
    }
  }

  /** The whole call of the machine's writer, left alone: `Put`, and it returns the length of its
      message. */
  lemma WriterCall(c: Config, t: nat) returns (s: seq<Choice>, e: Config)
    requires Inv(c) && Enabled(true, c, Choice(t, false))
    requires c.threads[t].pc.Idle? && c.threads[t].calls[0].Write?
    ensures Run(true, c, s) == Some(e)
    ensures var msg := c.threads[t].calls[0].msg;
            SlotOf(e) == Put(SlotOf(c), msg) && e.threads[t] == Return(c.threads[t], Result(|msg|, []))
  {
    var s1, d := WriterPhase(c, t);
    var s2;
    s2, e := WriterLeaves(d, t);
    RunJoin(true, c, s1, d, s2);
    s := s1 + s2;
  }

  /** A reader whose copy has succeeded finishes. */
  lemma CopiedOut(c: Config, t: nat) returns (s: seq<Choice>, e: Config)
    requires Inv(c) && t < |c.threads| && c.threads[t].pc.TakeLen?
    ensures Run(true, c, s) == Some(e)
    ensures SlotOf(e) == Slot(c.buf, 0, c.have)
    ensures e.threads[t] == Return(c.threads[t], Result(c.len, c.threads[t].pc.got))
  {
    var ch := Choice(t, false);
    var d := Step(true, c, ch);
    e := Step(true, d, ch);
    RunCons(true, d, ch, []);
    RunCons(true, c, ch, [ch] + []);
    s := [ch] + ([ch] + []);
  }

  /** The machine's reader, past its test, does `Take`. */
  lemma ReaderPhase(c: Config, t: nat) returns (s: seq<Choice>, e: Config)
    requires Inv(c) && t < |c.threads| && c.threads[t].pc.Clear?
    ensures Run(true, c, s) == Some(e)
    ensures var th, r := c.threads[t], Take(SlotOf(c), c.threads[t].calls[0].size, c.threads[t].calls[0].room);
            SlotOf(e) == r.0 && e.threads[t] == Return(th, r.1)
  {
    var ch, call := Choice(t, false), c.threads[t].calls[0];
    var d1 := Step(true, c, ch);
    PhaseStep(c, ch);
    HistoryStep(c, ch);
    var d2 := Step(true, d1, ch);
    PhaseStep(d1, ch);
    HistoryStep(d1, ch);
    var rest;
    if call.room < call.size {
      rest, e := [], d2;
    } else {
      rest, e := CopiedOut(d2, t);
    }
    RunCons(true, d1, ch, rest);
    RunCons(true, c, ch, [ch] + rest);
    s := [ch] + ([ch] + rest);
  }

  // ---- the driver ------------------------------------------------------------------------------

  class Device {
    const buf: array<byte>
    var buff_len: nat
    var havedata: bool

    ghost function Now(): Slot
      reads this, buf
    {
      Slot(buf[..], buff_len, havedata)
    }

    constructor ()
      ensures |Now().buf| == CAPACITY == 100 && !havedata && fresh(buf)
    {
      buf := new byte[CAPACITY](i => 0);
      buff_len, havedata := 0, false;
    }

    /** `example_write` up to the wake-up. */
    method CopyInAndPublish(msg: seq<byte>)
      requires |Now().buf| == CAPACITY && |msg| <= CAPACITY
      modifies this, buf
      ensures Now() == Put(old(Now()), msg)
    {
      ghost var before := buf[..];
      StoreNothing(before, 0);
      assert msg[..0] == [];
      buff_len := 0;
      while buff_len < |msg|
        invariant buff_len <= |msg|
        invariant buf[..] == Store(before, 0, msg[..buff_len])
      {
        StoreNext(before, 0, msg, buff_len);
        buf[buff_len] := msg[buff_len];
        buff_len := buff_len + 1;
      }
      assert msg[..buff_len] == msg;
      havedata := true;
    }

    /** `example_write`, with nobody else about: the wake-up leaves these variables alone. */
    method Write(msg: seq<byte>) returns (ret: int)
      requires |Now().buf| == CAPACITY && |msg| <= CAPACITY
      modifies this, buf
      ensures Now() == Put(old(Now()), msg) && ret == |msg|
    {
      CopyInAndPublish(msg);
      ret := buff_len;
    }

    /** `example_read` of a device that has data, or with O_NONBLOCK. */
    method TestAndCopyOut(size: nat, room: nat) returns (ret: int, got: seq<byte>)
      requires |Now().buf| == CAPACITY && size <= CAPACITY
      modifies this
      ensures if old(havedata) then (Now(), Result(ret, got)) == Take(old(Now()), size, room)
              else Now() == old(Now()) && ret == -11 && got == []
      ensures ret == -14 <==> old(havedata) && room < size
    {
      if !havedata {
        return -EAGAIN, [];
      }
      havedata := false;
      if room < size {              // copy_to_user fails
        return -EFAULT, buf[..room];
      }
      got := buf[..size];
      ret := buff_len;
      buff_len := 0;
    }
  }
}
