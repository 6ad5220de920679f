/** With the mutex compiled in, the device is linearizable: whatever the scheduler does, memory,
    read data, return values and positions are those of whole calls done one at a time. */
module Locked {
  import opened Bytes
  import opened SharedMemory
  import opened Threads

  // ---- the atomic device --------------------------------------------------------------------

  datatype Serial = Serial(mem: seq<byte>, sessions: seq<Session>)

  predicate CanCall(a: Serial, t: nat) {
    t < |a.sessions| && a.sessions[t].calls != []
  }

  /** Thread `t` does its next call, all at once. */
  function CallNow(a: Serial, t: nat): (r: Serial)
    requires CanCall(a, t)
    ensures |r.mem| == |a.mem| && |r.sessions| == |a.sessions|
  {
    var s := a.sessions[t];
    var e := Atomic(a.mem, s.pos, s.calls[0]);
    Serial(e.mem, a.sessions[t := Session(s.calls[1..], e.pos, s.results + [e.result])])
  }

  /** The atomic calls of the threads in `order`, one after the other. */
  function SerialRun(a: Serial, order: seq<nat>): (r: Option<Serial>)
    ensures r.Some? ==> |r.value.mem| == |a.mem| && |r.value.sessions| == |a.sessions|
    decreases |order|
  {
    if order == [] then Some(a)
    else if CanCall(a, order[0]) then SerialRun(CallNow(a, order[0]), order[1..])
    else None
  }

  predicate SerialDone(a: Serial) {
    forall t :: 0 <= t < |a.sessions| ==> a.sessions[t].calls == []
  }

  // ---- the device, with the calls that hold or held the lock carried to their end -----------

  /** A thread past the lock has in effect returned already. */
  function Settled(mem: seq<byte>, th: Thread): Session
    requires ThreadOk(|mem|, th)
  {
    match th.pc
    case Idle => Session(th.calls, th.pos, th.results)
    case AtLock(_, _) => Session(th.calls, th.pos, th.results)
    case Reading(p, count, got) =>
      var room := th.calls[0].room;
      if room < count then
        Session(th.calls[1..], th.pos, th.results + [Result(-EFAULT, got + mem[p + |got|..p + room])])
      else
        Session(th.calls[1..], th.pos + count, th.results + [Result(count, got + mem[p + |got|..p + count])])
    case Writing(_, count, _, _) =>
      Session(th.calls[1..], th.pos + count, th.results + [Result(count, [])])
    case Leaving(count) =>
      Session(th.calls[1..], th.pos + count, th.results + [Result(count, [])])
  }

  /** The memory with the rest of the thread's current write in it. */
  function Filled(mem: seq<byte>, th: Thread): (m: seq<byte>)
    requires ThreadOk(|mem|, th)
    ensures |m| == |mem|
  {
    if th.pc.Writing? then
      Store(mem, th.pc.p + th.pc.i, th.calls[0].data[th.pc.i..th.pc.count])
    else mem
  }

  ghost function Sessions(mem: seq<byte>, ths: seq<Thread>): (r: seq<Session>)
    requires forall t :: 0 <= t < |ths| ==> ThreadOk(|mem|, ths[t])
    ensures |r| == |ths| && forall t :: 0 <= t < |ths| ==> r[t] == Settled(mem, ths[t])
  {
    seq(|ths|, t requires 0 <= t < |ths| => Settled(mem, ths[t]))
  }

  ghost function Abs(c: Config): (a: Serial)
    requires Inv(true, c)
    ensures |a.mem| == |c.mem| && |a.sessions| == |c.threads|
  {
    var mem := if c.lock.Some? then Filled(c.mem, c.threads[c.lock.value]) else c.mem;
    Serial(mem, Sessions(c.mem, c.threads))
  }

  /** With nobody in a call this is just the memory and what each file has seen. */
  lemma AbsQuiet(c: Config)
    requires Quiet(c)
    ensures Inv(true, c)
    ensures Abs(c).mem == c.mem
    ensures forall t :: 0 <= t < |c.threads| ==>
              Abs(c).sessions[t] == Session(c.threads[t].calls, c.threads[t].pos, c.threads[t].results)
  {
  }

  // ---- one step ------------------------------------------------------------------------------

  /** The steps at which a call takes effect: taking the lock, and the calls that need no lock. */
  predicate TakesEffect(size: nat, th: Thread)
    requires !Done(th)
  {
    th.pc.AtLock? || (th.pc.Idle? && (th.calls[0].Seek? || th.pos >= size))
  }

  /** The step takes the thread's settled session and filled memory to those of the whole call
      where it takes effect, and leaves them alone otherwise. */
  ghost predicate Refined(mem: seq<byte>, th: Thread, mem': seq<byte>, th': Thread)
    requires !Done(th) && ThreadOk(|mem|, th) && ThreadOk(|mem'|, th')
  {
    if TakesEffect(|mem|, th) then
      var e := Atomic(mem, th.pos, th.calls[0]);
      && mem' == mem
      && Filled(mem, th') == e.mem
      && Settled(mem, th') == Session(th.calls[1..], e.pos, th.results + [e.result])
    else
      && Filled(mem', th') == Filled(mem, th)
      && Settled(mem', th') == Settled(mem, th)
  }

  lemma LockRefines(mem: seq<byte>, th: Thread, wc: int)
    requires !Done(th) && ThreadOk(|mem|, th) && th.pc.AtLock?
    ensures Refined(mem, th, MemAfter(mem, th), Local(mem, th, wc))
  {
    var p, count := th.pc.p, th.pc.count;
    if th.calls[0].Read? {
      var lim := Min(count, th.calls[0].room);
      assert [] + mem[p..p + lim] == mem[p..p + lim];
    } else {
      assert th.calls[0].data[0..count] == th.calls[0].data[..count];
    }
  }

  lemma ReadingRefines(mem: seq<byte>, th: Thread, wc: int)
    requires !Done(th) && ThreadOk(|mem|, th) && th.pc.Reading?
    ensures Refined(mem, th, MemAfter(mem, th), Local(mem, th, wc))
  {
    var p, count, got := th.pc.p, th.pc.count, th.pc.got;
    var lim := Min(count, th.calls[0].room);
    if |got| < lim {
      assert got + [mem[p + |got|]] + mem[p + |got| + 1..p + lim] == got + mem[p + |got|..p + lim];
    } else {
      assert got + mem[p + |got|..p + lim] == got;
    }
  }

  lemma FilledOn(mem: seq<byte>, th: Thread, th': Thread)
    requires ThreadOk(|mem|, th) && Storing(th)
    requires th' == Thread(th.calls, th.pos, Writing(th.pc.p, th.pc.count, th.pc.i + 1, th.pc.odd), th.results)
    ensures ThreadOk(|mem|, th') && Filled(MemAfter(mem, th), th') == Filled(mem, th)
  {
    StoreHead(mem, th.pc.p, th.calls[0].data, th.pc.i, th.pc.count);
  }

  lemma FilledUp(mem: seq<byte>, th: Thread)
    requires ThreadOk(|mem|, th) && th.pc.Writing? && !Storing(th)
    ensures Filled(mem, th) == mem
  {
    assert th.calls[0].data[th.pc.i..th.pc.count] == [];
    StoreNothing(mem, th.pc.p + th.pc.i);
  }

  lemma WritingRefines(mem: seq<byte>, th: Thread, wc: int)
    requires !Done(th) && ThreadOk(|mem|, th) && th.pc.Writing?
    ensures Refined(mem, th, MemAfter(mem, th), Local(mem, th, wc))
  {
    if Storing(th) {
      FilledOn(mem, th, Local(mem, th, wc));
    } else {
      FilledUp(mem, th);
    }
  }

  lemma LocalRefines(mem: seq<byte>, th: Thread, wc: int)
    requires !Done(th) && ThreadOk(|mem|, th)
    ensures Refined(mem, th, MemAfter(mem, th), Local(mem, th, wc))
  {
    match th.pc
    case Idle =>
    case AtLock(_, _) => LockRefines(mem, th, wc);
    case Reading(_, _, _) => ReadingRefines(mem, th, wc);
    case Writing(_, _, _, _) => WritingRefines(mem, th, wc);
    case Leaving(_) =>
  }

  /** Every step of the locked device is one whole call of the atomic device, or nothing. */
  lemma StepRefines(c: Config, ch: Choice)
    requires Inv(true, c) && Enabled(true, c, ch.tid)
    ensures var a := Abs(c);
            Abs(Step(true, c, ch))
            == if TakesEffect(|c.mem|, c.threads[ch.tid]) then CallNow(a, ch.tid) else a
    ensures TakesEffect(|c.mem|, c.threads[ch.tid]) ==> CanCall(Abs(c), ch.tid)
  {
    MemoryRefines(c, ch);
    SessionsRefine(c, ch);
  }

  lemma SessionsRefine(c: Config, ch: Choice)
    requires Inv(true, c) && Enabled(true, c, ch.tid)
    ensures var t, th, a := ch.tid, c.threads[ch.tid], Abs(c);
            Abs(Step(true, c, ch)).sessions
            == if TakesEffect(|c.mem|, th) then
                 var e := Atomic(c.mem, th.pos, th.calls[0]);
                 a.sessions[t := Session(th.calls[1..], e.pos, th.results + [e.result])]
               else a.sessions
  {
    LocalRefines(c.mem, c.threads[ch.tid], ch.writecount);
    OthersUnmoved(c, ch);
  }

  lemma OthersUnmoved(c: Config, ch: Choice)
    requires Inv(true, c) && Enabled(true, c, ch.tid)
    ensures var c' := Step(true, c, ch);
            forall u :: 0 <= u < |c.threads| && u != ch.tid ==>
              c'.threads[u] == c.threads[u] && Settled(c'.mem, c'.threads[u]) == Settled(c.mem, c.threads[u])
  {
  }

  lemma MemoryRefines(c: Config, ch: Choice)
    requires Inv(true, c) && Enabled(true, c, ch.tid)
    ensures var th := c.threads[ch.tid];
            Abs(Step(true, c, ch)).mem
            == if TakesEffect(|c.mem|, th) then Atomic(Abs(c).mem, th.pos, th.calls[0]).mem else Abs(c).mem
    ensures TakesEffect(|c.mem|, c.threads[ch.tid]) ==>
              c.threads[ch.tid].calls[0].Seek? || c.threads[ch.tid].pos >= |c.mem| || Abs(c).mem == c.mem
  {
    var th := c.threads[ch.tid];
    var c' := Step(true, c, ch);
    LocalRefines(c.mem, th, ch.writecount);
    OthersUnmoved(c, ch);
    if th.pc.AtLock? {
      assert c.lock == None;
    } else if Inside(th) {
      assert c.lock == Some(ch.tid);
    }
  }

  // ---- whole runs ----------------------------------------------------------------------------

  /** The threads of a run in the order their calls took effect. */
  ghost function EffectOrder(c: Config, s: seq<Choice>): seq<nat>
    requires Inv(true, c) && Run(true, c, s).Some?
    decreases |s|
  {
    if s == [] then []
    else
      var rest := EffectOrder(Step(true, c, s[0]), s[1..]);
      if TakesEffect(|c.mem|, c.threads[s[0].tid]) then [s[0].tid] + rest else rest
  }

  /** Linearizability: every run of the locked device, cut off anywhere, is the serial run of
      whole calls in the order in which they took the lock. */
  lemma {:induction false} Linearizable(c: Config, s: seq<Choice>)
    requires Inv(true, c) && Run(true, c, s).Some?
    ensures SerialRun(Abs(c), EffectOrder(c, s)) == Some(Abs(Run(true, c, s).value))
    decreases |s|
  {
    if s == [] {
    } else {
      var d := Step(true, c, s[0]);
      StepRefines(c, s[0]);
      Linearizable(d, s[1..]);
      if TakesEffect(|c.mem|, c.threads[s[0].tid]) {
        var rest := EffectOrder(d, s[1..]);
        assert ([s[0].tid] + rest)[1..] == rest;
      }
    }
  }

  /** A thread past its lock, running alone, gets to the end of its call without another effect. */
  lemma {:induction false} Settle(c: Config, t: nat) returns (s: seq<Choice>, e: Config)
    requires Inv(true, c) && t < |c.threads|
    requires c.threads[t].pc.Idle? || c.threads[t].pc.Leaving? || Inside(c.threads[t])
    requires c.lock == None || c.lock == Some(t)
    ensures Run(true, c, s) == Some(e)
    ensures e.threads[t].pc.Idle? && e.lock == None && Abs(e) == Abs(c)
    ensures forall u :: 0 <= u < |c.threads| && u != t ==> e.threads[u] == c.threads[u]
    decreases Measure(true, c)
  {
    if c.threads[t].pc.Idle? {
      s, e := [], c;
      assert !Inside(c.threads[t]);
    } else {
      var ch := Choice(t, 0);
      StepRefines(c, ch);
      StepDecreases(true, c, ch);
      OthersUnmoved(c, ch);
      var rest;
      rest, e := Settle(Step(true, c, ch), t);
      RunCons(true, c, ch, rest);
      s := [ch] + rest;
    }
  }

  /** The locked device can do any whole call by itself: run its thread until it is back. */
  lemma WholeCall(c: Config, t: nat) returns (s: seq<Choice>, e: Config)
    requires Quiet(c) && Inv(true, c)
    requires CanCall(Abs(c), t)
    ensures Run(true, c, s) == Some(e) && Quiet(e) && Abs(e) == CallNow(Abs(c), t)
  {
    AbsQuiet(c);
    var ch := Choice(t, 0);
    var d := Step(true, c, ch);
    StepRefines(c, ch);
    OthersUnmoved(c, ch);
    if TakesEffect(|c.mem|, c.threads[t]) {
      s, e := [ch], d;
      RunCons(true, c, ch, []);
      assert [ch] + [] == [ch];
    } else {
      var d' := Step(true, d, ch);
      StepRefines(d, ch);
      OthersUnmoved(d, ch);
      var rest;
      rest, e := Settle(d', t);
      RunCons(true, d, ch, rest);
      RunCons(true, c, ch, [ch] + rest);
      s := [ch] + ([ch] + rest);
    }
  }

  /** Any serial run of whole calls can be had from the locked device. */
  lemma {:induction false} SerialRealizable(c: Config, order: seq<nat>) returns (s: seq<Choice>, e: Config)
    requires Quiet(c) && Inv(true, c)
    requires SerialRun(Abs(c), order).Some?
    ensures Run(true, c, s) == Some(e) && Quiet(e) && SerialRun(Abs(c), order) == Some(Abs(e))
    decreases |order|
  {
    if order == [] {
      s, e := [], c;
    } else {
      var s1, d := WholeCall(c, order[0]);
      var s2;
      s2, e := SerialRealizable(d, order[1..]);
      RunAppend(true, c, s1, s2);
      s := s1 + s2;
    }
  }

  ghost predicate LockedOutcome(c: Config, a: Serial)
    requires Inv(true, c)
  {
    exists s, e :: Finishes(true, c, s, e) && Abs(e) == a
  }

  ghost predicate SerialOutcome(a0: Serial, a: Serial) {
    exists order :: SerialRun(a0, order) == Some(a) && SerialDone(a)
  }

  /** The outcomes of the locked device are exactly the outcomes of the atomic device: the same
      final memories together with the same results and positions of every file. */
  lemma LockedIsAtomic(c: Config, a: Serial)
    requires Quiet(c) && Inv(true, c)
    ensures LockedOutcome(c, a) <==> SerialOutcome(Abs(c), a)
  {
    if LockedOutcome(c, a) {
      var s, e :| Finishes(true, c, s, e) && Abs(e) == a;
      Linearizable(c, s);
      DoneIsQuiet(true, e);
      AbsQuiet(e);
      assert SerialRun(Abs(c), EffectOrder(c, s)) == Some(a) && SerialDone(a);
    }
    if SerialOutcome(Abs(c), a) {
      var order :| SerialRun(Abs(c), order) == Some(a) && SerialDone(a);
      var s, e := SerialRealizable(c, order);
      AbsQuiet(e);
      assert forall t :: 0 <= t < |e.threads| ==> e.threads[t].calls == Abs(e).sessions[t].calls;
      assert Finishes(true, c, s, e);
    }
  }
}
