/** The wait-queue mailbox device: one slot, a `havedata` flag, readers that sleep on a wait queue
    and writers that wake them.

    The machine runs `example_read` and `example_write` one shared access at a time for any number
    of threads.  The driver takes no lock.  `phased` says whether the schedule keeps the copy
    phases apart: copy-in with publishing on the writer's side, and check, clear and copy-out on
    the reader's.  Everything else may still happen while a thread is in a phase: readers find
    nothing, go to sleep and are woken, and writers return.  The wake-up property needs no phases
    kept apart; delivery does. */
module Mailbox {
  import opened Bytes

  const CAPACITY: nat := 100
  const EAGAIN: int := 11
  const EFAULT: int := 14

  /** A call.  `room` is how many bytes of the reader's buffer are writable: `copy_to_user` fails
      when it runs past them.  `msg` is what can be copied in from the writer's buffer: the copy
      loop stops at the first byte that cannot. */
  datatype Call = Read(size: nat, room: nat, nonblock: bool) | Write(msg: seq<byte>)

  datatype Result = Result(ret: int, data: seq<byte>)

  datatype Pc =
    | Idle
    | Check                                  // at the test of the outer while loop
    | Wait                                   // in wait_event_interruptible, about to test
    | Sleep                                  // in it, on the queue
    | Clear                                  // past the test, about to clear havedata
    | CopyOut(index: nat)                    // cleared it when message `index` was the latest
    | TakeLen(index: nat, got: seq<byte>)    // copied, about to read buff_len
    | Zero(index: nat, got: seq<byte>, len: nat)    // about to zero it
    | CopyIn(i: nat)                         // in the copy loop, at byte i of the caller's buffer
    | Wake                                   // flag set, about to call wake_up
    | Delay                                  // woken them, about to return buff_len

  datatype Thread = Thread(calls: seq<Call>, pc: Pc, results: seq<Result>)

  /** A successful read, for the record: who took which message, and what it was given. */
  datatype Delivery = Delivery(tid: nat, index: nat, size: nat, result: Result)

  /** What has become of a published message: nobody has taken it, the next one has replaced it
      before anybody did, a reader has cleared the flag for it and not returned, that reader has
      failed to copy it out, or it is the `n`-th delivery. */
  datatype Fate = Pending | Overwritten | Taken | Lost | Given(n: nat)

  /** The shared variables and the threads; then the history: the messages published, what became
      of each, and the deliveries. */
  datatype Config = Config(
    buf: seq<byte>, len: nat, have: bool, threads: seq<Thread>,
    log: seq<seq<byte>>, fate: seq<Fate>, given: seq<Delivery>)

  /** Who runs; `signal` interrupts a sleeper. */
  datatype Choice = Choice(tid: nat, signal: bool)

  // ---- steps --------------------------------------------------------------------------------

  predicate Done(th: Thread) {
    th.calls == []
  }

  /** Inside one of the phases that must not overlap. */
  predicate Busy(th: Thread) {
    th.pc.Clear? || th.pc.CopyOut? || th.pc.TakeLen? || th.pc.Zero? || th.pc.CopyIn?
  }

  /** A read whose buffer can take what it asks for. */
  predicate Whole(call: Call) {
    call.Read? && call.room >= call.size
  }

  predicate ThreadOk(th: Thread) {
    && (forall i :: 0 <= i < |th.calls| ==>
          match th.calls[i] { case Read(size, _, _) => size <= CAPACITY case Write(msg) => |msg| <= CAPACITY })
    && match th.pc
       case Idle => true
       case CopyIn(i) => th.calls != [] && th.calls[0].Write? && i <= |th.calls[0].msg|
       case Wake => th.calls != [] && th.calls[0].Write?
       case Delay => th.calls != [] && th.calls[0].Write?
       case Wait => th.calls != [] && th.calls[0].Read? && !th.calls[0].nonblock
       case Sleep => th.calls != [] && th.calls[0].Read? && !th.calls[0].nonblock
       case TakeLen(_, got) => th.calls != [] && Whole(th.calls[0]) && |got| == th.calls[0].size
       case Zero(_, got, _) => th.calls != [] && Whole(th.calls[0]) && |got| == th.calls[0].size
       case _ => th.calls != [] && th.calls[0].Read?
  }

  ghost predicate Ok(c: Config) {
    |c.buf| == CAPACITY && c.len <= CAPACITY && forall t :: 0 <= t < |c.threads| ==> ThreadOk(c.threads[t])
  }

  /** The thread's next step takes it into a phase. */
  predicate Enters(have: bool, th: Thread) {
    th.calls != [] && ((th.pc.Idle? && th.calls[0].Write?) || (th.pc.Check? && have))
  }

  predicate OthersOut(c: Config, t: nat) {
    forall u :: 0 <= u < |c.threads| && u != t ==> !Busy(c.threads[u])
  }

  /** In a phased schedule a thread enters a phase only when nobody else is in one. */
  predicate Enabled(phased: bool, c: Config, ch: Choice) {
    && ch.tid < |c.threads|
    && !Done(c.threads[ch.tid])
    && (c.threads[ch.tid].pc.Sleep? <==> ch.signal)
    && (phased && Enters(c.have, c.threads[ch.tid]) ==> OthersOut(c, ch.tid))
  }

  function Return(th: Thread, r: Result): Thread
    requires th.calls != []
  {
    Thread(th.calls[1..], Idle, th.results + [r])
  }

  /** `wake_up`: everybody on the queue tests the condition again. */
  function Woken(th: Thread): Thread {
    if th.pc.Sleep? then th.(pc := Wait) else th
  }

  /** The latest message's number. */
  function Last(c: Config): nat {
    if c.log == [] then 0 else |c.log| - 1
  }

  /** The thread that steps, afterwards. */
  function Local(c: Config, th: Thread): (r: Thread)
    requires ThreadOk(th) && !Done(th) && |c.buf| == CAPACITY
    ensures ThreadOk(r)
  {
    var call := th.calls[0];
    match th.pc
    case Idle => if call.Read? then th.(pc := Check) else th.(pc := CopyIn(0))
    case Check =>
      if c.have then th.(pc := Clear)
      else if call.nonblock then Return(th, Result(-EAGAIN, []))
      else th.(pc := Wait)
    case Wait => if c.have then th.(pc := Check) else th.(pc := Sleep)
    case Sleep => th.(pc := Check)
    case Clear => th.(pc := CopyOut(Last(c)))
    case CopyOut(k) =>
      if call.room < call.size then Return(th, Result(-EFAULT, c.buf[..call.room]))
      else th.(pc := TakeLen(k, c.buf[..call.size]))
    case TakeLen(k, got) => th.(pc := Zero(k, got, c.len))
    case Zero(_, got, len) => Return(th, Result(len, got))
    case CopyIn(i) => if c.len < |call.msg| && i < |call.msg| then th.(pc := CopyIn(i + 1)) else th.(pc := Wake)
    case Wake => th.(pc := Delay)
    case Delay => Return(th, Result(c.len, []))
  }

  /** History: a message is published; if nobody has taken the last one, nobody will. */
  function Publish(c: Config, msg: seq<byte>): Config {
    c.(log := c.log + [msg], fate := Superseded(c.fate) + [Pending])
  }

  function Superseded(fate: seq<Fate>): (r: seq<Fate>)
    ensures |r| == |fate|
  {
    var n := |fate| - 1;
    if n >= 0 && fate[n].Pending? then fate[n := Overwritten] else fate
  }

  /** History: the last message is taken, if it was still there to take. */
  function Claimed(fate: seq<Fate>): (r: seq<Fate>)
    ensures |r| == |fate|
  {
    var n := |fate| - 1;
    if n >= 0 && fate[n].Pending? then fate[n := Taken] else fate
  }

  /** History: the reader that took message `k` has failed to copy it out. */
  function LoseAt(fate: seq<Fate>, k: nat): (r: seq<Fate>)
    ensures |r| == |fate|
  {
    if k < |fate| && fate[k].Taken? then fate[k := Lost] else fate
  }

  /** History: a message is delivered. */
  function Record(c: Config, d: Delivery): Config {
    var fate := if d.index < |c.fate| then c.fate[d.index := Given(|c.given|)] else c.fate;
    c.(given := c.given + [d], fate := fate)
  }

  /** The step's effect on the shared variables and the history. */
  function Shared(c: Config, t: nat, th: Thread): (r: Config)
    requires ThreadOk(th) && !Done(th) && Ok(c)
    ensures r.threads == c.threads && |r.buf| == CAPACITY && r.len <= CAPACITY
  {
    match th.pc
    case Idle => if th.calls[0].Write? then c.(len := 0) else c
    case Clear => c.(have := false, fate := Claimed(c.fate))
    case CopyOut(k) => if th.calls[0].room < th.calls[0].size then c.(fate := LoseAt(c.fate, k)) else c
    case Zero(k, got, len) => Record(c.(len := 0), Delivery(t, k, th.calls[0].size, Result(len, got)))
    case CopyIn(i) =>
      var msg := th.calls[0].msg;
      if c.len < |msg| && i < |msg| then
        c.(buf := c.buf[c.len := msg[i]], len := c.len + 1)
      else
        Publish(c.(have := true), msg)
    case _ => c
  }

  ghost function Step(phased: bool, c: Config, ch: Choice): (r: Config)
    requires Ok(c) && Enabled(phased, c, ch)
    ensures Ok(r) && |r.threads| == |c.threads|
  {
    var th := c.threads[ch.tid];
    var moved := c.threads[ch.tid := Local(c, th)];
    var threads := if th.pc.Wake? then seq(|moved|, u requires 0 <= u < |moved| => Woken(moved[u])) else moved;
    Shared(c, ch.tid, th).(threads := threads)
  }

  /** Where a schedule leads, if it can be followed. */
  ghost function Run(phased: bool, c: Config, s: seq<Choice>): (r: Option<Config>)
    requires Ok(c)
    ensures r.Some? ==> Ok(r.value) && |r.value.threads| == |c.threads|
    decreases |s|
  {
    if s == [] then Some(c)
    else if Enabled(phased, c, s[0]) then Run(phased, Step(phased, c, s[0]), s[1..])
    else None
  }

  lemma RunCons(phased: bool, c: Config, ch: Choice, s: seq<Choice>)
    requires Ok(c) && Enabled(phased, c, ch)
    ensures Run(phased, c, [ch] + s) == Run(phased, Step(phased, c, ch), s)
  {
    assert ([ch] + s)[1..] == s;
  }

  /** Everything before the first call. */
  ghost predicate Start(c: Config) {
    && Ok(c) && !c.have && c.log == [] && c.fate == [] && c.given == []
    && forall t :: 0 <= t < |c.threads| ==> c.threads[t].pc.Idle?
  }

  // ---- no lost wake-up ------------------------------------------------------------------------

  /** A reader asleep means there is nothing to read, or a writer is about to wake it. */
  ghost predicate NoLostWakeup(c: Config) {
    forall t :: 0 <= t < |c.threads| && c.threads[t].pc.Sleep? ==>
      !c.have || exists w :: 0 <= w < |c.threads| && c.threads[w].pc.Wake?
  }

  lemma WakeupStep(phased: bool, c: Config, ch: Choice)
    requires Ok(c) && Enabled(phased, c, ch) && NoLostWakeup(c)
    ensures NoLostWakeup(Step(phased, c, ch))
  {
    var d := Step(phased, c, ch);
    var th := c.threads[ch.tid];
    if th.pc.Wake? {
      assert forall u :: 0 <= u < |d.threads| ==> !d.threads[u].pc.Sleep?;
    } else if d.have && !c.have {
      assert d.threads[ch.tid].pc.Wake?;
    } else if w :| 0 <= w < |c.threads| && c.threads[w].pc.Wake? {
      assert d.threads[w].pc.Wake?;
    }
  }

  /** In every reachable state, whatever the schedule and however the phases overlap. */
  lemma {:induction false} WakeupsAreNotLost(phased: bool, c: Config, s: seq<Choice>)
    requires Ok(c) && NoLostWakeup(c) && Run(phased, c, s).Some?
    ensures NoLostWakeup(Run(phased, c, s).value)
    decreases |s|
  {
    if s == [] {
    } else {
      WakeupStep(phased, c, s[0]);
      WakeupsAreNotLost(phased, Step(phased, c, s[0]), s[1..]);
    }
  }
}
