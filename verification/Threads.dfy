/** The shared-memory device under any scheduler.

    Each thread has its own open file and a list of calls; the machine runs the code of `_read`,
    `_write` and `_llseek` one shared access at a time, and the scheduler may switch threads after
    every one of them.  `locked` says whether `mutex_lock`/`mutex_unlock` are compiled in: the two
    drivers differ in nothing else. */
module Threads {
  import opened Bytes
  import opened SharedMemory

  /** Where a thread is inside its current call, with the call's local variables. */
  datatype Pc =
    | Idle                                                    // between calls
    | AtLock(p: nat, count: nat)                              // clamped, about to lock
    | Reading(p: nat, count: nat, got: seq<byte>)             // in copy_to_user
    | Writing(p: nat, count: nat, i: nat, odd: bool)          // in one of the two copy loops
    | Leaving(count: nat)                                     // unlocked, position not moved yet

  datatype Thread = Thread(calls: seq<Call>, pos: nat, pc: Pc, results: seq<Result>)

  datatype Config = Config(mem: seq<byte>, lock: Option<nat>, threads: seq<Thread>)

  /** One scheduling decision: who runs, and what `writecount` is found to be.  The counter is
      incremented without the lock, so its value is left to the scheduler. */
  datatype Choice = Choice(tid: nat, writecount: int)

  // ---- the invariant ------------------------------------------------------------------------

  predicate Inside(th: Thread) {
    th.pc.Reading? || th.pc.Writing?
  }

  predicate Done(th: Thread) {
    th.calls == []
  }

  /** How many bytes the current call will move, from the position it started at. */
  function CountOf(size: nat, pos: nat, call: Call): nat
    requires pos < size
  {
    match call
    case Seek(_, _) => 0
    case Read(cnt, _) => Clamp(size, pos, cnt)
    case Write(data) => Clamp(size, pos, |data|)
  }

  /** The locals of a call in progress are what the code computed for it. */
  predicate ThreadOk(size: nat, th: Thread) {
    && th.pos <= size
    && (!th.pc.Idle? ==> th.calls != [] && !th.calls[0].Seek? && th.pos < size)
    && match th.pc
       case Idle => true
       case AtLock(p, count) => p == th.pos && count == CountOf(size, p, th.calls[0])
       case Reading(p, count, got) =>
         && th.calls[0].Read? && p == th.pos && count == CountOf(size, p, th.calls[0])
         && |got| <= count && |got| <= th.calls[0].room
       case Writing(p, count, i, _) =>
         && th.calls[0].Write? && p == th.pos && count == CountOf(size, p, th.calls[0]) && i <= count
       case Leaving(count) => th.calls[0].Write? && count == CountOf(size, th.pos, th.calls[0])
  }

  /** Every thread's locals are right, and the lock is held exactly by the thread between lock
      and unlock (by nobody, when locking is compiled out). */
  ghost predicate Inv(locked: bool, c: Config) {
    && (forall t :: 0 <= t < |c.threads| ==> ThreadOk(|c.mem|, c.threads[t]))
    && (if locked then
          && (c.lock.Some? ==> c.lock.value < |c.threads|)
          && forall t :: 0 <= t < |c.threads| ==> (Inside(c.threads[t]) <==> c.lock == Some(t))
        else c.lock == None)
  }

  /** Nobody is in a call. */
  predicate Quiet(c: Config) {
    c.lock == None && forall t :: 0 <= t < |c.threads| ==> c.threads[t].pc.Idle? && c.threads[t].pos <= |c.mem|
  }

  predicate AllDone(c: Config) {
    forall t :: 0 <= t < |c.threads| ==> Done(c.threads[t])
  }

  // ---- steps --------------------------------------------------------------------------------

  /** The call in progress returns `r` and leaves the file at `pos`. */
  function Return(th: Thread, pos: nat, r: Result): Thread
    requires th.calls != []
  {
    Thread(th.calls[1..], pos, Idle, th.results + [r])
  }

  /** A thread can step unless it has finished or waits for a lock somebody holds. */
  predicate Enabled(locked: bool, c: Config, t: nat) {
    && t < |c.threads|
    && !Done(c.threads[t])
    && (locked && c.threads[t].pc.AtLock? ==> c.lock == None)
  }

  /** The thread's own part of a step. */
  function Local(mem: seq<byte>, th: Thread, writecount: int): (r: Thread)
    requires !Done(th) && ThreadOk(|mem|, th)
    ensures ThreadOk(|mem|, r)
  {
    var call := th.calls[0];
    match th.pc
    case Idle =>
      if call.Seek? then
        var r := SeekPos(|mem|, th.pos, call.offset, call.whence);
        Return(th, r.0, Result(r.1, []))
      else if th.pos >= |mem| then
        Return(th, th.pos, Result(0, []))
      else
        th.(pc := AtLock(th.pos, CountOf(|mem|, th.pos, call)))
    case AtLock(p, count) =>
      if call.Read? then th.(pc := Reading(p, count, []))
      else th.(pc := Writing(p, count, 0, writecount > 0 && writecount % 2 == 1))
    case Reading(p, count, got) =>
      if |got| < count && |got| < call.room then
        th.(pc := Reading(p, count, got + [mem[p + |got|]]))
      else if |got| < count then
        Return(th, th.pos, Result(-EFAULT, got))
      else
        Return(th, th.pos + count, Result(count, got))
    case Writing(p, count, i, odd) =>
      if i < count then th.(pc := Writing(p, count, i + 1, odd))
      else th.(pc := Leaving(count))
    case Leaving(count) =>
      Return(th, th.pos + count, Result(count, []))
  }

  /** The next step of this thread puts a byte into the shared memory. */
  predicate Storing(th: Thread) {
    th.pc.Writing? && th.pc.i < th.pc.count
  }

  function MemAfter(mem: seq<byte>, th: Thread): (m: seq<byte>)
    requires !Done(th) && ThreadOk(|mem|, th)
    ensures |m| == |mem|
  {
    if Storing(th) then mem[th.pc.p + th.pc.i := th.calls[0].data[th.pc.i]] else mem
  }

  /** Thread `ch.tid` does its next shared access. */
  function Step(locked: bool, c: Config, ch: Choice): (r: Config)
    requires Inv(locked, c) && Enabled(locked, c, ch.tid)
    ensures |r.mem| == |c.mem| && |r.threads| == |c.threads|
    ensures Inv(locked, r)
  {
    var th := c.threads[ch.tid];
    var th' := Local(c.mem, th, ch.writecount);
    var lock :=
      if !locked then c.lock
      else if Inside(th') then Some(ch.tid)
      else if Inside(th) then None
      else c.lock;
    Config(MemAfter(c.mem, th), lock, c.threads[ch.tid := th'])
  }

  // ---- runs ---------------------------------------------------------------------------------

  /** Where the schedule `s` leads from `c`, if it can be followed. */
  ghost function Run(locked: bool, c: Config, s: seq<Choice>): (r: Option<Config>)
    requires Inv(locked, c)
    ensures r.Some? ==> Inv(locked, r.value) && |r.value.mem| == |c.mem| && |r.value.threads| == |c.threads|
    decreases |s|
  {
    if s == [] then Some(c)
    else if Enabled(locked, c, s[0].tid) then Run(locked, Step(locked, c, s[0]), s[1..])
    else None
  }

  /** The schedule `s` takes `c` to `e`, where every call has returned. */
  ghost predicate Finishes(locked: bool, c: Config, s: seq<Choice>, e: Config)
    requires Inv(locked, c)
  {
    Run(locked, c, s) == Some(e) && AllDone(e)
  }

  /** One step, then a schedule. */
  lemma RunCons(locked: bool, c: Config, ch: Choice, s: seq<Choice>)
    requires Inv(locked, c) && Enabled(locked, c, ch.tid)
    ensures Run(locked, c, [ch] + s) == Run(locked, Step(locked, c, ch), s)
  {
  }

  /** A schedule followed after another one. */
  lemma {:induction false} RunAppend(locked: bool, c: Config, a: seq<Choice>, b: seq<Choice>)
    requires Inv(locked, c)
    ensures Run(locked, c, a + b)
            == match Run(locked, c, a) { case None => None case Some(d) => Run(locked, d, b) }
    decreases |a|
  {
    if a == [] {
      assert a + b == b;
    } else {
      assert (a + b)[0] == a[0] && (a + b)[1..] == a[1..] + b;
      if Enabled(locked, c, a[0].tid) {
        RunAppend(locked, Step(locked, c, a[0]), a[1..], b);
      }
    }
  }

  /** The last step of a run. */
  lemma RunLast(locked: bool, c: Config, s: seq<Choice>) returns (d: Config)
    requires Inv(locked, c) && s != [] && Run(locked, c, s).Some?
    ensures Inv(locked, d) && Run(locked, c, s[..|s| - 1]) == Some(d)
    ensures Enabled(locked, d, s[|s| - 1].tid)
    ensures Run(locked, c, s) == Some(Step(locked, d, s[|s| - 1]))
  {
    var n := |s| - 1;
    assert s == s[..n] + [s[n]];
    RunAppend(locked, c, s[..n], [s[n]]);
    d := Run(locked, c, s[..n]).value;
  }

  // ---- progress -----------------------------------------------------------------------------

  /** In every reachable state at most one thread is between lock and unlock. */
  lemma MutualExclusion(c: Config, s: seq<Choice>, e: Config, t: nat, u: nat)
    requires Quiet(c) && Inv(true, c) && Run(true, c, s) == Some(e)
    requires t < |e.threads| && u < |e.threads| && Inside(e.threads[t]) && Inside(e.threads[u])
    ensures t == u && e.lock == Some(t)
  {
  }

  /** In every reachable state of either driver positions lie in the memory or at its end, and the
      next byte a thread touches lies in the memory. */
  lemma PositionSafety(locked: bool, c: Config, s: seq<Choice>, e: Config, t: nat)
    requires Quiet(c) && Inv(locked, c) && Run(locked, c, s) == Some(e) && t < |e.threads|
    ensures var th := e.threads[t];
            && |e.mem| == |c.mem| && th.pos <= |e.mem|
            && (Storing(th) ==> th.pc.p + th.pc.i < |e.mem|)
            && (th.pc.Reading? && |th.pc.got| < th.pc.count ==> th.pc.p + |th.pc.got| < |e.mem|)
  {
  }

  /** Some step is enabled unless every thread has finished: if a thread waits for the lock, its
      holder can go on. */
  lemma Progress(locked: bool, c: Config)
    requires Inv(locked, c) && !AllDone(c)
    ensures exists t :: Enabled(locked, c, t)
  {
    var t :| 0 <= t < |c.threads| && !Done(c.threads[t]);
    if !Enabled(locked, c, t) {
      assert Enabled(locked, c, c.lock.value);
    }
  }

  /** What one call can cost: lock, a step per byte, unlock, return. */
  function CallsCost(size: nat, n: nat): nat {
    if n == 0 then 0 else size + 4 + CallsCost(size, n - 1)
  }

  function Spent(th: Thread): nat {
    match th.pc
    case Idle => 0
    case AtLock(_, _) => 1
    case Reading(_, _, got) => 2 + |got|
    case Writing(_, _, i, _) => 2 + i
    case Leaving(count) => 3 + count
  }

  function Left(size: nat, th: Thread): nat
    requires ThreadOk(size, th)
  {
    CallsCost(size, |th.calls|) - Spent(th)
  }

  function Total(size: nat, ths: seq<Thread>): nat
    requires forall t :: 0 <= t < |ths| ==> ThreadOk(size, ths[t])
  {
    if ths == [] then 0 else Left(size, ths[0]) + Total(size, ths[1..])
  }

  /** The remaining calls and bytes of all threads. */
  ghost function Measure(locked: bool, c: Config): nat
    requires Inv(locked, c)
  {
    Total(|c.mem|, c.threads)
  }

  lemma {:induction false} TotalUpdate(size: nat, ths: seq<Thread>, t: nat, th: Thread)
    requires forall u :: 0 <= u < |ths| ==> ThreadOk(size, ths[u])
    requires t < |ths| && ThreadOk(size, th)
    ensures Total(size, ths[t := th]) == Total(size, ths) - Left(size, ths[t]) + Left(size, th)
  {
    if t == 0 {
      assert ths[t := th][1..] == ths[1..];
    } else {
      TotalUpdate(size, ths[1..], t - 1, th);
      assert ths[t := th][1..] == ths[1..][t - 1 := th];
    }
  }

  lemma LocalDecreases(mem: seq<byte>, th: Thread, writecount: int)
    requires !Done(th) && ThreadOk(|mem|, th)
    ensures Left(|mem|, Local(mem, th, writecount)) < Left(|mem|, th)
  {
  }

  /** Every step uses up some of it. */
  lemma StepDecreases(locked: bool, c: Config, ch: Choice)
    requires Inv(locked, c) && Enabled(locked, c, ch.tid)
    ensures Measure(locked, Step(locked, c, ch)) < Measure(locked, c)
  {
    var th := c.threads[ch.tid];
    LocalDecreases(c.mem, th, ch.writecount);
    TotalUpdate(|c.mem|, c.threads, ch.tid, Local(c.mem, th, ch.writecount));
  }

  /** No run is longer than the measure of its start. */
  lemma {:induction false} RunsAreBounded(locked: bool, c: Config, s: seq<Choice>)
    requires Inv(locked, c) && Run(locked, c, s).Some?
    ensures |s| + Measure(locked, Run(locked, c, s).value) <= Measure(locked, c)
    decreases |s|
  {
    if s == [] {
    } else {
      StepDecreases(locked, c, s[0]);
      RunsAreBounded(locked, Step(locked, c, s[0]), s[1..]);
    }
  }

  /** From every reachable state the threads can finish. */
  lemma {:induction false} CanFinish(locked: bool, c: Config) returns (s: seq<Choice>, e: Config)
    requires Inv(locked, c)
    ensures Finishes(locked, c, s, e)
    decreases Measure(locked, c)
  {
    if AllDone(c) {
      s, e := [], c;
    } else {
      Progress(locked, c);
      var t :| Enabled(locked, c, t);
      var ch := Choice(t, 0);
      StepDecreases(locked, c, ch);
      var rest;
      rest, e := CanFinish(locked, Step(locked, c, ch));
      RunCons(locked, c, ch, rest);
      s := [ch] + rest;
    }
  }

  /** When they have finished, nobody is in a call and the lock is free. */
  lemma DoneIsQuiet(locked: bool, c: Config)
    requires Inv(locked, c) && AllDone(c)
    ensures Quiet(c)
  {
  }

  /** A run that cannot be continued has finished every call and released the lock. */
  lemma StuckMeansDone(locked: bool, c: Config, s: seq<Choice>, e: Config)
    requires Inv(locked, c) && Run(locked, c, s) == Some(e)
    ensures (forall t: nat :: !Enabled(locked, e, t)) <==> AllDone(e)
    ensures AllDone(e) ==> Quiet(e)
  {
    if !AllDone(e) {
      Progress(locked, e);
    } else {
      DoneIsQuiet(locked, e);
    }
  }
}
