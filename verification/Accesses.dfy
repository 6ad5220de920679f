/** Without the mutex: exactly which memories, read data, results and positions a run can end in,
    all together.

    Which cells a thread will load and store, and in which order, depends on nothing the other
    threads do; only the values it loads do.  So the complete runs are the interleavings of the
    threads' access plans, and replaying an interleaving on the memory gives everything the calls
    return. */
module Accesses {
  import opened Bytes
  import opened SharedMemory
  import opened Threads
  import opened Unlocked

  datatype Access = Load(addr: nat) | Save(addr: nat, val: byte)

  datatype Act = Act(tid: nat, access: Access)

  // ---- access plans --------------------------------------------------------------------------

  /** How many bytes a call copies, of the `count` it is clamped to. */
  function Copies(size: nat, pos: nat, call: Call): (n: nat)
    requires pos <= size
  {
    if pos >= size || call.Seek? then 0
    else if call.Read? then Min(CountOf(size, pos, call), call.room)
    else CountOf(size, pos, call)
  }

  /** The accesses of one call from its `i`-th on. */
  function CallAccesses(size: nat, pos: nat, call: Call, i: nat): (r: seq<Access>)
    requires pos <= size && i <= Copies(size, pos, call)
    ensures |r| == Copies(size, pos, call) - i
  {
    seq(Copies(size, pos, call) - i, j requires 0 <= j < Copies(size, pos, call) - i =>
      if call.Write? then Save(pos + i + j, call.data[i + j]) else Load(pos + i + j))
  }

  /** The accesses of a list of calls, in program order. */
  function CallsAccesses(size: nat, pos: nat, calls: seq<Call>): seq<Access>
    requires pos <= size
    decreases |calls|
  {
    if calls == [] then []
    else CallAccesses(size, pos, calls[0], 0) + CallsAccesses(size, PosAfter(size, pos, calls[0]), calls[1..])
  }

  /** How far the thread is in its current call. */
  function At(th: Thread): nat {
    match th.pc
    case Reading(_, _, got) => |got|
    case Writing(_, _, i, _) => i
    case Leaving(count) => count
    case _ => 0
  }

  /** Everything the thread has still to load and store, in order. */
  function AccessPlan(size: nat, th: Thread): seq<Access>
    requires ThreadOk(size, th)
  {
    if th.calls == [] then []
    else
      CallAccesses(size, th.pos, th.calls[0], At(th))
      + CallsAccesses(size, PosAfter(size, th.pos, th.calls[0]), th.calls[1..])
  }

  /** The next step of this thread takes a byte from the shared memory. */
  predicate Loading(th: Thread) {
    && th.pc.Reading? && th.calls != [] && th.calls[0].Read?
    && |th.pc.got| < th.pc.count && |th.pc.got| < th.calls[0].room
  }

  /** The access a thread performs if it steps now, if it does. */
  function StepAccess(size: nat, th: Thread): Option<Access>
    requires ThreadOk(size, th)
  {
    if Loading(th) then Some(Load(th.pos + |th.pc.got|))
    else if Storing(th) then Some(Save(th.pos + th.pc.i, th.calls[0].data[th.pc.i]))
    else None
  }

  lemma CallPops(size: nat, pos: nat, call: Call, i: nat)
    requires pos < size && i < Copies(size, pos, call)
    ensures CallAccesses(size, pos, call, i)
            == [if call.Write? then Save(pos + i, call.data[i]) else Load(pos + i)]
               + CallAccesses(size, pos, call, i + 1)
  {
  }

  /** An access takes the thread one byte further in its call. */
  lemma AccessMovesOn(mem: seq<byte>, th: Thread, wc: int)
    requires !Done(th) && ThreadOk(|mem|, th) && StepAccess(|mem|, th).Some?
    ensures var th' := Local(mem, th, wc);
            th'.calls == th.calls && th'.pos == th.pos && At(th') == At(th) + 1
    ensures th.pos < |mem| && At(th) < Copies(|mem|, th.pos, th.calls[0])
    ensures StepAccess(|mem|, th).value
            == if th.calls[0].Write? then Save(th.pos + At(th), th.calls[0].data[At(th)]) else Load(th.pos + At(th))
  {
  }

  lemma PlanPops(mem: seq<byte>, th: Thread, wc: int)
    requires !Done(th) && ThreadOk(|mem|, th) && StepAccess(|mem|, th).Some?
    ensures AccessPlan(|mem|, th) == [StepAccess(|mem|, th).value] + AccessPlan(|mem|, Local(mem, th, wc))
  {
    AccessMovesOn(mem, th, wc);
    var call, i := th.calls[0], At(th);
    CallPops(|mem|, th.pos, call, i);
    var head := [StepAccess(|mem|, th).value];
    var now := CallAccesses(|mem|, th.pos, call, i + 1);
    var rest := CallsAccesses(|mem|, PosAfter(|mem|, th.pos, call), th.calls[1..]);
    assert (head + now) + rest == head + (now + rest);
  }

  lemma PlanStays(mem: seq<byte>, th: Thread, wc: int)
    requires !Done(th) && ThreadOk(|mem|, th) && StepAccess(|mem|, th).None?
    requires !Local(mem, th, wc).pc.Idle?
    ensures AccessPlan(|mem|, th) == AccessPlan(|mem|, Local(mem, th, wc))
  {
  }

  lemma PlanUnfolds(size: nat, th: Thread)
    requires ThreadOk(size, th) && th.pc.Idle?
    ensures AccessPlan(size, th) == CallsAccesses(size, th.pos, th.calls)
  {
  }

  /** At its end a call has nothing left to access, and its position is the planned one. */
  lemma PlanReturns(mem: seq<byte>, th: Thread, wc: int)
    requires !Done(th) && ThreadOk(|mem|, th) && StepAccess(|mem|, th).None?
    requires Local(mem, th, wc).pc.Idle?
    ensures Local(mem, th, wc).pos == PosAfter(|mem|, th.pos, th.calls[0])
    ensures AccessPlan(|mem|, th) == AccessPlan(|mem|, Local(mem, th, wc))
  {
    PlanUnfolds(|mem|, Local(mem, th, wc));
    assert CallAccesses(|mem|, th.pos, th.calls[0], At(th)) == [];
  }

  /** A step pops the head of the thread's plan exactly when it accesses the memory. */
  lemma AccessPops(mem: seq<byte>, th: Thread, wc: int)
    requires !Done(th) && ThreadOk(|mem|, th)
    ensures AccessPlan(|mem|, th) == Then(StepAccess(|mem|, th), AccessPlan(|mem|, Local(mem, th, wc)))
  {
    if StepAccess(|mem|, th).Some? {
      PlanPops(mem, th, wc);
    } else if Local(mem, th, wc).pc.Idle? {
      PlanReturns(mem, th, wc);
    } else {
      PlanStays(mem, th, wc);
    }
  }

  /** The stores among some accesses. */
  function Saves(accesses: seq<Access>): seq<ByteStore> {
    if accesses == [] then []
    else
      var a := accesses[0];
      Then(if a.Save? then Some(ByteStore(a.addr, a.val)) else None, Saves(accesses[1..]))
  }

  lemma {:induction false} SavesAppend(a: seq<Access>, b: seq<Access>)
    ensures Saves(a + b) == Saves(a) + Saves(b)
  {
    if a == [] {
      assert a + b == b;
    } else {
      assert (a + b)[0] == a[0] && (a + b)[1..] == a[1..] + b;
      SavesAppend(a[1..], b);
    }
  }

  lemma {:induction false} CallSaves(size: nat, pos: nat, call: Call, i: nat)
    requires pos <= size && i <= Copies(size, pos, call)
    ensures Saves(CallAccesses(size, pos, call, i)) == CallStores(size, pos, call, if call.Write? then i else 0)
    decreases Copies(size, pos, call) - i
  {
    if i == Copies(size, pos, call) {
      assert CallAccesses(size, pos, call, i) == [];
    } else {
      CallPops(size, pos, call, i);
      CallSaves(size, pos, call, i + 1);
      SavesCons(if call.Write? then Save(pos + i, call.data[i]) else Load(pos + i),
                CallAccesses(size, pos, call, i + 1));
      if call.Write? {
        StoresPop(size, pos, call, i);
      }
    }
  }

  lemma SavesCons(a: Access, rest: seq<Access>)
    ensures Saves([a] + rest) == Then(if a.Save? then Some(ByteStore(a.addr, a.val)) else None, Saves(rest))
  {
    assert ([a] + rest)[1..] == rest;
  }

  lemma StoresPop(size: nat, pos: nat, call: Call, i: nat)
    requires pos < size && call.Write? && i < Copies(size, pos, call)
    ensures CallStores(size, pos, call, i) == [ByteStore(pos + i, call.data[i])] + CallStores(size, pos, call, i + 1)
  {
  }

  lemma {:induction false} CallsSaves(size: nat, pos: nat, calls: seq<Call>)
    requires pos <= size
    ensures Saves(CallsAccesses(size, pos, calls)) == CallsStores(size, pos, calls)
    decreases |calls|
  {
    if calls == [] {
    } else {
      var now, next := CallAccesses(size, pos, calls[0], 0), PosAfter(size, pos, calls[0]);
      SavesAppend(now, CallsAccesses(size, next, calls[1..]));
      CallSaves(size, pos, calls[0], 0);
      CallsSaves(size, next, calls[1..]);
    }
  }

  /** The stores of a thread's access plan are its plan of stores. */
  lemma SavesArePlan(size: nat, th: Thread)
    requires ThreadOk(size, th)
    ensures Saves(AccessPlan(size, th)) == Plan(size, th)
  {
    if th.calls == [] {
    } else {
      var next := PosAfter(size, th.pos, th.calls[0]);
      SavesAppend(CallAccesses(size, th.pos, th.calls[0], At(th)), CallsAccesses(size, next, th.calls[1..]));
      CallSaves(size, th.pos, th.calls[0], At(th));
      CallsSaves(size, next, th.calls[1..]);
    }
  }

  // ---- runs as interleavings -----------------------------------------------------------------

  /** The accesses of a run, in the order they happened. */
  ghost function Acts(c: Config, s: seq<Choice>): seq<Act>
    requires Inv(false, c) && Run(false, c, s).Some?
    decreases |s|
  {
    if s == [] then []
    else Then(StepAct(c, s[0].tid), Acts(Step(false, c, s[0]), s[1..]))
  }

  ghost function StepAct(c: Config, t: nat): Option<Act>
    requires Inv(false, c) && t < |c.threads|
  {
    ActOf(StepAccess(|c.mem|, c.threads[t]), t)
  }

  function ActOf(a: Option<Access>, t: nat): Option<Act> {
    if a.Some? then Some(Act(t, a.value)) else None
  }

  /** The accesses of one thread. */
  function ActsOf(acts: seq<Act>, t: nat): seq<Access> {
    if acts == [] then []
    else Then(if acts[0].tid == t then Some(acts[0].access) else None, ActsOf(acts[1..], t))
  }

  /** `acts` interleaves the access plans of all threads. */
  ghost predicate Interleaves(c: Config, acts: seq<Act>)
    requires Inv(false, c)
  {
    && (forall act :: act in acts ==> act.tid < |c.threads|)
    && (forall t :: 0 <= t < |c.threads| ==> ActsOf(acts, t) == AccessPlan(|c.mem|, c.threads[t]))
  }

  lemma ActsOfCons(act: Act, rest: seq<Act>, t: nat)
    ensures ActsOf([act] + rest, t) == if act.tid == t then [act.access] + ActsOf(rest, t) else ActsOf(rest, t)
  {
    assert ([act] + rest)[1..] == rest;
  }

  /** One step takes its access off its thread's plan. */
  lemma StepPlans(c: Config, ch: Choice, t: nat)
    requires Inv(false, c) && Enabled(false, c, ch.tid) && t < |c.threads|
    ensures AccessPlan(|c.mem|, c.threads[t])
            == Then(if t == ch.tid then StepAccess(|c.mem|, c.threads[t]) else None,
                    AccessPlan(|c.mem|, Step(false, c, ch).threads[t]))
  {
    AccessPops(c.mem, c.threads[ch.tid], ch.writecount);
  }

  /** For each thread, the acts left after a step make up its plan after it just if all of them
      make up its plan before it. */
  lemma StepActsOf(c: Config, ch: Choice, rest: seq<Act>, t: nat)
    requires Inv(false, c) && Enabled(false, c, ch.tid) && t < |c.threads|
    ensures ActsOf(rest, t) == AccessPlan(|c.mem|, Step(false, c, ch).threads[t])
            <==> ActsOf(Then(StepAct(c, ch.tid), rest), t) == AccessPlan(|c.mem|, c.threads[t])
  {
    var act, plan' := StepAct(c, ch.tid), AccessPlan(|c.mem|, Step(false, c, ch).threads[t]);
    StepPlans(c, ch, t);
    if act.Some? {
      ActsOfCons(act.value, rest, t);
      SameTail(act.value.access, ActsOf(rest, t), plan');
    }
  }

  /** An interleaving, with one step's access put in front. */
  lemma StepInterleaves(c: Config, ch: Choice, rest: seq<Act>)
    requires Inv(false, c) && Enabled(false, c, ch.tid)
    ensures Interleaves(Step(false, c, ch), rest) <==> Interleaves(c, Then(StepAct(c, ch.tid), rest))
  {
    var acts := Then(StepAct(c, ch.tid), rest);
    assert forall a :: a in acts <==> a in rest || StepAct(c, ch.tid) == Some(a);
    forall t | 0 <= t < |c.threads|
      ensures ActsOf(rest, t) == AccessPlan(|c.mem|, Step(false, c, ch).threads[t])
              <==> ActsOf(acts, t) == AccessPlan(|c.mem|, c.threads[t])
    {
      StepActsOf(c, ch, rest, t);
    }
  }

  lemma SameTail(a: Access, p: seq<Access>, q: seq<Access>)
    ensures [a] + p == [a] + q <==> p == q
  {
    assert ([a] + p)[1..] == p && ([a] + q)[1..] == q;
  }

  lemma AllDoneInterleaves(c: Config, acts: seq<Act>)
    requires Inv(false, c) && AllDone(c)
    ensures Interleaves(c, acts) <==> acts == []
  {
    if acts != [] && acts[0].tid < |c.threads| {
      assert ActsOf(acts, acts[0].tid) != [];
    }
  }

  /** A complete run interleaves the plans. */
  lemma {:induction false} RunInterleaves(c: Config, s: seq<Choice>, e: Config)
    requires Inv(false, c) && Finishes(false, c, s, e)
    ensures Interleaves(c, Acts(c, s))
    decreases |s|
  {
    if s == [] {
      AllDoneInterleaves(c, []);
    } else {
      var d := Step(false, c, s[0]);
      RunInterleaves(d, s[1..], e);
      StepInterleaves(c, s[0], Acts(d, s[1..]));
    }
  }

  /** If every thread still running is about to access the memory, the first act is one of
      theirs. */
  lemma FirstAct(c: Config, acts: seq<Act>) returns (t: nat)
    requires Inv(false, c) && Interleaves(c, acts) && !AllDone(c)
    requires forall u :: 0 <= u < |c.threads| && !Done(c.threads[u]) ==> StepAccess(|c.mem|, c.threads[u]).Some?
    ensures acts != [] && Enabled(false, c, t) && StepAct(c, t) == Some(acts[0])
  {
    var u :| 0 <= u < |c.threads| && !Done(c.threads[u]);
    AccessPops(c.mem, c.threads[u], 0);
    assert ActsOf(acts, u) != [];
    t := acts[0].tid;
    assert ActsOf(acts, t) == AccessPlan(|c.mem|, c.threads[t]);
    assert !Done(c.threads[t]);
    AccessPops(c.mem, c.threads[t], 0);
    assert ActsOf(acts, t)[0] == acts[0].access;
  }

  lemma NextAct(c: Config, acts: seq<Act>) returns (t: nat, rest: seq<Act>)
    requires Inv(false, c) && Interleaves(c, acts) && !AllDone(c)
    ensures Enabled(false, c, t) && acts == Then(StepAct(c, t), rest)
  {
    if u :| 0 <= u < |c.threads| && !Done(c.threads[u]) && StepAccess(|c.mem|, c.threads[u]).None? {
      t, rest := u, acts;
    } else {
      t := FirstAct(c, acts);
      rest := acts[1..];
      assert acts == [acts[0]] + rest;
    }
  }

  /** Every interleaving of the plans is a complete run. */
  lemma {:induction false} InterleavingRuns(c: Config, acts: seq<Act>) returns (s: seq<Choice>, e: Config)
    requires Inv(false, c) && Interleaves(c, acts)
    ensures Finishes(false, c, s, e) && Acts(c, s) == acts
    decreases Measure(false, c)
  {
    if AllDone(c) {
      AllDoneInterleaves(c, acts);
      s, e := [], c;
    } else {
      var t, left := NextAct(c, acts);
      var ch := Choice(t, 0);
      StepInterleaves(c, ch, left);
      StepDecreases(false, c, ch);
      var rest;
      rest, e := InterleavingRuns(Step(false, c, ch), left);
      RunCons(false, c, ch, rest);
      s := [ch] + rest;
      assert s[1..] == rest;
    }
  }

  // ---- what an interleaving gives ------------------------------------------------------------

  function Accessed(mem: seq<byte>, a: Access): (m: seq<byte>)
    ensures |m| == |mem|
  {
    if a.Save? && a.addr < |mem| then mem[a.addr := a.val] else mem
  }

  /** The memory after some accesses. */
  function Replay(mem: seq<byte>, acts: seq<Act>): (m: seq<byte>)
    ensures |m| == |mem|
    decreases |acts|
  {
    if acts == [] then mem else Replay(Accessed(mem, acts[0].access), acts[1..])
  }

  /** The bytes thread `t` loads in them. */
  function Loaded(mem: seq<byte>, acts: seq<Act>, t: nat): seq<byte>
    decreases |acts|
  {
    if acts == [] then []
    else
      var rest := Loaded(Accessed(mem, acts[0].access), acts[1..], t);
      var a := acts[0].access;
      Then(if acts[0].tid == t && a.Load? && a.addr < |mem| then Some(mem[a.addr]) else None, rest)
  }

  /** What a call returns if it loads `data`. */
  function Returns(size: nat, pos: nat, call: Call, data: seq<byte>): Result
    requires pos <= size
  {
    match call
    case Seek(offset, whence) => Result(SeekPos(size, pos, offset, whence).1, [])
    case Read(_, room) =>
      if pos >= size then Result(0, [])
      else if room < CountOf(size, pos, call) then Result(-EFAULT, data)
      else Result(CountOf(size, pos, call), data)
    case Write(_) => if pos >= size then Result(0, []) else Result(CountOf(size, pos, call), [])
  }

  /** How many of a call's accesses load. */
  function Loads(size: nat, pos: nat, call: Call): nat
    requires pos <= size
  {
    if call.Read? then Copies(size, pos, call) else 0
  }

  /** The front of what is loaded, up to `n` bytes, and the rest. */
  function Front(loaded: seq<byte>, n: nat): seq<byte> {
    if n <= |loaded| then loaded[..n] else loaded
  }

  function Rest(loaded: seq<byte>, n: nat): seq<byte> {
    if n <= |loaded| then loaded[n..] else []
  }

  /** A session whose calls load these bytes, one call after the other. */
  function Played(size: nat, s: Session, loaded: seq<byte>): Session
    requires s.pos <= size
    decreases |s.calls|
  {
    if s.calls == [] then s
    else
      var call := s.calls[0];
      var n := Loads(size, s.pos, call);
      var done := s.results + [Returns(size, s.pos, call, Front(loaded, n))];
      Played(size, Session(s.calls[1..], PosAfter(size, s.pos, call), done), Rest(loaded, n))
  }

  /** A session in a read that has got some bytes already. */
  function PlayedOn(size: nat, s: Session, got: seq<byte>, loaded: seq<byte>): Session
    requires s.pos <= size && s.calls != [] && |got| <= Copies(size, s.pos, s.calls[0])
  {
    var call := s.calls[0];
    var n := Copies(size, s.pos, call) - |got|;
    var done := s.results + [Returns(size, s.pos, call, got + Front(loaded, n))];
    Played(size, Session(s.calls[1..], PosAfter(size, s.pos, call), done), Rest(loaded, n))
  }

  /** What a thread's file will have seen if the thread loads these bytes from here on. */
  function Outlook(size: nat, th: Thread, loaded: seq<byte>): Session
    requires ThreadOk(size, th)
  {
    var s := Session(th.calls, th.pos, th.results);
    if th.pc.Reading? then PlayedOn(size, s, th.pc.got, loaded) else Played(size, s, loaded)
  }

  /** The byte an access loads, if it does. */
  function LoadNow(mem: seq<byte>, a: Option<Access>): Option<byte> {
    if a.Some? && a.value.Load? && a.value.addr < |mem| then Some(mem[a.value.addr]) else None
  }

  lemma NoLoads(loaded: seq<byte>)
    ensures Front(loaded, 0) == [] && Rest(loaded, 0) == loaded
  {
  }

  lemma OneLoad(b: byte, loaded: seq<byte>, got: seq<byte>, n: nat)
    requires n > 0
    ensures got + Front([b] + loaded, n) == (got + [b]) + Front(loaded, n - 1)
    ensures Rest([b] + loaded, n) == Rest(loaded, n - 1)
  {
    var all := [b] + loaded;
    if n <= |all| {
      assert all[..n] == [b] + loaded[..n - 1] && all[n..] == loaded[n - 1..];
    }
    assert got + ([b] + Front(loaded, n - 1)) == (got + [b]) + Front(loaded, n - 1);
  }

  lemma LoadPlayed(size: nat, s: Session, got: seq<byte>, b: byte, loaded: seq<byte>)
    requires s.pos <= size && s.calls != [] && |got| < Copies(size, s.pos, s.calls[0])
    ensures PlayedOn(size, s, got, [b] + loaded) == PlayedOn(size, s, got + [b], loaded)
  {
    OneLoad(b, loaded, got, Copies(size, s.pos, s.calls[0]) - |got|);
  }

  lemma LoadOutlook(mem: seq<byte>, th: Thread, wc: int, loaded: seq<byte>)
    requires !Done(th) && ThreadOk(|mem|, th) && Loading(th)
    ensures th.pos + |th.pc.got| < |mem|
    ensures Outlook(|mem|, th, [mem[th.pos + |th.pc.got|]] + loaded) == Outlook(|mem|, Local(mem, th, wc), loaded)
  {
    var b := mem[th.pos + |th.pc.got|];
    assert Local(mem, th, wc) == th.(pc := Reading(th.pc.p, th.pc.count, th.pc.got + [b]));
    LoadPlayed(|mem|, Session(th.calls, th.pos, th.results), th.pc.got, b, loaded);
  }

  lemma StartOutlook(mem: seq<byte>, th: Thread, wc: int, loaded: seq<byte>)
    requires !Done(th) && ThreadOk(|mem|, th) && (th.pc.Idle? || th.pc.AtLock?)
    ensures Outlook(|mem|, th, loaded) == Outlook(|mem|, Local(mem, th, wc), loaded)
  {
    NoLoads(loaded);
    if th.pc.AtLock? && th.calls[0].Read? {
      var n := Copies(|mem|, th.pos, th.calls[0]);
      assert [] + Front(loaded, n) == Front(loaded, n);
    }
  }

  lemma EndOutlook(mem: seq<byte>, th: Thread, wc: int, loaded: seq<byte>)
    requires !Done(th) && ThreadOk(|mem|, th) && !Loading(th) && !th.pc.Idle? && !th.pc.AtLock?
    ensures Outlook(|mem|, th, loaded) == Outlook(|mem|, Local(mem, th, wc), loaded)
  {
    if th.pc.Reading? {
      ReadEndOutlook(mem, th, wc, loaded);
    } else if th.pc.Leaving? {
      NoLoads(loaded);
      ReturnsWhere(mem, th, wc);
    }
  }

  lemma ReadEndOutlook(mem: seq<byte>, th: Thread, wc: int, loaded: seq<byte>)
    requires !Done(th) && ThreadOk(|mem|, th) && !Loading(th) && th.pc.Reading?
    ensures Outlook(|mem|, th, loaded) == Outlook(|mem|, Local(mem, th, wc), loaded)
  {
    ReturnsWhere(mem, th, wc);
    NoLoads(loaded);
    var call, got := th.calls[0], th.pc.got;
    assert Copies(|mem|, th.pos, call) == |got| && got + Front(loaded, 0) == got;
    assert Local(mem, th, wc).results == th.results + [Returns(|mem|, th.pos, call, got)];
  }

  lemma StepLoadNow(mem: seq<byte>, th: Thread)
    requires ThreadOk(|mem|, th)
    ensures Loading(th) ==> th.pos + |th.pc.got| < |mem|
    ensures LoadNow(mem, StepAccess(|mem|, th)) == if Loading(th) then Some(mem[th.pos + |th.pc.got|]) else None
  {
  }

  /** A step changes nothing about what the thread's file will have seen, but for the byte it
      loads. */
  lemma LocalOutlook(mem: seq<byte>, th: Thread, wc: int, loaded: seq<byte>)
    requires !Done(th) && ThreadOk(|mem|, th)
    ensures Outlook(|mem|, th, Then(LoadNow(mem, StepAccess(|mem|, th)), loaded))
            == Outlook(|mem|, Local(mem, th, wc), loaded)
  {
    StepLoadNow(mem, th);
    if Loading(th) {
      LoadOutlook(mem, th, wc, loaded);
    } else if th.pc.Idle? || th.pc.AtLock? {
      StartOutlook(mem, th, wc, loaded);
    } else {
      EndOutlook(mem, th, wc, loaded);
    }
  }

  lemma LoadedCons(mem: seq<byte>, act: Act, rest: seq<Act>, t: nat)
    ensures Replay(mem, [act] + rest) == Replay(Accessed(mem, act.access), rest)
    ensures Loaded(mem, [act] + rest, t)
            == var a := act.access;
               Then(if act.tid == t && a.Load? && a.addr < |mem| then Some(mem[a.addr]) else None,
                    Loaded(Accessed(mem, a), rest, t))
  {
    assert ([act] + rest)[1..] == rest;
  }

  lemma StepAccessed(mem: seq<byte>, th: Thread)
    requires !Done(th) && ThreadOk(|mem|, th)
    ensures MemAfter(mem, th) == match StepAccess(|mem|, th) { case None => mem case Some(a) => Accessed(mem, a) }
  {
  }

  lemma StepReplaysMemory(c: Config, ch: Choice, rest: seq<Act>)
    requires Inv(false, c) && Enabled(false, c, ch.tid)
    ensures Replay(c.mem, Then(StepAct(c, ch.tid), rest)) == Replay(Step(false, c, ch).mem, rest)
  {
    var act := StepAct(c, ch.tid);
    StepAccessed(c.mem, c.threads[ch.tid]);
    if act.Some? {
      LoadedCons(c.mem, act.value, rest, 0);
    }
  }

  lemma LoadsOfThen(mem: seq<byte>, a: Option<Access>, u: nat, rest: seq<Act>, t: nat)
    ensures Loaded(mem, Then(ActOf(a, u), rest), t)
            == Then(if t == u then LoadNow(mem, a) else None,
                    Loaded(if a.Some? then Accessed(mem, a.value) else mem, rest, t))
  {
    if a.Some? {
      LoadedCons(mem, Act(u, a.value), rest, t);
    }
  }

  /** What a thread loads from before a step is what the step loads and what it loads after it. */
  lemma StepLoads(c: Config, ch: Choice, rest: seq<Act>, t: nat)
    requires Inv(false, c) && Enabled(false, c, ch.tid) && t < |c.threads|
    ensures Loaded(c.mem, Then(StepAct(c, ch.tid), rest), t)
            == Then(if t == ch.tid then LoadNow(c.mem, StepAccess(|c.mem|, c.threads[t])) else None,
                    Loaded(Step(false, c, ch).mem, rest, t))
  {
    StepAccessed(c.mem, c.threads[ch.tid]);
    LoadsOfThen(c.mem, StepAccess(|c.mem|, c.threads[ch.tid]), ch.tid, rest, t);
  }

  lemma StepThread(c: Config, ch: Choice, t: nat)
    requires Inv(false, c) && Enabled(false, c, ch.tid) && t < |c.threads|
    ensures Step(false, c, ch).threads[t]
            == if t == ch.tid then Local(c.mem, c.threads[t], ch.writecount) else c.threads[t]
  {
  }

  /** Replaying from before a step gives a thread's file what replaying from after it does. */
  lemma StepReplays(c: Config, ch: Choice, rest: seq<Act>, t: nat)
    requires Inv(false, c) && Enabled(false, c, ch.tid) && t < |c.threads|
    ensures var d := Step(false, c, ch);
            Outlook(|c.mem|, c.threads[t], Loaded(c.mem, Then(StepAct(c, ch.tid), rest), t))
            == Outlook(|c.mem|, d.threads[t], Loaded(d.mem, rest, t))
  {
    var after := Loaded(Step(false, c, ch).mem, rest, t);
    StepLoads(c, ch, rest, t);
    StepThread(c, ch, t);
    if t == ch.tid {
      LocalOutlook(c.mem, c.threads[t], ch.writecount, after);
    }
  }

  lemma {:induction false} RunReplaysMemory(c: Config, s: seq<Choice>, e: Config)
    requires Inv(false, c) && Run(false, c, s) == Some(e)
    ensures Replay(c.mem, Acts(c, s)) == e.mem
    decreases |s|
  {
    if s == [] {
    } else {
      var d := Step(false, c, s[0]);
      RunReplaysMemory(d, s[1..], e);
      StepReplaysMemory(c, s[0], Acts(d, s[1..]));
    }
  }

  /** What a thread's file has seen in a run is what replaying the run's accesses gives it. */
  lemma {:induction false} RunReplays(c: Config, s: seq<Choice>, e: Config, t: nat)
    requires Inv(false, c) && Finishes(false, c, s, e) && t < |c.threads|
    ensures Outlook(|c.mem|, c.threads[t], Loaded(c.mem, Acts(c, s), t))
            == Session([], e.threads[t].pos, e.threads[t].results)
    decreases |s|
  {
    if s == [] {
    } else {
      var d := Step(false, c, s[0]);
      RunReplays(d, s[1..], e, t);
      StepReplays(c, s[0], Acts(d, s[1..]), t);
    }
  }

  // ---- the exact joint outcomes --------------------------------------------------------------

  /** The final memory, and what each file has seen: its results with the bytes read, and its
      position. */
  datatype Joint = Joint(mem: seq<byte>, sessions: seq<Session>)

  ghost function Replayed(c: Config, acts: seq<Act>): (r: Joint)
    requires Inv(false, c)
    ensures |r.sessions| == |c.threads|
  {
    Joint(Replay(c.mem, acts),
          seq(|c.threads|, t requires 0 <= t < |c.threads| =>
            Outlook(|c.mem|, c.threads[t], Loaded(c.mem, acts, t))))
  }

  function Seen(e: Config): (r: Joint)
    ensures |r.sessions| == |e.threads|
  {
    Joint(e.mem, seq(|e.threads|, t requires 0 <= t < |e.threads| =>
      Session(e.threads[t].calls, e.threads[t].pos, e.threads[t].results)))
  }

  lemma RunGives(c: Config, s: seq<Choice>, e: Config)
    requires Inv(false, c) && Finishes(false, c, s, e)
    ensures Seen(e) == Replayed(c, Acts(c, s))
  {
    RunReplaysMemory(c, s, e);
    var seen, given := Seen(e).sessions, Replayed(c, Acts(c, s)).sessions;
    forall t | 0 <= t < |c.threads|
      ensures seen[t] == given[t]
    {
      RunReplays(c, s, e, t);
    }
    assert seen == given;
  }

  ghost predicate JointOutcome(c: Config, j: Joint)
    requires Inv(false, c)
  {
    exists s, e :: Finishes(false, c, s, e) && Seen(e) == j
  }

  /** The exact joint outcomes of the unlocked driver, for any threads and any calls: final
      memory, read data, return values and positions are together those of some interleaving of
      the threads' access plans, and of every one. */
  lemma UnlockedJointly(c: Config, j: Joint)
    requires Inv(false, c)
    ensures JointOutcome(c, j) <==> exists acts :: Interleaves(c, acts) && Replayed(c, acts) == j
  {
    if JointOutcome(c, j) {
      var s, e :| Finishes(false, c, s, e) && Seen(e) == j;
      RunInterleaves(c, s, e);
      RunGives(c, s, e);
    }
    if acts :| Interleaves(c, acts) && Replayed(c, acts) == j {
      var s, e := InterleavingRuns(c, acts);
      RunGives(c, s, e);
    }
  }
}
