/** The runs of the shared-memory device as sequences of byte stores, and what reads see of them. */
module Traces {
  import opened Bytes
  import opened Threads
  import opened Unlocked

  // ---- traces --------------------------------------------------------------------------------

  datatype Event = Event(tid: nat, store: ByteStore)

  /** The store a thread performs if it steps now, if it does. */
  function StepEvent(size: nat, th: Thread, t: nat): Option<Event>
    requires ThreadOk(size, th)
  {
    if Storing(th) then Some(Event(t, ByteStore(th.pos + th.pc.i, th.calls[0].data[th.pc.i]))) else None
  }

  /** The byte stores of a run, in the order they happened. */
  ghost function Trace(locked: bool, c: Config, s: seq<Choice>): seq<Event>
    requires Inv(locked, c) && Run(locked, c, s).Some?
    decreases |s|
  {
    if s == [] then []
    else Then(StepEvent(|c.mem|, c.threads[s[0].tid], s[0].tid), Trace(locked, Step(locked, c, s[0]), s[1..]))
  }

  function StoresIn(trace: seq<Event>): seq<ByteStore> {
    if trace == [] then [] else [trace[0].store] + StoresIn(trace[1..])
  }

  /** The stores of one thread. */
  function Of(trace: seq<Event>, t: nat): seq<ByteStore> {
    if trace == [] then []
    else if trace[0].tid == t then [trace[0].store] + Of(trace[1..], t)
    else Of(trace[1..], t)
  }

  lemma OfCons(ev: Event, trace: seq<Event>, t: nat)
    ensures Of([ev] + trace, t) == if ev.tid == t then [ev.store] + Of(trace, t) else Of(trace, t)
  {
  }

  lemma OfThen(ev: Option<Event>, rest: seq<Event>, t: nat, end: seq<ByteStore>)
    ensures Of(Then(ev, rest), t) + end
            == if ev.Some? && ev.value.tid == t then [ev.value.store] + (Of(rest, t) + end) else Of(rest, t) + end
  {
  }

  lemma StoresInCons(ev: Event, trace: seq<Event>)
    ensures StoresIn([ev] + trace) == [ev.store] + StoresIn(trace)
  {
  }

  function After(b: byte, last: Option<byte>): byte {
    if last.Some? then last.value else b
  }

  lemma EventIsHead(mem: seq<byte>, th: Thread, wc: int, t: nat)
    requires !Done(th) && ThreadOk(|mem|, th)
    ensures var plan, plan' := Plan(|mem|, th), Plan(|mem|, Local(mem, th, wc));
            match StepEvent(|mem|, th, t)
            case None => MemAfter(mem, th) == mem && plan == plan'
            case Some(ev) =>
              && ev.tid == t && ev.store.addr < |mem|
              && MemAfter(mem, th) == mem[ev.store.addr := ev.store.val]
              && plan == [ev.store] + plan'
  {
    if Storing(th) {
      var plan := Plan(|mem|, th);
      StorePops(|mem|, th, Local(mem, th, wc));
      assert plan == [plan[0]] + plan[1..];
    } else {
      LocalPops(mem, th, wc);
    }
  }

  /** One step performs its event and takes it off the plan. */
  lemma StepPlan(locked: bool, c: Config, ch: Choice, t: nat)
    requires Inv(locked, c) && Enabled(locked, c, ch.tid) && t < |c.threads|
    ensures var d := Step(locked, c, ch);
            var plan, plan' := Plan(|c.mem|, c.threads[t]), Plan(|c.mem|, d.threads[t]);
            match StepEvent(|c.mem|, c.threads[ch.tid], ch.tid)
            case None => d.mem == c.mem && plan == plan'
            case Some(ev) =>
              && ev.tid == ch.tid && ev.store.addr < |c.mem|
              && d.mem == c.mem[ev.store.addr := ev.store.val]
              && plan == if t == ch.tid then [ev.store] + plan' else plan'
  {
    EventIsHead(c.mem, c.threads[ch.tid], ch.writecount, ch.tid);
  }

  /** At every moment each cell holds the byte of the last store step executed on it, or its
      first byte if there was none. */
  lemma {:induction false} CellHoldsLastStore(locked: bool, c: Config, s: seq<Choice>, x: nat)
    requires Inv(locked, c) && Run(locked, c, s).Some? && x < |c.mem|
    ensures Run(locked, c, s).value.mem[x] == After(c.mem[x], LastByte(StoresIn(Trace(locked, c, s)), x))
    decreases |s|
  {
    if s == [] {
    } else {
      var d := Step(locked, c, s[0]);
      CellHoldsLastStore(locked, d, s[1..], x);
      StepPlan(locked, c, s[0], s[0].tid);
      var rest := Trace(locked, d, s[1..]);
      var ev := StepEvent(|c.mem|, c.threads[s[0].tid], s[0].tid);
      if ev.Some? {
        StoresInCons(ev.value, rest);
        assert ([ev.value.store] + StoresIn(rest))[1..] == StoresIn(rest);
      }
    }
  }

  /** No store is lost, made up or reordered within a thread: what a thread has stored, followed
      by what it has still to store, is what it had to store. */
  lemma {:induction false} TraceFollowsPlans(locked: bool, c: Config, s: seq<Choice>, t: nat)
    requires Inv(locked, c) && Run(locked, c, s).Some? && t < |c.threads|
    ensures Of(Trace(locked, c, s), t) + Plan(|c.mem|, Run(locked, c, s).value.threads[t])
            == Plan(|c.mem|, c.threads[t])
    decreases |s|
  {
    if s == [] {
      assert [] + Plan(|c.mem|, c.threads[t]) == Plan(|c.mem|, c.threads[t]);
    } else {
      var d := Step(locked, c, s[0]);
      TraceFollowsPlans(locked, d, s[1..], t);
      StepPlan(locked, c, s[0], t);
      var ev := StepEvent(|c.mem|, c.threads[s[0].tid], s[0].tid);
      var end := Plan(|c.mem|, Run(locked, d, s[1..]).value.threads[t]);
      OfThen(ev, Trace(locked, d, s[1..]), t, end);
    }
  }

  /** `trace` interleaves the plans of all threads. */
  ghost predicate Shuffle(locked: bool, c: Config, trace: seq<Event>)
    requires Inv(locked, c)
  {
    && (forall k :: 0 <= k < |trace| ==> trace[k].tid < |c.threads|)
    && (forall t :: 0 <= t < |c.threads| ==> Of(trace, t) == Plan(|c.mem|, c.threads[t]))
  }

  lemma {:induction false} TraceThreads(locked: bool, c: Config, s: seq<Choice>)
    requires Inv(locked, c) && Run(locked, c, s).Some?
    ensures forall k :: 0 <= k < |Trace(locked, c, s)| ==> Trace(locked, c, s)[k].tid < |c.threads|
    decreases |s|
  {
    if s == [] {
    } else {
      TraceThreads(locked, Step(locked, c, s[0]), s[1..]);
    }
  }

  /** If every thread still running is about to store, the trace's first event is a thread's
      next store. */
  lemma HeadSteps(c: Config, trace: seq<Event>)
    requires Inv(false, c) && Shuffle(false, c, trace) && !AllDone(c)
    requires forall t :: 0 <= t < |c.threads| && !Done(c.threads[t]) ==> Storing(c.threads[t])
    ensures trace != [] && Enabled(false, c, trace[0].tid)
    ensures StepEvent(|c.mem|, c.threads[trace[0].tid], trace[0].tid) == Some(trace[0])
  {
    var u :| 0 <= u < |c.threads| && !Done(c.threads[u]);
    StoringHasPlan(c, u);
    assert Of(trace, u) != [];
    HeadBelongs(trace);
    var t := trace[0].tid;
    DoneHasNoPlan(|c.mem|, c.threads[t]);
    assert Plan(|c.mem|, c.threads[t]) == Of(trace, t);
    StoringHasPlan(c, t);
  }

  /** Any thread that is not about to store may go first; if all are, the one whose store comes
      next in the trace. */
  lemma ShuffleNext(c: Config, trace: seq<Event>) returns (t: nat, rest: seq<Event>)
    requires Inv(false, c) && Shuffle(false, c, trace) && !AllDone(c)
    ensures Enabled(false, c, t)
    ensures trace == Then(StepEvent(|c.mem|, c.threads[t], t), rest)
  {
    if u :| 0 <= u < |c.threads| && !Done(c.threads[u]) && !Storing(c.threads[u]) {
      t, rest := u, trace;
    } else {
      HeadSteps(c, trace);
      t, rest := trace[0].tid, trace[1..];
      assert trace == [trace[0]] + rest;
    }
  }

  lemma StoringHasPlan(c: Config, t: nat)
    requires Inv(false, c) && t < |c.threads| && Storing(c.threads[t])
    ensures Plan(|c.mem|, c.threads[t]) != []
    ensures StepEvent(|c.mem|, c.threads[t], t) == Some(Event(t, Plan(|c.mem|, c.threads[t])[0]))
  {
    var th := c.threads[t];
    var th' := Thread(th.calls, th.pos, Writing(th.pc.p, th.pc.count, th.pc.i + 1, th.pc.odd), th.results);
    StorePops(|c.mem|, th, th');
  }

  lemma ShuffleStep(c: Config, ch: Choice, trace: seq<Event>, rest: seq<Event>)
    requires Inv(false, c) && Shuffle(false, c, trace) && Enabled(false, c, ch.tid)
    requires trace == Then(StepEvent(|c.mem|, c.threads[ch.tid], ch.tid), rest)
    ensures Shuffle(false, Step(false, c, ch), rest)
  {
    var d := Step(false, c, ch);
    var ev := StepEvent(|c.mem|, c.threads[ch.tid], ch.tid);
    forall k | 0 <= k < |rest|
      ensures rest[k].tid < |d.threads|
    {
      assert rest[k] == trace[|trace| - |rest| + k];
    }
    forall t | 0 <= t < |d.threads|
      ensures Of(rest, t) == Plan(|d.mem|, d.threads[t])
    {
      StepPlan(false, c, ch, t);
      if ev.Some? {
        OfCons(ev.value, rest, t);
        assert t == ch.tid ==> Of(trace, t)[1..] == Of(rest, t);
      }
    }
  }

  lemma HeadBelongs(trace: seq<Event>)
    ensures trace == [] || (Of(trace, trace[0].tid) != [] && Of(trace, trace[0].tid)[0] == trace[0].store)
  {
  }

  /** The unlocked driver can follow any interleaving of the plans. */
  lemma {:induction false} ShuffleRealizable(c: Config, trace: seq<Event>) returns (s: seq<Choice>, e: Config)
    requires Inv(false, c) && Shuffle(false, c, trace)
    ensures Finishes(false, c, s, e) && Trace(false, c, s) == trace
    decreases Measure(false, c)
  {
    if AllDone(c) {
      s, e := [], c;
      HeadBelongs(trace);
    } else {
      var t, left := ShuffleNext(c, trace);
      var ch := Choice(t, 0);
      ShuffleStep(c, ch, trace, left);
      StepDecreases(false, c, ch);
      var rest;
      rest, e := ShuffleRealizable(Step(false, c, ch), left);
      RunCons(false, c, ch, rest);
      s := [ch] + rest;
      assert s[1..] == rest;
    }
  }

  /** The exact store traces of complete unlocked runs, for any threads and any calls: all the
      interleavings of the threads' plans and nothing else. */
  lemma UnlockedTraces(c: Config, trace: seq<Event>)
    requires Inv(false, c)
    ensures (exists s, e :: Finishes(false, c, s, e) && Trace(false, c, s) == trace) <==> Shuffle(false, c, trace)
  {
    if s, e :| Finishes(false, c, s, e) && Trace(false, c, s) == trace {
      TraceThreads(false, c, s);
      forall t | 0 <= t < |c.threads|
        ensures Of(trace, t) == Plan(|c.mem|, c.threads[t])
      {
        TraceFollowsPlans(false, c, s, t);
        assert Of(trace, t) + [] == Of(trace, t);
      }
    }
    if Shuffle(false, c, trace) {
      var s, e := ShuffleRealizable(c, trace);
    }
  }

  /** The memory after the stores of a trace. */
  predicate Leaves(mem: seq<byte>, trace: seq<Event>, m: seq<byte>) {
    |m| == |mem| && forall x :: 0 <= x < |m| ==> m[x] == After(mem[x], LastByte(StoresIn(trace), x))
  }

  /** A complete run leaves what its trace says. */
  lemma RunLeaves(locked: bool, c: Config, s: seq<Choice>, e: Config)
    requires Inv(locked, c) && Run(locked, c, s) == Some(e)
    ensures Leaves(c.mem, Trace(locked, c, s), e.mem)
  {
    forall x | 0 <= x < |e.mem|
      ensures e.mem[x] == After(c.mem[x], LastByte(StoresIn(Trace(locked, c, s)), x))
    {
      CellHoldsLastStore(locked, c, s, x);
    }
  }

  /** The exact outcome set of the unlocked driver, for any threads and any calls: the memories
      left by the interleavings of the threads' plans. */
  lemma UnlockedMemories(c: Config, m: seq<byte>)
    requires Inv(false, c)
    ensures Outcome(false, c, m) <==> exists trace :: Shuffle(false, c, trace) && Leaves(c.mem, trace, m)
  {
    if Outcome(false, c, m) {
      var s, e :| Finishes(false, c, s, e) && e.mem == m;
      RunLeaves(false, c, s, e);
      UnlockedTraces(c, Trace(false, c, s));
    }
    if trace :| Shuffle(false, c, trace) && Leaves(c.mem, trace, m) {
      var s, e := ShuffleRealizable(c, trace);
      RunLeaves(false, c, s, e);
      assert e.mem == m;
    }
  }

  // ---- reads ---------------------------------------------------------------------------------

  /** The states a run goes through, up to its last step. */
  ghost function History(locked: bool, c: Config, s: seq<Choice>): seq<Config>
    requires Inv(locked, c) && Run(locked, c, s).Some?
    decreases |s|
  {
    if s == [] then [] else [c] + History(locked, Step(locked, c, s[0]), s[1..])
  }

  lemma {:induction false} HistorySnoc(locked: bool, c: Config, s: seq<Choice>)
    requires Inv(locked, c) && s != [] && Run(locked, c, s).Some?
    ensures var n := |s| - 1;
            && Run(locked, c, s[..n]).Some?
            && History(locked, c, s) == History(locked, c, s[..n]) + [Run(locked, c, s[..n]).value]
    decreases |s|
  {
    var n := |s| - 1;
    if n == 0 {
      assert s[..0] == [] && s[1..] == [];
    } else {
      var d := Step(locked, c, s[0]);
      HistorySnoc(locked, d, s[1..]);
      assert s[..n][0] == s[0] && s[..n][1..] == s[1..][..n - 1];
    }
  }

  /** In this state thread `t` is in its `n`-th call, has read `j` bytes, and the cell it is about
      to read holds `b`. */
  predicate SeenAt(d: Config, t: nat, n: nat, j: nat, b: byte) {
    t < |d.threads| &&
    (var th := d.threads[t];
     && |th.results| == n && th.pc.Reading? && |th.pc.got| == j
     && th.pos + j < |d.mem| && d.mem[th.pos + j] == b)
  }

  /** There was such a state. */
  ghost predicate Seen(h: seq<Config>, t: nat, n: nat, j: nat, b: byte) {
    exists k :: 0 <= k < |h| && SeenAt(h[k], t, n, j, b)
  }

  /** All the bytes `got` by the `n`-th call have been seen. */
  ghost predicate GotSeen(h: seq<Config>, t: nat, n: nat, got: seq<byte>) {
    forall j :: 0 <= j < |got| ==> Seen(h, t, n, j, got[j])
  }

  /** Every byte of the thread's results after the first `from`, and of the read it is in, has
      been seen. */
  ghost predicate AllSeen(h: seq<Config>, t: nat, from: nat, th: Thread) {
    && (forall n :: from <= n < |th.results| ==> GotSeen(h, t, n, th.results[n].data))
    && (th.pc.Reading? ==> GotSeen(h, t, |th.results|, th.pc.got))
  }

  lemma GotSeenLater(h: seq<Config>, d: Config, t: nat, n: nat, got: seq<byte>)
    requires GotSeen(h, t, n, got)
    ensures GotSeen(h + [d], t, n, got)
  {
    forall j | 0 <= j < |got|
      ensures Seen(h + [d], t, n, j, got[j])
    {
      var k :| 0 <= k < |h| && SeenAt(h[k], t, n, j, got[j]);
      assert (h + [d])[k] == h[k];
    }
  }

  lemma AllSeenLater(h: seq<Config>, d: Config, t: nat, from: nat, th: Thread)
    requires AllSeen(h, t, from, th)
    ensures AllSeen(h + [d], t, from, th)
  {
    forall n | from <= n < |th.results|
      ensures GotSeen(h + [d], t, n, th.results[n].data)
    {
      GotSeenLater(h, d, t, n, th.results[n].data);
    }
    if th.pc.Reading? {
      GotSeenLater(h, d, t, |th.results|, th.pc.got);
    }
  }

  /** A step reads the next byte, or starts reading, or does nothing with what it has read but
      hand it over. */
  ghost predicate ReadsOn(mem: seq<byte>, th: Thread, th': Thread) {
    if th'.pc.Reading? then
      && th'.results == th.results
      && if th.pc.Reading? then
           th.pos + |th.pc.got| < |mem| && th'.pc.got == th.pc.got + [mem[th.pos + |th.pc.got|]]
         else th'.pc.got == []
    else
      || th'.results == th.results
      || (exists r :: th'.results == th.results + [r] && r.data == if th.pc.Reading? then th.pc.got else [])
  }

  lemma LocalReadsOn(mem: seq<byte>, th: Thread, wc: int)
    requires !Done(th) && ThreadOk(|mem|, th)
    ensures ReadsOn(mem, th, Local(mem, th, wc))
  {
  }

  /** If what a thread has read has been seen, so has what it has read a step later: the one new
      byte is in its cell right then. */
  lemma SeenStep(h: seq<Config>, d: Config, t: nat, from: nat, th': Thread)
    requires t < |d.threads| && AllSeen(h, t, from, d.threads[t]) && ReadsOn(d.mem, d.threads[t], th')
    ensures AllSeen(h + [d], t, from, th')
  {
    var th := d.threads[t];
    AllSeenLater(h, d, t, from, th);
    if th.pc.Reading? && th'.pc.Reading? {
      assert (h + [d])[|h|] == d;
      assert SeenAt((h + [d])[|h|], t, |th.results|, |th.pc.got|, d.mem[th.pos + |th.pc.got|]);
    }
  }

  /** With or without the lock, each byte a read returns was in its cell at some moment while that
      very call was copying: for the results of the run and for the call in progress. */
  lemma {:induction false} ReadsWereThere(locked: bool, c: Config, s: seq<Choice>, e: Config, t: nat)
    requires Quiet(c) && Inv(locked, c) && Run(locked, c, s) == Some(e) && t < |c.threads|
    ensures AllSeen(History(locked, c, s), t, |c.threads[t].results|, e.threads[t])
    decreases |s|
  {
    if s == [] {
    } else {
      var d := RunLast(locked, c, s);
      var s0, last := s[..|s| - 1], s[|s| - 1];
      ReadsWereThere(locked, c, s0, d, t);
      HistorySnoc(locked, c, s);
      var h, from := History(locked, c, s0), |c.threads[t].results|;
      if last.tid == t {
        LocalReadsOn(d.mem, d.threads[t], last.writecount);
        SeenStep(h, d, t, from, e.threads[t]);
      } else {
        AllSeenLater(h, d, t, from, d.threads[t]);
      }
    }
  }
}
