/** Without the mutex: exactly which memories a run can end in.

    What a thread will still store depends on nothing the other threads do, because its position
    is its own.  That list of byte stores is its `Plan`; every step of the machine either takes
    the first store off one thread's plan and performs it, or changes neither plans nor memory.
    The results of module `Unlocked` hold with and without the lock unless they say otherwise. */
module Unlocked {
  import opened Bytes
  import opened SharedMemory
  import opened Threads

  datatype ByteStore = ByteStore(addr: nat, val: byte)

  // ---- plans ---------------------------------------------------------------------------------

  /** Where a call leaves the file: no call's position depends on the memory's contents. */
  function PosAfter(size: nat, pos: nat, call: Call): (r: nat)
    requires pos <= size
    ensures r <= size
  {
    match call
    case Seek(offset, whence) => SeekPos(size, pos, offset, whence).0
    case Read(cnt, room) => if pos >= size || room < Clamp(size, pos, cnt) then pos else pos + Clamp(size, pos, cnt)
    case Write(data) => if pos >= size then pos else pos + Clamp(size, pos, |data|)
  }

  /** The stores that put `bytes` at `addr`, one by one. */
  function Stores(addr: nat, bytes: seq<byte>): (r: seq<ByteStore>)
    ensures |r| == |bytes| && forall j :: 0 <= j < |bytes| ==> r[j] == ByteStore(addr + j, bytes[j])
  {
    seq(|bytes|, j requires 0 <= j < |bytes| => ByteStore(addr + j, bytes[j]))
  }

  /** The byte stores of one call from its `i`-th on. */
  function CallStores(size: nat, pos: nat, call: Call, i: nat): (r: seq<ByteStore>)
    requires pos <= size
    requires call.Write? && pos < size ==> i <= CountOf(size, pos, call)
  {
    if call.Write? && pos < size then Stores(pos + i, call.data[i..CountOf(size, pos, call)]) else []
  }

  /** The byte stores of a list of calls, in program order. */
  function CallsStores(size: nat, pos: nat, calls: seq<Call>): seq<ByteStore>
    requires pos <= size
    decreases |calls|
  {
    if calls == [] then []
    else CallStores(size, pos, calls[0], 0) + CallsStores(size, PosAfter(size, pos, calls[0]), calls[1..])
  }

  /** Everything the thread has still to store, in order. */
  function Plan(size: nat, th: Thread): seq<ByteStore>
    requires ThreadOk(size, th)
  {
    match th.pc
    case Writing(_, _, i, _) =>
      CallStores(size, th.pos, th.calls[0], i) + CallsStores(size, PosAfter(size, th.pos, th.calls[0]), th.calls[1..])
    case Leaving(_) => CallsStores(size, PosAfter(size, th.pos, th.calls[0]), th.calls[1..])
    case _ => CallsStores(size, th.pos, th.calls)
  }

  lemma StorePops(size: nat, th: Thread, th': Thread)
    requires ThreadOk(size, th) && Storing(th) && ThreadOk(size, th')
    requires th' == Thread(th.calls, th.pos, Writing(th.pc.p, th.pc.count, th.pc.i + 1, th.pc.odd), th.results)
    ensures var plan := Plan(size, th);
            && plan != []
            && plan[0] == ByteStore(th.pos + th.pc.i, th.calls[0].data[th.pc.i])
            && Plan(size, th') == plan[1..]
  {
  }

  lemma DoneHasNoPlan(size: nat, th: Thread)
    requires ThreadOk(size, th)
    ensures Done(th) ==> Plan(size, th) == []
  {
  }

  /** The steps that only move on inside a call. */
  lemma MovingKeepsPlan(mem: seq<byte>, th: Thread, wc: int)
    requires !Done(th) && ThreadOk(|mem|, th) && !Storing(th)
    requires !Local(mem, th, wc).pc.Idle?
    ensures Plan(|mem|, Local(mem, th, wc)) == Plan(|mem|, th)
  {
  }

  /** The steps that return from a call. */
  lemma ReturningKeepsPlan(mem: seq<byte>, th: Thread, wc: int)
    requires !Done(th) && ThreadOk(|mem|, th)
    requires Local(mem, th, wc).pc.Idle?
    ensures Plan(|mem|, Local(mem, th, wc)) == Plan(|mem|, th)
  {
    ReturnsWhere(mem, th, wc);
    ReturnsEmpty(mem, th, wc);
  }

  /** A call that returns leaves the file where it was planned to. */
  lemma ReturnsWhere(mem: seq<byte>, th: Thread, wc: int)
    requires !Done(th) && ThreadOk(|mem|, th)
    requires Local(mem, th, wc).pc.Idle?
    ensures var th' := Local(mem, th, wc);
            th'.calls == th.calls[1..] && th'.pos == PosAfter(|mem|, th.pos, th.calls[0])
  {
  }

  /** And has nothing more to store. */
  lemma ReturnsEmpty(mem: seq<byte>, th: Thread, wc: int)
    requires !Done(th) && ThreadOk(|mem|, th)
    requires Local(mem, th, wc).pc.Idle?
    ensures Plan(|mem|, th) == CallsStores(|mem|, PosAfter(|mem|, th.pos, th.calls[0]), th.calls[1..])
  {
    if !th.pc.Leaving? {
      assert CallStores(|mem|, th.pos, th.calls[0], 0) == [];
    }
  }

  /** A step pops the head of the thread's plan exactly when it stores. */
  lemma LocalPops(mem: seq<byte>, th: Thread, wc: int)
    requires !Done(th) && ThreadOk(|mem|, th)
    ensures var plan, plan' := Plan(|mem|, th), Plan(|mem|, Local(mem, th, wc));
            if Storing(th) then
              && plan != [] && plan' == plan[1..] && plan[0].addr < |mem|
              && MemAfter(mem, th) == mem[plan[0].addr := plan[0].val]
            else
              plan' == plan && MemAfter(mem, th) == mem
  {
    if Storing(th) {
      StorePops(|mem|, th, Local(mem, th, wc));
    } else if Local(mem, th, wc).pc.Idle? {
      ReturningKeepsPlan(mem, th, wc);
    } else {
      MovingKeepsPlan(mem, th, wc);
    }
  }

  /** The last byte a list of stores puts at `x`. */
  function LastByte(plan: seq<ByteStore>, x: nat): Option<byte> {
    if plan == [] then None
    else
      var later := LastByte(plan[1..], x);
      if later.Some? then later
      else if plan[0].addr == x then Some(plan[0].val) else None
  }

  /** Thread `t`'s last planned byte at `x`. */
  ghost function Final(locked: bool, c: Config, t: nat, x: nat): Option<byte>
    requires Inv(locked, c) && t < |c.threads|
  {
    LastByte(Plan(|c.mem|, c.threads[t]), x)
  }

  // ---- what cells can end as -----------------------------------------------------------------

  /** Cell `x` may end as `b`: it is some thread's last planned byte there, or nobody plans to
      store there and it is `b` already. */
  ghost predicate CanEnd(locked: bool, c: Config, x: nat, b: byte)
    requires Inv(locked, c) && x < |c.mem|
  {
    || (exists t :: 0 <= t < |c.threads| && Final(locked, c, t, x) == Some(b))
    || ((forall t :: 0 <= t < |c.threads| ==> Final(locked, c, t, x) == None) && c.mem[x] == b)
  }

  ghost predicate CanEndAs(locked: bool, c: Config, m: seq<byte>)
    requires Inv(locked, c)
  {
    |m| == |c.mem| && forall x :: 0 <= x < |m| ==> CanEnd(locked, c, x, m[x])
  }

  /** How one step changes what is planned at a cell. */
  lemma StepFinals(locked: bool, c: Config, ch: Choice, x: nat)
    requires Inv(locked, c) && Enabled(locked, c, ch.tid) && x < |c.mem|
    ensures var c' := Step(locked, c, ch);
            var plan := Plan(|c.mem|, c.threads[ch.tid]);
            && (forall u :: 0 <= u < |c.threads| && u != ch.tid ==> Final(locked, c', u, x) == Final(locked, c, u, x))
            && if Storing(c.threads[ch.tid]) && plan[0].addr == x then
                 && c'.mem[x] == plan[0].val
                 && Final(locked, c', ch.tid, x) == LastByte(plan[1..], x)
               else
                 c'.mem[x] == c.mem[x] && Final(locked, c', ch.tid, x) == Final(locked, c, ch.tid, x)
  {
    LocalPops(c.mem, c.threads[ch.tid], ch.writecount);
  }

  /** No step adds a possibility. */
  lemma CanEndShrinks(locked: bool, c: Config, ch: Choice, x: nat, b: byte)
    requires Inv(locked, c) && Enabled(locked, c, ch.tid) && x < |c.mem|
    requires CanEnd(locked, Step(locked, c, ch), x, b)
    ensures CanEnd(locked, c, x, b)
  {
    var c' := Step(locked, c, ch);
    var t := ch.tid;
    StepFinals(locked, c, ch, x);
    LocalPops(c.mem, c.threads[t], ch.writecount);
    if u :| 0 <= u < |c.threads| && Final(locked, c', u, x) == Some(b) {
      assert Final(locked, c, u, x) == Some(b);
    } else {
      assert Final(locked, c', t, x) == None;
      if Storing(c.threads[t]) && Plan(|c.mem|, c.threads[t])[0].addr == x {
        assert Final(locked, c, t, x) == Some(b);
      }
    }
  }

  lemma {:induction false} RunShrinks(locked: bool, c: Config, s: seq<Choice>, x: nat, b: byte)
    requires Inv(locked, c) && Run(locked, c, s).Some? && x < |c.mem|
    requires CanEnd(locked, Run(locked, c, s).value, x, b)
    ensures CanEnd(locked, c, x, b)
    decreases |s|
  {
    if s == [] {
    } else {
      RunShrinks(locked, Step(locked, c, s[0]), s[1..], x, b);
      CanEndShrinks(locked, c, s[0], x, b);
    }
  }

  /** Nothing else can happen: in every complete run, of any number of threads with any calls, a
      cell nobody writes keeps its byte and every other cell ends as some thread's last byte. */
  lemma EndsAsPlanned(locked: bool, c: Config, s: seq<Choice>, e: Config)
    requires Inv(locked, c) && Finishes(locked, c, s, e)
    ensures CanEndAs(locked, c, e.mem)
  {
    forall x | 0 <= x < |e.mem|
      ensures CanEnd(locked, c, x, e.mem[x])
    {
      assert CanEnd(locked, e, x, e.mem[x]);
      RunShrinks(locked, c, s, x, e.mem[x]);
    }
  }

  // ---- which of these memories are reached ---------------------------------------------------

  /** The index of the last store at `x`, or -1. */
  function LastIndex(plan: seq<ByteStore>, x: nat): (i: int)
    ensures -1 <= i < |plan|
  {
    if plan == [] then -1
    else
      var later := LastIndex(plan[1..], x);
      if later >= 0 then later + 1
      else if plan[0].addr == x then 0 else -1
  }

  lemma {:induction false} LastIndexByte(plan: seq<ByteStore>, x: nat)
    ensures LastByte(plan, x) == if LastIndex(plan, x) < 0 then None else Some(plan[LastIndex(plan, x)].val)
    ensures LastIndex(plan, x) >= 0 ==> plan[LastIndex(plan, x)].addr == x
  {
    if plan == [] {
    } else {
      LastIndexByte(plan[1..], x);
    }
  }

  /** Thread `t`'s last store at `x` comes before its last store at `y`. */
  ghost predicate LastBefore(locked: bool, c: Config, t: nat, x: nat, y: nat)
    requires Inv(locked, c) && t < |c.threads|
  {
    0 <= LastIndex(Plan(|c.mem|, c.threads[t]), x) < LastIndex(Plan(|c.mem|, c.threads[t]), y)
  }

  /** A winner for every cell: `w[x]` is to have the last word on `x`, which is the byte `m` has
      there; cells nobody stores at keep their byte. */
  ghost predicate Decides(c: Config, m: seq<byte>, w: seq<nat>)
    requires Inv(false, c)
  {
    && |m| == |c.mem| && |w| == |c.mem|
    && forall x :: 0 <= x < |m| ==>
         if Unwritten(c, x) then c.mem[x] == m[x]
         else w[x] < |c.threads| && Final(false, c, w[x], x) == Some(m[x])
  }

  ghost predicate Unwritten(c: Config, x: nat)
    requires Inv(false, c)
  {
    forall t :: 0 <= t < |c.threads| ==> Final(false, c, t, x) == None
  }

  /** The winner of `x` makes its last store there before its last store at `y`, so `x` must be
      decided first. */
  ghost predicate WinsBefore(c: Config, w: seq<nat>, x: nat, y: nat)
    requires Inv(false, c)
  {
    x < |c.mem| && y < |c.mem| && x < |w| && w[x] < |c.threads| && LastBefore(false, c, w[x], x, y)
  }

  /** The winners make their last stores in the order of `rank`. */
  ghost predicate Ordered(c: Config, w: seq<nat>, rank: nat -> nat)
    requires Inv(false, c)
  {
    forall x: nat, y: nat :: WinsBefore(c, w, x, y) ==> rank(x) < rank(y)
  }

  lemma LastBeforeTail(plan: seq<ByteStore>, x: nat, y: nat)
    requires plan != [] && 0 <= LastIndex(plan[1..], x) < LastIndex(plan[1..], y)
    ensures 0 <= LastIndex(plan, x) < LastIndex(plan, y)
  {
  }

  lemma StepOrdered(c: Config, ch: Choice, w: seq<nat>, rank: nat -> nat)
    requires Inv(false, c) && Enabled(false, c, ch.tid) && Ordered(c, w, rank)
    ensures Ordered(Step(false, c, ch), w, rank)
  {
    var d := Step(false, c, ch);
    LocalPops(c.mem, c.threads[ch.tid], ch.writecount);
    forall x: nat, y: nat | WinsBefore(d, w, x, y)
      ensures rank(x) < rank(y)
    {
      if w[x] == ch.tid && Storing(c.threads[ch.tid]) {
        LastBeforeTail(Plan(|c.mem|, c.threads[ch.tid]), x, y);
      }
      assert WinsBefore(c, w, x, y);
    }
  }

  /** The index of a lowest key, if there is a key. */
  lemma {:induction false} Lowest(keys: seq<Option<nat>>, some: nat) returns (t: nat)
    requires some < |keys| && keys[some].Some?
    ensures t < |keys| && keys[t].Some?
    ensures forall u :: 0 <= u < |keys| && keys[u].Some? ==> keys[t].value <= keys[u].value
    decreases |keys|
  {
    var n := |keys| - 1;
    t := n;
    if u :| 0 <= u < n && keys[u].Some? {
      var low := Lowest(keys[..n], u);
      assert keys[..n][low] == keys[low];
      assert forall v :: 0 <= v < n ==> keys[..n][v] == keys[v];
      if keys[n].None? || keys[low].value <= keys[n].value {
        t := low;
      }
    }
  }

  /** Nobody but `t` has a store to come at `x`. */
  ghost predicate OnlyLeft(c: Config, t: nat, x: nat)
    requires Inv(false, c)
  {
    forall u :: 0 <= u < |c.threads| && u != t ==> Final(false, c, u, x) == None
  }

  /** Thread `t` can step without spoiling a decision: it does not store, or not for the last time
      at that cell, or is not to win there, or is the only one left to. */
  ghost predicate Safe(c: Config, w: seq<nat>, t: nat)
    requires Inv(false, c)
  {
    && Enabled(false, c, t)
    && (Storing(c.threads[t]) ==>
          var plan := Plan(|c.mem|, c.threads[t]);
          && plan != [] && plan[0].addr < |c.mem| && |w| == |c.mem|
          && (LastIndex(plan, plan[0].addr) != 0 || w[plan[0].addr] != t || OnlyLeft(c, t, plan[0].addr)))
  }

  /** What a step leaves to be decided at one cell. */
  lemma SafeAt(c: Config, w: seq<nat>, t: nat, m: seq<byte>, x: nat)
    requires Inv(false, c) && Decides(c, m, w) && Safe(c, w, t) && x < |m|
    ensures var d := Step(false, c, Choice(t, 0));
            if Unwritten(d, x) then d.mem[x] == m[x]
            else w[x] < |d.threads| && Final(false, d, w[x], x) == Some(m[x])
  {
    var d := Step(false, c, Choice(t, 0));
    var plan := Plan(|c.mem|, c.threads[t]);
    StepFinals(false, c, Choice(t, 0), x);
    if Storing(c.threads[t]) && plan[0].addr == x {
      LastIndexByte(plan, x);
      LastIndexByte(plan[1..], x);
      assert Final(false, c, t, x) != None;
      if LastIndex(plan, x) == 0 && w[x] == t {
        assert OnlyLeft(c, t, x);
      } else {
        assert Final(false, d, w[x], x) == Some(m[x]);
      }
    } else if Unwritten(d, x) {
      assert forall u :: 0 <= u < |c.threads| ==> Final(false, c, u, x) == Final(false, d, u, x);
    } else {
      var u :| 0 <= u < |d.threads| && Final(false, d, u, x) != None;
      assert Final(false, c, u, x) != None;
    }
  }

  lemma SafeStep(c: Config, w: seq<nat>, t: nat, m: seq<byte>)
    requires Inv(false, c) && Decides(c, m, w) && Safe(c, w, t)
    ensures Decides(Step(false, c, Choice(t, 0)), m, w)
  {
    forall x | 0 <= x < |m|
      ensures var d := Step(false, c, Choice(t, 0));
              if Unwritten(d, x) then d.mem[x] == m[x]
              else w[x] < |d.threads| && Final(false, d, w[x], x) == Some(m[x])
    {
      SafeAt(c, w, t, m, x);
    }
  }

  /** The active thread whose next store is at a cell of lowest rank. */
  lemma LowestRanked(c: Config, rank: nat -> nat) returns (t: nat)
    requires Inv(false, c) && !AllDone(c)
    requires forall u :: 0 <= u < |c.threads| && !Done(c.threads[u]) ==> Plan(|c.mem|, c.threads[u]) != []
    ensures t < |c.threads| && !Done(c.threads[t])
    ensures forall u :: 0 <= u < |c.threads| && !Done(c.threads[u]) ==>
              rank(Plan(|c.mem|, c.threads[t])[0].addr) <= rank(Plan(|c.mem|, c.threads[u])[0].addr)
  {
    var keys: seq<Option<nat>> :=
      seq(|c.threads|, u requires 0 <= u < |c.threads| =>
        if Done(c.threads[u]) then None else Some(rank(Plan(|c.mem|, c.threads[u])[0].addr)));
    var some :| 0 <= some < |c.threads| && !Done(c.threads[some]);
    t := Lowest(keys, some);
    assert forall u :: 0 <= u < |c.threads| && !Done(c.threads[u]) ==>
        keys[u] == Some(rank(Plan(|c.mem|, c.threads[u])[0].addr));
  }

  /** Where the lowest ranked thread must wait for another one, that one may go: it is at the same
      cell and not to win there; or it will come to its next cell again; or it is not to win
      there, because its last store there comes before one at a cell of no higher rank. */
  lemma BlockerIsSafe(c: Config, w: seq<nat>, rank: nat -> nat, t: nat, u: nat)
    requires Inv(false, c) && Ordered(c, w, rank) && |w| == |c.mem|
    requires t < |c.threads| && u != t && Enabled(false, c, u)
    requires var plan, other := Plan(|c.mem|, c.threads[t]), Plan(|c.mem|, c.threads[u]);
             && plan != [] && other != [] && plan[0].addr < |c.mem| && other[0].addr < |c.mem|
             && rank(plan[0].addr) <= rank(other[0].addr)
             && Final(false, c, u, plan[0].addr).Some? && w[plan[0].addr] == t
    ensures Safe(c, w, u)
  {
    var x, plan := Plan(|c.mem|, c.threads[t])[0].addr, Plan(|c.mem|, c.threads[u]);
    var head := plan[0].addr;
    LastIndexByte(plan, x);
    if head != x && LastIndex(plan, head) == 0 {
      assert w[head] == u ==> WinsBefore(c, w, head, x);
    }
  }

  lemma StoringHasNext(c: Config, t: nat)
    requires Inv(false, c) && t < |c.threads| && Storing(c.threads[t])
    ensures Plan(|c.mem|, c.threads[t]) != [] && Plan(|c.mem|, c.threads[t])[0].addr < |c.mem|
  {
    LocalPops(c.mem, c.threads[t], 0);
  }

  /** If everybody still running is about to store, some thread may. */
  lemma SomeStoreIsSafe(c: Config, w: seq<nat>, rank: nat -> nat) returns (t: nat)
    requires Inv(false, c) && Ordered(c, w, rank) && !AllDone(c) && |w| == |c.mem|
    requires forall u :: 0 <= u < |c.threads| && !Done(c.threads[u]) ==>
               && Storing(c.threads[u]) && Plan(|c.mem|, c.threads[u]) != []
               && Plan(|c.mem|, c.threads[u])[0].addr < |c.mem|
    ensures Safe(c, w, t)
  {
    t := LowestRanked(c, rank);
    var x := Plan(|c.mem|, c.threads[t])[0].addr;
    if u :| 0 <= u < |c.threads| && u != t && Final(false, c, u, x) != None && w[x] == t {
      DoneHasNoPlan(|c.mem|, c.threads[u]);
      BlockerIsSafe(c, w, rank, t, u);
      t := u;
    }
  }

  /** A decision in reach stays in reach under some step: let a thread move that does not store;
      or, at the lowest ranked cell anybody is about to store at, let a loser go before the
      winner. */
  lemma GoodStep(c: Config, w: seq<nat>, rank: nat -> nat) returns (t: nat)
    requires Inv(false, c) && Ordered(c, w, rank) && !AllDone(c) && |w| == |c.mem|
    ensures Safe(c, w, t)
  {
    if v :| 0 <= v < |c.threads| && !Done(c.threads[v]) && !Storing(c.threads[v]) {
      t := v;
    } else {
      forall u | 0 <= u < |c.threads| && !Done(c.threads[u])
        ensures Plan(|c.mem|, c.threads[u]) != [] && Plan(|c.mem|, c.threads[u])[0].addr < |c.mem|
      {
        StoringHasNext(c, u);
      }
      t := SomeStoreIsSafe(c, w, rank);
    }
  }

  /** Without the lock, a choice of winners whose last stores follow one order can be brought
      about. */
  lemma {:induction false} Reached(c: Config, w: seq<nat>, rank: nat -> nat, m: seq<byte>)
    returns (s: seq<Choice>, e: Config)
    requires Inv(false, c) && Ordered(c, w, rank) && Decides(c, m, w)
    ensures Finishes(false, c, s, e) && e.mem == m
    decreases Measure(false, c)
  {
    if AllDone(c) {
      s, e := [], c;
      forall x | 0 <= x < |m|
        ensures c.mem[x] == m[x]
      {
        assert Unwritten(c, x);
      }
    } else {
      var t := GoodStep(c, w, rank);
      var ch := Choice(t, 0);
      SafeStep(c, w, t, m);
      StepDecreases(false, c, ch);
      StepOrdered(c, ch, w, rank);
      var rest;
      rest, e := Reached(Step(false, c, ch), w, rank, m);
      RunCons(false, c, ch, rest);
      s := [ch] + rest;
    }
  }

  ghost predicate Outcome(locked: bool, c: Config, m: seq<byte>)
    requires Inv(locked, c)
  {
    exists s, e :: Finishes(locked, c, s, e) && e.mem == m
  }
}
