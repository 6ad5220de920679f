/** The test program's two writers: what the lock buys them. */
module TwoWriters {
  import opened Bytes
  import opened SharedMemory
  import opened Threads
  import opened Unlocked
  import CellOrder
  import Cycles
  import Locked

  function Writer(p: nat, data: seq<byte>): Thread {
    Thread([Write(data)], p, Idle, [])
  }

  /** Two threads about to write at the same place. */
  function TwoWriters(mem: seq<byte>, p: nat, a: seq<byte>, b: seq<byte>): Config {
    Config(mem, None, [Writer(p, a), Writer(p, b)])
  }

  /** Byte by byte, the one or the other. */
  function Mix(a: seq<byte>, b: seq<byte>, mask: seq<bool>): (r: seq<byte>)
    requires |mask| <= |a| && |mask| <= |b|
    ensures |r| == |mask| && forall i :: 0 <= i < |mask| ==> r[i] == if mask[i] then a[i] else b[i]
  {
    seq(|mask|, i requires 0 <= i < |mask| => if mask[i] then a[i] else b[i])
  }

  lemma {:induction false} LastOfStores(addr: nat, bytes: seq<byte>, x: nat)
    ensures LastByte(Stores(addr, bytes), x) == if addr <= x < addr + |bytes| then Some(bytes[x - addr]) else None
    decreases |bytes|
  {
    if bytes == [] {
    } else {
      assert Stores(addr, bytes)[1..] == Stores(addr + 1, bytes[1..]);
      LastOfStores(addr + 1, bytes[1..], x);
    }
  }

  lemma WriterPlan(size: nat, p: nat, data: seq<byte>, x: nat)
    requires p < size
    ensures var n := Clamp(size, p, |data|);
            LastByte(Plan(size, Writer(p, data)), x) == if p <= x < p + n then Some(data[x - p]) else None
  {
    var n := Clamp(size, p, |data|);
    var calls := [Write(data)];
    assert calls[1..] == [];
    assert data[0..n] == data[..n];
    assert CallsStores(size, p, calls) == Stores(p, data[..n]) + CallsStores(size, PosAfter(size, p, calls[0]), []);
    assert Plan(size, Writer(p, data)) == Stores(p, data[..n]);
    LastOfStores(p, data[..n], x);
  }

  lemma TwoWritersStart(mem: seq<byte>, p: nat, a: seq<byte>, b: seq<byte>)
    requires p < |mem|
    ensures var c := TwoWriters(mem, p, a, b);
            Quiet(c) && Inv(false, c) && Inv(true, c) && !Cycles.Cyclic(CellOrder.Order(c))
  {
    CellOrder.NoSeekIsAcyclic(TwoWriters(mem, p, a, b));
  }

  /** Every cell of `m` in the range is one of the two, and the others are as in `mem`. */
  predicate Pointwise(mem: seq<byte>, p: nat, a: seq<byte>, b: seq<byte>, m: seq<byte>)
    requires |a| == |b| && p + |a| <= |mem|
  {
    |m| == |mem| &&
    forall x :: 0 <= x < |m| ==>
      if p <= x < p + |a| then m[x] == a[x - p] || m[x] == b[x - p] else m[x] == mem[x]
  }

  lemma PointwiseIsMix(mem: seq<byte>, p: nat, a: seq<byte>, b: seq<byte>, m: seq<byte>)
    requires |a| == |b| && p + |a| <= |mem|
    ensures Pointwise(mem, p, a, b, m) <==>
            exists mask: seq<bool> :: |mask| == |a| && m == Store(mem, p, Mix(a, b, mask))
  {
    if Pointwise(mem, p, a, b, m) {
      var mask := seq(|a|, i requires 0 <= i < |a| => m[p + i] == a[i]);
      var mixed := Store(mem, p, Mix(a, b, mask));
      assert forall x :: 0 <= x < |m| ==> m[x] == mixed[x];
      assert m == mixed;
    }
  }

  lemma TwoWritersCanEnd(mem: seq<byte>, p: nat, a: seq<byte>, b: seq<byte>, m: seq<byte>)
    requires p < |mem| && |a| == |b| && |m| == |mem|
    requires Inv(false, TwoWriters(mem, p, a, b))
    ensures var n := Clamp(|mem|, p, |a|);
            CanEndAs(false, TwoWriters(mem, p, a, b), m) <==> Pointwise(mem, p, a[..n], b[..n], m)
  {
    var c := TwoWriters(mem, p, a, b);
    var n := Clamp(|mem|, p, |a|);
    forall x | 0 <= x < |m|
      ensures CanEnd(false, c, x, m[x]) <==>
                if p <= x < p + n then m[x] == a[x - p] || m[x] == b[x - p] else m[x] == mem[x]
    {
      WriterPlan(|mem|, p, a, x);
      WriterPlan(|mem|, p, b, x);
      assert Final(false, c, 0, x) == if p <= x < p + n then Some(a[x - p]) else None;
      assert Final(false, c, 1, x) == if p <= x < p + n then Some(b[x - p]) else None;
    }
  }

  /** Without the lock, two writes of the same range end in every pointwise mix of their data and
      in nothing else ("A A B B B"). */
  lemma TwoWritersUnlocked(mem: seq<byte>, p: nat, a: seq<byte>, b: seq<byte>, m: seq<byte>)
    requires p < |mem| && |a| == |b|
    requires Inv(false, TwoWriters(mem, p, a, b))
    ensures var n := Clamp(|mem|, p, |a|);
            Outcome(false, TwoWriters(mem, p, a, b), m) <==>
            exists mask: seq<bool> :: |mask| == n && m == Store(mem, p, Mix(a[..n], b[..n], mask))
  {
    var n := Clamp(|mem|, p, |a|);
    TwoWritersStart(mem, p, a, b);
    CellOrder.UnlockedOutcomes(TwoWriters(mem, p, a, b), m);
    if |m| == |mem| {
      TwoWritersCanEnd(mem, p, a, b, m);
    }
    PointwiseIsMix(mem, p, a[..n], b[..n], m);
  }

  /** If the two differ in every byte, different mixes are different memories: 2^n of them. */
  lemma MixesDiffer(mem: seq<byte>, p: nat, a: seq<byte>, b: seq<byte>, mask1: seq<bool>, mask2: seq<bool>)
    requires |mask1| == |mask2| <= |a| && |a| == |b| && p + |mask1| <= |mem|
    requires forall i :: 0 <= i < |mask1| ==> a[i] != b[i]
    ensures mask1 != mask2 ==> Store(mem, p, Mix(a, b, mask1)) != Store(mem, p, Mix(a, b, mask2))
  {
    if mask1 != mask2 {
      var i :| 0 <= i < |mask1| && mask1[i] != mask2[i];
      assert Store(mem, p, Mix(a, b, mask1))[p + i] != Store(mem, p, Mix(a, b, mask2))[p + i];
    }
  }

  /** Two threads with one call each can only be served in two orders. */
  lemma SerialOrders(a0: Locked.Serial, order: seq<nat>)
    requires |a0.sessions| == 2 && |a0.sessions[0].calls| == 1 && |a0.sessions[1].calls| == 1
    requires var r := Locked.SerialRun(a0, order); r.Some? && Locked.SerialDone(r.value)
    ensures order == [0, 1] || order == [1, 0]
  {
    assert order != [] && Locked.CanCall(a0, order[0]);
    var a1 := Locked.CallNow(a0, order[0]);
    var rest := order[1..];
    assert Locked.SerialRun(a0, order) == Locked.SerialRun(a1, rest);
    assert a1.sessions[1 - order[0]] == a0.sessions[1 - order[0]];
    assert rest != [] && Locked.CanCall(a1, rest[0]);
    var a2 := Locked.CallNow(a1, rest[0]);
    assert Locked.SerialRun(a1, rest) == Locked.SerialRun(a2, rest[1..]);
    assert Locked.SerialDone(a2);
    assert rest[1..] == [];
    assert order == [order[0], rest[0]];
  }

  lemma SerialPair(a0: Locked.Serial, p: nat, first: nat, second: nat, d1: seq<byte>, d2: seq<byte>)
    requires |a0.sessions| == 2 && {first, second} == {0, 1} && p < |a0.mem| && |d1| == |d2|
    requires a0.sessions[first] == Session([Write(d1)], p, []) && a0.sessions[second] == Session([Write(d2)], p, [])
    ensures var n := Clamp(|a0.mem|, p, |d1|);
            var r := Locked.SerialRun(a0, [first, second]);
            r.Some? && Locked.SerialDone(r.value) && r.value.mem == Store(a0.mem, p, d2[..n])
  {
    var n := Clamp(|a0.mem|, p, |d1|);
    var a1 := Locked.CallNow(a0, first);
    var a2 := Locked.CallNow(a1, second);
    assert [first, second][1..] == [second];
    assert Locked.SerialRun(a1, [second]) == Locked.SerialRun(a2, []);
    assert a2.mem == Store(Store(a0.mem, p, d1[..n]), p, d2[..n]);
    assert forall x :: 0 <= x < |a0.mem| ==> a2.mem[x] == Store(a0.mem, p, d2[..n])[x];
  }

  /** With the lock, two writes of the same range end in one write's data or the other's, and
      either can happen ("B B B B B"). */
  lemma TwoWritersLocked(mem: seq<byte>, p: nat, a: seq<byte>, b: seq<byte>, m: seq<byte>)
    requires p < |mem| && |a| == |b|
    requires Inv(true, TwoWriters(mem, p, a, b))
    ensures var n := Clamp(|mem|, p, |a|);
            Outcome(true, TwoWriters(mem, p, a, b), m) <==>
            m == Store(mem, p, a[..n]) || m == Store(mem, p, b[..n])
  {
    var c := TwoWriters(mem, p, a, b);
    var n := Clamp(|mem|, p, |a|);
    TwoWritersStart(mem, p, a, b);
    Locked.AbsQuiet(c);
    var a0 := Locked.Abs(c);
    SerialPair(a0, p, 0, 1, a, b);
    SerialPair(a0, p, 1, 0, b, a);
    if Outcome(true, c, m) {
      var order := OrderOf(c, m);
      SerialOrders(a0, order);
    }
    if m == Store(mem, p, b[..n]) {
      WholeOrder(c, [0, 1], m);
    }
    if m == Store(mem, p, a[..n]) {
      WholeOrder(c, [1, 0], m);
    }
  }

  /** A memory the locked device ends in is left by some serial order. */
  lemma OrderOf(c: Config, m: seq<byte>) returns (order: seq<nat>)
    requires Quiet(c) && Inv(true, c) && Outcome(true, c, m)
    ensures var r := Locked.SerialRun(Locked.Abs(c), order); r.Some? && Locked.SerialDone(r.value) && r.value.mem == m
  {
    var s, e :| Finishes(true, c, s, e) && e.mem == m;
    DoneIsQuiet(true, e);
    Locked.AbsQuiet(e);
    Locked.Linearizable(c, s);
    order := Locked.EffectOrder(c, s);
  }

  lemma WholeOrder(c: Config, order: seq<nat>, m: seq<byte>)
    requires Quiet(c) && Inv(true, c)
    requires var r := Locked.SerialRun(Locked.Abs(c), order); r.Some? && Locked.SerialDone(r.value) && r.value.mem == m
    ensures Outcome(true, c, m)
  {
    var a := Locked.SerialRun(Locked.Abs(c), order).value;
    Locked.LockedIsAtomic(c, a);
    assert Locked.SerialOutcome(Locked.Abs(c), a);
    var s, e :| Finishes(true, c, s, e) && Locked.Abs(e) == a;
    DoneIsQuiet(true, e);
    Locked.AbsQuiet(e);
  }
}
