/**
 The loop shapes the Brainfuck compiler replaces by straight-line code, and why the
 replacement computes what the loop computes.
 */
module BrainfuckLoops {
  import opened Seqs
  import opened Wrappers
  import opened ModArith
  import opened BrainfuckSource
  import opened BrainfuckBytecode

  /** What a pass over jump-free pointer and cell arithmetic does: the net pointer shift, and
      for each relative position visited by an update the total added there. */
  datatype Dist = Dist(shift: int, to: map<int, int>)

  function Get(m: map<int, int>, k: int): (v: int) {
    if k in m then m[k] else 0
  }

  function Bump(m: map<int, int>, k: int, v: int): (r: map<int, int>) {
    m[k := Get(m, k) + v]
  }

  function DistStep(d: Dist, i: Instr): (r: Option<Dist>) {
    match i.op
    case SHIFTPTR => Some(d.(shift := d.shift + i.val1))
    case UPDATEVAL => Some(d.(to := Bump(d.to, d.shift, i.val1)))
    case _ => None
  }

  /** The analysis of a loop body as flat code; None when it holds any other opcode. */
  function DistSeq(code: seq<Instr>): (r: Option<Dist>) {
    if code == [] then Some(Dist(0, map[]))
    else
      match DistSeq(code[..|code| - 1])
      case None => None
      case Some(d) => DistStep(d, code[|code| - 1])
  }

  function DistBlocks(b: Blocks): (r: Option<Dist>) {
    match b
    case Empty => Some(Dist(0, map[]))
    case Snoc(init, i) => (
      match DistBlocks(init)
      case None => None
      case Some(d) => DistStep(d, i))
    case SnocLoop(_, _) => None
  }

  lemma {:induction false} DistOfLayout(b: Blocks, base: nat)
    ensures DistSeq(Layout(b, base)) == DistBlocks(b)
  {
    var code := Layout(b, base);
    match b
    case Empty =>
    case Snoc(init, i) =>
      DistOfLayout(init, base);
      assert code[..|code| - 1] == Layout(init, base);
    case SnocLoop(init, body) =>
      assert code[|code| - 1].op == LEND;
  }

  /** A body the analysis accepts has no jumps, so its layout does not depend on where it sits. */
  lemma {:induction false} StraightLayout(b: Blocks, base: nat)
    requires DistBlocks(b).Some?
    ensures Layout(b, base) == Layout(b, 0)
  {
    match b
    case Empty =>
    case Snoc(init, i) => StraightLayout(init, base);
  }

  predicate Accepts(d: Dist) {
    d.shift == 0 && Get(d.to, 0) == -1
  }

  /** No position other than the start, but equal to it on the circular tape, is changed. */
  predicate NoAlias(size: int, m: map<int, int>)
    requires size > 0
  {
    forall k :: k in m && k != 0 && m[k] != 0 ==> k % size != 0
  }

  // ----- what a pass adds to each cell -----

  predicate NoDup(ks: seq<int>) {
    forall i, j :: 0 <= i < j < |ks| ==> ks[i] != ks[j]
  }

  /** The total that the positions ks, taken relative to ptr, add to cell j. */
  function Gain(ks: seq<int>, m: map<int, int>, ptr: int, size: int, j: int): (g: int)
    requires size > 0
  {
    if ks == [] then 0
    else (if (ptr + ks[0]) % size == j then Get(m, ks[0]) else 0) + Gain(ks[1..], m, ptr, size, j)
  }

  lemma {:induction false} GainBump(ks: seq<int>, m: map<int, int>, k: int, v: int, ptr: int, size: int, j: int)
    requires size > 0 && NoDup(ks)
    ensures Gain(ks, Bump(m, k, v), ptr, size, j)
         == Gain(ks, m, ptr, size, j) + (if k in ks && (ptr + k) % size == j then v else 0)
  {
    if ks != [] {
      GainBump(ks[1..], m, k, v, ptr, size, j);
      assert k in ks <==> k == ks[0] || k in ks[1..];
      if k == ks[0] {
        assert k !in ks[1..];
      }
    }
  }

  lemma {:induction false} GainOfNothing(ks: seq<int>, ptr: int, size: int, j: int)
    requires size > 0
    ensures Gain(ks, map[], ptr, size, j) == 0
  {
    if ks != [] {
      GainOfNothing(ks[1..], ptr, size, j);
    }
  }

  lemma OffsetHitsStart(ptr: int, k: int, size: int)
    requires 0 <= ptr < size
    ensures (ptr + k) % size == ptr <==> k % size == 0
  {
    ModAdd(k, ptr, size);
    if k % size + ptr < size {
      ModSmall(k % size + ptr, size);
    } else {
      ModUnique(k % size + ptr, size, 1, k % size + ptr - size);
    }
  }

  /** Without aliasing the start cell gains exactly its own entry. */
  lemma {:induction false} GainAtStart(ks: seq<int>, m: map<int, int>, ptr: int, size: int)
    requires 0 <= ptr < size && NoDup(ks) && NoAlias(size, m)
    ensures Gain(ks, m, ptr, size, ptr) == if 0 in ks then Get(m, 0) else 0
  {
    if ks != [] {
      GainAtStart(ks[1..], m, ptr, size);
      OffsetHitsStart(ptr, ks[0], size);
      if ks[0] == 0 {
        ModSmall(0, size);
      }
      GainCons(ks, m, ptr, size, ptr);
      hide Gain;
      assert 0 in ks <==> 0 == ks[0] || 0 in ks[1..];
      if ks[0] == 0 {
        assert 0 !in ks[1..];
      }
    }
  }

  lemma GainCons(ks: seq<int>, m: map<int, int>, ptr: int, size: int, j: int)
    requires size > 0 && ks != []
    ensures Gain(ks, m, ptr, size, j)
         == (if (ptr + ks[0]) % size == j then Get(m, ks[0]) else 0) + Gain(ks[1..], m, ptr, size, j)
  {
  }

  /** `t` is `s` with the pointer moved by `shift` and `times` passes worth of gains added. */
  ghost predicate Passed(e: Env, s: State, t: State, shift: int, ks: seq<int>, m: map<int, int>)
    requires ValidEnv(e) && ValidState(e, s) && ValidState(e, t)
  {
    && t.consumed == s.consumed && t.output == s.output
    && t.ptr == (s.ptr + shift) % e.size
    && forall j :: 0 <= j < e.size ==> t.mem[j] == (s.mem[j] + Gain(ks, m, s.ptr, e.size, j)) % e.modulus
  }

  /** One pass over an analysed body adds, to every cell, what the analysis says. */
  lemma {:induction false} PassAddsGains(e: Env, b: Blocks, s: State, fuel: nat, ks: seq<int>)
    requires ValidEnv(e) && ValidState(e, s) && DistBlocks(b).Some?
    requires NoDup(ks) && forall k :: k in DistBlocks(b).value.to ==> k in ks
    ensures RunBlocks(e, b, s, fuel).Some?
    ensures Passed(e, s, RunBlocks(e, b, s, fuel).value, DistBlocks(b).value.shift, ks, DistBlocks(b).value.to)
    decreases b
  {
    match b
    case Empty =>
      forall j | 0 <= j < e.size
        ensures s.mem[j] == (s.mem[j] + Gain(ks, map[], s.ptr, e.size, j)) % e.modulus
      {
        GainOfNothing(ks, s.ptr, e.size, j);
        ModSmall(s.mem[j], e.modulus);
      }
      ModSmall(s.ptr, e.size);
    case Snoc(init, i) =>
      var d := DistBlocks(init).value;
      assert forall k :: k in d.to ==> k in DistBlocks(b).value.to;
      PassAddsGains(e, init, s, fuel, ks);
      var s1 := RunBlocks(e, init, s, fuel).value;
      InstrAddsGain(e, s, s1, d, i, ks);
  }

  lemma InstrAddsGain(e: Env, s: State, s1: State, d: Dist, i: Instr, ks: seq<int>)
    requires ValidEnv(e) && ValidState(e, s) && ValidState(e, s1) && NoDup(ks)
    requires DistStep(d, i).Some? && forall k :: k in DistStep(d, i).value.to ==> k in ks
    requires Passed(e, s, s1, d.shift, ks, d.to)
    ensures Passed(e, s, Simple(e, i, s1), DistStep(d, i).value.shift, ks, DistStep(d, i).value.to)
  {
    if i.op == SHIFTPTR {
      ShiftAddsNothing(e, s, s1, d, i, ks);
    } else {
      UpdateAddsGain(e, s, s1, d, i, ks);
    }
  }

  lemma ShiftAddsNothing(e: Env, s: State, s1: State, d: Dist, i: Instr, ks: seq<int>)
    requires ValidEnv(e) && ValidState(e, s) && ValidState(e, s1) && i.op == SHIFTPTR
    requires Passed(e, s, s1, d.shift, ks, d.to)
    ensures Passed(e, s, Simple(e, i, s1), d.shift + i.val1, ks, d.to)
  {
    hide Gain;
    ModAdd(s.ptr + d.shift, i.val1, e.size);
    assert s.ptr + d.shift + i.val1 == s.ptr + (d.shift + i.val1);
  }

  lemma UpdateAddsGain(e: Env, s: State, s1: State, d: Dist, i: Instr, ks: seq<int>)
    requires ValidEnv(e) && ValidState(e, s) && ValidState(e, s1) && NoDup(ks) && i.op == UPDATEVAL && d.shift in ks
    requires Passed(e, s, s1, d.shift, ks, d.to)
    ensures Passed(e, s, Simple(e, i, s1), d.shift, ks, Bump(d.to, d.shift, i.val1))
  {
    hide Gain;
    hide Bump;
    var t := Simple(e, i, s1);
    forall j | 0 <= j < e.size
      ensures t.mem[j] == (s.mem[j] + Gain(ks, Bump(d.to, d.shift, i.val1), s.ptr, e.size, j)) % e.modulus
    {
      GainBump(ks, d.to, d.shift, i.val1, s.ptr, e.size, j);
      if j == s1.ptr {
        AddsOn(s.mem[j], Gain(ks, d.to, s.ptr, e.size, j), i.val1, e.modulus);
      }
    }
  }

  lemma AddsOn(x: int, g: int, a: int, m: int)
    requires m > 0
    ensures ((x + g) % m + a) % m == (x + (g + a)) % m
  {
    ModAdd(x + g, a, m);
    assert x + g + a == x + (g + a);
  }

  /** What a distribution loop leaves behind: the start cell cleared, and its old value spread
      over the other cells by their gains. */
  ghost predicate Distributed(e: Env, s: State, t: State, ks: seq<int>, m: map<int, int>)
    requires ValidEnv(e) && ValidState(e, s) && ValidState(e, t)
  {
    && t.consumed == s.consumed && t.output == s.output && t.ptr == s.ptr
    && t.mem[s.ptr] == 0
    && forall j :: 0 <= j < e.size && j != s.ptr ==>
         t.mem[j] == (s.mem[j] + Cur(s) * Gain(ks, m, s.ptr, e.size, j)) % e.modulus
  }

  lemma DistributedUnique(e: Env, s: State, t: State, u: State, ks: seq<int>, m: map<int, int>)
    requires ValidEnv(e) && ValidState(e, s) && ValidState(e, t) && ValidState(e, u)
    requires Distributed(e, s, t, ks, m) && Distributed(e, s, u, ks, m)
    ensures t == u
  {
    assert t.mem == u.mem;
  }

  /** An accepted loop counts its start cell down one pass at a time. */
  lemma {:induction false} AcceptedLoopDistributes(e: Env, b: Blocks, s: State, fuel: nat, ks: seq<int>)
    requires ValidEnv(e) && ValidState(e, s) && DistBlocks(b).Some? && Accepts(DistBlocks(b).value)
    requires NoDup(ks) && (forall k :: k in DistBlocks(b).value.to ==> k in ks) && NoAlias(e.size, DistBlocks(b).value.to)
    requires RunLoop(e, b, s, fuel).Some?
    ensures Distributed(e, s, RunLoop(e, b, s, fuel).value, ks, DistBlocks(b).value.to)
    decreases fuel
  {
    var m := DistBlocks(b).value.to;
    if Cur(s) == 0 {
      forall j | 0 <= j < e.size && j != s.ptr
        ensures s.mem[j] == (s.mem[j] + Cur(s) * Gain(ks, m, s.ptr, e.size, j)) % e.modulus
      {
        ModSmall(s.mem[j], e.modulus);
      }
    } else {
      PassAddsGains(e, b, s, fuel - 1, ks);
      var s1 := RunBlocks(e, b, s, fuel - 1).value;
      PassCountsDown(e, s, s1, ks, m);
      AcceptedLoopDistributes(e, b, s1, fuel - 1, ks);
      PassThenDistribute(e, s, s1, RunLoop(e, b, s1, fuel - 1).value, ks, m);
    }
  }

  lemma PassCountsDown(e: Env, s: State, s1: State, ks: seq<int>, m: map<int, int>)
    requires ValidEnv(e) && ValidState(e, s) && ValidState(e, s1) && NoDup(ks) && NoAlias(e.size, m)
    requires 0 in ks && Get(m, 0) == -1 && Cur(s) != 0 && Passed(e, s, s1, 0, ks, m)
    ensures s1.ptr == s.ptr && Cur(s1) == Cur(s) - 1
  {
    ModSmall(s.ptr, e.size);
    GainAtStart(ks, m, s.ptr, e.size);
    ModSmall(Cur(s) - 1, e.modulus);
  }

  lemma PassThenDistribute(e: Env, s: State, s1: State, t: State, ks: seq<int>, m: map<int, int>)
    requires ValidEnv(e) && ValidState(e, s) && ValidState(e, s1) && ValidState(e, t)
    requires Passed(e, s, s1, 0, ks, m) && s1.ptr == s.ptr && Cur(s1) == Cur(s) - 1
    requires Distributed(e, s1, t, ks, m)
    ensures Distributed(e, s, t, ks, m)
  {
    forall j | 0 <= j < e.size && j != s.ptr
      ensures t.mem[j] == (s.mem[j] + Cur(s) * Gain(ks, m, s.ptr, e.size, j)) % e.modulus
    {
      OneMore(s.mem[j], Gain(ks, m, s.ptr, e.size, j), Cur(s), e.modulus);
    }
  }

  lemma OneMore(x: int, g: int, c: int, m: int)
    requires m > 0
    ensures ((x + g) % m + (c - 1) * g) % m == (x + c * g) % m
  {
    ModAdd(x + g, (c - 1) * g, m);
    assert x + g + (c - 1) * g == x + c * g;
  }

  lemma ScaledSum(x: int, f: int, g: int, c: int, m: int)
    requires m > 0
    ensures ((x + f * c) % m + c * g) % m == (x + c * (f + g)) % m
  {
    ModAdd(x + f * c, c * g, m);
    assert x + f * c + c * g == x + c * (f + g);
  }

  // ----- the replacement code -----

  /** One UPDATE_BY_CURR for each changed position other than the start, in the order ks. */
  function AddUpdates(b: Blocks, ks: seq<int>, m: map<int, int>): (r: Blocks)
    decreases |ks|
  {
    if ks == [] then b
    else
      var b' := if Get(m, ks[0]) != 0 && ks[0] != 0 then Snoc(b, Instr(UPDATE_BY_CURR, ks[0], Get(m, ks[0]))) else b;
      AddUpdates(b', ks[1..], m)
  }

  function UpdatesOf(ks: seq<int>, m: map<int, int>): (r: seq<Instr>) {
    if ks == [] then []
    else (if Get(m, ks[0]) != 0 && ks[0] != 0 then [Instr(UPDATE_BY_CURR, ks[0], Get(m, ks[0]))] else [])
         + UpdatesOf(ks[1..], m)
  }

  lemma {:induction false} LayoutOfUpdates(b: Blocks, ks: seq<int>, m: map<int, int>, base: nat)
    ensures Layout(AddUpdates(b, ks, m), base) == Layout(b, base) + UpdatesOf(ks, m)
    decreases |ks|
  {
    if ks != [] {
      var i := Instr(UPDATE_BY_CURR, ks[0], Get(m, ks[0]));
      var b' := if Get(m, ks[0]) != 0 && ks[0] != 0 then Snoc(b, i) else b;
      LayoutOfUpdates(b', ks[1..], m, base);
      assert Layout(Snoc(b, i), base) == Layout(b, base) + [i];
      hide Layout;
      Assoc(Layout(b, base), [i], UpdatesOf(ks[1..], m));
      assert [] + UpdatesOf(ks[1..], m) == UpdatesOf(ks[1..], m);
    }
  }

  lemma {:induction false} UpdatesProper(b: Blocks, ks: seq<int>, m: map<int, int>)
    requires Proper(b)
    ensures Proper(AddUpdates(b, ks, m))
    decreases |ks|
  {
    if ks != [] {
      UpdatesProper(if Get(m, ks[0]) != 0 && ks[0] != 0 then Snoc(b, Instr(UPDATE_BY_CURR, ks[0], Get(m, ks[0]))) else b, ks[1..], m);
    }
  }

  /** `t` is `s` with the gains of ks, scaled by the current cell, added everywhere else. */
  ghost predicate Scattered(e: Env, s: State, t: State, ks: seq<int>, m: map<int, int>)
    requires ValidEnv(e) && ValidState(e, s) && ValidState(e, t)
  {
    && t.consumed == s.consumed && t.output == s.output && t.ptr == s.ptr
    && t.mem[s.ptr] == s.mem[s.ptr]
    && forall j :: 0 <= j < e.size && j != s.ptr ==>
         t.mem[j] == (s.mem[j] + Cur(s) * Gain(ks, m, s.ptr, e.size, j)) % e.modulus
  }

  lemma {:induction false} UpdatesScatter(e: Env, b: Blocks, ks: seq<int>, m: map<int, int>, s: State, fuel: nat)
    requires ValidEnv(e) && ValidState(e, s) && RunBlocks(e, b, s, fuel).Some? && NoAlias(e.size, m)
    ensures RunBlocks(e, AddUpdates(b, ks, m), s, fuel).Some?
    ensures Scattered(e, RunBlocks(e, b, s, fuel).value, RunBlocks(e, AddUpdates(b, ks, m), s, fuel).value, ks, m)
    decreases |ks|
  {
    var s1 := RunBlocks(e, b, s, fuel).value;
    if ks == [] {
      forall j | 0 <= j < e.size && j != s1.ptr
        ensures s1.mem[j] == (s1.mem[j] + Cur(s1) * Gain(ks, m, s1.ptr, e.size, j)) % e.modulus
      {
        ModSmall(s1.mem[j], e.modulus);
      }
    } else {
      var k := ks[0];
      var emit := Get(m, k) != 0 && k != 0;
      var b' := if emit then Snoc(b, Instr(UPDATE_BY_CURR, k, Get(m, k))) else b;
      var s2 := if emit then AddScaled(e, s1, k, Get(m, k)) else s1;
      assert RunBlocks(e, b', s, fuel) == Some(s2);
      UpdatesScatter(e, b', ks[1..], m, s, fuel);
      ScatterFirst(e, s1, s2, RunBlocks(e, AddUpdates(b', ks[1..], m), s, fuel).value, ks, m);
    }
  }

  lemma ScatterFirst(e: Env, s1: State, s2: State, t: State, ks: seq<int>, m: map<int, int>)
    requires ValidEnv(e) && ValidState(e, s1) && ValidState(e, s2) && ValidState(e, t) && ks != [] && NoAlias(e.size, m)
    requires s2 == if Get(m, ks[0]) != 0 && ks[0] != 0 then AddScaled(e, s1, ks[0], Get(m, ks[0])) else s1
    requires Scattered(e, s2, t, ks[1..], m)
    ensures Scattered(e, s1, t, ks, m)
  {
    var k := ks[0];
    OffsetHitsStart(s1.ptr, k, e.size);
    forall j | 0 <= j < e.size && j != s1.ptr
      ensures t.mem[j] == (s1.mem[j] + Cur(s1) * Gain(ks, m, s1.ptr, e.size, j)) % e.modulus
    {
      var g := Gain(ks[1..], m, s1.ptr, e.size, j);
      if (s1.ptr + k) % e.size == j && Get(m, k) != 0 {
        assert k != 0 by { ModSmall(s1.ptr, e.size); }
        ScaledSum(s1.mem[j], Get(m, k), g, Cur(s1), e.modulus);
      }
    }
  }

  /** The replacement of an accepted loop: scatter, then clear. */
  lemma ReplacementDistributes(e: Env, b: Blocks, ks: seq<int>, m: map<int, int>, s: State, fuel: nat)
    requires ValidEnv(e) && ValidState(e, s) && RunBlocks(e, b, s, fuel).Some? && NoAlias(e.size, m)
    ensures var r := RunBlocks(e, Snoc(AddUpdates(b, ks, m), CLEAR_CURR), s, fuel);
            r.Some? && Distributed(e, RunBlocks(e, b, s, fuel).value, r.value, ks, m)
  {
    UpdatesScatter(e, b, ks, m, s, fuel);
  }

  /** A loop whose body only updates the current cell can only end by clearing it. */
  lemma {:induction false} UpdateLoopClears(e: Env, i: Instr, s: State, fuel: nat)
    requires ValidEnv(e) && ValidState(e, s) && i.op == UPDATEVAL
    requires RunLoop(e, Snoc(Empty, i), s, fuel).Some?
    ensures RunLoop(e, Snoc(Empty, i), s, fuel).value == Put(s, 0)
    decreases fuel
  {
    if Cur(s) == 0 {
      assert s.mem[s.ptr := 0] == s.mem;
    } else {
      var s1 := Add(e, s, i.val1);
      assert RunBlocks(e, Snoc(Empty, i), s, fuel - 1) == Some(s1);
      UpdateLoopClears(e, i, s1, fuel - 1);
      assert s1.mem[s.ptr := 0] == s.mem[s.ptr := 0];
    }
  }

  /** A loop whose body only moves the pointer is the search for a zero cell. */
  lemma {:induction false} ShiftLoopSeeks(e: Env, i: Instr, s: State, fuel: nat)
    requires ValidEnv(e) && ValidState(e, s) && i.op == SHIFTPTR
    ensures RunLoop(e, Snoc(Empty, i), s, fuel) == SeekZero(e, i.val1, s, fuel)
    decreases fuel
  {
    if Cur(s) != 0 && fuel > 0 {
      assert RunBlocks(e, Snoc(Empty, i), s, fuel - 1) == Some(Shift(e, s, i.val1));
      ShiftLoopSeeks(e, i, Shift(e, s, i.val1), fuel - 1);
    }
  }
}
