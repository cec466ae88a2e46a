/** From the bytecode back to the source: when a halting machine run means a halting interpreter run. */
module BrainfuckReflect {
  import opened Wrappers
  import opened ModArith
  import opened BrainfuckSource
  import opened BrainfuckBytecode
  import opened BrainfuckLoops
  import opened BrainfuckCompiler
  import opened BrainfuckCorrect
  import opened BrainfuckLimits

  // ----- a halting machine run goes through the blocks -----

  ghost predicate Halts(e: Env, code: seq<Instr>, c: MConfig, n: nat)
    requires ValidEnv(e) && ValidState(e, c.st)
  {
    !Running(code, RunMachine(e, code, c, n))
  }

  lemma HaltsNext(e: Env, code: seq<Instr>, c: MConfig, n: nat)
    requires ValidEnv(e) && ValidState(e, c.st) && Running(code, c) && Halts(e, code, c, n)
    ensures n > 0 && Halts(e, code, StepMachine(e, code, c), n - 1)
  {
    hide StepMachine;
  }

  lemma HaltsAfter(e: Env, code: seq<Instr>, c: MConfig, k: nat, n: nat)
    requires ValidEnv(e) && ValidState(e, c.st) && Halts(e, code, c, n) && k <= n
    ensures Halts(e, code, RunMachine(e, code, c, k), n - k)
  {
    hide RunMachine;
    RunMachineAdd(e, code, c, k, n - k);
  }

  /** One step and then k. */
  lemma StepThen(e: Env, code: seq<Instr>, c: MConfig, k: nat)
    requires ValidEnv(e) && ValidState(e, c.st) && Running(code, c)
    ensures RunMachine(e, code, c, 1 + k) == RunMachine(e, code, StepMachine(e, code, c), k)
  {
    hide StepMachine;
  }

  lemma {:induction false} SeekFollows(e: Env, code: seq<Instr>, pos: nat, s: State, n: nat) returns (k: nat)
    requires ValidEnv(e) && ValidState(e, s) && pos < |code| && code[pos].op == SHIFTPTR_ZERO
    requires Halts(e, code, MConfig(pos, s), n)
    ensures 0 < k <= n && SeekZero(e, code[pos].val1, s, n).Some?
    ensures RunMachine(e, code, MConfig(pos, s), k) == MConfig(pos + 1, SeekZero(e, code[pos].val1, s, n).value)
    decreases n
  {
    hide RunMachine;
    var c := MConfig(pos, s);
    HaltsNext(e, code, c, n);
    hide Halts;
    if Cur(s) == 0 {
      k := 1;
      RunMachineOne(e, code, c);
    } else {
      var k1 := SeekFollows(e, code, pos, Shift(e, s, code[pos].val1), n - 1);
      StepThen(e, code, c, k1);
      k := 1 + k1;
    }
  }

  /** A halting run from the first position of laid-out blocks reaches the position after them, in the
      state the blocks compute. */
  lemma {:induction false} LayoutFollows(e: Env, code: seq<Instr>, base: nat, b: Blocks, s: State, n: nat)
    returns (k: nat, f: nat)
    requires ValidEnv(e) && ValidState(e, s) && Proper(b)
    requires Holds(code, base, Layout(b, base)) && Halts(e, code, MConfig(base, s), n)
    ensures k <= n && RunBlocks(e, b, s, f).Some?
    ensures RunMachine(e, code, MConfig(base, s), k) == MConfig(base + Size(b), RunBlocks(e, b, s, f).value)
    decreases n, b, 0
  {
    hide RunMachine;
    hide Holds;
    hide Halts;
    hide Layout;
    hide Size;
    hide RunBlocks;
    hide RunLoop;
    hide Proper;
    match b
    case Empty =>
      k, f := 0, 0;
      RunMachineZero(e, code, MConfig(base, s));
      EmptyRuns(e, s);
    case Snoc(init, i) =>
      SnocParts(code, base, init, i);
      var k1, f1 := LayoutFollows(e, code, base, init, s, n);
      k, f := SnocFollows(e, code, base, init, i, s, n, k1, f1);
    case SnocLoop(init, body) =>
      SnocLoopParts(code, base, init, body);
      var k1, f1 := LayoutFollows(e, code, base, init, s, n);
      var s1, start := RunBlocks(e, init, s, f1).value, base + Size(init);
      HaltsAfter(e, code, MConfig(base, s), k1, n);
      var k2, f2 := LoopFollows(e, code, start, body, s1, n - k1);
      RunMachineAdd(e, code, MConfig(base, s), k1, k2);
      LoopAppends(e, init, body, s, f1, f2);
      k, f := k1 + k2, Max(f1, f2);
  }

  lemma EmptyRuns(e: Env, s: State)
    requires ValidEnv(e) && ValidState(e, s)
    ensures RunBlocks(e, Empty, s, 0) == Some(s) && Size(Empty) == 0
  {
  }

  lemma SnocParts(code: seq<Instr>, base: nat, init: Blocks, i: Instr)
    requires Proper(Snoc(init, i)) && Holds(code, base, Layout(Snoc(init, i), base))
    ensures Proper(init) && !IsJump(i.op) && Size(Snoc(init, i)) == Size(init) + 1
    ensures Holds(code, base, Layout(init, base)) && base + Size(init) < |code| && code[base + Size(init)] == i
  {
    assert Layout(Snoc(init, i), base) == Layout(init, base) + [i];
    hide Layout;
    hide Holds;
    HoldsSplit(code, base, Layout(init, base), [i]);
    HoldsAt(code, base + Size(init), i);
  }

  lemma SnocLoopParts(code: seq<Instr>, base: nat, init: Blocks, body: Blocks)
    requires Proper(SnocLoop(init, body)) && Holds(code, base, Layout(SnocLoop(init, body), base))
    ensures Proper(init) && Proper(body) && Size(SnocLoop(init, body)) == Size(init) + Size(body) + 2
    ensures Holds(code, base, Layout(init, base)) && LoopAt(code, base + Size(init), body)
  {
    hide Layout;
    hide Holds;
    HoldsLoop(code, base, init, body);
  }

  lemma LoopAppends(e: Env, init: Blocks, body: Blocks, s: State, f: nat, g: nat)
    requires ValidEnv(e) && ValidState(e, s) && RunBlocks(e, init, s, f).Some?
    requires RunLoop(e, body, RunBlocks(e, init, s, f).value, g).Some?
    ensures RunBlocks(e, SnocLoop(init, body), s, Max(f, g)) == RunLoop(e, body, RunBlocks(e, init, s, f).value, g)
  {
    RunBlocksMonotone(e, init, s, f, Max(f, g));
    RunLoopMonotone(e, body, RunBlocks(e, init, s, f).value, g, Max(f, g));
  }

  lemma SnocFollows(e: Env, code: seq<Instr>, base: nat, init: Blocks, i: Instr, s: State, n: nat, k1: nat, f1: nat)
    returns (k: nat, f: nat)
    requires ValidEnv(e) && ValidState(e, s) && !IsJump(i.op) && k1 <= n && RunBlocks(e, init, s, f1).Some?
    requires base + Size(init) < |code| && code[base + Size(init)] == i && Halts(e, code, MConfig(base, s), n)
    requires RunMachine(e, code, MConfig(base, s), k1) == MConfig(base + Size(init), RunBlocks(e, init, s, f1).value)
    ensures k <= n && RunBlocks(e, Snoc(init, i), s, f).Some?
    ensures RunMachine(e, code, MConfig(base, s), k)
         == MConfig(base + Size(init) + 1, RunBlocks(e, Snoc(init, i), s, f).value)
  {
    hide RunMachine;
    hide Size;
    var s1, pos := RunBlocks(e, init, s, f1).value, base + Size(init);
    HaltsAfter(e, code, MConfig(base, s), k1, n);
    if i.op == SHIFTPTR_ZERO {
      var k2 := SeekFollows(e, code, pos, s1, n - k1);
      RunMachineAdd(e, code, MConfig(base, s), k1, k2);
      f := Max(f1, n - k1);
      RunBlocksMonotone(e, init, s, f1, f);
      SeekZeroMonotone(e, i.val1, s1, n - k1, f);
      k := k1 + k2;
    } else {
      HaltsNext(e, code, MConfig(pos, s1), n - k1);
      RunMachineOne(e, code, MConfig(pos, s1));
      RunMachineAdd(e, code, MConfig(base, s), k1, 1);
      k, f := k1 + 1, f1;
    }
  }

  ghost predicate LoopAt(code: seq<Instr>, start: nat, body: Blocks) {
    var end := start + 1 + Size(body);
    && end < |code|
    && code[start] == Instr(LSTART, end, 0)
    && Holds(code, start + 1, Layout(body, start + 1))
    && code[end] == Instr(LEND, start, 0)
  }

  lemma {:induction false} LoopFollows(e: Env, code: seq<Instr>, start: nat, body: Blocks, s: State, n: nat)
    returns (k: nat, f: nat)
    requires ValidEnv(e) && ValidState(e, s) && Proper(body) && LoopAt(code, start, body)
    requires Halts(e, code, MConfig(start, s), n)
    ensures k <= n && RunLoop(e, body, s, f).Some?
    ensures RunMachine(e, code, MConfig(start, s), k) == MConfig(start + Size(body) + 2, RunLoop(e, body, s, f).value)
    decreases n, body, 2
  {
    hide RunMachine;
    hide Layout;
    hide Holds;
    hide Size;
    hide Proper;
    hide RunBlocks;
    var c := MConfig(start, s);
    HaltsNext(e, code, c, n);
    hide Halts;
    if Cur(s) == 0 {
      RunMachineOne(e, code, c);
      k, f := 1, 0;
    } else {
      var k1, f1 := LoopBodyFollows(e, code, start, body, s, n - 1);
      StepThen(e, code, c, k1);
      k, f := 1 + k1, f1;
    }
  }

  /** The same, entered at the first instruction of the body with a nonzero cell. */
  lemma {:induction false} LoopBodyFollows(e: Env, code: seq<Instr>, start: nat, body: Blocks, s: State, n: nat)
    returns (k: nat, f: nat)
    requires ValidEnv(e) && ValidState(e, s) && Proper(body) && LoopAt(code, start, body)
    requires Cur(s) != 0 && Halts(e, code, MConfig(start + 1, s), n)
    ensures k <= n && RunLoop(e, body, s, f).Some?
    ensures RunMachine(e, code, MConfig(start + 1, s), k) == MConfig(start + Size(body) + 2, RunLoop(e, body, s, f).value)
    decreases n, body, 1
  {
    hide RunMachine;
    hide Layout;
    hide Holds;
    hide Size;
    hide Proper;
    hide RunBlocks;
    hide Halts;
    var c, end := MConfig(start + 1, s), start + 1 + Size(body);
    var k1, f1 := LayoutFollows(e, code, start + 1, body, s, n);
    var s1 := RunBlocks(e, body, s, f1).value;
    var c1 := MConfig(end, s1);
    HaltsAfter(e, code, c, k1, n);
    HaltsNext(e, code, c1, n - k1);
    RunMachineAdd(e, code, c, k1, 1);
    RunMachineOne(e, code, c1);
    if Cur(s1) == 0 {
      k, f := k1 + 1, f1 + 1;
    } else {
      var k2, f2 := LoopBodyFollows(e, code, start, body, s1, n - k1 - 1);
      RunMachineAdd(e, code, c, k1 + 1, k2);
      RunBlocksMonotone(e, body, s, f1, Max(f1, f2));
      RunLoopMonotone(e, body, s1, f2, Max(f1, f2));
      k, f := k1 + 1 + k2, Max(f1, f2) + 1;
    }
  }

  /** What the compiled bytecode halts in, the blocks compute. */
  lemma MachineReflects(e: Env, order: HashOrder, p: Prog, s: State, n: nat, t: State) returns (f: nat)
    requires ValidEnv(e) && ValidState(e, s) && WellFormed(p)
    requires MachineHalts(e, Compiled(e, order, Flatten(p)), s, n, t)
    ensures RunBlocks(e, Build(order, Empty, p), s, f) == Some(t)
  {
    var b := Build(order, Empty, p);
    BuildProper(order, Empty, p);
    CompileProgram(order, p);
    var code := Layout(b, 0);
    WriteOutRun(e, code, MConfig(0, s), n);
    assert Holds(code, 0, code);
    var k;
    k, f := LayoutFollows(e, code, 0, b, s, n);
    MachineHaltsAsBlocks(e, order, p, s, f, n, t);
  }
}
