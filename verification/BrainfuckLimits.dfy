/** Halting of interpreter and machine, and a run that only the bytecode finishes. */
module BrainfuckLimits {
  import opened Wrappers
  import opened ModArith
  import opened BrainfuckSource
  import opened BrainfuckBytecode
  import opened BrainfuckLoops
  import opened BrainfuckCompiler
  import opened BrainfuckCorrect

  // ----- the interpreter does everything the tree evaluation does -----

  lemma {:induction false} TreeDrivesInterp(e: Env, code: string, pos: nat, stack: seq<nat>, p: Prog, s: State, fuel: nat) returns (k: nat)
    requires ValidEnv(e) && ValidState(e, s) && WellFormed(p) && At(code, pos, Flatten(p)) && Eval(e, p, s, fuel).Some?
    ensures RunInterp(e, code, Config(pos, stack, s), k) == Config(pos + |Flatten(p)|, stack, Eval(e, p, s, fuel).value)
    decreases fuel, p, 0
  {
    hide RunInterp;
    var c0 := Config(pos, stack, s);
    match p
    case End =>
      k := 0;
      RunNothing(e, code, c0);
    case Prim(c, next) =>
      AtPrim(code, pos, c, next);
      RunStep(e, code, c0);
      k := TreeDrivesInterp(e, code, pos + 1, stack, next, Prim1(e, c, s), fuel);
      RunInterpAdd(e, code, c0, 1, k);
      k := 1 + k;
    case Loop(body, next) =>
      AtLoop(code, pos, body, next);
      var k1 := LoopDrivesInterp(e, code, pos, stack, body, next, s, fuel);
      var s1 := EvalLoop(e, body, s, fuel).value;
      k := TreeDrivesInterp(e, code, pos + 2 + |Flatten(body)|, stack, next, s1, fuel);
      RunInterpAdd(e, code, c0, k1, k);
      k := k1 + k;
  }

  lemma RunNothing(e: Env, code: string, c: Config)
    requires ValidEnv(e) && ValidState(e, c.st)
    ensures RunInterp(e, code, c, 0) == c
  {
  }

  lemma RunStep(e: Env, code: string, c: Config)
    requires ValidEnv(e) && ValidState(e, c.st) && c.pos < |code|
    ensures RunInterp(e, code, c, 1) == StepInterp(e, code, c)
  {
    RunNothing(e, code, StepInterp(e, code, c));
  }

  lemma {:induction false} LoopDrivesInterp(e: Env, code: string, pos: nat, stack: seq<nat>, body: Prog, next: Prog, s: State, fuel: nat)
    returns (k: nat)
    requires ValidEnv(e) && ValidState(e, s) && WellFormed(body) && At(code, pos, Flatten(Loop(body, next)))
    requires EvalLoop(e, body, s, fuel).Some?
    ensures RunInterp(e, code, Config(pos, stack, s), k)
         == Config(pos + 2 + |Flatten(body)|, stack, EvalLoop(e, body, s, fuel).value)
    decreases fuel, body, 1
  {
    hide RunInterp;
    var c0 := Config(pos, stack, s);
    AtLoop(code, pos, body, next);
    RunStep(e, code, c0);
    if Cur(s) == 0 {
      SkipLoop(e, code, pos, stack, body, next, s);
      k := 1;
    } else {
      var k1 := BodyDrivesInterp(e, code, pos, stack, body, next, s, fuel);
      RunInterpAdd(e, code, c0, 1, k1);
      k := 1 + k1;
    }
  }

  lemma {:induction false} BodyDrivesInterp(e: Env, code: string, pos: nat, stack: seq<nat>, body: Prog, next: Prog, s: State, fuel: nat)
    returns (k: nat)
    requires ValidEnv(e) && ValidState(e, s) && WellFormed(body) && At(code, pos, Flatten(Loop(body, next)))
    requires Cur(s) != 0 && EvalLoop(e, body, s, fuel).Some?
    ensures RunInterp(e, code, Config(pos + 1, stack + [pos], s), k)
         == Config(pos + 2 + |Flatten(body)|, stack, EvalLoop(e, body, s, fuel).value)
    decreases fuel, body, 0
  {
    hide RunInterp;
    AtLoop(code, pos, body, next);
    hide At;
    hide Flatten;
    hide FindClose;
    hide Prim1;
    hide Eval;
    var c0, s1 := Config(pos + 1, stack + [pos], s), Eval(e, body, s, fuel - 1).value;
    var k1 := TreeDrivesInterp(e, code, pos + 1, stack + [pos], body, s, fuel - 1);
    var c1 := Config(pos + 1 + |Flatten(body)|, stack + [pos], s1);
    RunInterpAdd(e, code, c0, k1, 1);
    RunStep(e, code, c1);
    StepBack(e, code, c1.pos, stack, pos, s1);
    hide StepInterp;
    if Cur(s1) == 0 {
      k := k1 + 1;
    } else {
      var k2 := BodyDrivesInterp(e, code, pos, stack, body, next, s1, fuel - 1);
      RunInterpAdd(e, code, c0, k1 + 1, k2);
      k := k1 + 1 + k2;
    }
  }

  /** The stack-driven interpreter halts in t exactly when the structured evaluation yields t. */
  lemma InterpIffEval(e: Env, p: Prog, s: State, t: State)
    requires ValidEnv(e) && ValidState(e, s) && WellFormed(p)
    ensures (exists n :: InterpHalts(e, Flatten(p), s, n, t)) <==> (exists f :: Eval(e, p, s, f) == Some(t))
  {
    if n :| InterpHalts(e, Flatten(p), s, n, t) {
      InterpComputesEval(e, p, s, n, t);
    }
    if f :| Eval(e, p, s, f) == Some(t) {
      EvalHalts(e, p, s, f);
    }
  }

  lemma EvalHalts(e: Env, p: Prog, s: State, fuel: nat)
    requires ValidEnv(e) && ValidState(e, s) && WellFormed(p) && Eval(e, p, s, fuel).Some?
    ensures exists n :: InterpHalts(e, Flatten(p), s, n, Eval(e, p, s, fuel).value)
  {
    assert At(Flatten(p), 0, Flatten(p)) by { assert Flatten(p)[0..0 + |Flatten(p)|] == Flatten(p); }
    var k := TreeDrivesInterp(e, Flatten(p), 0, [], p, s, fuel);
    assert InterpHalts(e, Flatten(p), s, k, Eval(e, p, s, fuel).value);
  }

  /** The machine is deterministic: all halting runs end in the same state. */
  lemma MachineHaltsOnce(e: Env, code: seq<Instr>, s: State, m: nat, n: nat, t: State, u: State)
    requires ValidEnv(e) && ValidState(e, s) && MachineHalts(e, code, s, m, t) && MachineHalts(e, code, s, n, u)
    ensures t == u
  {
    if m <= n {
      RunMachineAdd(e, code, MConfig(0, s), m, n - m);
    } else {
      RunMachineAdd(e, code, MConfig(0, s), n, m - n);
    }
  }

  /** What a compiled program halts in is what its blocks compute. */
  lemma MachineHaltsAsBlocks(e: Env, order: HashOrder, p: Prog, s: State, fuel: nat, m: nat, t: State)
    requires ValidEnv(e) && ValidState(e, s) && WellFormed(p)
    requires RunBlocks(e, Build(order, Empty, p), s, fuel).Some?
    requires MachineHalts(e, Compiled(e, order, Flatten(p)), s, m, t)
    ensures t == RunBlocks(e, Build(order, Empty, p), s, fuel).value
  {
    var n := CompiledHaltsAsBlocks(e, order, p, s, fuel);
    MachineHaltsOnce(e, Compiled(e, order, Flatten(p)), s, m, n, t, RunBlocks(e, Build(order, Empty, p), s, fuel).value);
  }

  lemma CompiledHaltsAsBlocks(e: Env, order: HashOrder, p: Prog, s: State, fuel: nat) returns (n: nat)
    requires ValidEnv(e) && ValidState(e, s) && WellFormed(p)
    requires RunBlocks(e, Build(order, Empty, p), s, fuel).Some?
    ensures MachineHalts(e, Compiled(e, order, Flatten(p)), s, n, RunBlocks(e, Build(order, Empty, p), s, fuel).value)
  {
    var b := Build(order, Empty, p);
    BuildProper(order, Empty, p);
    CompileProgram(order, p);
    var code := Layout(b, 0);
    assert Holds(code, 0, code);
    n := LayoutRuns(e, code, 0, b, s, fuel);
    WriteOutRun(e, code, MConfig(0, s), n);
  }

  lemma EvalLone(e: Env, body: Prog, s: State, fuel: nat)
    requires ValidEnv(e) && ValidState(e, s)
    ensures Eval(e, Loop(body, End), s, fuel) == EvalLoop(e, body, s, fuel)
  {
    if EvalLoop(e, body, s, fuel).Some? {
      assert Eval(e, End, EvalLoop(e, body, s, fuel).value, fuel) == EvalLoop(e, body, s, fuel);
    }
  }

  // ----- a run that only the bytecode finishes -----

  const SPIN := Loop(Prim('+', Prim('-', End)), End)

  lemma EvalPrim(e: Env, c: char, next: Prog, s: State, fuel: nat)
    requires ValidEnv(e) && ValidState(e, s)
    ensures Eval(e, Prim(c, next), s, fuel) == Eval(e, next, Prim1(e, c, s), fuel)
    ensures Eval(e, End, s, fuel) == Some(s)
  {
  }

  lemma {:induction false} SpinNeverEnds(e: Env, s: State, fuel: nat)
    requires ValidEnv(e) && ValidState(e, s) && Cur(s) != 0
    ensures EvalLoop(e, SPIN.body, s, fuel).None?
    decreases fuel
  {
    if fuel > 0 {
      var s0 := Prim1(e, '+', s);
      var s1 := Prim1(e, '-', s0);
      assert s1.mem == s.mem;
      EvalPrim(e, '+', Prim('-', End), s, fuel - 1);
      EvalPrim(e, '-', End, s0, fuel - 1);
      EvalPrim(e, '-', End, s1, fuel - 1);
      SpinNeverEnds(e, s1, fuel - 1);
    }
  }

  lemma SpinIsSafe(size: int)
    requires size > 0
    ensures Flatten(SPIN) == "[+-]" && WellFormed(SPIN) && Safe(size, SPIN)
  {
    assert Flatten(SPIN.body) == ['+'] + (['-'] + Flatten(End));
    var d1 := NOTHING.(to := Bump(NOTHING.to, 0, 1));
    var d2 := d1.(to := Bump(d1.to, 0, -1));
    assert Effect(d2, End) == Some(d2);
    assert Effect(d1, Prim('-', End)) == Some(d2);
    assert Effect(NOTHING, SPIN.body) == Some(d2);
    assert Safe(size, End) && Safe(size, Prim('-', End)) && Safe(size, SPIN.body);
  }

  lemma SpinCompilesToClear(order: HashOrder)
    ensures Build(order, Empty, SPIN) == Snoc(Empty, CLEAR_CURR)
  {
    var b1, b2 := Snoc(Empty, Instr(UPDATEVAL, 1, 0)), Snoc(Empty, Instr(UPDATEVAL, 0, 0));
    assert PrimBlocks(Empty, '+') == b1 && PrimBlocks(b1, '-') == b2;
    assert Build(order, b2, End) == b2;
    assert Build(order, b1, Prim('-', End)) == b2;
    assert Build(order, Empty, SPIN.body) == b2;
    assert CloseBlocks(order, Empty, b2) == Snoc(Empty, CLEAR_CURR);
  }

  /** "[+-]" on a nonzero cell: the interpreter loops for ever, the bytecode clears the cell and stops. */
  lemma OnlyBytecodeHalts(e: Env, order: HashOrder, s: State)
    requires ValidEnv(e) && ValidState(e, s) && Cur(s) != 0
    ensures Flatten(SPIN) == "[+-]" && WellFormed(SPIN) && Safe(e.size, SPIN)
    ensures !exists n, t :: InterpHalts(e, Flatten(SPIN), s, n, t)
    ensures exists m :: MachineHalts(e, Compiled(e, order, Flatten(SPIN)), s, m, Put(s, 0))
  {
    SpinIsSafe(e.size);
    forall n, t ensures !InterpHalts(e, Flatten(SPIN), s, n, t) {
      if InterpHalts(e, Flatten(SPIN), s, n, t) {
        InterpComputesEval(e, SPIN, s, n, t);
        SpinNeverEnds(e, s, n);
      }
    }
    SpinCompilesToClear(order);
    assert RunBlocks(e, Empty, s, 0) == Some(s);
    assert RunBlocks(e, Snoc(Empty, CLEAR_CURR), s, 0) == Some(Put(s, 0));
    var m := CompiledHaltsAsBlocks(e, order, SPIN, s, 0);
  }

  lemma DistEmpty()
    ensures DistBlocks(Empty) == Some(Dist(0, map[]))
  {
  }
}
