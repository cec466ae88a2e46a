/** The compiled bytecode computes what the interpreter computes, exactly when the two agree on the cell modulus. */
module BrainfuckCorrect {
  import opened Wrappers
  import opened ModArith
  import opened BrainfuckSource
  import opened BrainfuckBytecode
  import opened BrainfuckLoops
  import opened BrainfuckCompiler

  // ----- the condition on distribution loops, read off the program text -----

  function CharEffect(d: Dist, c: char): (r: Option<Dist>) {
    match c
    case '+' => Some(d.(to := Bump(d.to, d.shift, 1)))
    case '-' => Some(d.(to := Bump(d.to, d.shift, -1)))
    case '>' => Some(d.(shift := d.shift + 1))
    case '<' => Some(d.(shift := d.shift - 1))
    case '.' => None
    case ',' => None
    case _ => Some(d)
  }

  /** Pointer movement and cell changes of a loop-free, I/O-free text, continuing from d. */
  function Effect(d: Dist, p: Prog): (r: Option<Dist>)
    decreases p
  {
    match p
    case End => Some(d)
    case Prim(c, next) => (
      match CharEffect(d, c)
      case None => None
      case Some(d1) => Effect(d1, next))
    case Loop(_, _) => None
  }

  const NOTHING := Dist(0, map[])

  /** A loop the compiler would distribute does not reach its start cell the long way round the tape. */
  predicate LoopSafe(size: int, body: Prog)
    requires size > 0
  {
    var d := Effect(NOTHING, body);
    d.Some? && Accepts(d.value) ==> NoAlias(size, d.value.to)
  }

  predicate Safe(size: int, p: Prog)
    requires size > 0
  {
    match p
    case End => true
    case Prim(_, next) => Safe(size, next)
    case Loop(body, next) => LoopSafe(size, body) && Safe(size, body) && Safe(size, next)
  }

  predicate Within(d: Dist, bound: nat) {
    0 <= d.shift + bound <= 2 * bound && forall k :: k in d.to ==> 0 <= k + bound <= 2 * bound
  }

  lemma {:induction false} EffectReach(d: Dist, p: Prog, bound: nat)
    requires Within(d, bound) && Effect(d, p).Some?
    ensures Within(Effect(d, p).value, bound + |Flatten(p)|)
    decreases p
  {
    if p.Prim? {
      EffectReach(CharEffect(d, p.c).value, p.next, bound + 1);
    }
  }

  /** Every program no longer than the tape satisfies the condition. */
  lemma {:induction false} ShortProgramsAreSafe(size: int, p: Prog)
    requires size > 0 && |Flatten(p)| <= size
    ensures Safe(size, p)
    decreases p
  {
    match p
    case End =>
    case Prim(_, next) => ShortProgramsAreSafe(size, next);
    case Loop(body, next) =>
      ShortProgramsAreSafe(size, body);
      ShortProgramsAreSafe(size, next);
      if Effect(NOTHING, body).Some? {
        EffectReach(NOTHING, body, 0);
        var m := Effect(NOTHING, body).value.to;
        forall k | k in m && k != 0 ensures k % size != 0 {
          if k > 0 {
            ModSmall(k, size);
          } else {
            ModUnique(k, size, -1, k + size);
          }
        }
      }
  }

  lemma BumpTwice(m: map<int, int>, k: int, v: int, w: int)
    ensures Bump(Bump(m, k, v), k, w) == Bump(m, k, v + w)
  {
  }

  lemma EffectOfEmit(b: Blocks, op: Opcode, delta: int)
    requires op == UPDATEVAL || op == SHIFTPTR
    ensures DistBlocks(EmitBlocks(b, op, delta))
         == if DistBlocks(b).None? then None else DistStep(DistBlocks(b).value, Instr(op, delta, 0))
  {
    if b.Snoc? && b.last.op == op && DistBlocks(b.init).Some? {
      var d := DistBlocks(b.init).value;
      BumpTwice(d.to, d.shift, b.last.val1, delta);
    }
  }

  lemma EffectOfPrim(b: Blocks, c: char)
    ensures DistBlocks(PrimBlocks(b, c))
         == if DistBlocks(b).None? then None else CharEffect(DistBlocks(b).value, c)
  {
    if c == '+' || c == '-' {
      EffectOfEmit(b, UPDATEVAL, if c == '+' then 1 else -1);
    } else if c == '>' || c == '<' {
      EffectOfEmit(b, SHIFTPTR, if c == '>' then 1 else -1);
    }
  }

  /** Folding runs does not change what the analysis of a loop body sees. */
  lemma {:induction false} EffectOfBuild(order: HashOrder, b: Blocks, p: Prog)
    ensures DistBlocks(Build(order, b, p))
         == if DistBlocks(b).None? then None else Effect(DistBlocks(b).value, p)
    decreases p
  {
    match p
    case End =>
    case Prim(c, next) =>
      EffectOfPrim(b, c);
      EffectOfBuild(order, PrimBlocks(b, c), next);
    case Loop(body, next) =>
      EffectOfBuild(order, CloseBlocks(order, b, Build(order, Empty, body)), next);
  }

  // ----- each compilation step preserves meaning -----

  lemma PrimIsAdd(e: Env, s: State)
    requires ValidEnv(e) && ValidState(e, s)
    ensures Prim1(e, '+', s) == Add(e, s, 1) && Prim1(e, '-', s) == Add(e, s, -1)
  {
    var v, m := Cur(s), e.modulus;
    if v == m - 1 { ModUnique(v + 1, m, 1, 0); } else { ModSmall(v + 1, m); }
    if v == 0 { ModUnique(v - 1, m, -1, m - 1); } else { ModSmall(v - 1, m); }
  }

  lemma PrimIsShift(e: Env, s: State)
    requires ValidEnv(e) && ValidState(e, s)
    ensures Prim1(e, '>', s) == Shift(e, s, 1) && Prim1(e, '<', s) == Shift(e, s, -1)
  {
    var v, m := s.ptr, e.size;
    if v == m - 1 { ModUnique(v + 1, m, 1, 0); } else { ModSmall(v + 1, m); }
    if v == 0 { ModUnique(v - 1, m, -1, m - 1); } else { ModSmall(v - 1, m); }
  }

  lemma AddTwice(e: Env, s: State, a: int, b: int)
    requires ValidEnv(e) && ValidState(e, s)
    ensures Add(e, Add(e, s, a), b) == Add(e, s, a + b)
    ensures Shift(e, Shift(e, s, a), b) == Shift(e, s, a + b)
  {
    ModAdd(Cur(s) + a, b, e.modulus);
    ModAdd(s.ptr + a, b, e.size);
    assert Cur(s) + a + b == Cur(s) + (a + b) && s.ptr + a + b == s.ptr + (a + b);
  }

  lemma EmitPreserves(e: Env, b: Blocks, s: State, op: Opcode, delta: int, fuel: nat)
    requires ValidEnv(e) && ValidState(e, s) && (op == UPDATEVAL || op == SHIFTPTR)
    requires RunBlocks(e, b, s, fuel).Some?
    ensures RunBlocks(e, EmitBlocks(b, op, delta), s, fuel)
         == Some(Simple(e, Instr(op, delta, 0), RunBlocks(e, b, s, fuel).value))
  {
    hide RunBlocks;
    hide Simple;
    if b.Snoc? && b.last.op == op {
      RunSnoc(e, b.init, s, b.last, fuel);
      RunSnoc(e, b.init, s, b.last.(val1 := b.last.val1 + delta), fuel);
      SimpleTwice(e, RunBlocks(e, b.init, s, fuel).value, b.last, delta);
    } else {
      RunSnoc(e, b, s, Instr(op, delta, 0), fuel);
    }
  }

  lemma RunSnoc(e: Env, b: Blocks, s: State, i: Instr, fuel: nat)
    requires ValidEnv(e) && ValidState(e, s) && i.op != SHIFTPTR_ZERO
    ensures RunBlocks(e, b, s, fuel).Some? <==> RunBlocks(e, Snoc(b, i), s, fuel).Some?
    ensures RunBlocks(e, b, s, fuel).Some? ==> RunBlocks(e, Snoc(b, i), s, fuel).value == Simple(e, i, RunBlocks(e, b, s, fuel).value)
  {
    hide Simple;
  }

  lemma SimpleTwice(e: Env, s: State, i: Instr, delta: int)
    requires ValidEnv(e) && ValidState(e, s) && (i.op == UPDATEVAL || i.op == SHIFTPTR)
    ensures Simple(e, Instr(i.op, delta, 0), Simple(e, i, s)) == Simple(e, i.(val1 := i.val1 + delta), s)
  {
    AddTwice(e, s, i.val1, delta);
    hide Add;
    hide Shift;
  }

  lemma PrimPreserves(e: Env, b: Blocks, s: State, c: char, fuel: nat)
    requires ValidEnv(e) && ValidState(e, s) && RunBlocks(e, b, s, fuel).Some?
    ensures RunBlocks(e, PrimBlocks(b, c), s, fuel) == Some(Prim1(e, c, RunBlocks(e, b, s, fuel).value))
  {
    var s1 := RunBlocks(e, b, s, fuel).value;
    if c == '+' || c == '-' {
      PrimIsAdd(e, s1);
      EmitPreserves(e, b, s, UPDATEVAL, if c == '+' then 1 else -1, fuel);
    } else if c == '>' || c == '<' {
      PrimIsShift(e, s1);
      EmitPreserves(e, b, s, SHIFTPTR, if c == '>' then 1 else -1, fuel);
    }
  }

  /** Closing a loop, in any of its four forms, appends the meaning of the loop. */
  lemma ClosePreserves(e: Env, order: HashOrder, b: Blocks, body: Blocks, s: State, fuel: nat)
    requires ValidEnv(e) && ValidState(e, s) && ValidOrder(order)
    requires DistBlocks(body).Some? && Accepts(DistBlocks(body).value) ==> NoAlias(e.size, DistBlocks(body).value.to)
    requires RunBlocks(e, b, s, fuel).Some? && RunLoop(e, body, RunBlocks(e, b, s, fuel).value, fuel).Some?
    ensures RunBlocks(e, CloseBlocks(order, b, body), s, fuel) == RunLoop(e, body, RunBlocks(e, b, s, fuel).value, fuel)
  {
    var s1 := RunBlocks(e, b, s, fuel).value;
    if body.Snoc? && body.init.Empty? && body.last.op == UPDATEVAL {
      UpdateLoopClears(e, body.last, s1, fuel);
    } else if body.Snoc? && body.init.Empty? && body.last.op == SHIFTPTR {
      ShiftLoopSeeks(e, body.last, s1, fuel);
    } else if DistBlocks(body).Some? && Accepts(DistBlocks(body).value) {
      DistOfLayout(body, 0);
      assert Enumerates(order, Layout(body, 0));
      DistributionPreserves(e, order(Layout(body, 0)), b, body, s, fuel);
    }
  }

  lemma DistributionPreserves(e: Env, ks: seq<int>, b: Blocks, body: Blocks, s: State, fuel: nat)
    requires ValidEnv(e) && ValidState(e, s) && NoDup(ks)
    requires DistBlocks(body).Some? && Accepts(DistBlocks(body).value) && NoAlias(e.size, DistBlocks(body).value.to)
    requires forall k :: k in ks <==> k in DistBlocks(body).value.to
    requires RunBlocks(e, b, s, fuel).Some? && RunLoop(e, body, RunBlocks(e, b, s, fuel).value, fuel).Some?
    ensures RunBlocks(e, Snoc(AddUpdates(b, ks, DistBlocks(body).value.to), CLEAR_CURR), s, fuel)
         == RunLoop(e, body, RunBlocks(e, b, s, fuel).value, fuel)
  {
    var s1, m := RunBlocks(e, b, s, fuel).value, DistBlocks(body).value.to;
    AcceptedLoopDistributes(e, body, s1, fuel, ks);
    ReplacementDistributes(e, b, ks, m, s, fuel);
    DistributedUnique(e, s1, RunLoop(e, body, s1, fuel).value,
                      RunBlocks(e, Snoc(AddUpdates(b, ks, m), CLEAR_CURR), s, fuel).value, ks, m);
  }

  function Max(a: nat, b: nat): (m: nat) { if a < b then b else a }

  /** Blocks built from a tree do what the blocks so far do, then what the tree does. */
  lemma {:induction false} BuildPreserves(e: Env, order: HashOrder, b: Blocks, p: Prog, s: State, f: nat, g: nat) returns (h: nat)
    requires ValidEnv(e) && ValidState(e, s) && ValidOrder(order) && Safe(e.size, p)
    requires RunBlocks(e, b, s, f).Some? && Eval(e, p, RunBlocks(e, b, s, f).value, g).Some?
    ensures RunBlocks(e, Build(order, b, p), s, h) == Eval(e, p, RunBlocks(e, b, s, f).value, g)
    decreases g, p, 0
  {
    var s1 := RunBlocks(e, b, s, f).value;
    match p
    case End =>
      h := f;
    case Prim(c, next) =>
      PrimPreserves(e, b, s, c, f);
      h := BuildPreserves(e, order, PrimBlocks(b, c), next, s, f, g);
    case Loop(body, next) =>
      var bb := Build(order, Empty, body);
      var h1 := BuildLoopPreserves(e, order, body, s1, g);
      var m := Max(f, h1);
      RunBlocksMonotone(e, b, s, f, m);
      RunLoopMonotone(e, bb, s1, h1, m);
      EffectOfBuild(order, Empty, body);
      ClosePreserves(e, order, b, bb, s, m);
      h := BuildPreserves(e, order, CloseBlocks(order, b, bb), next, s, m, g);
  }

  lemma {:induction false} BuildLoopPreserves(e: Env, order: HashOrder, body: Prog, s: State, g: nat) returns (h: nat)
    requires ValidEnv(e) && ValidState(e, s) && ValidOrder(order) && Safe(e.size, body)
    requires EvalLoop(e, body, s, g).Some?
    ensures RunLoop(e, Build(order, Empty, body), s, h) == EvalLoop(e, body, s, g)
    decreases g, body, 1
  {
    if Cur(s) == 0 {
      h := 0;
    } else {
      var bb := Build(order, Empty, body);
      var s1 := Eval(e, body, s, g - 1).value;
      var h1 := BuildPreserves(e, order, Empty, body, s, 0, g - 1);
      var h2 := BuildLoopPreserves(e, order, body, s1, g - 1);
      RunBlocksMonotone(e, bb, s, h1, Max(h1, h2));
      RunLoopMonotone(e, bb, s1, h2, Max(h1, h2));
      h := Max(h1, h2) + 1;
    }
  }

  // ----- compiler correctness -----

  /** The bytecode file that compiling `code` writes for a machine with environment e. */
  function Compiled(e: Env, order: HashOrder, code: string): (r: seq<Instr>)
    requires ValidEnv(e)
  {
    WriteOut(e, Compile(order, code))
  }

  /** If the interpreter stops, the compiled bytecode stops, with the same memory, pointer,
      input position and output. */
  lemma CompilerCorrect(e: Env, order: HashOrder, p: Prog, s: State, n: nat, t: State) returns (m: nat)
    requires ValidEnv(e) && ValidState(e, s) && ValidOrder(order) && WellFormed(p) && Safe(e.size, p)
    requires InterpHalts(e, Flatten(p), s, n, t)
    ensures MachineHalts(e, Compiled(e, order, Flatten(p)), s, m, t)
  {
    InterpComputesEval(e, p, s, n, t);
    var b := Build(order, Empty, p);
    var h := BuildPreserves(e, order, Empty, p, s, 0, n);
    BuildProper(order, Empty, p);
    CompileProgram(order, p);
    var code := Layout(b, 0);
    assert Holds(code, 0, code);
    m := LayoutRuns(e, code, 0, b, s, h);
    WriteOutRun(e, code, MConfig(0, s), m);
  }

  /** Whatever the interpreter run of `code` ends in, the bytecode run ends in too. */
  ghost predicate Agrees(ei: Env, eb: Env, order: HashOrder, code: string, s: State)
    requires ValidEnv(ei) && ValidEnv(eb) && ValidState(ei, s) && ValidState(eb, s)
  {
    forall n, t :: InterpHalts(ei, code, s, n, t) ==> exists m :: MachineHalts(eb, Compiled(eb, order, code), s, m, t)
  }

  ghost predicate AgreesOnAll(ei: Env, eb: Env, order: HashOrder)
    requires ValidEnv(ei) && ValidEnv(eb)
  {
    forall p, s | WellFormed(p) && Safe(eb.size, p) && ValidState(ei, s) && ValidState(eb, s)
      :: Agrees(ei, eb, order, Flatten(p), s)
  }

  /** Interpreter and bytecode machine agree on all programs exactly when they wrap cells at
      the same value. As shipped they do not: the interpreter wraps at 256, the machine at 255. */
  lemma AgreeIffSameModulus(ei: Env, eb: Env, order: HashOrder)
    requires ValidEnv(ei) && ValidEnv(eb) && ei.size == eb.size && ei.input == eb.input && ValidOrder(order)
    ensures AgreesOnAll(ei, eb, order) <==> ei.modulus == eb.modulus
  {
    if ei.modulus == eb.modulus {
      forall p, s | WellFormed(p) && Safe(eb.size, p) && ValidState(ei, s) && ValidState(eb, s)
        ensures Agrees(ei, eb, order, Flatten(p), s)
      {
        forall n, t | InterpHalts(ei, Flatten(p), s, n, t)
          ensures exists m :: MachineHalts(eb, Compiled(eb, order, Flatten(p)), s, m, t)
        {
          var m := CompilerCorrect(ei, order, p, s, n, t);
        }
      }
    } else {
      DecrementDisagrees(ei, eb, order);
    }
  }

  /** The one-character program "-" already tells different moduli apart. */
  lemma DecrementDisagrees(ei: Env, eb: Env, order: HashOrder)
    requires ValidEnv(ei) && ValidEnv(eb) && ei.size == eb.size && ei.modulus != eb.modulus
    ensures !AgreesOnAll(ei, eb, order)
  {
    var p := Prim('-', End);
    var s := State(seq(ei.size, _ => 0), 0, 0, []);
    var t := Prim1(ei, '-', s);
    assert Flatten(p) == "-";
    InterpretDecrement(ei, s);
    forall m ensures !MachineHalts(eb, Compiled(eb, order, "-"), s, m, t) {
      ExecuteDecrement(eb, order, s, m);
      assert t.mem[0] == ei.modulus - 1;
    }
    assert !Agrees(ei, eb, order, "-", s);
    assert Safe(eb.size, p) && WellFormed(p) && ValidState(ei, s) && ValidState(eb, s);
  }

  lemma InterpretDecrement(e: Env, s: State)
    requires ValidEnv(e) && ValidState(e, s)
    ensures InterpHalts(e, "-", s, 1, Prim1(e, '-', s))
  {
    var c := Config(0, [], s);
    assert StepInterp(e, "-", c) == Config(1, [], Prim1(e, '-', s));
    assert RunInterp(e, "-", c, 1) == RunInterp(e, "-", StepInterp(e, "-", c), 0);
  }

  lemma ExecuteDecrement(e: Env, order: HashOrder, s: State, m: nat)
    requires ValidEnv(e) && ValidState(e, s) && s.ptr == 0 && Cur(s) == 0
    ensures forall t :: MachineHalts(e, Compiled(e, order, "-"), s, m, t) ==> t.mem[0] == e.modulus - 1
  {
    var i := Instr(UPDATEVAL, -1, 0);
    CompileSingle(order, Compiling([], []), '-');
    assert Compile(order, "-") == [i];
    WriteOutRun(e, [i], MConfig(0, s), m);
    OneInstrRun(e, i, s, m);
    PrimIsAdd(e, s);
  }

  lemma OneInstrRun(e: Env, i: Instr, s: State, m: nat)
    requires ValidEnv(e) && ValidState(e, s) && i.op == UPDATEVAL
    ensures var c := RunMachine(e, [i], MConfig(0, s), m);
            Running([i], c) || c.st == Add(e, s, i.val1)
  {
    if m > 0 {
      var c := MConfig(1, Add(e, s, i.val1));
      assert StepMachine(e, [i], MConfig(0, s)) == c;
      assert RunMachine(e, [i], c, m - 1) == c;
    }
  }
}
