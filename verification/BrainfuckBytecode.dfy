/**
 The bytecode of the Brainfuck tool, the machine that runs it, and a block-structured
 form of bytecode ("blocks") whose layout puts the jump targets back in.
 */
module BrainfuckBytecode {
  import opened Wrappers
  import opened ModArith
  import opened BrainfuckSource

  datatype Opcode = UPDATEVAL | SHIFTPTR | OUTPUT | INPUT | LSTART | LEND | CLEAR | SHIFTPTR_ZERO | UPDATE_BY_CURR

  datatype Instr = Instr(op: Opcode, val1: int, val2: int)

  const CLEAR_CURR := Instr(CLEAR, 1, 0)

  // ----- the machine -----

  function Shift(e: Env, s: State, d: int): (s': State)
    requires ValidEnv(e) && ValidState(e, s)
    ensures ValidState(e, s')
  {
    s.(ptr := CppMod(s.ptr + d, e.size))
  }

  function Add(e: Env, s: State, d: int): (s': State)
    requires ValidEnv(e) && ValidState(e, s)
    ensures ValidState(e, s')
  {
    Put(s, CppMod(Cur(s) + d, e.modulus))
  }

  function AddScaled(e: Env, s: State, shift: int, factor: int): (s': State)
    requires ValidEnv(e) && ValidState(e, s)
    ensures ValidState(e, s')
  {
    var copyTo := CppMod(s.ptr + shift, e.size);
    s.(mem := s.mem[copyTo := CppMod(s.mem[copyTo] + factor * Cur(s), e.modulus)])
  }

  predicate IsJump(op: Opcode) { op == LSTART || op == LEND }

  /** The effect of an instruction that neither jumps nor iterates. */
  function Simple(e: Env, i: Instr, s: State): (s': State)
    requires ValidEnv(e) && ValidState(e, s)
    ensures ValidState(e, s')
  {
    match i.op
    case UPDATEVAL => Add(e, s, i.val1)
    case SHIFTPTR => Shift(e, s, i.val1)
    case OUTPUT => s.(output := s.output + [Cur(s)])
    case INPUT => Put(s, e.input(s.consumed)).(consumed := s.consumed + 1)
    case CLEAR => Put(s, 0)
    case UPDATE_BY_CURR => AddScaled(e, s, i.val1, i.val2)
    case _ => s
  }

  datatype MConfig = MConfig(pos: int, st: State)

  predicate Running(code: seq<Instr>, c: MConfig) { 0 <= c.pos < |code| }

  /** One machine step. SHIFTPTR_ZERO moves once per step and stays until the cell is zero. */
  function StepMachine(e: Env, code: seq<Instr>, c: MConfig): (c': MConfig)
    requires ValidEnv(e) && ValidState(e, c.st) && Running(code, c)
    ensures ValidState(e, c'.st)
  {
    var i := code[c.pos];
    match i.op
    case LSTART => c.(pos := (if Cur(c.st) == 0 then i.val1 else c.pos) + 1)
    case LEND => c.(pos := (if Cur(c.st) == 0 then c.pos else i.val1) + 1)
    case SHIFTPTR_ZERO =>
      if Cur(c.st) == 0 then c.(pos := c.pos + 1) else c.(st := Shift(e, c.st, i.val1))
    case _ => MConfig(c.pos + 1, Simple(e, i, c.st))
  }

  function RunMachine(e: Env, code: seq<Instr>, c: MConfig, n: nat): (c': MConfig)
    requires ValidEnv(e) && ValidState(e, c.st)
    ensures ValidState(e, c'.st)
    decreases n
  {
    if n == 0 || !Running(code, c) then c
    else RunMachine(e, code, StepMachine(e, code, c), n - 1)
  }

  ghost predicate MachineHalts(e: Env, code: seq<Instr>, s: State, n: nat, t: State)
    requires ValidEnv(e) && ValidState(e, s)
  {
    var c := RunMachine(e, code, MConfig(0, s), n);
    !Running(code, c) && c.st == t
  }

  lemma {:induction false} RunMachineAdd(e: Env, code: seq<Instr>, c: MConfig, m: nat, n: nat)
    requires ValidEnv(e) && ValidState(e, c.st)
    ensures RunMachine(e, code, c, m + n) == RunMachine(e, code, RunMachine(e, code, c, m), n)
    decreases m
  {
    if m > 0 && Running(code, c) {
      RunMachineAdd(e, code, StepMachine(e, code, c), m - 1, n);
    }
  }

  lemma RunMachineZero(e: Env, code: seq<Instr>, c: MConfig)
    requires ValidEnv(e) && ValidState(e, c.st)
    ensures RunMachine(e, code, c, 0) == c
  {
  }

  lemma RunMachineOne(e: Env, code: seq<Instr>, c: MConfig)
    requires ValidEnv(e) && ValidState(e, c.st) && Running(code, c)
    ensures RunMachine(e, code, c, 1) == StepMachine(e, code, c)
  {
    assert RunMachine(e, code, c, 1) == RunMachine(e, code, StepMachine(e, code, c), 0);
  }

  // ----- the truncation done when the bytecode file is written -----

  function WriteOutInstr(e: Env, i: Instr): (r: Instr)
    requires ValidEnv(e)
  {
    if i.op == SHIFTPTR || i.op == SHIFTPTR_ZERO || i.op == UPDATE_BY_CURR then
      i.(val1 := TruncRem(i.val1, e.size))
    else if i.op == UPDATEVAL then
      i.(val1 := TruncRem(i.val1, e.modulus))
    else i
  }

  function WriteOut(e: Env, code: seq<Instr>): (r: seq<Instr>)
    requires ValidEnv(e)
    ensures |r| == |code| && forall k :: 0 <= k < |code| ==> r[k] == WriteOutInstr(e, code[k])
  {
    seq(|code|, k requires 0 <= k < |code| => WriteOutInstr(e, code[k]))
  }

  lemma WriteOutStep(e: Env, code: seq<Instr>, c: MConfig)
    requires ValidEnv(e) && ValidState(e, c.st) && Running(code, c)
    ensures StepMachine(e, WriteOut(e, code), c) == StepMachine(e, code, c)
  {
    var i := code[c.pos];
    WriteOutSimple(e, i, c.st);
    if i.op == SHIFTPTR_ZERO {
      SameShift(e, c.st, i.val1);
    }
    hide Simple;
    hide Shift;
  }

  lemma SameShift(e: Env, s: State, d: int)
    requires ValidEnv(e) && ValidState(e, s)
    ensures Shift(e, s, TruncRem(d, e.size)) == Shift(e, s, d)
  {
    TruncRemResidue(s.ptr, d, e.size);
    hide TruncRem;
  }

  lemma SameAdd(e: Env, s: State, d: int)
    requires ValidEnv(e) && ValidState(e, s)
    ensures Add(e, s, TruncRem(d, e.modulus)) == Add(e, s, d)
  {
    TruncRemResidue(Cur(s), d, e.modulus);
    hide TruncRem;
  }

  lemma SameAddScaled(e: Env, s: State, d: int, f: int)
    requires ValidEnv(e) && ValidState(e, s)
    ensures AddScaled(e, s, TruncRem(d, e.size), f) == AddScaled(e, s, d, f)
  {
    TruncRemResidue(s.ptr, d, e.size);
    hide TruncRem;
  }

  lemma WriteOutSimple(e: Env, i: Instr, s: State)
    requires ValidEnv(e) && ValidState(e, s)
    ensures Simple(e, WriteOutInstr(e, i), s) == Simple(e, i, s)
  {
    SameShift(e, s, i.val1);
    SameAdd(e, s, i.val1);
    SameAddScaled(e, s, i.val1, i.val2);
    hide Shift;
    hide Add;
    hide AddScaled;
    hide TruncRem;
  }

  /** Writing the instructions to the file does not change any run. */
  lemma {:induction false} WriteOutRun(e: Env, code: seq<Instr>, c: MConfig, n: nat)
    requires ValidEnv(e) && ValidState(e, c.st)
    ensures RunMachine(e, WriteOut(e, code), c, n) == RunMachine(e, code, c, n)
    decreases n
  {
    if n > 0 && Running(code, c) {
      WriteOutStep(e, code, c);
      WriteOutRun(e, code, StepMachine(e, code, c), n - 1);
    }
  }

  // ----- block structure -----

  /** Bytecode in the order the compiler emits it, loops still nested. */
  datatype Blocks = Empty | Snoc(init: Blocks, last: Instr) | SnocLoop(init: Blocks, body: Blocks)

  /** Only loops jump. */
  predicate Proper(b: Blocks) {
    match b
    case Empty => true
    case Snoc(init, i) => Proper(init) && !IsJump(i.op)
    case SnocLoop(init, body) => Proper(init) && Proper(body)
  }

  function Size(b: Blocks): (n: nat) {
    match b
    case Empty => 0
    case Snoc(init, _) => Size(init) + 1
    case SnocLoop(init, body) => Size(init) + 1 + Size(body) + 1
  }

  /** The flat code when the first instruction sits at position `base`. */
  function Layout(b: Blocks, base: nat): (code: seq<Instr>)
    ensures |code| == Size(b)
  {
    match b
    case Empty => []
    case Snoc(init, i) => Layout(init, base) + [i]
    case SnocLoop(init, body) =>
      var start := base + Size(init);
      Layout(init, base)
      + ([Instr(LSTART, start + 1 + Size(body), 0)] + (Layout(body, start + 1) + [Instr(LEND, start, 0)]))
  }

  /** The search of SHIFTPTR_ZERO. */
  function SeekZero(e: Env, d: int, s: State, fuel: nat): (r: Option<State>)
    requires ValidEnv(e) && ValidState(e, s)
    ensures r.Some? ==> ValidState(e, r.value)
    decreases fuel
  {
    if Cur(s) == 0 then Some(s)
    else if fuel == 0 then None
    else SeekZero(e, d, Shift(e, s, d), fuel - 1)
  }

  function RunBlocks(e: Env, b: Blocks, s: State, fuel: nat): (r: Option<State>)
    requires ValidEnv(e) && ValidState(e, s)
    ensures r.Some? ==> ValidState(e, r.value)
    decreases fuel, b
  {
    match b
    case Empty => Some(s)
    case Snoc(init, i) => (
      match RunBlocks(e, init, s, fuel)
      case None => None
      case Some(s1) => if i.op == SHIFTPTR_ZERO then SeekZero(e, i.val1, s1, fuel) else Some(Simple(e, i, s1)))
    case SnocLoop(init, body) =>
      match RunBlocks(e, init, s, fuel)
      case None => None
      case Some(s1) => RunLoop(e, body, s1, fuel)
  }

  function RunLoop(e: Env, body: Blocks, s: State, fuel: nat): (r: Option<State>)
    requires ValidEnv(e) && ValidState(e, s)
    ensures r.Some? ==> ValidState(e, r.value)
    decreases fuel, body
  {
    if Cur(s) == 0 then Some(s)
    else if fuel == 0 then None
    else
      match RunBlocks(e, body, s, fuel - 1)
      case None => None
      case Some(s1) => RunLoop(e, body, s1, fuel - 1)
  }

  lemma {:induction false} SeekZeroMonotone(e: Env, d: int, s: State, f: nat, g: nat)
    requires ValidEnv(e) && ValidState(e, s) && f <= g && SeekZero(e, d, s, f).Some?
    ensures SeekZero(e, d, s, g) == SeekZero(e, d, s, f)
    decreases f
  {
    if Cur(s) != 0 {
      SeekZeroMonotone(e, d, Shift(e, s, d), f - 1, g - 1);
    }
  }

  lemma {:induction false} RunBlocksMonotone(e: Env, b: Blocks, s: State, f: nat, g: nat)
    requires ValidEnv(e) && ValidState(e, s) && f <= g && RunBlocks(e, b, s, f).Some?
    ensures RunBlocks(e, b, s, g) == RunBlocks(e, b, s, f)
    decreases f, b
  {
    match b
    case Empty =>
    case Snoc(init, i) =>
      RunBlocksMonotone(e, init, s, f, g);
      if i.op == SHIFTPTR_ZERO {
        SeekZeroMonotone(e, i.val1, RunBlocks(e, init, s, f).value, f, g);
      }
    case SnocLoop(init, body) =>
      RunBlocksMonotone(e, init, s, f, g);
      RunLoopMonotone(e, body, RunBlocks(e, init, s, f).value, f, g);
  }

  lemma {:induction false} RunLoopMonotone(e: Env, body: Blocks, s: State, f: nat, g: nat)
    requires ValidEnv(e) && ValidState(e, s) && f <= g && RunLoop(e, body, s, f).Some?
    ensures RunLoop(e, body, s, g) == RunLoop(e, body, s, f)
    decreases f, body
  {
    hide RunBlocks;
    if Cur(s) != 0 {
      RunBlocksMonotone(e, body, s, f - 1, g - 1);
      RunLoopMonotone(e, body, RunBlocks(e, body, s, f - 1).value, f - 1, g - 1);
    }
  }

  // ----- the layout runs as the blocks do -----

  predicate Holds(code: seq<Instr>, base: nat, part: seq<Instr>) {
    base + |part| <= |code| && code[base..base + |part|] == part
  }

  lemma HoldsSplit(code: seq<Instr>, base: nat, a: seq<Instr>, b: seq<Instr>)
    requires Holds(code, base, a + b)
    ensures Holds(code, base, a) && Holds(code, base + |a|, b)
  {
    var t := code[base..base + |a + b|];
    assert code[base..base + |a|] == t[..|a|] == a;
    assert code[base + |a|..base + |a| + |b|] == t[|a|..] == b;
  }

  lemma HoldsAt(code: seq<Instr>, base: nat, i: Instr)
    requires Holds(code, base, [i])
    ensures base < |code| && code[base] == i
  {
    assert code[base] == code[base..base + 1][0];
  }

  lemma SnocLayout(b: Blocks, i: Instr, base: nat)
    ensures Layout(Snoc(b, i), base) == Layout(b, base) + [i]
  {
  }

  lemma LoopLayout(b: Blocks, body: Blocks, base: nat, start: nat, end: nat)
    requires start == base + Size(b) && end == start + 1 + Size(body)
    ensures Layout(SnocLoop(b, body), base)
         == Layout(b, base) + ([Instr(LSTART, end, 0)] + (Layout(body, start + 1) + [Instr(LEND, start, 0)]))
  {
    hide Size;
    var from := base + Size(b);
    assert Instr(LSTART, from + 1 + Size(body), 0) == Instr(LSTART, end, 0);
    assert from + 1 == start + 1 && Instr(LEND, from, 0) == Instr(LEND, start, 0);
  }

  lemma HoldsLoop(code: seq<Instr>, base: nat, init: Blocks, body: Blocks)
    requires Holds(code, base, Layout(SnocLoop(init, body), base))
    ensures Holds(code, base, Layout(init, base))
    ensures var start := base + Size(init); var end := start + 1 + Size(body);
            && end < |code|
            && code[start] == Instr(LSTART, end, 0)
            && Holds(code, start + 1, Layout(body, start + 1))
            && code[end] == Instr(LEND, start, 0)
  {
    hide Layout;
    hide Holds;
    hide Size;
    var start := base + Size(init);
    var end := start + 1 + Size(body);
    var li, lb := Layout(init, base), Layout(body, start + 1);
    var first, last := [Instr(LSTART, end, 0)], [Instr(LEND, start, 0)];
    LoopLayout(init, body, base, start, end);
    HoldsSplit(code, base, li, first + (lb + last));
    HoldsSplit(code, start, first, lb + last);
    HoldsSplit(code, start + 1, lb, last);
    HoldsAt(code, start, first[0]);
    HoldsAt(code, end, last[0]);
  }

  /** Code that holds the layout of some blocks runs from their first position to just
      past their last one, with the effect of the blocks. */
  lemma {:induction false} LayoutRuns(e: Env, code: seq<Instr>, base: nat, b: Blocks, s: State, fuel: nat) returns (n: nat)
    requires ValidEnv(e) && ValidState(e, s) && Proper(b)
    requires Holds(code, base, Layout(b, base)) && RunBlocks(e, b, s, fuel).Some?
    ensures RunMachine(e, code, MConfig(base, s), n) == MConfig(base + Size(b), RunBlocks(e, b, s, fuel).value)
    decreases fuel, b, 0
  {
    hide RunMachine;
    hide Holds;
    hide Simple;
    hide RunLoop;
    hide SeekZero;
    hide Layout;
    match b
    case Empty =>
      n := 0;
      RunMachineZero(e, code, MConfig(base, s));
    case Snoc(init, i) =>
      SnocLayout(init, i, base);
      HoldsSplit(code, base, Layout(init, base), [i]);
      HoldsAt(code, base + Size(init), i);
      var s1 := RunBlocks(e, init, s, fuel).value;
      var n1 := LayoutRuns(e, code, base, init, s, fuel);
      var n2 := InstrRuns(e, code, base + Size(init), s1, fuel);
      RunMachineAdd(e, code, MConfig(base, s), n1, n2);
      n := n1 + n2;
    case SnocLoop(init, body) =>
      HoldsLoop(code, base, init, body);
      var s1 := RunBlocks(e, init, s, fuel).value;
      var n1 := LayoutRuns(e, code, base, init, s, fuel);
      var n2 := LoopRuns(e, code, base + Size(init), body, s1, fuel);
      RunMachineAdd(e, code, MConfig(base, s), n1, n2);
      n := n1 + n2;
  }

  lemma InstrRuns(e: Env, code: seq<Instr>, pos: nat, s: State, fuel: nat) returns (n: nat)
    requires ValidEnv(e) && ValidState(e, s) && pos < |code| && !IsJump(code[pos].op)
    requires code[pos].op == SHIFTPTR_ZERO ==> SeekZero(e, code[pos].val1, s, fuel).Some?
    ensures RunMachine(e, code, MConfig(pos, s), n)
         == MConfig(pos + 1, if code[pos].op == SHIFTPTR_ZERO then SeekZero(e, code[pos].val1, s, fuel).value
                             else Simple(e, code[pos], s))
  {
    if code[pos].op == SHIFTPTR_ZERO {
      n := SeekZeroRuns(e, code, pos, s, fuel);
    } else {
      n := 1;
      RunMachineOne(e, code, MConfig(pos, s));
    }
  }

  lemma {:induction false} SeekZeroRuns(e: Env, code: seq<Instr>, pos: nat, s: State, fuel: nat) returns (n: nat)
    requires ValidEnv(e) && ValidState(e, s) && pos < |code| && code[pos].op == SHIFTPTR_ZERO
    requires SeekZero(e, code[pos].val1, s, fuel).Some?
    ensures RunMachine(e, code, MConfig(pos, s), n) == MConfig(pos + 1, SeekZero(e, code[pos].val1, s, fuel).value)
    decreases fuel
  {
    if Cur(s) == 0 {
      n := 1;
      RunMachineOne(e, code, MConfig(pos, s));
    } else {
      var n1 := SeekZeroRuns(e, code, pos, Shift(e, s, code[pos].val1), fuel - 1);
      n := 1 + n1;
    }
  }

  /** A laid-out loop entered at its LSTART leaves just past its LEND. */
  lemma {:induction false} LoopRuns(e: Env, code: seq<Instr>, start: nat, body: Blocks, s: State, fuel: nat) returns (n: nat)
    requires ValidEnv(e) && ValidState(e, s) && Proper(body)
    requires var end := start + 1 + Size(body);
             && end < |code|
             && code[start] == Instr(LSTART, end, 0)
             && Holds(code, start + 1, Layout(body, start + 1))
             && code[end] == Instr(LEND, start, 0)
    requires RunLoop(e, body, s, fuel).Some?
    ensures RunMachine(e, code, MConfig(start, s), n) == MConfig(start + Size(body) + 2, RunLoop(e, body, s, fuel).value)
    decreases fuel, body, 1
  {
    hide RunMachine;
    hide Layout;
    hide Holds;
    hide RunBlocks;
    hide Size;
    hide Proper;
    var c := MConfig(start, s);
    RunMachineOne(e, code, c);
    if Cur(s) == 0 {
      n := 1;
    } else {
      var n1 := LoopBodyRuns(e, code, start, body, s, fuel);
      RunMachineAdd(e, code, c, 1, n1);
      n := 1 + n1;
    }
  }

  /** The same, entered at the first instruction of the body with a nonzero cell: the LEND
      tests the cell and returns to the body without testing at the LSTART again. */
  lemma {:induction false} LoopBodyRuns(e: Env, code: seq<Instr>, start: nat, body: Blocks, s: State, fuel: nat) returns (n: nat)
    requires ValidEnv(e) && ValidState(e, s) && Proper(body)
    requires var end := start + 1 + Size(body);
             && end < |code|
             && code[start] == Instr(LSTART, end, 0)
             && Holds(code, start + 1, Layout(body, start + 1))
             && code[end] == Instr(LEND, start, 0)
    requires Cur(s) != 0 && RunLoop(e, body, s, fuel).Some?
    ensures RunMachine(e, code, MConfig(start + 1, s), n) == MConfig(start + Size(body) + 2, RunLoop(e, body, s, fuel).value)
    decreases fuel, body, 0
  {
    hide RunMachine;
    hide Layout;
    hide Holds;
    hide RunBlocks;
    hide Size;
    hide Proper;
    var c, end := MConfig(start + 1, s), start + 1 + Size(body);
    var s1 := RunBlocks(e, body, s, fuel - 1).value;
    var n1 := LayoutRuns(e, code, start + 1, body, s, fuel - 1);
    var c1 := MConfig(end, s1);
    RunMachineAdd(e, code, c, n1, 1);
    RunMachineOne(e, code, c1);
    if Cur(s1) == 0 {
      n := n1 + 1;
    } else {
      var n2 := LoopBodyRuns(e, code, start, body, s1, fuel - 1);
      RunMachineAdd(e, code, c, n1 + 1, n2);
      n := n1 + 1 + n2;
    }
  }
}
