/** The Brainfuck tool itself: tape and pointer updated in place, explicit loop stacks, code patched in place. */
module BrainfuckTool {
  import opened Wrappers
  import opened ModArith
  import opened BrainfuckSource
  import opened BrainfuckBytecode
  import opened BrainfuckLoops
  import opened BrainfuckCompiler
  import opened BrainfuckCorrect

  // ----- on validated code the interpreter never pops an empty stack or scans off the end -----

  /** The text still to run closes exactly the loops on the stack, and so does the text after each of them. */
  predicate StackFits(code: string, pos: nat, stack: seq<nat>) {
    && pos <= |code| && Scan(code[pos..], |stack|)
    && forall i :: 0 <= i < |stack| ==> stack[i] < |code| && Scan(code[stack[i] + 1..], i + 1)
  }

  lemma {:induction false} FindCloseFits(code: string, pos: nat, depth: nat, open: nat)
    requires pos < |code| && open > 0 && Scan(code[pos + 1..], depth + open)
    ensures FindClose(code, pos, open) < |code| && Scan(code[FindClose(code, pos, open) + 1..], depth)
    decreases |code| - pos
  {
    assert pos + 1 < |code|;
    var rest := code[pos + 1..];
    assert rest[1..] == code[pos + 2..];
    var open' := if code[pos + 1] == ']' then open - 1 else if code[pos + 1] == '[' then open + 1 else open;
    if open' > 0 {
      FindCloseFits(code, pos + 1, depth, open');
    }
  }

  lemma SkipFits(code: string, pos: nat, stack: seq<nat>)
    requires pos < |code| && code[pos] == '[' && StackFits(code, pos, stack)
    ensures FindClose(code, pos, 1) < |code| && StackFits(code, FindClose(code, pos, 1) + 1, stack)
  {
    assert code[pos..][1..] == code[pos + 1..];
    FindCloseFits(code, pos, |stack|, 1);
  }

  lemma CloseFits(code: string, pos: nat, stack: seq<nat>)
    requires pos < |code| && code[pos] == ']' && StackFits(code, pos, stack)
    ensures stack != [] && StackFits(code, pos + 1, stack[..|stack| - 1])
    ensures StackFits(code, stack[|stack| - 1] + 1, stack)
  {
    assert code[pos..][1..] == code[pos + 1..];
  }

  lemma AdvanceFits(code: string, pos: nat, stack: seq<nat>)
    requires pos < |code| && code[pos] != ']' && StackFits(code, pos, stack)
    ensures StackFits(code, pos + 1, if code[pos] == '[' then stack + [pos] else stack)
  {
    hide Scan;
    ScanStep(code, pos, |stack|);
  }

  lemma ScanStep(code: string, pos: nat, depth: nat)
    requires pos < |code| && code[pos] != ']' && Scan(code[pos..], depth)
    ensures Scan(code[pos + 1..], if code[pos] == '[' then depth + 1 else depth)
  {
    assert code[pos..][1..] == code[pos + 1..];
  }

  lemma StepFits(e: Env, code: string, c: Config)
    requires ValidEnv(e) && ValidState(e, c.st) && c.pos < |code| && StackFits(code, c.pos, c.stack)
    ensures StackFits(code, StepInterp(e, code, c).pos, StepInterp(e, code, c).stack)
    ensures code[c.pos] == ']' ==> c.stack != []
    ensures code[c.pos] == '[' ==> FindClose(code, c.pos, 1) < |code|
  {
    hide StackFits;
    hide FindClose;
    hide Prim1;
    if code[c.pos] == ']' {
      CloseFits(code, c.pos, c.stack);
    } else {
      AdvanceFits(code, c.pos, c.stack);
      if code[c.pos] == '[' {
        SkipFits(code, c.pos, c.stack);
      }
    }
  }

  lemma RunMachineNext(e: Env, code: seq<Instr>, c: MConfig, k: nat)
    requires ValidEnv(e) && ValidState(e, c.st) && Running(code, c) && !Running(code, RunMachine(e, code, c, k))
    ensures k > 0 && RunMachine(e, code, c, k) == RunMachine(e, code, StepMachine(e, code, c), k - 1)
  {
    hide StepMachine;
  }

  lemma RunInterpNext(e: Env, code: string, c: Config, k: nat)
    requires ValidEnv(e) && ValidState(e, c.st) && c.pos < |code| && RunInterp(e, code, c, k).pos >= |code|
    ensures k > 0 && RunInterp(e, code, c, k) == RunInterp(e, code, StepInterp(e, code, c), k - 1)
  {
    hide StepInterp;
  }

  /** While the cell is not zero, SHIFTPTR_ZERO moves once per step and a run that ends has steps left. */
  lemma SeekOnce(e: Env, code: seq<Instr>, pos: nat, s: State, k: nat)
    requires ValidEnv(e) && ValidState(e, s) && pos < |code| && code[pos].op == SHIFTPTR_ZERO && Cur(s) != 0
    requires !Running(code, RunMachine(e, code, MConfig(pos, s), k))
    ensures k > 1
    ensures RunMachine(e, code, MConfig(pos, s), k) == RunMachine(e, code, MConfig(pos, Shift(e, s, code[pos].val1)), k - 1)
  {
    hide Shift;
  }

  /** One turn of the compiler loop consumes one character and keeps the stack in step with the brackets. */
  lemma CompileTurn(order: HashOrder, cs: Compiling, text: string)
    requires StackOk(cs) && text != "" && Scan(text, |cs.stk|)
    ensures text[0] == ']' ==> cs.stk != []
    ensures var cs' := CompileChar(order, cs, text[0]);
            && StackOk(cs') && Scan(text[1..], |cs'.stk|)
            && CompileAll(order, cs, text) == CompileAll(order, cs', text[1..])
  {
    hide StackOk;
    hide CloseLoop;
    hide Emit;
    CompileNext(order, cs, text);
    ScanNext(text, |cs.stk|);
    hide CompileAll;
    hide Scan;
  }

  lemma CompileNext(order: HashOrder, cs: Compiling, text: string)
    requires StackOk(cs) && text != ""
    ensures CompileAll(order, cs, text) == CompileAll(order, CompileChar(order, cs, text[0]), text[1..])
  {
  }

  lemma CompileNothing(order: HashOrder, cs: Compiling, text: string)
    requires StackOk(cs) && text == ""
    ensures CompileAll(order, cs, text) == cs
  {
  }

  lemma ScanNext(text: string, depth: nat)
    requires text != "" && Scan(text, depth)
    ensures text[0] == ']' ==> depth > 0
    ensures Scan(text[1..], if text[0] == '[' then depth + 1 else if text[0] == ']' then depth - 1 else depth)
  {
  }

  /** Safety of every run: all reachable configurations of validated code fit. */
  lemma {:induction false} RunFits(e: Env, code: string, c: Config, n: nat)
    requires ValidEnv(e) && ValidState(e, c.st) && StackFits(code, c.pos, c.stack)
    ensures StackFits(code, RunInterp(e, code, c, n).pos, RunInterp(e, code, c, n).stack)
    decreases n
  {
    if n > 0 && c.pos < |code| {
      StepFits(e, code, c);
      RunFits(e, code, StepInterp(e, code, c), n - 1);
    }
  }

  class BrainFuck {
    const env: Env
    const memory: array<int>
    var ptr: nat
    var consumed: nat
    var output: seq<int>

    ghost function Abs(): (s: State)
      reads this, memory
    {
      State(memory[..], ptr, consumed, output)
    }

    ghost predicate Valid()
      reads this, memory
    {
      ValidEnv(env) && ValidState(env, Abs())
    }

    constructor (env: Env)
      requires ValidEnv(env)
      ensures Valid() && fresh(memory) && this.env == env
      ensures Abs() == State(seq(env.size, _ => 0), 0, 0, [])
    {
      this.env := env;
      memory := new int[env.size](_ => 0);
      ptr, consumed, output := 0, 0, [];
    }

    /** Accepts exactly the texts of program trees. */
    static method ValidateCode(code: string) returns (ok: bool)
      ensures ok <==> IsProgram(code)
    {
      ScanIffProgram(code);
      var lineNo: nat, loopStk: seq<(nat, nat)> := 1, [];
      assert code[0..] == code;
      for i := 0 to |code|
        invariant Scan(code, 0) == Scan(code[i..], |loopStk|)
      {
        assert code[i..][1..] == code[i + 1..];
        if code[i] == '\n' {
          lineNo := lineNo + 1;
        } else if code[i] == '[' {
          loopStk := loopStk + [(lineNo, i + 1)];
        } else if code[i] == ']' {
          if loopStk != [] {
            loopStk := loopStk[..|loopStk| - 1];
          } else {
            return false;
          }
        }
      }
      return loopStk == [];
    }

    /** Runs the text directly. `n` bounds the number of steps after which the run stops. */
    method InterpretCode(code: string, ghost n: nat)
      requires Valid() && IsProgram(code)
      requires RunInterp(env, code, Config(0, [], Abs()), n).pos >= |code|
      modifies this, memory
      ensures Valid()
      ensures InterpHalts(env, code, old(Abs()), n, Abs())
    {
      ScanIffProgram(code);
      assert code[0..] == code;
      var pos: nat, loopStk: seq<nat> := 0, [];
      ghost var k, final := n, RunInterp(env, code, Config(0, [], Abs()), n);
      assert StackFits(code, 0, []);
      hide StackFits;
      hide StepInterp;
      while pos < |code|
        invariant Valid() && StackFits(code, pos, loopStk)
        invariant RunInterp(env, code, Config(pos, loopStk, Abs()), k) == final
        decreases k
      {
        StepFits(env, code, Config(pos, loopStk, Abs()));
        RunInterpNext(env, code, Config(pos, loopStk, Abs()), k);
        hide RunInterp;
        pos, loopStk := InterpretOne(code, pos, loopStk);
        k := k - 1;
      }
    }

    /** One turn of the interpreter loop. */
    method InterpretOne(code: string, at: nat, open: seq<nat>) returns (pos: nat, loopStk: seq<nat>)
      requires Valid() && at < |code|
      requires code[at] == ']' ==> open != []
      requires code[at] == '[' ==> FindClose(code, at, 1) < |code|
      modifies this, memory
      ensures Valid() && Config(pos, loopStk, Abs()) == StepInterp(env, code, Config(at, open, old(Abs())))
    {
      pos, loopStk := at, open;
      var ch := code[pos];
      if ch == '[' {
        if memory[ptr] != 0 {
          loopStk := loopStk + [pos];
        } else {
          pos := SkipForward(code, pos);
        }
      } else if ch == ']' {
        if memory[ptr] == 0 {
          loopStk := loopStk[..|loopStk| - 1];
        } else {
          pos := loopStk[|loopStk| - 1];
        }
      } else {
        RunPrimitive(ch);
      }
      pos := pos + 1;
    }

    /** The scan from an opening bracket to its closing bracket. */
    static method SkipForward(code: string, start: nat) returns (pos: nat)
      requires start < |code| && FindClose(code, start, 1) < |code|
      ensures pos == FindClose(code, start, 1)
    {
      pos := start;
      var openBrackets := 1;
      while openBrackets > 0
        invariant pos < |code| && openBrackets >= 0
        invariant openBrackets > 0 ==> FindClose(code, start, 1) == FindClose(code, pos, openBrackets)
        invariant openBrackets == 0 ==> FindClose(code, start, 1) == pos
        decreases |code| - pos
      {
        pos := pos + 1;
        if code[pos] == ']' {
          openBrackets := openBrackets - 1;
        } else if code[pos] == '[' {
          openBrackets := openBrackets + 1;
        }
      }
    }

    method RunPrimitive(ch: char)
      requires Valid()
      modifies this, memory
      ensures Valid() && Abs() == Prim1(env, ch, old(Abs()))
    {
      match ch
      case '+' => memory[ptr] := if memory[ptr] == env.modulus - 1 then 0 else memory[ptr] + 1;
      case '-' => memory[ptr] := if memory[ptr] == 0 then env.modulus - 1 else memory[ptr] - 1;
      case '>' => ptr := if ptr == env.size - 1 then 0 else ptr + 1;
      case '<' => ptr := if ptr == 0 then env.size - 1 else ptr - 1;
      case '.' => output := output + [memory[ptr]];
      case ',' =>
        memory[ptr] := env.input(consumed);
        consumed := consumed + 1;
      case _ =>
    }

    method ExecuteSimple(i: Instr)
      requires Valid() && !IsJump(i.op) && i.op != SHIFTPTR_ZERO
      modifies this, memory
      ensures Valid() && Abs() == Simple(env, i, old(Abs()))
    {
      match i.op
      case UPDATEVAL => memory[ptr] := CppMod(memory[ptr] + i.val1, env.modulus);
      case SHIFTPTR => ptr := CppMod(ptr + i.val1, env.size);
      case INPUT =>
        memory[ptr] := env.input(consumed);
        consumed := consumed + 1;
      case OUTPUT => output := output + [memory[ptr]];
      case CLEAR => memory[ptr] := 0;
      case UPDATE_BY_CURR => UpdateByCurr(i.val1, i.val2);
    }

    method UpdateByCurr(val1: int, val2: int)
      requires Valid()
      modifies memory
      ensures Valid() && Abs() == AddScaled(env, old(Abs()), val1, val2)
    {
      var copyTo := CppMod(ptr + val1, env.size);
      var updatedVal := memory[copyTo];
      updatedVal := updatedVal + val2 * memory[ptr];
      updatedVal := CppMod(updatedVal, env.modulus);
      memory[copyTo] := updatedVal;
    }

    /** The inner loop of SHIFTPTR_ZERO; `k` machine steps are left before it, `k'` after it. */
    method ShiftUntilZero(instructions: seq<Instr>, pos: nat, ghost k: nat) returns (ghost k': nat)
      requires Valid() && pos < |instructions| && instructions[pos].op == SHIFTPTR_ZERO
      requires !Running(instructions, RunMachine(env, instructions, MConfig(pos, Abs()), k))
      modifies this`ptr
      ensures Valid() && memory[ptr] == 0 && 1 <= k' <= k
      ensures RunMachine(env, instructions, MConfig(pos, Abs()), k')
           == RunMachine(env, instructions, MConfig(pos, old(Abs())), k)
    {
      k' := k;
      while memory[ptr] != 0
        invariant Valid() && 1 <= k' <= k
        invariant RunMachine(env, instructions, MConfig(pos, Abs()), k')
               == RunMachine(env, instructions, MConfig(pos, old(Abs())), k)
        decreases k'
      {
        ghost var s := Abs();
        SeekOnce(env, instructions, pos, s, k');
        hide RunMachine;
        ptr := CppMod(ptr + instructions[pos].val1, env.size);
        assert Abs() == Shift(env, s, instructions[pos].val1);
        k' := k' - 1;
      }
    }

    /** Runs bytecode. `n` bounds the number of machine steps after which the run stops. */
    method ExecuteByteCode(instructions: seq<Instr>, ghost n: nat)
      requires Valid() && !Running(instructions, RunMachine(env, instructions, MConfig(0, Abs()), n))
      modifies this, memory
      ensures Valid()
      ensures MachineHalts(env, instructions, old(Abs()), n, Abs())
    {
      var pos := 0;
      ghost var k, final := n, RunMachine(env, instructions, MConfig(0, Abs()), n);
      while 0 <= pos < |instructions|
        invariant Valid() && RunMachine(env, instructions, MConfig(pos, Abs()), k) == final
        decreases k
      {
        hide StepMachine;
        hide RunMachine;
        var i := instructions[pos];
        if i.op == SHIFTPTR_ZERO {
          k := ShiftUntilZero(instructions, pos, k);
        }
        RunMachineNext(env, instructions, MConfig(pos, Abs()), k);
        pos := ExecuteOne(instructions, pos);
        k := k - 1;
      }
    }

    /** One turn of the machine loop, after any SHIFTPTR_ZERO search. */
    method ExecuteOne(instructions: seq<Instr>, pos: int) returns (pos': int)
      requires Valid() && 0 <= pos < |instructions|
      requires instructions[pos].op == SHIFTPTR_ZERO ==> memory[ptr] == 0
      modifies this, memory
      ensures Valid() && MConfig(pos', Abs()) == StepMachine(env, instructions, MConfig(pos, old(Abs())))
    {
      var i := instructions[pos];
      pos' := pos;
      if i.op == LSTART {
        pos' := if memory[ptr] == 0 then i.val1 else pos;
      } else if i.op == LEND {
        pos' := if memory[ptr] == 0 then pos else i.val1;
      } else if i.op != SHIFTPTR_ZERO {
        ExecuteSimple(i);
      }
      pos' := pos' + 1;
    }

    /** Checks that a loop body only moves the pointer and updates cells, ends where it starts
        and decrements the start cell; collects what it adds to each relative position. */
    static method ValidateSimpleDistributionLoop(start: nat, end: nat, instructions: seq<Instr>)
      returns (ok: bool, distributeTo: map<int, int>)
      requires start < end <= |instructions|
      ensures var d := DistSeq(instructions[start + 1..end]);
              && (ok <==> d.Some? && Accepts(d.value))
              && (ok ==> distributeTo == d.value.to)
    {
      var shift := 0;
      distributeTo := map[];
      var pos := start + 1;
      while pos < end
        invariant start + 1 <= pos <= end
        invariant DistSeq(instructions[start + 1..pos]) == Some(Dist(shift, distributeTo))
      {
        var i := instructions[pos];
        assert instructions[start + 1..pos + 1][..pos - start - 1] == instructions[start + 1..pos];
        if i.op == SHIFTPTR {
          shift := shift + i.val1;
        } else if i.op == UPDATEVAL {
          distributeTo := Bump(distributeTo, shift, i.val1);
        } else {
          PrefixRejected(instructions, start + 1, pos + 1, end);
          return false, distributeTo;
        }
        pos := pos + 1;
      }
      ok := shift == 0 && Get(distributeTo, 0) == -1;
    }

    /** Compiles the text to the bytecode that is written to the file; refuses invalid text. */
    static method CompileFile(env: Env, order: HashOrder, code: string) returns (r: Option<seq<Instr>>)
      requires ValidEnv(env)
      ensures r.Some? <==> IsProgram(code)
      ensures r.Some? ==> r.value == Compiled(env, order, code)
    {
      var valid := ValidateCode(code);
      if !valid {
        return None;
      }
      ScanIffProgram(code);
      hide CompileChar;
      hide CompileAll;
      hide Scan;
      var instructions: seq<Instr>, stk: seq<nat> := [], [];
      assert code[0..] == code;
      for n := 0 to |code|
        invariant StackOk(Compiling(instructions, stk)) && Scan(code[n..], |stk|)
        invariant CompileAll(order, Compiling(instructions, stk), code[n..])
               == CompileAll(order, Compiling([], []), code)
      {
        assert code[n..][1..] == code[n + 1..];
        CompileTurn(order, Compiling(instructions, stk), code[n..]);
        hide StackOk;
        instructions, stk := CompileOne(order, instructions, stk, code[n]);
      }
      assert CompileAll(order, Compiling(instructions, stk), code[|code|..]) == Compiling(instructions, stk) by {
        CompileNothing(order, Compiling(instructions, stk), code[|code|..]);
      }
      r := Some(WriteOut(env, instructions));
    }

    /** One turn of the compiler loop. */
    static method CompileOne(order: HashOrder, code: seq<Instr>, open: seq<nat>, ch: char)
      returns (instructions: seq<Instr>, stk: seq<nat>)
      requires StackOk(Compiling(code, open)) && (ch == ']' ==> open != [])
      ensures Compiling(instructions, stk) == CompileChar(order, Compiling(code, open), ch)
    {
      instructions, stk := code, open;
      if ch == '+' || ch == '-' || ch == '>' || ch == '<' {
        var shiftVal := if ch == '+' || ch == '>' then 1 else -1;
        var currOpCode := if ch == '+' || ch == '-' then UPDATEVAL else SHIFTPTR;
        if instructions != [] && instructions[|instructions| - 1].op == currOpCode {
          var back := instructions[|instructions| - 1];
          instructions := instructions[|instructions| - 1 := back.(val1 := back.val1 + shiftVal)];
        } else {
          instructions := instructions + [Instr(currOpCode, shiftVal, 0)];
        }
      } else if ch == '.' || ch == ',' {
        var currOpCode := if ch == '.' then OUTPUT else INPUT;
        instructions := instructions + [Instr(currOpCode, 1, 0)];
      } else if ch == '[' {
        stk := stk + [|instructions|];
        instructions := instructions + [Instr(LSTART, -1, 0)];
      } else if ch == ']' {
        var loopStartPos := stk[|stk| - 1];
        stk := stk[..|stk| - 1];
        instructions := FinishLoop(order, instructions, loopStartPos);
      }
    }

    /** Patches the jumps of a loop just closed, or replaces the whole loop. */
    static method FinishLoop(order: HashOrder, instructions: seq<Instr>, loopStartPos: nat) returns (r: seq<Instr>)
      requires loopStartPos < |instructions|
      ensures r == CloseLoop(order, instructions, loopStartPos)
    {
      var loopEndPos := |instructions|;
      r := instructions[loopStartPos := instructions[loopStartPos].(val1 := loopEndPos)];
      r := r + [Instr(LEND, loopStartPos, 0)];
      assert r[..loopStartPos] == instructions[..loopStartPos];
      ghost var body := instructions[loopStartPos + 1..];
      assert r[loopStartPos + 1..loopEndPos] == body;
      var single := loopEndPos - loopStartPos == 2;
      if single && r[loopStartPos + 1].op == UPDATEVAL {
        r := r[..|r| - 3] + [CLEAR_CURR];
      } else if single && r[loopStartPos + 1].op == SHIFTPTR {
        var shift := r[loopStartPos + 1].val1;
        r := r[..|r| - 3] + [Instr(SHIFTPTR_ZERO, shift, 0)];
      } else {
        var ok, distributeTo := ValidateSimpleDistributionLoop(loopStartPos, loopEndPos, r);
        if ok {
          var keys := order(r[loopStartPos + 1..loopEndPos]);
          r := r[..loopStartPos];
          for n := 0 to |keys|
            invariant r + UpdatesOf(keys[n..], distributeTo)
                   == instructions[..loopStartPos] + UpdatesOf(keys, distributeTo)
          {
            assert keys[n..][1..] == keys[n + 1..];
            var shift, factor := keys[n], Get(distributeTo, keys[n]);
            if factor != 0 && shift != 0 {
              r := r + [Instr(UPDATE_BY_CURR, shift, factor)];
            }
          }
          assert r == instructions[..loopStartPos] + UpdatesOf(keys, distributeTo);
          r := r + [CLEAR_CURR];
        }
      }
    }
  }

  /** Once a prefix of a body is rejected the whole body is. */
  lemma {:induction false} PrefixRejected(code: seq<Instr>, lo: nat, mid: nat, hi: nat)
    requires lo <= mid <= hi <= |code| && DistSeq(code[lo..mid]).None?
    ensures DistSeq(code[lo..hi]).None?
    decreases hi
  {
    if mid < hi {
      PrefixRejected(code, lo, mid, hi - 1);
      assert code[lo..hi][..hi - lo - 1] == code[lo..hi - 1];
    }
  }
}
