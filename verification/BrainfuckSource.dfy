/**
 The source side of the Brainfuck tool: program text, the tape, and the direct
 interpreter with its explicit loop stack, related to a structured evaluation
 of the program tree.
 */
module BrainfuckSource {
  import opened Seqs
  import opened Wrappers
  import opened ModArith

  /** What a run depends on besides the program: the tape size, the cell modulus
      and the bytes that successive getchar calls deliver. */
  datatype Env = Env(size: int, modulus: int, input: nat -> int)

  datatype State = State(mem: seq<int>, ptr: int, consumed: nat, output: seq<int>)

  ghost predicate ValidEnv(e: Env) {
    e.size >= 1 && e.modulus >= 1 && forall k: nat :: 0 <= e.input(k) < e.modulus
  }

  ghost predicate ValidState(e: Env, s: State) {
    && |s.mem| == e.size
    && 0 <= s.ptr < e.size
    && forall i :: 0 <= i < |s.mem| ==> 0 <= s.mem[i] < e.modulus
  }

  function Cur(s: State): (v: int)
    requires 0 <= s.ptr < |s.mem|
  {
    s.mem[s.ptr]
  }

  function Put(s: State, v: int): (s': State)
    requires 0 <= s.ptr < |s.mem|
  {
    s.(mem := s.mem[s.ptr := v])
  }

  // ----- program text and program trees -----

  /** A program tree; every character that is not a bracket is kept, comments included. */
  datatype Prog = End | Prim(c: char, next: Prog) | Loop(body: Prog, next: Prog)

  predicate WellFormed(p: Prog) {
    match p
    case End => true
    case Prim(c, next) => c != '[' && c != ']' && WellFormed(next)
    case Loop(body, next) => WellFormed(body) && WellFormed(next)
  }

  function Flatten(p: Prog): (text: string) {
    match p
    case End => ""
    case Prim(c, next) => [c] + Flatten(next)
    case Loop(body, next) => "[" + Flatten(body) + "]" + Flatten(next)
  }

  ghost predicate IsProgram(code: string) {
    exists p :: WellFormed(p) && Flatten(p) == code
  }

  /** Bracket scan with `depth` brackets open on entry. */
  predicate Scan(code: string, depth: nat) {
    if code == [] then depth == 0
    else if code[0] == '[' then Scan(code[1..], depth + 1)
    else if code[0] == ']' then depth > 0 && Scan(code[1..], depth - 1)
    else Scan(code[1..], depth)
  }

  lemma {:induction false} ScanSkipsProgram(p: Prog, rest: string, depth: nat)
    requires WellFormed(p)
    ensures Scan(Flatten(p) + rest, depth) == Scan(rest, depth)
  {
    match p
    case End =>
      assert Flatten(p) + rest == rest;
    case Prim(c, next) =>
      assert (Flatten(p) + rest)[1..] == Flatten(next) + rest;
      ScanSkipsProgram(next, rest, depth);
    case Loop(body, next) =>
      var tail := "]" + (Flatten(next) + rest);
      assert (Flatten(p) + rest)[1..] == Flatten(body) + tail;
      ScanSkipsProgram(body, tail, depth + 1);
      assert tail[1..] == Flatten(next) + rest;
      ScanSkipsProgram(next, rest, depth);
  }

  /** Parses as far as the bracket that closes the enclosing loop, or to the end. */
  lemma {:induction false} BuildTree(code: string, depth: nat) returns (p: Prog, rest: string)
    requires Scan(code, depth)
    ensures WellFormed(p) && code == Flatten(p) + rest
    ensures depth == 0 ==> rest == []
    ensures depth > 0 ==> rest != [] && rest[0] == ']' && Scan(rest[1..], depth - 1)
    decreases |code|
  {
    if code == [] || code[0] == ']' {
      p, rest := End, code;
    } else if code[0] == '[' {
      var body, r1 := BuildTree(code[1..], depth + 1);
      var next, r2 := BuildTree(r1[1..], depth);
      p, rest := Loop(body, next), r2;
      LoopText(code, body, next, r1, r2);
    } else {
      var next, r := BuildTree(code[1..], depth);
      p, rest := Prim(code[0], next), r;
      assert code == [code[0]] + code[1..];
    }
  }

  lemma LoopText(code: string, body: Prog, next: Prog, r1: string, r2: string)
    requires code != [] && code[0] == '[' && code[1..] == Flatten(body) + r1
    requires r1 != [] && r1[0] == ']' && r1[1..] == Flatten(next) + r2
    ensures code == Flatten(Loop(body, next)) + r2
  {
    var b, n := Flatten(body), Flatten(next);
    assert Flatten(Loop(body, next)) == "[" + b + "]" + n;
    hide Flatten;
    assert code == "[" + code[1..];
    assert r1 == "]" + r1[1..];
    Assoc("[", b, "]" + (n + r2));
    Assoc("[" + b, "]", n + r2);
    Assoc("[" + b + "]", n, r2);
  }

  /** The bracket scan accepts exactly the texts of program trees. */
  lemma ScanIffProgram(code: string)
    ensures Scan(code, 0) <==> IsProgram(code)
  {
    if Scan(code, 0) {
      var p, rest := BuildTree(code, 0);
      assert Flatten(p) == code;
    }
    if IsProgram(code) {
      var p :| WellFormed(p) && Flatten(p) == code;
      assert Flatten(p) + [] == code;
      ScanSkipsProgram(p, [], 0);
    }
  }

  // ----- the direct interpreter, one source character per step -----

  /** The effect of a non-bracket character; comments have none. */
  function Prim1(e: Env, c: char, s: State): (s': State)
    requires ValidEnv(e) && ValidState(e, s)
    ensures ValidState(e, s')
  {
    match c
    case '+' => Put(s, if Cur(s) == e.modulus - 1 then 0 else Cur(s) + 1)
    case '-' => Put(s, if Cur(s) == 0 then e.modulus - 1 else Cur(s) - 1)
    case '>' => s.(ptr := if s.ptr == e.size - 1 then 0 else s.ptr + 1)
    case '<' => s.(ptr := if s.ptr == 0 then e.size - 1 else s.ptr - 1)
    case '.' => s.(output := s.output + [Cur(s)])
    case ',' => Put(s, e.input(s.consumed)).(consumed := s.consumed + 1)
    case _ => s
  }

  datatype Config = Config(pos: nat, stack: seq<nat>, st: State)

  /** The forward scan at an opening bracket whose cell is zero: the position of the
      closing bracket, given `open` brackets still to close after `pos`. */
  function FindClose(code: string, pos: nat, open: nat): (r: nat)
    requires open > 0
    decreases |code| - pos
  {
    if pos + 1 >= |code| then |code|
    else
      var open' := if code[pos + 1] == ']' then open - 1
                   else if code[pos + 1] == '[' then open + 1 else open;
      if open' == 0 then pos + 1 else FindClose(code, pos + 1, open')
  }

  function StepInterp(e: Env, code: string, c: Config): (c': Config)
    requires ValidEnv(e) && ValidState(e, c.st) && c.pos < |code|
    ensures ValidState(e, c'.st)
  {
    match code[c.pos]
    case '[' =>
      if Cur(c.st) != 0 then Config(c.pos + 1, c.stack + [c.pos], c.st)
      else Config(FindClose(code, c.pos, 1) + 1, c.stack, c.st)
    case ']' =>
      if c.stack == [] then c.(pos := c.pos + 1)
      else if Cur(c.st) == 0 then Config(c.pos + 1, c.stack[..|c.stack| - 1], c.st)
      else c.(pos := c.stack[|c.stack| - 1] + 1)
    case ch =>
      Config(c.pos + 1, c.stack, Prim1(e, ch, c.st))
  }

  /** At most n steps; a configuration past the end of the text stays as it is. */
  function RunInterp(e: Env, code: string, c: Config, n: nat): (c': Config)
    requires ValidEnv(e) && ValidState(e, c.st)
    ensures ValidState(e, c'.st)
    decreases n
  {
    if n == 0 || c.pos >= |code| then c
    else RunInterp(e, code, StepInterp(e, code, c), n - 1)
  }

  /** The interpreter, started on `s`, stops after at most n steps in state `t`. */
  ghost predicate InterpHalts(e: Env, code: string, s: State, n: nat, t: State)
    requires ValidEnv(e) && ValidState(e, s)
  {
    var c := RunInterp(e, code, Config(0, [], s), n);
    c.pos >= |code| && c.st == t
  }

  // ----- structured evaluation of trees -----

  function Eval(e: Env, p: Prog, s: State, fuel: nat): (r: Option<State>)
    requires ValidEnv(e) && ValidState(e, s)
    ensures r.Some? ==> ValidState(e, r.value)
    decreases fuel, p
  {
    match p
    case End => Some(s)
    case Prim(c, next) => Eval(e, next, Prim1(e, c, s), fuel)
    case Loop(body, next) =>
      match EvalLoop(e, body, s, fuel)
      case None => None
      case Some(s1) => Eval(e, next, s1, fuel)
  }

  function EvalLoop(e: Env, body: Prog, s: State, fuel: nat): (r: Option<State>)
    requires ValidEnv(e) && ValidState(e, s)
    ensures r.Some? ==> ValidState(e, r.value)
    decreases fuel, body
  {
    if Cur(s) == 0 then Some(s)
    else if fuel == 0 then None
    else
      match Eval(e, body, s, fuel - 1)
      case None => None
      case Some(s1) => EvalLoop(e, body, s1, fuel - 1)
  }

  lemma {:induction false} EvalMonotone(e: Env, p: Prog, s: State, f: nat, g: nat)
    requires ValidEnv(e) && ValidState(e, s) && f <= g && Eval(e, p, s, f).Some?
    ensures Eval(e, p, s, g) == Eval(e, p, s, f)
    decreases f, p
  {
    match p
    case End =>
    case Prim(c, next) => EvalMonotone(e, next, Prim1(e, c, s), f, g);
    case Loop(body, next) =>
      EvalLoopMonotone(e, body, s, f, g);
      EvalMonotone(e, next, EvalLoop(e, body, s, f).value, f, g);
  }

  lemma {:induction false} EvalLoopMonotone(e: Env, body: Prog, s: State, f: nat, g: nat)
    requires ValidEnv(e) && ValidState(e, s) && f <= g && EvalLoop(e, body, s, f).Some?
    ensures EvalLoop(e, body, s, g) == EvalLoop(e, body, s, f)
    decreases f, body
  {
    if Cur(s) != 0 {
      EvalMonotone(e, body, s, f - 1, g - 1);
      EvalLoopMonotone(e, body, Eval(e, body, s, f - 1).value, f - 1, g - 1);
    }
  }

  // ----- the loop stack implements the tree -----

  predicate At(code: string, pos: nat, text: string) {
    pos + |text| <= |code| && code[pos..pos + |text|] == text
  }

  lemma AtSplit(code: string, pos: nat, a: string, b: string)
    requires At(code, pos, a + b)
    ensures At(code, pos, a) && At(code, pos + |a|, b)
  {
    var t := code[pos..pos + |a + b|];
    assert t == a + b;
    assert code[pos..pos + |a|] == t[..|a|] == a;
    assert code[pos + |a|..pos + |a| + |b|] == t[|a|..] == b;
  }

  lemma AtHead(code: string, pos: nat, c: char)
    requires At(code, pos, [c])
    ensures pos < |code| && code[pos] == c
  {
    assert code[pos] == code[pos..pos + 1][0];
  }

  /** Where the parts of a loop sit in the text. */
  lemma AtLoop(code: string, pos: nat, body: Prog, next: Prog)
    requires At(code, pos, Flatten(Loop(body, next)))
    ensures pos < |code| && code[pos] == '['
    ensures At(code, pos + 1, Flatten(body))
    ensures pos + 1 + |Flatten(body)| < |code| && code[pos + 1 + |Flatten(body)|] == ']'
    ensures At(code, pos + 2 + |Flatten(body)|, Flatten(next))
  {
    hide At;
    var b, n := Flatten(body), Flatten(next);
    FlattenLoop(body, next);
    hide Flatten;
    AtSplit(code, pos, "[", b + ("]" + n));
    AtSplit(code, pos + 1, b, "]" + n);
    AtSplit(code, pos + 1 + |b|, "]", n);
    AtHead(code, pos, '[');
    AtHead(code, pos + 1 + |b|, ']');
  }

  lemma FlattenLoop(body: Prog, next: Prog)
    ensures Flatten(Loop(body, next)) == "[" + (Flatten(body) + ("]" + Flatten(next)))
    ensures |Flatten(Loop(body, next))| == |Flatten(body)| + |Flatten(next)| + 2
  {
  }

  lemma AtPrim(code: string, pos: nat, c: char, next: Prog)
    requires At(code, pos, Flatten(Prim(c, next)))
    ensures pos < |code| && code[pos] == c && At(code, pos + 1, Flatten(next))
  {
    AtSplit(code, pos, [c], Flatten(next));
    AtHead(code, pos, c);
  }

  lemma FindCloseMoves(code: string, pos: nat, open: nat)
    requires open > 0 && pos + 1 < |code|
    ensures code[pos + 1] == '[' ==> FindClose(code, pos, open) == FindClose(code, pos + 1, open + 1)
    ensures code[pos + 1] == ']' && open > 1 ==> FindClose(code, pos, open) == FindClose(code, pos + 1, open - 1)
    ensures code[pos + 1] != '[' && code[pos + 1] != ']' ==> FindClose(code, pos, open) == FindClose(code, pos + 1, open)
  {
  }

  /** The forward scan passes over any embedded program without changing its count. */
  lemma {:induction false} FindCloseSkips(code: string, pos: nat, p: Prog, open: nat)
    requires WellFormed(p) && open > 0 && At(code, pos + 1, Flatten(p))
    ensures FindClose(code, pos, open) == FindClose(code, pos + |Flatten(p)|, open)
    decreases p
  {
    hide At;
    hide FindClose;
    match p
    case End =>
    case Prim(c, next) =>
      AtPrim(code, pos + 1, c, next);
      FindCloseMoves(code, pos, open);
      FindCloseSkips(code, pos + 1, next, open);
    case Loop(body, next) =>
      AtLoop(code, pos + 1, body, next);
      FlattenLoop(body, next);
      hide Flatten;
      var close := pos + 2 + |Flatten(body)|;
      FindCloseMoves(code, pos, open);
      FindCloseMoves(code, close - 1, open + 1);
      FindCloseSkips(code, pos + 1, body, open + 1);
      FindCloseSkips(code, close, next, open);
  }

  lemma {:induction false} RunInterpAdd(e: Env, code: string, c: Config, m: nat, n: nat)
    requires ValidEnv(e) && ValidState(e, c.st)
    ensures RunInterp(e, code, c, m + n) == RunInterp(e, code, RunInterp(e, code, c, m), n)
    decreases m
  {
    hide StepInterp;
    if m > 0 && c.pos < |code| {
      RunInterpAdd(e, code, StepInterp(e, code, c), m - 1, n);
    }
  }

  /** After k steps of a run that halts within n, the rest of the run halts within n - k,
      and whatever the rest reaches the whole run reaches. */
  lemma RunInterpChain(e: Env, code: string, c0: Config, k1: nat, c1: Config, k2: nat, n: nat)
    requires ValidEnv(e) && ValidState(e, c0.st) && RunInterp(e, code, c0, k1) == c1
    ensures k1 <= n ==> RunInterp(e, code, c0, n) == RunInterp(e, code, c1, n - k1)
    ensures RunInterp(e, code, c0, k1 + k2) == RunInterp(e, code, c1, k2)
  {
    RunInterpAdd(e, code, c0, k1, k2);
    if k1 <= n {
      RunInterpAdd(e, code, c0, k1, n - k1);
    }
  }

  lemma RunNone(e: Env, code: string, c: Config)
    requires ValidEnv(e) && ValidState(e, c.st)
    ensures RunInterp(e, code, c, 0) == c
  {
  }

  lemma StepsPrim(e: Env, code: string, c: Config)
    requires ValidEnv(e) && ValidState(e, c.st) && c.pos < |code| && code[c.pos] != '[' && code[c.pos] != ']'
    ensures StepInterp(e, code, c) == Config(c.pos + 1, c.stack, Prim1(e, code[c.pos], c.st))
  {
  }

  lemma RunOneStep(e: Env, code: string, c: Config, n: nat)
    requires ValidEnv(e) && ValidState(e, c.st) && c.pos < |code|
    requires RunInterp(e, code, c, n).pos >= |code|
    ensures n >= 1 && RunInterp(e, code, c, 1) == StepInterp(e, code, c)
  {
    assert RunInterp(e, code, c, 1) == RunInterp(e, code, StepInterp(e, code, c), 0);
  }

  /** An opening bracket over a zero cell jumps past its closing bracket. */
  lemma SkipLoop(e: Env, code: string, pos: nat, stack: seq<nat>, body: Prog, next: Prog, s: State)
    requires ValidEnv(e) && ValidState(e, s) && WellFormed(body)
    requires At(code, pos, Flatten(Loop(body, next))) && Cur(s) == 0
    ensures StepInterp(e, code, Config(pos, stack, s)) == Config(pos + 2 + |Flatten(body)|, stack, s)
  {
    AtLoop(code, pos, body, next);
    FindCloseSkips(code, pos, body, 1);
  }

  /** A halting run of the interpreter that stands at the text of p comes out at the end of
      that text with the same loop stack, in the state the tree evaluates to. */
  lemma {:induction false} InterpFollowsTree(e: Env, code: string, pos: nat, stack: seq<nat>, p: Prog, s: State, n: nat)
    returns (t: State, k: nat)
    requires ValidEnv(e) && ValidState(e, s) && WellFormed(p) && At(code, pos, Flatten(p))
    requires RunInterp(e, code, Config(pos, stack, s), n).pos >= |code|
    ensures ValidState(e, t) && k <= n && Eval(e, p, s, n) == Some(t)
    ensures RunInterp(e, code, Config(pos, stack, s), k) == Config(pos + |Flatten(p)|, stack, t)
    decreases n, 1
  {
    hide RunInterp;
    hide At;
    var c0 := Config(pos, stack, s);
    match p
    case End =>
      t, k := s, 0;
      RunNone(e, code, c0);
    case Prim(c, next) =>
      AtPrim(code, pos, c, next);
      RunOneStep(e, code, c0, n);
      StepsPrim(e, code, c0);
      hide StepInterp;
      hide Prim1;
      var s1 := Prim1(e, c, s);
      var c1 := Config(pos + 1, stack, s1);
      RunInterpChain(e, code, c0, 1, c1, 0, n);
      t, k := InterpFollowsTree(e, code, pos + 1, stack, next, s1, n - 1);
      EvalMonotone(e, next, s1, n - 1, n);
      RunInterpChain(e, code, c0, 1, c1, k, n);
      k := 1 + k;
    case Loop(body, next) =>
      t, k := InterpFollowsLoopThenNext(e, code, pos, stack, body, next, s, n);
  }

  lemma {:induction false} InterpFollowsLoopThenNext(e: Env, code: string, pos: nat, stack: seq<nat>, body: Prog, next: Prog, s: State, n: nat)
    returns (t: State, k: nat)
    requires ValidEnv(e) && ValidState(e, s) && WellFormed(Loop(body, next)) && At(code, pos, Flatten(Loop(body, next)))
    requires RunInterp(e, code, Config(pos, stack, s), n).pos >= |code|
    ensures ValidState(e, t) && k <= n && Eval(e, Loop(body, next), s, n) == Some(t)
    ensures RunInterp(e, code, Config(pos, stack, s), k) == Config(pos + |Flatten(Loop(body, next))|, stack, t)
    decreases n, 0
  {
    hide RunInterp;
    var c0 := Config(pos, stack, s);
    AtLoop(code, pos, body, next);
    RunOneStep(e, code, c0, n);
    var after := pos + 2 + |Flatten(body)|;
    var s1, k1;
    if Cur(s) == 0 {
      s1, k1 := s, 1;
      SkipLoop(e, code, pos, stack, body, next, s);
    } else {
      var c1 := Config(pos + 1, stack + [pos], s);
      RunInterpChain(e, code, c0, 1, c1, 0, n);
      s1, k1 := InterpFollowsLoop(e, code, pos, stack, body, next, s, n - 1);
      RunInterpChain(e, code, c0, 1, c1, k1, n);
      k1 := 1 + k1;
    }
    var c2 := Config(after, stack, s1);
    RunInterpChain(e, code, c0, k1, c2, 0, n);
    t, k := InterpFollowsTree(e, code, after, stack, next, s1, n - k1);
    EvalMonotone(e, next, s1, n - k1, n);
    RunInterpChain(e, code, c0, k1, c2, k, n);
    k := k1 + k;
  }

  /** From just inside a loop whose cell is nonzero, the run leaves the loop by popping it. */
  lemma StepBack(e: Env, code: string, at: nat, stack: seq<nat>, pos: nat, s: State)
    requires ValidEnv(e) && ValidState(e, s) && at < |code| && code[at] == ']'
    ensures StepInterp(e, code, Config(at, stack + [pos], s))
         == if Cur(s) == 0 then Config(at + 1, stack, s) else Config(pos + 1, stack + [pos], s)
  {
    assert (stack + [pos])[..|stack|] == stack;
  }

  lemma {:induction false} InterpFollowsLoop(e: Env, code: string, pos: nat, stack: seq<nat>, body: Prog, next: Prog, s: State, n: nat)
    returns (t: State, k: nat)
    requires ValidEnv(e) && ValidState(e, s) && WellFormed(body)
    requires At(code, pos, Flatten(Loop(body, next))) && Cur(s) != 0
    requires RunInterp(e, code, Config(pos + 1, stack + [pos], s), n).pos >= |code|
    ensures ValidState(e, t) && k <= n && EvalLoop(e, body, s, n + 1) == Some(t)
    ensures RunInterp(e, code, Config(pos + 1, stack + [pos], s), k) == Config(pos + 2 + |Flatten(body)|, stack, t)
    decreases n, 2
  {
    hide RunInterp;
    AtLoop(code, pos, body, next);
    var c0 := Config(pos + 1, stack + [pos], s);
    var s1, k1 := InterpFollowsTree(e, code, pos + 1, stack + [pos], body, s, n);
    var c1 := Config(pos + 1 + |Flatten(body)|, stack + [pos], s1);
    RunInterpChain(e, code, c0, k1, c1, 1, n);
    RunOneStep(e, code, c1, n - k1);
    StepBack(e, code, c1.pos, stack, pos, s1);
    hide StepInterp;
    if Cur(s1) == 0 {
      t, k := s1, k1 + 1;
    } else {
      var c2 := Config(pos + 1, stack + [pos], s1);
      RunInterpChain(e, code, c0, k1 + 1, c2, 0, n);
      t, k := InterpFollowsLoop(e, code, pos, stack, body, next, s1, n - k1 - 1);
      EvalLoopMonotone(e, body, s1, n - k1, n);
      RunInterpChain(e, code, c0, k1 + 1, c2, k, n);
      k := k1 + 1 + k;
    }
  }

  /** A halting interpreter run computes what the tree evaluates to. */
  lemma InterpComputesEval(e: Env, p: Prog, s: State, n: nat, t: State)
    requires ValidEnv(e) && ValidState(e, s) && WellFormed(p)
    requires InterpHalts(e, Flatten(p), s, n, t)
    ensures Eval(e, p, s, n) == Some(t)
  {
    var code := Flatten(p);
    assert code[0..0 + |code|] == code;
    var t', k := InterpFollowsTree(e, code, 0, [], p, s, n);
    RunInterpAdd(e, code, Config(0, [], s), k, n - k);
  }
}
