/**
 The Brainfuck compiler: one pass over the text with a stack of open loops, folding runs,
 patching jumps and replacing recognised loops; and its correctness against the interpreter.
 */
module BrainfuckCompiler {
  import opened Seqs
  import opened Wrappers
  import opened ModArith
  import opened BrainfuckSource
  import opened BrainfuckBytecode
  import opened BrainfuckLoops

  // ----- the compiler as the source runs it: flat code and a stack of loop starts -----

  /** The order in which the hash map of a loop body is iterated; any enumeration of its keys. */
  type HashOrder = seq<Instr> -> seq<int>

  ghost predicate Enumerates(order: HashOrder, body: seq<Instr>) {
    DistSeq(body).Some? ==>
      && NoDup(order(body))
      && forall k :: k in order(body) <==> k in DistSeq(body).value.to
  }

  ghost predicate ValidOrder(order: HashOrder) {
    forall body :: Enumerates(order, body)
  }

  datatype Compiling = Compiling(code: seq<Instr>, stk: seq<nat>)

  /** Open loops start at increasing positions inside the code. */
  predicate StackOk(cs: Compiling) {
    && (forall i :: 0 <= i < |cs.stk| ==> cs.stk[i] < |cs.code|)
    && (forall i, j :: 0 <= i < j < |cs.stk| ==> cs.stk[i] < cs.stk[j])
  }

  /** Adds to the last instruction when it has the same opcode, else appends. */
  function Emit(code: seq<Instr>, op: Opcode, delta: int): (r: seq<Instr>)
    ensures |r| >= |code|
  {
    if code != [] && code[|code| - 1].op == op
    then code[|code| - 1 := code[|code| - 1].(val1 := code[|code| - 1].val1 + delta)]
    else code + [Instr(op, delta, 0)]
  }

  function CloseLoop(order: HashOrder, code: seq<Instr>, start: nat): (r: seq<Instr>)
    requires start < |code|
    ensures |r| > start
  {
    var end := |code|;
    var body := code[start + 1..];
    if end - start == 2 && code[start + 1].op == UPDATEVAL then
      code[..start] + [CLEAR_CURR]
    else if end - start == 2 && code[start + 1].op == SHIFTPTR then
      code[..start] + [Instr(SHIFTPTR_ZERO, code[start + 1].val1, 0)]
    else if DistSeq(body).Some? && Accepts(DistSeq(body).value) then
      code[..start] + UpdatesOf(order(body), DistSeq(body).value.to) + [CLEAR_CURR]
    else
      code[start := code[start].(val1 := end)] + [Instr(LEND, start, 0)]
  }

  function CompileChar(order: HashOrder, cs: Compiling, ch: char): (r: Compiling)
    requires StackOk(cs)
    ensures StackOk(r)
  {
    match ch
    case '+' => cs.(code := Emit(cs.code, UPDATEVAL, 1))
    case '-' => cs.(code := Emit(cs.code, UPDATEVAL, -1))
    case '>' => cs.(code := Emit(cs.code, SHIFTPTR, 1))
    case '<' => cs.(code := Emit(cs.code, SHIFTPTR, -1))
    case '.' => cs.(code := cs.code + [Instr(OUTPUT, 1, 0)])
    case ',' => cs.(code := cs.code + [Instr(INPUT, 1, 0)])
    case '[' => Compiling(cs.code + [Instr(LSTART, -1, 0)], cs.stk + [|cs.code|])
    case ']' =>
      if cs.stk == [] then cs
      else
        var start := cs.stk[|cs.stk| - 1];
        var code' := CloseLoop(order, cs.code, start);
        assert forall i :: 0 <= i < |cs.stk| - 1 ==> cs.stk[i] < start < |code'|;
        Compiling(code', cs.stk[..|cs.stk| - 1])
    case _ => cs
  }

  function CompileAll(order: HashOrder, cs: Compiling, text: string): (r: Compiling)
    requires StackOk(cs)
    ensures StackOk(r)
    decreases |text|
  {
    if text == "" then cs else CompileAll(order, CompileChar(order, cs, text[0]), text[1..])
  }

  function Compile(order: HashOrder, text: string): (r: seq<Instr>) {
    CompileAll(order, Compiling([], []), text).code
  }

  lemma {:induction false} CompileAppend(order: HashOrder, cs: Compiling, a: string, b: string)
    requires StackOk(cs)
    ensures CompileAll(order, cs, a + b) == CompileAll(order, CompileAll(order, cs, a), b)
    decreases |a|
  {
    if a == "" {
      assert a + b == b;
    } else {
      assert (a + b)[1..] == a[1..] + b;
      CompileAppend(order, CompileChar(order, cs, a[0]), a[1..], b);
    }
  }

  // ----- the same compiler on trees, producing blocks -----

  function EmitBlocks(b: Blocks, op: Opcode, delta: int): (r: Blocks) {
    if b.Snoc? && b.last.op == op then Snoc(b.init, b.last.(val1 := b.last.val1 + delta))
    else Snoc(b, Instr(op, delta, 0))
  }

  function PrimBlocks(b: Blocks, c: char): (r: Blocks) {
    match c
    case '+' => EmitBlocks(b, UPDATEVAL, 1)
    case '-' => EmitBlocks(b, UPDATEVAL, -1)
    case '>' => EmitBlocks(b, SHIFTPTR, 1)
    case '<' => EmitBlocks(b, SHIFTPTR, -1)
    case '.' => Snoc(b, Instr(OUTPUT, 1, 0))
    case ',' => Snoc(b, Instr(INPUT, 1, 0))
    case _ => b
  }

  function CloseBlocks(order: HashOrder, b: Blocks, body: Blocks): (r: Blocks) {
    if body.Snoc? && body.init.Empty? && body.last.op == UPDATEVAL then Snoc(b, CLEAR_CURR)
    else if body.Snoc? && body.init.Empty? && body.last.op == SHIFTPTR then Snoc(b, Instr(SHIFTPTR_ZERO, body.last.val1, 0))
    else if DistBlocks(body).Some? && Accepts(DistBlocks(body).value) then
      Snoc(AddUpdates(b, order(Layout(body, 0)), DistBlocks(body).value.to), CLEAR_CURR)
    else SnocLoop(b, body)
  }

  function Build(order: HashOrder, b: Blocks, p: Prog): (r: Blocks)
    decreases p
  {
    match p
    case End => b
    case Prim(c, next) => Build(order, PrimBlocks(b, c), next)
    case Loop(body, next) => Build(order, CloseBlocks(order, b, Build(order, Empty, body)), next)
  }

  lemma {:induction false} BuildProper(order: HashOrder, b: Blocks, p: Prog)
    requires Proper(b)
    ensures Proper(Build(order, b, p))
    decreases p
  {
    match p
    case End =>
    case Prim(c, next) => BuildProper(order, PrimBlocks(b, c), next);
    case Loop(body, next) =>
      var bb := Build(order, Empty, body);
      BuildProper(order, Empty, body);
      CloseProper(order, b, bb);
      hide CloseBlocks;
      hide Proper;
      BuildProper(order, CloseBlocks(order, b, bb), next);
  }

  lemma CloseProper(order: HashOrder, b: Blocks, body: Blocks)
    requires Proper(b) && Proper(body)
    ensures Proper(CloseBlocks(order, b, body))
  {
    hide Layout;
    hide DistBlocks;
    if DistBlocks(body).Some? {
      UpdatesProper(b, order(Layout(body, 0)), DistBlocks(body).value.to);
    }
    hide AddUpdates;
  }

  // ----- the flat compiler lays out the blocks -----

  predicate Sealed(pre: seq<Instr>) {
    pre == [] || (pre[|pre| - 1].op != UPDATEVAL && pre[|pre| - 1].op != SHIFTPTR)
  }

  lemma ReplaceLast<T>(pre: seq<T>, l: seq<T>, x: T, y: T)
    ensures var all := pre + (l + [x]);
            |all| > 0 && all[|all| - 1] == x && all[|all| - 1 := y] == pre + (l + [y])
  {
  }

  /** The last instruction of the code is the last of the blocks, an LEND, or the end of the prefix. */
  lemma LastOfLayout(pre: seq<Instr>, b: Blocks)
    ensures var code := pre + Layout(b, |pre|);
            && (b.Empty? ==> code == pre)
            && (!b.Empty? ==> |code| > 0 && code[|code| - 1].op == if b.Snoc? then b.last.op else LEND)
  {
  }

  predicate EndsIn(code: seq<Instr>, op: Opcode) { code != [] && code[|code| - 1].op == op }

  lemma NothingToFold(pre: seq<Instr>, b: Blocks, op: Opcode)
    requires Sealed(pre) && (op == UPDATEVAL || op == SHIFTPTR) && !(b.Snoc? && b.last.op == op)
    ensures !EndsIn(pre + Layout(b, |pre|), op)
  {
    LastOfLayout(pre, b);
    hide Layout;
  }

  lemma EmitAppends(pre: seq<Instr>, b: Blocks, op: Opcode, delta: int)
    requires !EndsIn(pre + Layout(b, |pre|), op)
    ensures Emit(pre + Layout(b, |pre|), op, delta) == pre + Layout(Snoc(b, Instr(op, delta, 0)), |pre|)
  {
    hide Layout;
    hide Emit;
    hide EndsIn;
    EmitNew(pre + Layout(b, |pre|), op, delta);
    AppendLayout(pre, b, Instr(op, delta, 0));
  }

  lemma EmitNew(code: seq<Instr>, op: Opcode, delta: int)
    requires !EndsIn(code, op)
    ensures Emit(code, op, delta) == code + [Instr(op, delta, 0)]
  {
  }

  lemma AppendLayout(pre: seq<Instr>, b: Blocks, i: Instr)
    ensures pre + Layout(b, |pre|) + [i] == pre + Layout(Snoc(b, i), |pre|)
  {
    hide Layout;
    SnocLayout(b, i, |pre|);
    Assoc(pre, Layout(b, |pre|), [i]);
  }

  lemma EmitFolds(pre: seq<Instr>, init: Blocks, i: Instr, delta: int)
    ensures Emit(pre + Layout(Snoc(init, i), |pre|), i.op, delta)
         == pre + Layout(Snoc(init, i.(val1 := i.val1 + delta)), |pre|)
  {
    hide Layout;
    var i' := i.(val1 := i.val1 + delta);
    SnocLayout(init, i, |pre|);
    SnocLayout(init, i', |pre|);
    ReplaceLast(pre, Layout(init, |pre|), i, i');
  }

  lemma EmitIsLayout(pre: seq<Instr>, b: Blocks, op: Opcode, delta: int)
    requires Sealed(pre) && (op == UPDATEVAL || op == SHIFTPTR)
    ensures Emit(pre + Layout(b, |pre|), op, delta) == pre + Layout(EmitBlocks(b, op, delta), |pre|)
  {
    hide Layout;
    hide Emit;
    hide EndsIn;
    if b.Snoc? && b.last.op == op {
      var i := b.last;
      assert b == Snoc(b.init, i) && EmitBlocks(b, op, delta) == Snoc(b.init, i.(val1 := i.val1 + delta));
      hide EmitBlocks;
      EmitFolds(pre, b.init, i, delta);
    } else {
      assert EmitBlocks(b, op, delta) == Snoc(b, Instr(op, delta, 0));
      hide EmitBlocks;
      NothingToFold(pre, b, op);
      EmitAppends(pre, b, op, delta);
    }
  }

  lemma PrimIsLayout(order: HashOrder, cs: Compiling, pre: seq<Instr>, b: Blocks, c: char)
    requires StackOk(cs) && Sealed(pre) && cs.code == pre + Layout(b, |pre|) && c != '[' && c != ']'
    ensures CompileChar(order, cs, c) == Compiling(pre + Layout(PrimBlocks(b, c), |pre|), cs.stk)
  {
    hide Layout;
    hide Emit;
    hide EmitBlocks;
    if c == '+' || c == '-' {
      EmitIsLayout(pre, b, UPDATEVAL, if c == '+' then 1 else -1);
    } else if c == '>' || c == '<' {
      EmitIsLayout(pre, b, SHIFTPTR, if c == '>' then 1 else -1);
    } else if c == '.' || c == ',' {
      var i := Instr(if c == '.' then OUTPUT else INPUT, 1, 0);
      SnocLayout(b, i, |pre|);
      Assoc(pre, Layout(b, |pre|), [i]);
    }
  }

  lemma SingleBody(body: Blocks, base: nat)
    ensures body.Snoc? && body.init.Empty? ==> Layout(body, base) == [body.last]
    ensures Size(body) == 1 <==> body.Snoc? && body.init.Empty?
  {
    if body.Snoc? {
      assert Size(body) == Size(body.init) + 1;
    }
  }

  /** The shape of the code when a loop is closed. */
  lemma LoopParts(pre: seq<Instr>, b: Blocks, body: Blocks)
    returns (code: seq<Instr>, start: nat)
    ensures code == pre + Layout(b, |pre|) + [Instr(LSTART, -1, 0)] + Layout(body, |pre| + Size(b) + 1)
    ensures start == |pre| + Size(b) < |code| && code[start] == Instr(LSTART, -1, 0)
    ensures code[..start] == pre + Layout(b, |pre|)
    ensures code[start + 1..] == Layout(body, start + 1)
  {
    hide Layout;
    hide Size;
    start := |pre| + Size(b);
    code := pre + Layout(b, |pre|) + [Instr(LSTART, -1, 0)] + Layout(body, |pre| + Size(b) + 1);
    Around(pre + Layout(b, |pre|), Instr(LSTART, -1, 0), Layout(body, start + 1));
  }

  /** Closing a loop, in terms of the code before it and its body. */
  lemma CloseByParts(order: HashOrder, code: seq<Instr>, start: nat, head: seq<Instr>, body: seq<Instr>)
    requires start < |code| && head == code[..start] && body == code[start + 1..]
    ensures |body| == 1 && body[0].op == UPDATEVAL ==> CloseLoop(order, code, start) == head + [CLEAR_CURR]
    ensures |body| == 1 && body[0].op == SHIFTPTR ==>
              CloseLoop(order, code, start) == head + [Instr(SHIFTPTR_ZERO, body[0].val1, 0)]
    ensures !(|body| == 1 && (body[0].op == UPDATEVAL || body[0].op == SHIFTPTR)) ==>
              CloseLoop(order, code, start)
              == if DistSeq(body).Some? && Accepts(DistSeq(body).value)
                 then head + UpdatesOf(order(body), DistSeq(body).value.to) + [CLEAR_CURR]
                 else code[start := code[start].(val1 := |code|)] + [Instr(LEND, start, 0)]
  {
    hide DistSeq;
    hide UpdatesOf;
    hide Accepts;
    if |body| == 1 {
      assert code[start + 1] == body[0];
    }
  }

  lemma CloseIsLayout(order: HashOrder, pre: seq<Instr>, b: Blocks, body: Blocks, code: seq<Instr>, start: nat)
    requires start == |pre| + Size(b) < |code| && code[start] == Instr(LSTART, -1, 0)
    requires code[..start] == pre + Layout(b, |pre|)
    requires code[start + 1..] == Layout(body, start + 1)
    ensures CloseLoop(order, code, start) == pre + Layout(CloseBlocks(order, b, body), |pre|)
  {
    hide Layout;
    hide Size;
    hide DistSeq;
    hide DistBlocks;
    hide UpdatesOf;
    hide AddUpdates;
    CloseByParts(order, code, start, pre + Layout(b, |pre|), Layout(body, start + 1));
    hide CloseLoop;
    hide Accepts;
    SingleBody(body, start + 1);
    DistOfLayout(body, start + 1);
    if Size(body) == 1 && (body.last.op == UPDATEVAL || body.last.op == SHIFTPTR) {
      var i := if body.last.op == UPDATEVAL then CLEAR_CURR else Instr(SHIFTPTR_ZERO, body.last.val1, 0);
      AppendLayout(pre, b, i);
    } else if DistBlocks(body).Some? && Accepts(DistBlocks(body).value) {
      StraightLayout(body, start + 1);
      CloseReplaces(pre, b, order(Layout(body, 0)), DistBlocks(body).value.to);
    } else {
      CloseKeepsLoop(pre, b, body, code, start);
    }
  }

  lemma CloseReplaces(pre: seq<Instr>, b: Blocks, ks: seq<int>, m: map<int, int>)
    ensures pre + Layout(b, |pre|) + UpdatesOf(ks, m) + [CLEAR_CURR]
         == pre + Layout(Snoc(AddUpdates(b, ks, m), CLEAR_CURR), |pre|)
  {
    hide Layout;
    LayoutOfUpdates(b, ks, m, |pre|);
    SnocLayout(AddUpdates(b, ks, m), CLEAR_CURR, |pre|);
    Assoc(pre, Layout(b, |pre|), UpdatesOf(ks, m));
    Assoc(pre, Layout(b, |pre|) + UpdatesOf(ks, m), [CLEAR_CURR]);
  }

  lemma Around<T>(a: seq<T>, x: T, b: seq<T>)
    ensures var c := a + [x] + b;
            c[..|a|] == a && c[|a|] == x && c[|a| + 1..] == b
  {
  }

  lemma CodeLength<T>(code: seq<T>, start: nat)
    requires start < |code|
    ensures |code| == start + 1 + |code[start + 1..]|
  {
  }

  lemma PatchAt<T>(code: seq<T>, start: nat, x: T, last: seq<T>, pre: seq<T>, l: seq<T>, b: seq<T>)
    requires start < |code| && code[..start] == pre + l && code[start + 1..] == b
    ensures code[start := x] + last == pre + (l + ([x] + (b + last)))
  {
    assert code == code[..start] + ([code[start]] + code[start + 1..]);
    assert code[start := x] == (pre + l) + ([x] + b);
  }

  lemma CloseKeepsLoop(pre: seq<Instr>, b: Blocks, body: Blocks, code: seq<Instr>, start: nat)
    requires start == |pre| + Size(b) < |code| && code[start] == Instr(LSTART, -1, 0)
    requires code[..start] == pre + Layout(b, |pre|)
    requires code[start + 1..] == Layout(body, start + 1)
    ensures code[start := code[start].(val1 := |code|)] + [Instr(LEND, start, 0)]
         == pre + Layout(SnocLoop(b, body), |pre|)
  {
    hide Layout;
    hide Size;
    var x, last := Instr(LSTART, |code|, 0), [Instr(LEND, start, 0)];
    CodeLength(code, start);
    assert |code| == start + 1 + Size(body);
    LoopLayout(b, body, |pre|, start, |code|);
    PatchAt(code, start, x, last, pre, Layout(b, |pre|), Layout(body, start + 1));
    assert code[start].(val1 := |code|) == x;
  }

  /** Compiling the text of a tree extends the layout of the blocks compiled so far. */
  lemma {:induction false} CompileIsLayout(order: HashOrder, cs: Compiling, pre: seq<Instr>, b: Blocks, p: Prog)
    requires StackOk(cs) && Sealed(pre) && WellFormed(p) && cs.code == pre + Layout(b, |pre|)
    ensures CompileAll(order, cs, Flatten(p)) == Compiling(pre + Layout(Build(order, b, p), |pre|), cs.stk)
    decreases p, 0
  {
    match p
    case End =>
    case Prim(c, next) =>
      PrimIsLayout(order, cs, pre, b, c);
      CompileAppend(order, cs, [c], Flatten(next));
      CompileSingle(order, cs, c);
      CompileIsLayout(order, CompileChar(order, cs, c), pre, PrimBlocks(b, c), next);
    case Loop(body, next) =>
      CompileLoopIsLayout(order, cs, pre, b, body);
      var cs2 := CompileAll(order, cs, "[" + Flatten(body) + "]");
      CompileAppend(order, cs, "[" + Flatten(body) + "]", Flatten(next));
      CompileIsLayout(order, cs2, pre, CloseBlocks(order, b, Build(order, Empty, body)), next);
  }

  lemma CompileSingle(order: HashOrder, cs: Compiling, c: char)
    requires StackOk(cs)
    ensures CompileAll(order, cs, [c]) == CompileChar(order, cs, c)
  {
    assert [c][1..] == "";
  }

  lemma {:induction false} CompileLoopIsLayout(order: HashOrder, cs: Compiling, pre: seq<Instr>, b: Blocks, body: Prog)
    requires StackOk(cs) && Sealed(pre) && WellFormed(body) && cs.code == pre + Layout(b, |pre|)
    ensures CompileAll(order, cs, "[" + Flatten(body) + "]")
         == Compiling(pre + Layout(CloseBlocks(order, b, Build(order, Empty, body)), |pre|), cs.stk)
    decreases body, 1
  {
    hide Layout;
    hide CompileAll;
    hide Build;
    hide Flatten;
    hide CloseBlocks;
    var bb := Build(order, Empty, body);
    var cs1 := CompileChar(order, cs, '[');
    var pre1 := cs1.code;
    assert pre1 == cs.code + [Instr(LSTART, -1, 0)] && cs1.stk == cs.stk + [|cs.code|];
    hide CompileChar;
    EmptyLayout(pre1);
    CompileIsLayout(order, cs1, pre1, Empty, body);
    var cs2 := CompileAll(order, cs1, Flatten(body));
    var code, start := LoopParts(pre, b, bb);
    assert cs2.code == code && |cs.code| == start;
    CloseIsLayout(order, pre, b, bb, code, start);
    CompileClose(order, cs2, cs.stk, start);
    CompileBracketed(order, cs, Flatten(body));
  }

  lemma CompileClose(order: HashOrder, cs: Compiling, stk: seq<nat>, start: nat)
    requires StackOk(cs) && cs.stk == stk + [start]
    ensures start < |cs.code| && CompileChar(order, cs, ']') == Compiling(CloseLoop(order, cs.code, start), stk)
  {
    hide CloseLoop;
    assert cs.stk[|stk|] == start && cs.stk[..|stk|] == stk;
  }

  lemma CompileBracketed(order: HashOrder, cs: Compiling, text: string)
    requires StackOk(cs)
    ensures CompileAll(order, cs, "[" + text + "]") == CompileChar(order, CompileAll(order, CompileChar(order, cs, '['), text), ']')
  {
    hide CompileAll;
    hide CompileChar;
    CompileAppend(order, cs, "[" + text, "]");
    CompileAppend(order, cs, "[", text);
    CompileSingle(order, cs, '[');
    CompileSingle(order, CompileAll(order, cs, "[" + text), ']');
  }

  lemma EmptyLayout(pre: seq<Instr>)
    ensures pre == pre + Layout(Empty, |pre|)
  {
  }

  lemma CompileProgram(order: HashOrder, p: Prog)
    requires WellFormed(p)
    ensures Compile(order, Flatten(p)) == Layout(Build(order, Empty, p), 0)
  {
    CompileIsLayout(order, Compiling([], []), [], Empty, p);
    assert [] + Layout(Build(order, Empty, p), 0) == Layout(Build(order, Empty, p), 0);
  }
}
