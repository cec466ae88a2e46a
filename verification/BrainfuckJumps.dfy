/** How much the compiler optimises: which loops are left as loops in the bytecode. */
module BrainfuckJumps {
  import opened BrainfuckSource
  import opened BrainfuckBytecode
  import opened BrainfuckLoops
  import opened BrainfuckCompiler
  import opened BrainfuckCorrect

  predicate IsCommand(c: char) { c in "+-<>.,[]" }

  /** A text of two commands and comments only. */
  predicate OnlyOf(p: Prog, up: char, down: char) {
    match p
    case End => true
    case Prim(c, next) => (c == up || c == down || !IsCommand(c)) && OnlyOf(next, up, down)
    case Loop(_, _) => false
  }

  predicate HasOf(p: Prog, up: char, down: char) {
    p.Prim? && (p.c == up || p.c == down || HasOf(p.next, up, down))
  }

  /** Loops that need no loop in bytecode: a run of updates, a run of shifts, or a distribution. */
  predicate Replaced(body: Prog) {
    || (OnlyOf(body, '+', '-') && HasOf(body, '+', '-'))
    || (OnlyOf(body, '>', '<') && HasOf(body, '>', '<'))
    || (Effect(NOTHING, body).Some? && Accepts(Effect(NOTHING, body).value))
  }

  /** The loops of a program that stay, not counting those inside a loop that goes. */
  function KeptLoops(p: Prog): (n: nat) {
    match p
    case End => 0
    case Prim(_, next) => KeptLoops(next)
    case Loop(body, next) => (if Replaced(body) then 0 else 1 + KeptLoops(body)) + KeptLoops(next)
  }

  function Starts(code: seq<Instr>): (n: nat) {
    if code == [] then 0 else Starts(code[..|code| - 1]) + (if code[|code| - 1].op == LSTART then 1 else 0)
  }

  function Loops(b: Blocks): (n: nat) {
    match b
    case Empty => 0
    case Snoc(init, _) => Loops(init)
    case SnocLoop(init, body) => Loops(init) + 1 + Loops(body)
  }

  // ----- counting in the layout -----

  lemma {:induction false} StartsConcat(a: seq<Instr>, b: seq<Instr>)
    ensures Starts(a + b) == Starts(a) + Starts(b)
    decreases |b|
  {
    if b == [] {
      assert a + b == a;
    } else {
      var n := |b| - 1;
      assert (a + b)[..|a + b| - 1] == a + b[..n];
      StartsConcat(a, b[..n]);
    }
  }

  lemma StartsOne(i: Instr)
    ensures Starts([i]) == if i.op == LSTART then 1 else 0
  {
    assert [i][..0] == [];
  }

  lemma {:induction false} StartsOfLayout(b: Blocks, base: nat)
    requires Proper(b)
    ensures Starts(Layout(b, base)) == Loops(b)
    decreases b
  {
    match b
    case Empty =>
    case Snoc(init, i) =>
      StartsOfLayout(init, base);
      SnocLayout(init, i, base);
      hide Layout;
      hide Starts;
      StartsConcat(Layout(init, base), [i]);
      StartsOne(i);
    case SnocLoop(init, body) =>
      var start := base + Size(init);
      var end := start + 1 + Size(body);
      StartsOfLayout(init, base);
      StartsOfLayout(body, start + 1);
      LoopLayout(init, body, base, start, end);
      hide Layout;
      hide Starts;
      var first, last, mid := [Instr(LSTART, end, 0)], [Instr(LEND, start, 0)], Layout(body, start + 1);
      StartsConcat(Layout(init, base), first + (mid + last));
      StartsConcat(first, mid + last);
      StartsConcat(mid, last);
      StartsOne(first[0]);
      StartsOne(last[0]);
  }

  // ----- which bodies fold to one instruction -----

  predicate Foldable(op: Opcode) { op == UPDATEVAL || op == SHIFTPTR }

  function Up(op: Opcode): (c: char) { if op == UPDATEVAL then '+' else '>' }

  function Down(op: Opcode): (c: char) { if op == UPDATEVAL then '-' else '<' }

  /** Nothing yet, or one instruction of this kind. */
  predicate AtMostOne(b: Blocks, op: Opcode) {
    b.Empty? || (b.Snoc? && b.init.Empty? && b.last.op == op)
  }

  lemma {:induction false} StaysOther(order: HashOrder, b: Blocks, p: Prog, op: Opcode)
    requires Foldable(op) && !AtMostOne(b, op)
    ensures !AtMostOne(Build(order, b, p), op)
    decreases p
  {
    match p
    case End =>
    case Prim(c, next) => StaysOther(order, PrimBlocks(b, c), next, op);
    case Loop(body, next) =>
      ClosedIsOther(order, b, Build(order, Empty, body), op);
      StaysOther(order, CloseBlocks(order, b, Build(order, Empty, body)), next, op);
  }

  lemma ClosedIsOther(order: HashOrder, b: Blocks, body: Blocks, op: Opcode)
    requires Foldable(op)
    ensures !AtMostOne(CloseBlocks(order, b, body), op)
  {
  }

  lemma PrimIsOne(b: Blocks, c: char, op: Opcode)
    requires Foldable(op) && AtMostOne(b, op) && c != '[' && c != ']'
    ensures AtMostOne(PrimBlocks(b, c), op) <==> c == Up(op) || c == Down(op) || !IsCommand(c)
    ensures AtMostOne(PrimBlocks(b, c), op) && PrimBlocks(b, c).Snoc? ==> b.Snoc? || c == Up(op) || c == Down(op)
    ensures c == Up(op) || c == Down(op) ==> PrimBlocks(b, c).Snoc?
    ensures b.Snoc? ==> PrimBlocks(b, c).Snoc?
  {
  }

  lemma {:induction false} FoldsToOne(order: HashOrder, b: Blocks, p: Prog, op: Opcode)
    requires Foldable(op) && AtMostOne(b, op) && WellFormed(p)
    ensures AtMostOne(Build(order, b, p), op) <==> OnlyOf(p, Up(op), Down(op))
    ensures OnlyOf(p, Up(op), Down(op)) ==> (Build(order, b, p).Snoc? <==> b.Snoc? || HasOf(p, Up(op), Down(op)))
    decreases p
  {
    match p
    case End =>
    case Prim(c, next) =>
      PrimIsOne(b, c, op);
      if AtMostOne(PrimBlocks(b, c), op) {
        FoldsToOne(order, PrimBlocks(b, c), next, op);
      } else {
        StaysOther(order, PrimBlocks(b, c), next, op);
      }
    case Loop(body, next) =>
      var bb := Build(order, Empty, body);
      ClosedIsOther(order, b, bb, op);
      StaysOther(order, CloseBlocks(order, b, bb), next, op);
  }

  // ----- the loops of the blocks -----

  lemma {:induction false} UpdatesAreNoLoops(b: Blocks, ks: seq<int>, m: map<int, int>)
    ensures Loops(AddUpdates(b, ks, m)) == Loops(b)
    decreases |ks|
  {
    if ks != [] {
      UpdatesAreNoLoops(b, ks[1..], m);
      UpdatesAreNoLoops(Snoc(b, Instr(UPDATE_BY_CURR, ks[0], Get(m, ks[0]))), ks[1..], m);
    }
  }

  /** Closing a loop leaves one in the blocks exactly if it is not to be replaced. */
  lemma ClosedLoops(order: HashOrder, b: Blocks, body: Prog)
    requires WellFormed(body)
    ensures var bb := Build(order, Empty, body);
            Loops(CloseBlocks(order, b, bb)) == Loops(b) + if Replaced(body) then 0 else 1 + Loops(bb)
  {
    var bb := Build(order, Empty, body);
    FoldsToOne(order, Empty, body, UPDATEVAL);
    FoldsToOne(order, Empty, body, SHIFTPTR);
    EffectOfBuild(order, Empty, body);
    hide Build;
    hide Effect;
    if DistBlocks(bb).Some? && Accepts(DistBlocks(bb).value) {
      UpdatesAreNoLoops(b, order(Layout(bb, 0)), DistBlocks(bb).value.to);
    }
  }

  lemma PrimAddsNoLoop(b: Blocks, c: char)
    ensures Loops(PrimBlocks(b, c)) == Loops(b)
  {
  }

  lemma {:induction false} BuiltLoops(order: HashOrder, b: Blocks, p: Prog)
    requires WellFormed(p)
    ensures Loops(Build(order, b, p)) == Loops(b) + KeptLoops(p)
    decreases p
  {
    match p
    case End =>
    case Prim(c, next) =>
      PrimAddsNoLoop(b, c);
      hide PrimBlocks;
      BuiltLoops(order, PrimBlocks(b, c), next);
    case Loop(body, next) =>
      var bb := Build(order, Empty, body);
      hide CloseBlocks;
      hide Replaced;
      ClosedLoops(order, b, body);
      BuiltLoops(order, Empty, body);
      BuiltLoops(order, CloseBlocks(order, b, bb), next);
  }

  lemma {:induction false} WriteOutStarts(e: Env, code: seq<Instr>)
    requires ValidEnv(e)
    ensures Starts(WriteOut(e, code)) == Starts(code)
    decreases |code|
  {
    if code != [] {
      var n := |code| - 1;
      WriteOutStarts(e, code[..n]);
      assert WriteOut(e, code)[..n] == WriteOut(e, code[..n]);
    }
  }

  /** The bytecode of a program has a loop for every loop of the source that is not replaced, and no more. */
  lemma LoopsLeft(e: Env, order: HashOrder, p: Prog)
    requires ValidEnv(e) && WellFormed(p)
    ensures Starts(Compiled(e, order, Flatten(p))) == KeptLoops(p)
  {
    CompileProgram(order, p);
    BuildProper(order, Empty, p);
    StartsOfLayout(Build(order, Empty, p), 0);
    BuiltLoops(order, Empty, p);
    WriteOutStarts(e, Compile(order, Flatten(p)));
  }
}
