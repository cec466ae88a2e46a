/** When the compiled bytecode halts exactly as the interpreter does. */
module BrainfuckExact {
  import opened Wrappers
  import opened ModArith
  import opened BrainfuckSource
  import opened BrainfuckBytecode
  import opened BrainfuckLoops
  import opened BrainfuckCompiler
  import opened BrainfuckCorrect
  import opened BrainfuckLimits
  import opened BrainfuckReflect

  // ----- loops that fold to one value update -----

  /** The net change of a text of '+', '-' and comments only. */
  function Net(p: Prog): (r: Option<int>) {
    match p
    case End => Some(0)
    case Loop(_, _) => None
    case Prim(c, next) =>
      if c == '>' || c == '<' || c == '.' || c == ',' then None
      else
        match Net(next)
        case None => None
        case Some(d) => Some(d + if c == '+' then 1 else if c == '-' then -1 else 0)
  }

  predicate Touches(p: Prog) {
    p.Prim? && (p.c == '+' || p.c == '-' || Touches(p.next))
  }

  /** The net change of a loop body that the compiler folds to one UPDATEVAL. */
  function OneUpdate(body: Prog): (r: Option<int>) {
    if Touches(body) then Net(body) else None
  }

  predicate Invertible(d: int, m: int)
    requires m > 0
  {
    exists k :: 0 <= k < m && d * k % m == 1 % m
  }

  /** Every loop that folds to one update has an invertible net change. */
  predicate UpdatesInvertible(m: int, p: Prog)
    requires m > 0
  {
    match p
    case End => true
    case Prim(_, next) => UpdatesInvertible(m, next)
    case Loop(body, next) =>
      && (OneUpdate(body).Some? ==> Invertible(OneUpdate(body).value, m))
      && UpdatesInvertible(m, body) && UpdatesInvertible(m, next)
  }

  lemma AddNothing(e: Env, s: State)
    requires ValidEnv(e) && ValidState(e, s)
    ensures Add(e, s, 0) == s
  {
    ModSmall(Cur(s), e.modulus);
    assert s.mem[s.ptr := Cur(s)] == s.mem;
  }

  lemma {:induction false} NetEval(e: Env, p: Prog, s: State, fuel: nat)
    requires ValidEnv(e) && ValidState(e, s) && Net(p).Some?
    ensures Eval(e, p, s, fuel) == Some(Add(e, s, Net(p).value))
    decreases p
  {
    match p
    case End => AddNothing(e, s);
    case Prim(c, next) =>
      PrimIsAdd(e, s);
      AddNothing(e, s);
      hide Add;
      EvalPrim(e, c, next, s, fuel);
      NetEval(e, next, Prim1(e, c, s), fuel);
      AddTwice(e, s, if c == '+' then 1 else if c == '-' then -1 else 0, Net(next).value);
  }

  // ----- modular arithmetic of a loop -----

  lemma StepResidue(v: int, n: int, d: int, m: int)
    requires m > 0
    ensures ((v + d) % m + (n - 1) * d) % m == (v + n * d) % m
  {
    ModAdd(v + d, (n - 1) * d, m);
    assert v + d + (n - 1) * d == v + n * d;
  }

  lemma LastTurn(v: int, v1: int, n: int, d: int, m: int, n1: int)
    requires m > 0 && n == n1 + 1 && v1 == (v + d) % m && (v1 + n1 * d) % m == 0
    ensures (v + n * d) % m == 0
  {
    StepResidue(v, n, d, m);
  }

  /** One turn of such a loop adds the net change to the cell. */
  lemma OneTurn(e: Env, body: Prog, s: State, fuel: nat)
    requires ValidEnv(e) && ValidState(e, s) && Net(body).Some?
    ensures var r := Eval(e, body, s, fuel);
            r.Some? && Cur(r.value) == (Cur(s) + Net(body).value) % e.modulus
  {
    NetEval(e, body, s, fuel);
    assert Cur(Add(e, s, Net(body).value)) == (Cur(s) + Net(body).value) % e.modulus;
    hide Eval;
  }

  lemma TurnsOnce(e: Env, body: Prog, s: State, fuel: nat)
    requires ValidEnv(e) && ValidState(e, s) && Cur(s) != 0
    ensures EvalLoop(e, body, s, 0).None?
    ensures fuel > 0 && Eval(e, body, s, fuel - 1).Some? ==>
              EvalLoop(e, body, s, fuel) == EvalLoop(e, body, Eval(e, body, s, fuel - 1).value, fuel - 1)
  {
    hide Eval;
  }

  lemma ZeroTurns(e: Env, body: Prog, s: State, fuel: nat)
    requires ValidEnv(e) && ValidState(e, s) && Cur(s) % e.modulus == 0
    ensures EvalLoop(e, body, s, fuel) == Some(s)
  {
    ModSmall(Cur(s), e.modulus);
    hide Eval;
  }

  lemma {:induction false} LoopEnds(e: Env, body: Prog, s: State, n: nat)
    requires ValidEnv(e) && ValidState(e, s) && Net(body).Some?
    requires (Cur(s) + n * Net(body).value) % e.modulus == 0
    ensures EvalLoop(e, body, s, n).Some?
    decreases n
  {
    hide Eval;
    hide EvalLoop;
    hide Net;
    if n == 0 || Cur(s) == 0 {
      ModSmall(0, e.modulus);
      ZeroTurns(e, body, s, n);
    } else {
      OneTurn(e, body, s, n - 1);
      TurnsOnce(e, body, s, n);
      StepResidue(Cur(s), n, Net(body).value, e.modulus);
      LoopEnds(e, body, Eval(e, body, s, n - 1).value, n - 1);
    }
  }

  lemma {:induction false} LoopEnded(e: Env, body: Prog, s: State, fuel: nat) returns (n: nat)
    requires ValidEnv(e) && ValidState(e, s) && Net(body).Some? && EvalLoop(e, body, s, fuel).Some?
    ensures (Cur(s) + n * Net(body).value) % e.modulus == 0
    decreases fuel
  {
    hide Eval;
    hide EvalLoop;
    hide Net;
    if Cur(s) == 0 {
      n := 0;
      ModSmall(0, e.modulus);
    } else {
      TurnsOnce(e, body, s, fuel);
      OneTurn(e, body, s, fuel - 1);
      var s1 := Eval(e, body, s, fuel - 1).value;
      var n1 := LoopEnded(e, body, s1, fuel - 1);
      n := n1 + 1;
      LastTurn(Cur(s), Cur(s1), n, Net(body).value, e.modulus, n1);
    }
  }

  /** With an inverse k of d, adding d often enough takes any v to 0. */
  lemma InverseReachesZero(v: int, d: int, k: int, m: int) returns (n: nat)
    requires 0 <= v < m && 0 <= k && d * k % m == 1 % m
    ensures (v + n * d) % m == 0
  {
    MulNonNegative(m - v, k);
    n := (m - v) * k;
    var q, r := d * k / m, 1 % m;
    assert d * k == q * m + r;
    var a := m - v;
    assert n * d == a * (d * k) by {
      MulSwap(a, k, d);
    }
    assert a * (q * m + r) == (a * q) * m + a * r by {
      Expand(a, q, m, r);
    }
    if m == 1 {
      ModUnique(v + n * d, 1, v + n * d, 0);
    } else {
      ModSmall(1, m);
      assert v + n * d == (a * q + 1) * m by {
        Factor(a * q, m);
      }
      ModUnique(v + n * d, m, a * q + 1, 0);
    }
  }

  lemma Expand(a: int, q: int, m: int, r: int)
    ensures a * (q * m + r) == (a * q) * m + a * r
  {
  }

  lemma Factor(x: int, m: int)
    ensures x * m + m == (x + 1) * m
  {
  }

  /** If 1 can be taken to 0 by adding d, then d is invertible. */
  lemma ZeroGivesInverse(d: int, n: nat, m: int)
    requires m > 0 && (1 + n * d) % m == 0
    ensures Invertible(d, m)
  {
    var x: int := -(n as int);
    var k, q, p := x % m, (1 + n * d) / m, x / m;
    assert x == p * m + k;
    assert 1 + n * d == q * m;
    assert d * k == (-q - d * p) * m + 1 by {
      Inverse(d, n, p, q, m, k);
    }
    if m == 1 {
      ModUnique(d * k, 1, d * k, 0);
      ModUnique(1, 1, 1, 0);
    } else {
      ModUnique(d * k, m, -q - d * p, 1);
      ModSmall(1, m);
    }
  }

  lemma Inverse(d: int, n: int, p: int, q: int, m: int, k: int)
    requires -n == p * m + k && 1 + n * d == q * m
    ensures d * k == (-q - d * p) * m + 1
  {
    assert d * k == d * (-n - p * m) == -(n * d) - d * (p * m);
    assert d * (p * m) == (d * p) * m;
    assert (-q - d * p) * m == -(q * m) - (d * p) * m;
  }

  ghost predicate InterpEnds(e: Env, p: Prog, s: State)
    requires ValidEnv(e) && ValidState(e, s)
  {
    exists n, t :: InterpHalts(e, Flatten(p), s, n, t)
  }

  ghost predicate AlwaysEnds(e: Env, p: Prog)
    requires ValidEnv(e)
  {
    forall s | ValidState(e, s) :: InterpEnds(e, p, s)
  }

  /** A loop that folds to one update ends from every state exactly when its net change is invertible
      modulo the cell size. */
  lemma UpdateLoopEndsIff(e: Env, body: Prog)
    requires ValidEnv(e) && WellFormed(body) && OneUpdate(body).Some?
    ensures AlwaysEnds(e, Loop(body, End)) <==> Invertible(OneUpdate(body).value, e.modulus)
  {
    hide InterpEnds;
    hide Invertible;
    if Invertible(Net(body).value, e.modulus) {
      forall s | ValidState(e, s) ensures InterpEnds(e, Loop(body, End), s) {
        InvertibleHalts(e, body, s);
      }
    }
    if AlwaysEnds(e, Loop(body, End)) {
      HaltingInverts(e, body);
    }
  }

  lemma InvertibleEnds(e: Env, body: Prog, s: State) returns (fuel: nat)
    requires ValidEnv(e) && ValidState(e, s) && Net(body).Some? && Invertible(Net(body).value, e.modulus)
    ensures EvalLoop(e, body, s, fuel).Some?
  {
    var d, m := Net(body).value, e.modulus;
    var k :| 0 <= k < m && d * k % m == 1 % m;
    fuel := InverseReachesZero(Cur(s), d, k, m);
    LoopEnds(e, body, s, fuel);
  }

  lemma InvertibleHalts(e: Env, body: Prog, s: State)
    requires ValidEnv(e) && ValidState(e, s) && WellFormed(body) && Net(body).Some? && Invertible(Net(body).value, e.modulus)
    ensures InterpEnds(e, Loop(body, End), s)
  {
    var fuel := InvertibleEnds(e, body, s);
    EvalLone(e, body, s, fuel);
    EvalHalts(e, Loop(body, End), s, fuel);
  }

  lemma HaltingInverts(e: Env, body: Prog)
    requires ValidEnv(e) && WellFormed(body) && Net(body).Some? && AlwaysEnds(e, Loop(body, End))
    ensures Invertible(Net(body).value, e.modulus)
  {
    hide InterpEnds;
    hide Invertible;
    if e.modulus == 1 {
      OnlyZero(Net(body).value);
    } else {
      var s := State(seq(e.size, _ => 1), 0, 0, []);
      assert ValidState(e, s);
      EndsFromOne(e, body, s);
    }
  }

  lemma EndsFromOne(e: Env, body: Prog, s: State)
    requires ValidEnv(e) && ValidState(e, s) && WellFormed(body) && Net(body).Some? && Cur(s) == 1
    requires InterpEnds(e, Loop(body, End), s)
    ensures Invertible(Net(body).value, e.modulus)
  {
    hide InterpHalts;
    hide Flatten;
    hide Net;
    hide Eval;
    hide EvalLoop;
    hide Invertible;
    var n, t :| InterpHalts(e, Flatten(Loop(body, End)), s, n, t);
    InterpComputesEval(e, Loop(body, End), s, n, t);
    EvalLone(e, body, s, n);
    var k := LoopEnded(e, body, s, n);
    ZeroGivesInverse(Net(body).value, k, e.modulus);
  }

  lemma OnlyZero(d: int)
    ensures Invertible(d, 1)
  {
    assert d * 0 % 1 == 1 % 1;
  }

  // ----- which bodies fold to one update -----

  /** Nothing yet, or one value update. */
  predicate AtMostOneUpdate(b: Blocks) {
    b.Empty? || (b.Snoc? && b.init.Empty? && b.last.op == UPDATEVAL)
  }

  function Total(b: Blocks): (v: int) { if b.Snoc? then b.last.val1 else 0 }

  /** What follows cannot undo anything but a run of updates. */
  lemma {:induction false} BuildFromOther(order: HashOrder, b: Blocks, p: Prog)
    requires !AtMostOneUpdate(b)
    ensures !AtMostOneUpdate(Build(order, b, p))
    decreases p
  {
    match p
    case End =>
    case Prim(c, next) => BuildFromOther(order, PrimBlocks(b, c), next);
    case Loop(body, next) =>
      CloseIsOther(order, b, Build(order, Empty, body));
      BuildFromOther(order, CloseBlocks(order, b, Build(order, Empty, body)), next);
  }

  lemma CloseIsOther(order: HashOrder, b: Blocks, body: Blocks)
    ensures !AtMostOneUpdate(CloseBlocks(order, b, body))
  {
  }

  lemma {:induction false} BuildOneUpdate(order: HashOrder, b: Blocks, p: Prog)
    requires AtMostOneUpdate(b) && AtMostOneUpdate(Build(order, b, p))
    ensures Net(p).Some? && Total(Build(order, b, p)) == Total(b) + Net(p).value
    ensures b.Empty? && Build(order, b, p).Snoc? ==> Touches(p)
    decreases p
  {
    match p
    case End =>
    case Prim(c, next) =>
      if !AtMostOneUpdate(PrimBlocks(b, c)) {
        BuildFromOther(order, PrimBlocks(b, c), next);
      }
      BuildOneUpdate(order, PrimBlocks(b, c), next);
    case Loop(body, next) =>
      var bb := Build(order, Empty, body);
      CloseIsOther(order, b, bb);
      BuildFromOther(order, CloseBlocks(order, b, bb), next);
  }

  // ----- the blocks halt only if the source does -----

  lemma PrimReflects(e: Env, b: Blocks, s: State, c: char, fuel: nat)
    requires ValidEnv(e) && ValidState(e, s) && RunBlocks(e, PrimBlocks(b, c), s, fuel).Some?
    ensures RunBlocks(e, b, s, fuel).Some?
  {
    if c == '+' || c == '-' {
      EmitReflects(e, b, s, UPDATEVAL, if c == '+' then 1 else -1, fuel);
    } else if c == '>' || c == '<' {
      EmitReflects(e, b, s, SHIFTPTR, if c == '>' then 1 else -1, fuel);
    }
  }

  lemma EmitReflects(e: Env, b: Blocks, s: State, op: Opcode, delta: int, fuel: nat)
    requires ValidEnv(e) && ValidState(e, s) && (op == UPDATEVAL || op == SHIFTPTR)
    requires RunBlocks(e, EmitBlocks(b, op, delta), s, fuel).Some?
    ensures RunBlocks(e, b, s, fuel).Some?
  {
    hide RunBlocks;
    hide Simple;
    if b.Snoc? && b.last.op == op {
      RunSnoc(e, b.init, s, b.last, fuel);
      RunSnoc(e, b.init, s, b.last.(val1 := b.last.val1 + delta), fuel);
    } else {
      RunSnoc(e, b, s, Instr(op, delta, 0), fuel);
    }
  }

  lemma {:induction false} UpdatesReflect(e: Env, b: Blocks, ks: seq<int>, m: map<int, int>, s: State, fuel: nat)
    requires ValidEnv(e) && ValidState(e, s) && RunBlocks(e, AddUpdates(b, ks, m), s, fuel).Some?
    ensures RunBlocks(e, b, s, fuel).Some?
    decreases |ks|
  {
    if ks != [] {
      var emit := Get(m, ks[0]) != 0 && ks[0] != 0;
      var b' := if emit then Snoc(b, Instr(UPDATE_BY_CURR, ks[0], Get(m, ks[0]))) else b;
      UpdatesReflect(e, b', ks[1..], m, s, fuel);
      if emit {
        RunSnoc(e, b, s, b'.last, fuel);
      }
    }
  }

  /** Closing a loop keeps the blocks before it. */
  lemma CloseReflects(e: Env, order: HashOrder, b: Blocks, body: Blocks, s: State, fuel: nat)
    requires ValidEnv(e) && ValidState(e, s) && RunBlocks(e, CloseBlocks(order, b, body), s, fuel).Some?
    ensures RunBlocks(e, b, s, fuel).Some?
  {
    if body.Snoc? && body.init.Empty? && body.last.op == UPDATEVAL {
      RunSnoc(e, b, s, CLEAR_CURR, fuel);
    } else if body.Snoc? && body.init.Empty? && body.last.op == SHIFTPTR {
    } else if DistBlocks(body).Some? && Accepts(DistBlocks(body).value) {
      var u := AddUpdates(b, order(Layout(body, 0)), DistBlocks(body).value.to);
      RunSnoc(e, u, s, CLEAR_CURR, fuel);
      UpdatesReflect(e, b, order(Layout(body, 0)), DistBlocks(body).value.to, s, fuel);
    }
  }

  /** A distribution loop without aliasing always ends: its start cell counts down. */
  lemma {:induction false} DistributionEnds(e: Env, b: Blocks, s: State, ks: seq<int>, n: nat)
    requires ValidEnv(e) && ValidState(e, s) && DistBlocks(b).Some? && Accepts(DistBlocks(b).value)
    requires NoDup(ks) && (forall k :: k in DistBlocks(b).value.to ==> k in ks) && NoAlias(e.size, DistBlocks(b).value.to)
    requires n == Cur(s)
    ensures RunLoop(e, b, s, n).Some?
    decreases n
  {
    if n > 0 {
      PassAddsGains(e, b, s, n - 1, ks);
      var s1 := RunBlocks(e, b, s, n - 1).value;
      PassCountsDown(e, s, s1, ks, DistBlocks(b).value.to);
      hide Passed;
      DistributionEnds(e, b, s1, ks, n - 1);
    }
  }

  /** If the blocks built from a tree halt, so do the blocks before it and then the tree, and they end in
      the same state. */
  lemma {:induction false} BuildReflects(e: Env, order: HashOrder, b: Blocks, p: Prog, s: State, h: nat)
    returns (f: nat, g: nat)
    requires ValidEnv(e) && ValidState(e, s) && ValidOrder(order)
    requires Safe(e.size, p) && UpdatesInvertible(e.modulus, p) && RunBlocks(e, Build(order, b, p), s, h).Some?
    ensures RunBlocks(e, b, s, f).Some?
    ensures Eval(e, p, RunBlocks(e, b, s, f).value, g) == RunBlocks(e, Build(order, b, p), s, h)
    decreases p, 0, 0
  {
    match p
    case End =>
      f, g := h, 0;
    case Prim(c, next) =>
      f, g := BuildReflects(e, order, PrimBlocks(b, c), next, s, h);
      PrimReflects(e, b, s, c, f);
      PrimPreserves(e, b, s, c, f);
      EvalPrim(e, c, next, RunBlocks(e, b, s, f).value, g);
    case Loop(body, next) =>
      var bb := Build(order, Empty, body);
      var f1, g1 := BuildReflects(e, order, CloseBlocks(order, b, bb), next, s, h);
      CloseReflects(e, order, b, bb, s, f1);
      var s1 := RunBlocks(e, b, s, f1).value;
      var g2 := LoopReflects(e, order, b, body, s, f1);
      LoopAgrees(e, order, b, body, s, f1, g2);
      f, g := f1, Max(g1, g2);
      ThenNext(e, body, next, s1, g2, g1);
  }

  lemma ThenNext(e: Env, body: Prog, next: Prog, s: State, f: nat, g: nat)
    requires ValidEnv(e) && ValidState(e, s) && EvalLoop(e, body, s, f).Some?
    requires Eval(e, next, EvalLoop(e, body, s, f).value, g).Some?
    ensures Eval(e, Loop(body, next), s, Max(g, f)) == Eval(e, next, EvalLoop(e, body, s, f).value, g)
  {
    EvalLoopMonotone(e, body, s, f, Max(g, f));
    EvalMonotone(e, next, EvalLoop(e, body, s, f).value, g, Max(g, f));
  }

  /** If what a loop was compiled to halts, the loop does. */
  lemma {:induction false} LoopReflects(e: Env, order: HashOrder, b: Blocks, body: Prog, s: State, f: nat)
    returns (g: nat)
    requires ValidEnv(e) && ValidState(e, s) && ValidOrder(order)
    requires Safe(e.size, body) && LoopSafe(e.size, body) && UpdatesInvertible(e.modulus, body)
    requires OneUpdate(body).Some? ==> Invertible(OneUpdate(body).value, e.modulus)
    requires RunBlocks(e, CloseBlocks(order, b, Build(order, Empty, body)), s, f).Some? && RunBlocks(e, b, s, f).Some?
    ensures EvalLoop(e, body, RunBlocks(e, b, s, f).value, g).Some?
    decreases body, 2, 0
  {
    var bb, s1 := Build(order, Empty, body), RunBlocks(e, b, s, f).value;
    if bb.Snoc? && bb.init.Empty? && bb.last.op == UPDATEVAL {
      BuildOneUpdate(order, Empty, body);
      g := InvertibleEnds(e, body, s1);
    } else {
      var h := CompiledLoopEnds(e, order, b, body, s, f);
      g := BuildLoopReflects(e, order, body, s1, h);
    }
  }

  /** The other three forms: a search, a distribution or a loop of bytecode. */
  lemma CompiledLoopEnds(e: Env, order: HashOrder, b: Blocks, body: Prog, s: State, f: nat) returns (h: nat)
    requires ValidEnv(e) && ValidState(e, s) && ValidOrder(order) && LoopSafe(e.size, body)
    requires RunBlocks(e, CloseBlocks(order, b, Build(order, Empty, body)), s, f).Some? && RunBlocks(e, b, s, f).Some?
    requires var bb := Build(order, Empty, body);
             !(bb.Snoc? && bb.init.Empty? && bb.last.op == UPDATEVAL)
    ensures RunLoop(e, Build(order, Empty, body), RunBlocks(e, b, s, f).value, h).Some?
  {
    var bb, s1 := Build(order, Empty, body), RunBlocks(e, b, s, f).value;
    EffectOfBuild(order, Empty, body);
    DistEmpty();
    h := f;
    if bb.Snoc? && bb.init.Empty? && bb.last.op == SHIFTPTR {
      ShiftLoopSeeks(e, bb.last, s1, f);
    } else if DistBlocks(bb).Some? && Accepts(DistBlocks(bb).value) {
      DistOfLayout(bb, 0);
      assert Enumerates(order, Layout(bb, 0));
      h := Cur(s1);
      DistributionEnds(e, bb, s1, order(Layout(bb, 0)), h);
    }
  }

  lemma {:induction false} BuildLoopReflects(e: Env, order: HashOrder, body: Prog, s: State, h: nat) returns (g: nat)
    requires ValidEnv(e) && ValidState(e, s) && ValidOrder(order)
    requires Safe(e.size, body) && UpdatesInvertible(e.modulus, body)
    requires RunLoop(e, Build(order, Empty, body), s, h).Some?
    ensures EvalLoop(e, body, s, g).Some?
    decreases body, 1, h
  {
    if Cur(s) == 0 {
      g := 0;
    } else {
      var bb := Build(order, Empty, body);
      var f1, g1 := BuildReflects(e, order, Empty, body, s, h - 1);
      var s1 := RunBlocks(e, bb, s, h - 1).value;
      assert RunBlocks(e, Empty, s, f1) == Some(s);
      var g2 := BuildLoopReflects(e, order, body, s1, h - 1);
      EvalMonotone(e, body, s, g1, Max(g1, g2));
      EvalLoopMonotone(e, body, s1, g2, Max(g1, g2));
      g := Max(g1, g2) + 1;
    }
  }

  /** Once the loop halts, what it was compiled to ends in the same state. */
  lemma LoopAgrees(e: Env, order: HashOrder, b: Blocks, body: Prog, s: State, f: nat, g: nat)
    requires ValidEnv(e) && ValidState(e, s) && ValidOrder(order) && Safe(e.size, body) && LoopSafe(e.size, body)
    requires RunBlocks(e, CloseBlocks(order, b, Build(order, Empty, body)), s, f).Some? && RunBlocks(e, b, s, f).Some?
    requires EvalLoop(e, body, RunBlocks(e, b, s, f).value, g).Some?
    ensures EvalLoop(e, body, RunBlocks(e, b, s, f).value, g)
         == RunBlocks(e, CloseBlocks(order, b, Build(order, Empty, body)), s, f)
  {
    var bb, s1 := Build(order, Empty, body), RunBlocks(e, b, s, f).value;
    var h := BuildLoopPreserves(e, order, body, s1, g);
    var m := Max(f, h);
    RunBlocksMonotone(e, b, s, f, m);
    RunLoopMonotone(e, bb, s1, h, m);
    EffectOfBuild(order, Empty, body);
    DistEmpty();
    ClosePreserves(e, order, b, bb, s, m);
    RunBlocksMonotone(e, CloseBlocks(order, b, bb), s, f, m);
  }

  // ----- the compiler is exact -----

  ghost predicate InterpEndsIn(e: Env, p: Prog, s: State, t: State)
    requires ValidEnv(e) && ValidState(e, s)
  {
    exists n :: InterpHalts(e, Flatten(p), s, n, t)
  }

  ghost predicate BytecodeEndsIn(e: Env, order: HashOrder, p: Prog, s: State, t: State)
    requires ValidEnv(e) && ValidState(e, s)
  {
    exists m :: MachineHalts(e, Compiled(e, order, Flatten(p)), s, m, t)
  }

  /** If the bytecode halts, so does the interpreter, in the same state. */
  lemma CompilerReflects(e: Env, order: HashOrder, p: Prog, s: State, m: nat, t: State)
    requires ValidEnv(e) && ValidState(e, s) && ValidOrder(order) && WellFormed(p)
    requires Safe(e.size, p) && UpdatesInvertible(e.modulus, p)
    requires MachineHalts(e, Compiled(e, order, Flatten(p)), s, m, t)
    ensures InterpEndsIn(e, p, s, t)
  {
    var h := MachineReflects(e, order, p, s, m, t);
    var f, g := BuildReflects(e, order, Empty, p, s, h);
    assert RunBlocks(e, Empty, s, f) == Some(s);
    EvalHalts(e, p, s, g);
  }

  /** Interpreter and bytecode halt on the same states, in the same states. */
  lemma CompilerExact(e: Env, order: HashOrder, p: Prog, s: State, t: State)
    requires ValidEnv(e) && ValidState(e, s) && ValidOrder(order) && WellFormed(p)
    requires Safe(e.size, p) && UpdatesInvertible(e.modulus, p)
    ensures InterpEndsIn(e, p, s, t) <==> BytecodeEndsIn(e, order, p, s, t)
  {
    if n :| InterpHalts(e, Flatten(p), s, n, t) {
      var m := CompilerCorrect(e, order, p, s, n, t);
    }
    if m :| MachineHalts(e, Compiled(e, order, Flatten(p)), s, m, t) {
      CompilerReflects(e, order, p, s, m, t);
    }
  }

  // ----- for a loop that folds to one update the condition is also necessary -----

  lemma {:induction false} NetBuilds(order: HashOrder, b: Blocks, p: Prog)
    requires AtMostOneUpdate(b) && Net(p).Some?
    ensures AtMostOneUpdate(Build(order, b, p)) && (b.Snoc? || Touches(p) ==> Build(order, b, p).Snoc?)
    decreases p
  {
    if p.Prim? {
      NetBuilds(order, PrimBlocks(b, p.c), p.next);
    }
  }

  lemma {:induction false} NetStays(d: Dist, p: Prog)
    requires Net(p).Some? && d.shift == 0 && forall k :: k in d.to ==> k == 0
    ensures Effect(d, p).Some? && Effect(d, p).value.shift == 0 && forall k :: k in Effect(d, p).value.to ==> k == 0
    decreases p
  {
    if p.Prim? {
      NetStays(CharEffect(d, p.c).value, p.next);
    }
  }

  lemma {:induction false} NetHasNoLoops(size: int, m: int, p: Prog)
    requires Net(p).Some? && size > 0 && m > 0
    ensures Safe(size, p) && UpdatesInvertible(m, p)
    decreases p
  {
    if p.Prim? {
      NetHasNoLoops(size, m, p.next);
    }
  }

  lemma LoneLoopClears(e: Env, order: HashOrder, body: Prog, s: State)
    requires ValidEnv(e) && ValidState(e, s) && WellFormed(body) && OneUpdate(body).Some?
    ensures BytecodeEndsIn(e, order, Loop(body, End), s, Put(s, 0))
  {
    var p := Loop(body, End);
    NetBuilds(order, Empty, body);
    assert CloseBlocks(order, Empty, Build(order, Empty, body)) == Snoc(Empty, CLEAR_CURR);
    assert Build(order, Snoc(Empty, CLEAR_CURR), End) == Snoc(Empty, CLEAR_CURR);
    assert RunBlocks(e, Empty, s, 0) == Some(s);
    assert RunBlocks(e, Snoc(Empty, CLEAR_CURR), s, 0) == Some(Put(s, 0));
    var m := CompiledHaltsAsBlocks(e, order, p, s, 0);
  }

  /** Interpreter and bytecode end alike from s. */
  ghost predicate EndAlike(e: Env, order: HashOrder, p: Prog, s: State)
    requires ValidEnv(e) && ValidState(e, s)
  {
    forall t :: InterpEndsIn(e, p, s, t) <==> BytecodeEndsIn(e, order, p, s, t)
  }

  /** A program that is one such loop ends alike from all states exactly when its net change is invertible. */
  lemma LoneLoopExactIff(e: Env, order: HashOrder, body: Prog)
    requires ValidEnv(e) && ValidOrder(order) && WellFormed(body) && OneUpdate(body).Some?
    ensures (forall s | ValidState(e, s) :: EndAlike(e, order, Loop(body, End), s))
       <==> Invertible(OneUpdate(body).value, e.modulus)
  {
    var p := Loop(body, End);
    NetStays(NOTHING, body);
    NetHasNoLoops(e.size, e.modulus, body);
    assert Safe(e.size, p);
    if Invertible(OneUpdate(body).value, e.modulus) {
      assert UpdatesInvertible(e.modulus, p);
      hide UpdatesInvertible;
      hide Safe;
      forall s | ValidState(e, s) ensures EndAlike(e, order, p, s) {
        forall t ensures InterpEndsIn(e, p, s, t) <==> BytecodeEndsIn(e, order, p, s, t) {
          CompilerExact(e, order, p, s, t);
        }
      }
    }
    if forall s | ValidState(e, s) :: EndAlike(e, order, p, s) {
      forall s | ValidState(e, s) ensures InterpEnds(e, p, s) {
        LoneLoopClears(e, order, body, s);
        assert EndAlike(e, order, p, s);
        assert InterpEndsIn(e, p, s, Put(s, 0));
      }
      UpdateLoopEndsIff(e, body);
    }
  }
}
