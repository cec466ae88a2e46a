/** A distribution loop that comes back to its start cell round the tape is compiled wrongly. */
module BrainfuckAliasing {
  import opened Wrappers
  import opened ModArith
  import opened BrainfuckSource
  import opened BrainfuckBytecode
  import opened BrainfuckLoops
  import opened BrainfuckCompiler
  import opened BrainfuckCorrect
  import opened BrainfuckLimits

  /** The same move n times. */
  function Moves(c: char, n: nat, p: Prog): (r: Prog) {
    if n == 0 then p else Prim(c, Moves(c, n - 1, p))
  }

  /** Once round a tape of n cells, two added there; back to cell 1, one added; and one taken off cell 0. */
  function RoundBody(n: nat): (p: Prog)
    requires n >= 1
  {
    Moves('>', n, Prim('+', Prim('+', Moves('<', n - 1, Prim('+', Prim('<', Prim('-', End)))))))
  }

  function Round(n: nat): (p: Prog)
    requires n >= 1
  {
    Loop(RoundBody(n), End)
  }

  function Gains(n: nat): (m: map<int, int>) { map[n := 2][1 := 1][0 := -1] }

  lemma {:induction false} MovesWellFormed(c: char, n: nat, p: Prog)
    requires WellFormed(p) && c != '[' && c != ']'
    ensures WellFormed(Moves(c, n, p))
  {
    if n > 0 {
      MovesWellFormed(c, n - 1, p);
    }
  }

  lemma RoundWellFormed(n: nat)
    requires n >= 1
    ensures WellFormed(Round(n))
  {
    var tail := Prim('+', Prim('<', Prim('-', End)));
    MovesWellFormed('<', n - 1, tail);
    MovesWellFormed('>', n, Prim('+', Prim('+', Moves('<', n - 1, tail))));
  }

  // ----- what the compiler sees -----

  lemma {:induction false} EffectOfMoves(d: Dist, c: char, n: nat, p: Prog)
    requires c == '>' || c == '<'
    ensures Effect(d, Moves(c, n, p)) == Effect(d.(shift := d.shift + if c == '>' then n else -(n as int)), p)
    decreases n
  {
    if n > 0 {
      EffectOfMoves(CharEffect(d, c).value, c, n - 1, p);
    }
  }

  lemma EffectOfChar(d: Dist, c: char, p: Prog)
    requires CharEffect(d, c).Some?
    ensures Effect(d, Prim(c, p)) == Effect(CharEffect(d, c).value, p) && Effect(d, End) == Some(d)
  {
  }

  lemma RoundEffect(n: nat)
    requires n >= 2
    ensures Effect(NOTHING, RoundBody(n)) == Some(Dist(0, Gains(n)))
  {
    hide Effect;
    var p3 := Prim('-', End);
    var p1 := Prim('+', Prim('<', p3));
    var back := Moves('<', n - 1, p1);
    EffectOfMoves(NOTHING, '>', n, Prim('+', Prim('+', back)));
    EffectOfChar(Dist(n, map[]), '+', Prim('+', back));
    EffectOfChar(Dist(n, map[n := 1]), '+', back);
    EffectOfMoves(Dist(n, map[n := 2]), '<', n - 1, p1);
    EffectOfChar(Dist(1, map[n := 2]), '+', Prim('<', p3));
    EffectOfChar(Dist(1, map[n := 2][1 := 1]), '<', p3);
    EffectOfChar(Dist(0, map[n := 2][1 := 1]), '-', End);
    EffectOfChar(Dist(0, Gains(n)), '-', End);
    Bumps(n);
  }

  lemma Bumps(n: nat)
    requires n >= 2
    ensures CharEffect(Dist(n, map[]), '+') == Some(Dist(n, map[n := 1]))
    ensures CharEffect(Dist(n, map[n := 1]), '+') == Some(Dist(n, map[n := 2]))
    ensures CharEffect(Dist(1, map[n := 2]), '+') == Some(Dist(1, map[n := 2][1 := 1]))
    ensures CharEffect(Dist(0, map[n := 2][1 := 1]), '-') == Some(Dist(0, Gains(n)))
  {
    assert map[n := 1][n := 2] == map[n := 2];
  }

  /** The loop is compiled to two updates and a clear, in the order of the hash table. */
  lemma RoundCompiled(order: HashOrder, n: nat) returns (ks: seq<int>)
    requires ValidOrder(order) && n >= 2
    ensures Build(order, Empty, Round(n)) == Snoc(AddUpdates(Empty, ks, Gains(n)), CLEAR_CURR)
    ensures NoDup(ks) && forall k :: k in ks <==> k in Gains(n)
  {
    var bb := Build(order, Empty, RoundBody(n));
    EffectOfBuild(order, Empty, RoundBody(n));
    DistEmpty();
    RoundEffect(n);
    NotSingle(bb, n);
    hide Effect;
    DistOfLayout(bb, 0);
    ks := order(Layout(bb, 0));
    assert Enumerates(order, Layout(bb, 0));
    hide DistBlocks;
    hide Layout;
    assert CloseBlocks(order, Empty, bb) == Snoc(AddUpdates(Empty, ks, Gains(n)), CLEAR_CURR);
    BuildLone(order, RoundBody(n));
  }

  lemma BuildLone(order: HashOrder, body: Prog)
    ensures Build(order, Empty, Loop(body, End)) == CloseBlocks(order, Empty, Build(order, Empty, body))
  {
  }

  lemma NotSingle(b: Blocks, n: nat)
    requires n >= 2 && DistBlocks(b) == Some(Dist(0, Gains(n)))
    ensures !(b.Snoc? && b.init.Empty?)
  {
    assert n in Gains(n) && 1 in Gains(n) && 0 in Gains(n);
    DistEmpty();
  }

  // ----- what the interpreter does -----

  lemma {:induction false} EvalMoves(e: Env, c: char, n: nat, p: Prog, s: State, fuel: nat)
    requires ValidEnv(e) && ValidState(e, s) && (c == '>' || c == '<')
    ensures Eval(e, Moves(c, n, p), s, fuel) == Eval(e, p, Shift(e, s, if c == '>' then n else -(n as int)), fuel)
    decreases n
  {
    if n == 0 {
      ModSmall(s.ptr, e.size);
    } else {
      var d: int := if c == '>' then 1 else -1;
      PrimIsShift(e, s);
      EvalPrim(e, c, Moves(c, n - 1, p), s, fuel);
      EvalMoves(e, c, n - 1, p, Shift(e, s, d), fuel);
      AddTwice(e, s, d, d * (n - 1));
    }
  }

  /** One pass adds one to cells 0 and 1. */
  lemma RoundPass(e: Env, s: State, fuel: nat)
    requires ValidEnv(e) && e.size >= 2 && ValidState(e, s) && s.ptr == 0
    ensures Eval(e, RoundBody(e.size), s, fuel)
         == Some(s.(mem := s.mem[0 := (s.mem[0] + 1) % e.modulus][1 := (s.mem[1] + 1) % e.modulus]))
  {
    hide Eval;
    var n, tail := e.size, Prim('+', Prim('<', Prim('-', End)));
    var back := Moves('<', n - 1, tail);
    Positions(n);
    EvalMoves(e, '>', n, Prim('+', Prim('+', back)), s, fuel);
    assert Shift(e, s, n) == s;
    EvalPrim(e, '+', Prim('+', back), s, fuel);
    EvalPrim(e, '+', back, Prim1(e, '+', s), fuel);
    PrimIsAdd(e, s);
    PrimIsAdd(e, Add(e, s, 1));
    AddTwice(e, s, 1, 1);
    var s2 := Add(e, s, 2);
    EvalMoves(e, '<', n - 1, tail, s2, fuel);
    assert Shift(e, s2, -(n - 1)) == s2.(ptr := 1);
    RoundTail(e, s2.(ptr := 1), fuel);
    PassSums(e, s);
    assert s2.mem[1 := (s.mem[1] + 1) % e.modulus][0 := (s.mem[0] + 1) % e.modulus]
        == s.mem[0 := (s.mem[0] + 1) % e.modulus][1 := (s.mem[1] + 1) % e.modulus];
  }

  lemma RoundTail(e: Env, s: State, fuel: nat)
    requires ValidEnv(e) && e.size >= 2 && ValidState(e, s) && s.ptr == 1
    ensures Eval(e, Prim('+', Prim('<', Prim('-', End))), s, fuel)
         == Some(s.(mem := s.mem[1 := (s.mem[1] + 1) % e.modulus][0 := (s.mem[0] + -1) % e.modulus], ptr := 0))
  {
    hide Eval;
    Positions(e.size);
    var s4 := Add(e, s, 1);
    var s5 := s4.(ptr := 0);
    EvalPrim(e, '+', Prim('<', Prim('-', End)), s, fuel);
    PrimIsAdd(e, s);
    EvalPrim(e, '<', Prim('-', End), s4, fuel);
    PrimIsShift(e, s4);
    assert Shift(e, s4, -1) == s5;
    EvalPrim(e, '-', End, s5, fuel);
    PrimIsAdd(e, s5);
    EvalPrim(e, '-', End, Add(e, s5, -1), fuel);
  }

  lemma Positions(n: int)
    requires n >= 2
    ensures n % n == 0 && (0 + n) % n == 0 && (0 + -(n - 1)) % n == 1 && (1 + -1) % n == 0
  {
    ModUnique(n, n, 1, 0);
    ModUnique(-(n - 1), n, -1, 1);
    ModSmall(0, n);
  }

  lemma PassSums(e: Env, s: State)
    requires ValidEnv(e) && ValidState(e, s) && s.ptr == 0
    ensures ((s.mem[0] + 2) % e.modulus + -1) % e.modulus == (s.mem[0] + 1) % e.modulus
  {
    ModAdd(s.mem[0] + 2, -1, e.modulus);
  }

  /** With cell 0 at M - j the loop makes j passes. */
  lemma {:induction false} RoundLoop(e: Env, s: State, j: nat)
    requires ValidEnv(e) && e.size >= 2 && ValidState(e, s) && s.ptr == 0 && j < e.modulus
    requires s.mem[0] == (e.modulus - j) % e.modulus
    ensures EvalLoop(e, RoundBody(e.size), s, j) == Some(s.(mem := s.mem[0 := 0][1 := (s.mem[1] + j) % e.modulus]))
    decreases j
  {
    hide Eval;
    var m := e.modulus;
    if j == 0 {
      ModUnique(m, m, 1, 0);
      ModSmall(s.mem[1], m);
      assert s.mem[0 := 0][1 := s.mem[1]] == s.mem;
    } else {
      ModSmall(m - j, m);
      RoundPass(e, s, j - 1);
      var s1 := s.(mem := s.mem[0 := (s.mem[0] + 1) % m][1 := (s.mem[1] + 1) % m]);
      assert Cur(s) != 0;
      RoundLoop(e, s1, j - 1);
      ModAdd(s.mem[1] + 1, j - 1, m);
      assert s.mem[1] + 1 + (j - 1) == s.mem[1] + j;
      assert s1.mem[0 := 0][1 := (s.mem[1] + j) % m] == s.mem[0 := 0][1 := (s.mem[1] + j) % m];
    }
  }

  /** From cell 0 at 1 and cell 1 at 0 the interpreter ends with M - 1 in cell 1. */
  lemma RoundInterpreted(e: Env, s: State, t: State)
    requires ValidEnv(e) && e.size >= 2 && e.modulus >= 2 && ValidState(e, s) && s.ptr == 0 && s.mem[0] == 1 && s.mem[1] == 0
    requires t == s.(mem := s.mem[0 := 0][1 := e.modulus - 1])
    ensures exists n :: InterpHalts(e, Flatten(Round(e.size)), s, n, t)
  {
    var m := e.modulus;
    ModSmall(1, m);
    ModSmall(m - 1, m);
    RoundLoop(e, s, m - 1);
    RoundWellFormed(e.size);
    EvalLone(e, RoundBody(e.size), s, m - 1);
    EvalHalts(e, Round(e.size), s, m - 1);
  }

  // ----- what the bytecode does -----

  lemma UpdateByN(e: Env, s: State)
    requires ValidEnv(e) && e.size >= 2 && e.modulus >= 5 && ValidState(e, s) && s.ptr == 0 && s.mem[0] == 1
    ensures AddScaled(e, s, e.size, 2) == s.(mem := s.mem[0 := 3])
  {
    Positions(e.size);
    ModSmall(3, e.modulus);
    hide CppMod;
  }

  lemma UpdateByOne(e: Env, s: State)
    requires ValidEnv(e) && e.size >= 2 && e.modulus >= 5 && ValidState(e, s) && s.ptr == 0 && s.mem[0] <= 3 && s.mem[1] == 0
    ensures AddScaled(e, s, 1, 1) == s.(mem := s.mem[1 := s.mem[0]])
  {
    ModSmall(1, e.size);
    ModSmall(s.mem[0], e.modulus);
    hide CppMod;
  }

  /** Cell 1 receives at most 3, in whatever order the updates come. */
  lemma {:induction false} RoundUpdates(e: Env, b: Blocks, ks: seq<int>, s: State, s1: State)
    requires ValidEnv(e) && e.size >= 2 && e.modulus >= 5 && ValidState(e, s) && ValidState(e, s1)
    requires NoDup(ks) && (forall k :: k in ks ==> k in Gains(e.size))
    requires RunBlocks(e, b, s, 0) == Some(s1) && s1.ptr == 0
    requires s1.mem[0] == 1 || (e.size !in ks && s1.mem[0] == 3)
    requires s1.mem[1] == 0 || (1 !in ks && s1.mem[1] <= 3)
    ensures var r := RunBlocks(e, AddUpdates(b, ks, Gains(e.size)), s, 0);
            r.Some? && r.value.ptr == 0 && r.value.mem[1] <= 3
    decreases |ks|
  {
    if ks != [] {
      var k, rest := ks[0], ks[1..];
      assert k in ks && k !in rest;
      assert forall j :: j in rest ==> j in ks;
      assert k == e.size || k == 1 || k == 0;
      var f := Get(Gains(e.size), k);
      AddUpdatesNext(b, ks, Gains(e.size));
      if k == 0 {
        RoundUpdates(e, b, rest, s, s1);
      } else {
        var s2 := if k == 1 then s1.(mem := s1.mem[1 := s1.mem[0]]) else s1.(mem := s1.mem[0 := 3]);
        var b' := Snoc(b, Instr(UPDATE_BY_CURR, k, f));
        assert RunBlocks(e, b', s, 0) == Some(s2) by {
          RunSnoc(e, b, s, Instr(UPDATE_BY_CURR, k, f), 0);
          if k == 1 {
            UpdateByOne(e, s1);
          } else {
            UpdateByN(e, s1);
          }
        }
        hide RunBlocks;
        hide AddUpdates;
        RoundUpdates(e, b', rest, s, s2);
      }
    }
  }

  lemma AddUpdatesNext(b: Blocks, ks: seq<int>, m: map<int, int>)
    requires ks != []
    ensures ks[0] == 0 ==> AddUpdates(b, ks, m) == AddUpdates(b, ks[1..], m)
    ensures ks[0] != 0 && Get(m, ks[0]) != 0 ==>
              AddUpdates(b, ks, m) == AddUpdates(Snoc(b, Instr(UPDATE_BY_CURR, ks[0], Get(m, ks[0]))), ks[1..], m)
  {
  }

  lemma RoundExecuted(e: Env, order: HashOrder, s: State, m: nat, t: State)
    requires ValidEnv(e) && ValidOrder(order) && e.size >= 2 && e.modulus >= 5 && ValidState(e, s)
    requires s.ptr == 0 && s.mem[0] == 1 && s.mem[1] == 0
    requires MachineHalts(e, Compiled(e, order, Flatten(Round(e.size))), s, m, t)
    ensures |t.mem| == e.size && t.mem[1] <= 3
  {
    var ks := RoundCompiled(order, e.size);
    RoundWellFormed(e.size);
    hide MachineHalts;
    assert RunBlocks(e, Empty, s, 0) == Some(s);
    RoundUpdates(e, Empty, ks, s, s);
    RunSnoc(e, AddUpdates(Empty, ks, Gains(e.size)), s, CLEAR_CURR, 0);
    hide RunBlocks;
    hide Build;
    hide AddUpdates;
    MachineHaltsAsBlocks(e, order, Round(e.size), s, 0, m, t);
  }

  /** Without the aliasing condition the compiler is wrong, on every tape of at least two cells and for
      every modulus of at least five, whatever the hash order. */
  lemma AliasingLoopMiscompiled(e: Env, order: HashOrder, s: State)
    requires ValidEnv(e) && ValidOrder(order) && e.size >= 2 && e.modulus >= 5 && ValidState(e, s)
    requires s.ptr == 0 && s.mem[0] == 1 && s.mem[1] == 0
    ensures WellFormed(Round(e.size)) && !Safe(e.size, Round(e.size))
    ensures !Agrees(e, e, order, Flatten(Round(e.size)), s)
  {
    RoundWellFormed(e.size);
    RoundUnsafe(e.size);
    var t := s.(mem := s.mem[0 := 0][1 := e.modulus - 1]);
    RoundInterpreted(e, s, t);
    forall m ensures !MachineHalts(e, Compiled(e, order, Flatten(Round(e.size))), s, m, t) {
      if MachineHalts(e, Compiled(e, order, Flatten(Round(e.size))), s, m, t) {
        RoundExecuted(e, order, s, m, t);
      }
    }
    hide InterpHalts;
    hide MachineHalts;
    hide Round;
  }

  lemma RoundUnsafe(n: nat)
    requires n >= 2
    ensures !Safe(n, Round(n))
  {
    RoundEffect(n);
    ModUnique(n, n, 1, 0);
    assert n in Gains(n) && Gains(n)[n] == 2;
    assert !NoAlias(n, Gains(n));
  }
}
