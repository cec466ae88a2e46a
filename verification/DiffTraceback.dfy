/** The tracebacks of cdiff: the edit script of the unified form and the hunks of the default form. */
module DiffTraceback {
  import opened Seqs
  import opened DiffLcs

  datatype Tag = Keep | Remove | Insert

  /** One output line: its tag, its text, and how many lines of each file come before it. */
  datatype Delta = Delta(i: nat, j: nat, tag: Tag, line: Line)

  ghost function Old(ds: seq<Delta>): (r: seq<Line>) {
    if ds == [] then []
    else Old(ds[..|ds| - 1]) + (if ds[|ds| - 1].tag == Insert then [] else [ds[|ds| - 1].line])
  }

  ghost function New(ds: seq<Delta>): (r: seq<Line>) {
    if ds == [] then []
    else New(ds[..|ds| - 1]) + (if ds[|ds| - 1].tag == Remove then [] else [ds[|ds| - 1].line])
  }

  ghost function Kept(ds: seq<Delta>): (r: seq<Line>) {
    if ds == [] then []
    else Kept(ds[..|ds| - 1]) + (if ds[|ds| - 1].tag == Keep then [ds[|ds| - 1].line] else [])
  }

  ghost predicate Numbered(ds: seq<Delta>) {
    forall k :: 0 <= k < |ds| ==> ds[k].i == |Old(ds[..k])| && ds[k].j == |New(ds[..k])|
  }

  predicate SameLine(a: seq<Line>, b: seq<Line>, i: nat, j: nat)
    requires i <= |a| && j <= |b|
  {
    i > 0 && j > 0 && a[i - 1] == b[j - 1]
  }

  /** The branch the tracebacks take where the prefixes do not end in the same line:
      remove only when that strictly beats inserting. */
  ghost predicate Removes(a: seq<Line>, b: seq<Line>, i: nat, j: nat)
    requires i <= |a| && j <= |b|
  {
    i > 0 && (j == 0 || Lcs(a, b, i - 1, j) > Lcs(a, b, i, j - 1))
  }

  /** The edit script the tie rule selects for the first i and j lines. */
  ghost function Script(a: seq<Line>, b: seq<Line>, i: nat, j: nat): (ds: seq<Delta>)
    requires i <= |a| && j <= |b|
    decreases i + j
  {
    if i == 0 && j == 0 then []
    else if SameLine(a, b, i, j) then Script(a, b, i - 1, j - 1) + [Delta(i - 1, j - 1, Keep, a[i - 1])]
    else if Removes(a, b, i, j) then Script(a, b, i - 1, j) + [Delta(i - 1, j, Remove, a[i - 1])]
    else Script(a, b, i, j - 1) + [Delta(i, j - 1, Insert, b[j - 1])]
  }

  lemma SnocViews(ds: seq<Delta>, d: Delta)
    ensures Old(ds + [d]) == Old(ds) + (if d.tag == Insert then [] else [d.line])
    ensures New(ds + [d]) == New(ds) + (if d.tag == Remove then [] else [d.line])
    ensures Kept(ds + [d]) == Kept(ds) + (if d.tag == Keep then [d.line] else [])
  {
    assert (ds + [d])[..|ds|] == ds;
  }

  lemma NumberedSnoc(ds: seq<Delta>, d: Delta)
    requires Numbered(ds) && d.i == |Old(ds)| && d.j == |New(ds)|
    ensures Numbered(ds + [d])
  {
    hide Old;
    hide New;
    var all := ds + [d];
    forall k | 0 <= k < |all| ensures all[k].i == |Old(all[..k])| && all[k].j == |New(all[..k])| {
      assert all[..k] == if k < |ds| then ds[..k] else ds;
    }
  }

  ghost predicate Spells(ds: seq<Delta>, a: seq<Line>, b: seq<Line>, i: nat, j: nat)
    requires i <= |a| && j <= |b|
  {
    Old(ds) == a[..i] && New(ds) == b[..j] && Numbered(ds) && |Kept(ds)| == Lcs(a, b, i, j)
  }

  lemma SpellsSnoc(ds: seq<Delta>, d: Delta, a: seq<Line>, b: seq<Line>, i: nat, j: nat, i': nat, j': nat)
    requires i <= |a| && j <= |b| && Spells(ds, a, b, i, j) && d.i == i && d.j == j
    requires i' == (if d.tag == Insert then i else i + 1) <= |a| && (d.tag != Insert ==> d.line == a[i])
    requires j' == (if d.tag == Remove then j else j + 1) <= |b| && (d.tag != Remove ==> d.line == b[j])
    requires Lcs(a, b, i', j') == Lcs(a, b, i, j) + (if d.tag == Keep then 1 else 0)
    ensures Spells(ds + [d], a, b, i', j')
  {
    hide Old;
    hide New;
    hide Kept;
    hide Numbered;
    hide Lcs;
    SnocViews(ds, d);
    NumberedSnoc(ds, d);
    if d.tag != Insert {
      assert a[..i'] == a[..i] + [a[i]];
    }
    if d.tag != Remove {
      assert b[..j'] == b[..j] + [b[j]];
    }
  }

  /** The grid along the path of the traceback. */
  lemma LcsAtBranch(a: seq<Line>, b: seq<Line>, i: nat, j: nat)
    requires i <= |a| && j <= |b|
    ensures i == 0 && j == 0 ==> Lcs(a, b, i, j) == 0
    ensures SameLine(a, b, i, j) ==> Lcs(a, b, i, j) == 1 + Lcs(a, b, i - 1, j - 1)
    ensures !SameLine(a, b, i, j) && Removes(a, b, i, j) ==> i > 0 && Lcs(a, b, i, j) == Lcs(a, b, i - 1, j)
    ensures !SameLine(a, b, i, j) && !Removes(a, b, i, j) && (i > 0 || j > 0) ==> j > 0 && Lcs(a, b, i, j) == Lcs(a, b, i, j - 1)
  {
  }

  /** The last step of the script, and the shorter prefixes it leaves. */
  lemma ScriptStep(a: seq<Line>, b: seq<Line>, i: nat, j: nat) returns (i0: nat, j0: nat, d: Delta)
    requires i <= |a| && j <= |b| && (i > 0 || j > 0)
    ensures i0 <= i && j0 <= j && i0 + j0 < i + j && d.i == i0 && d.j == j0
    ensures Script(a, b, i, j) == Script(a, b, i0, j0) + [d]
    ensures i == (if d.tag == Insert then i0 else i0 + 1) && (d.tag != Insert ==> d.line == a[i0])
    ensures j == (if d.tag == Remove then j0 else j0 + 1) && (d.tag != Remove ==> d.line == b[j0])
    ensures Lcs(a, b, i, j) == Lcs(a, b, i0, j0) + (if d.tag == Keep then 1 else 0)
  {
    LcsAtBranch(a, b, i, j);
    hide Lcs;
    hide Removes;
    if SameLine(a, b, i, j) {
      i0, j0, d := i - 1, j - 1, Delta(i - 1, j - 1, Keep, a[i - 1]);
    } else if Removes(a, b, i, j) {
      i0, j0, d := i - 1, j, Delta(i - 1, j, Remove, a[i - 1]);
    } else {
      i0, j0, d := i, j - 1, Delta(i, j - 1, Insert, b[j - 1]);
    }
  }

  /** The script spells both files, numbers its lines, and keeps as many lines as the grid says. */
  lemma {:induction false} ScriptSpells(a: seq<Line>, b: seq<Line>, i: nat, j: nat)
    requires i <= |a| && j <= |b|
    ensures Spells(Script(a, b, i, j), a, b, i, j)
    decreases i + j
  {
    if i > 0 || j > 0 {
      hide Lcs;
      hide Script;
      hide Spells;
      var i0, j0, d := ScriptStep(a, b, i, j);
      ScriptSpells(a, b, i0, j0);
      SpellsSnoc(Script(a, b, i0, j0), d, a, b, i0, j0, i, j);
    }
  }

  /** The kept lines embed into the old file and into the new one. */
  lemma {:induction false} KeptEmbeds(ds: seq<Delta>) returns (f: seq<nat>, g: seq<nat>)
    ensures Embeds(Kept(ds), Old(ds), f) && Embeds(Kept(ds), New(ds), g)
    decreases |ds|
  {
    if ds == [] {
      f, g := [], [];
    } else {
      var d, init := ds[|ds| - 1], ds[..|ds| - 1];
      var f0, g0 := KeptEmbeds(init);
      f, g := f0, g0;
      EmbedsSnoc(Kept(init), Old(init), f0, d.line);
      EmbedsSnoc(Kept(init), New(init), g0, d.line);
      hide Embeds;
      if d.tag == Keep {
        f, g := f0 + [|Old(init)|], g0 + [|New(init)|];
      }
    }
  }

  lemma EmbedsSnoc(c: seq<Line>, s: seq<Line>, f: seq<nat>, x: Line)
    requires Embeds(c, s, f)
    ensures Embeds(c, s + [x], f) && Embeds(c + [x], s + [x], f + [|s|]) && s + [] == s && c + [] == c
  {
  }

  /** The kept lines are a longest common subsequence, and the grid value is that maximum. */
  lemma ScriptIsOptimal(a: seq<Line>, b: seq<Line>)
    ensures var ds := Script(a, b, |a|, |b|);
            && Old(ds) == a && New(ds) == b && Numbered(ds)
            && Common(Kept(ds), a, b)
            && forall c :: Common(c, a, b) ==> |c| <= |Kept(ds)|
  {
    var ds := Script(a, b, |a|, |b|);
    ScriptSpells(a, b, |a|, |b|);
    assert a[..|a|] == a && b[..|b|] == b;
    var f, g := KeptEmbeds(ds);
    forall c | Common(c, a, b) ensures |c| <= |Kept(ds)| {
      var f' :| Embeds(c, a, f');
      var g' :| Embeds(c, b, g');
      LcsIsUpperBound(c, a, b, |a|, |b|, f', g');
    }
  }

  /** A shortest edit script for the first i and j lines. */
  ghost predicate IsBest(ds: seq<Delta>, a: seq<Line>, b: seq<Line>, i: nat, j: nat)
    requires i <= |a| && j <= |b|
  {
    Old(ds) == a[..i] && New(ds) == b[..j] && |Kept(ds)| == Lcs(a, b, i, j)
  }

  /** The tie rule: where the last lines differ, the script ends with an insertion if and only if some
      shortest script does. */
  lemma InsertsOnTies(a: seq<Line>, b: seq<Line>, i: nat, j: nat)
    requires i <= |a| && j <= |b| && (i > 0 || j > 0) && !SameLine(a, b, i, j)
    ensures var ds := Script(a, b, i, j);
            && IsBest(ds, a, b, i, j) && ds != []
            && (ds[|ds| - 1].tag == Insert <==>
                  exists es: seq<Delta> :: IsBest(es, a, b, i, j) && es != [] && es[|es| - 1].tag == Insert)
  {
    var ds := Script(a, b, i, j);
    ScriptSpells(a, b, i, j);
    assert IsBest(ds, a, b, i, j);
    LastTag(a, b, i, j);
    LcsAtBranch(a, b, i, j);
    hide Lcs;
    hide Script;
    hide Spells;
    hide IsBest;
    if es: seq<Delta> :| IsBest(es, a, b, i, j) && es != [] && es[|es| - 1].tag == Insert {
      EndsInInsert(es, a, b, i, j);
    }
  }

  lemma LastTag(a: seq<Line>, b: seq<Line>, i: nat, j: nat)
    requires i <= |a| && j <= |b| && (i > 0 || j > 0) && !SameLine(a, b, i, j)
    ensures var ds := Script(a, b, i, j); ds != [] && (ds[|ds| - 1].tag == Insert <==> !Removes(a, b, i, j))
  {
    hide Lcs;
    hide Removes;
  }

  lemma EndsInInsert(es: seq<Delta>, a: seq<Line>, b: seq<Line>, i: nat, j: nat)
    requires i <= |a| && j <= |b| && IsBest(es, a, b, i, j) && es != [] && es[|es| - 1].tag == Insert
    ensures j > 0 && Lcs(a, b, i, j) <= Lcs(a, b, i, j - 1)
  {
    hide Lcs;
    hide Old;
    hide New;
    hide Kept;
    hide Embeds;
    hide Below;
    var init := es[..|es| - 1];
    WithoutInsert(es, init, a[..i], b[..j]);
    PrefixOfSlice(b, j);
    KeptIsBounded(init, a, b, i, j - 1);
  }

  lemma PrefixOfSlice<T>(s: seq<T>, j: nat)
    requires 0 < j <= |s|
    ensures |s[..j]| == j && s[..j][..j - 1] == s[..j - 1]
  {
  }

  lemma KeptIsBounded(ds: seq<Delta>, a: seq<Line>, b: seq<Line>, i: nat, j: nat)
    requires i <= |a| && j <= |b| && Old(ds) == a[..i] && New(ds) == b[..j]
    ensures |Kept(ds)| <= Lcs(a, b, i, j)
  {
    hide Lcs;
    hide Old;
    hide New;
    hide Kept;
    hide Embeds;
    hide Below;
    var f, g := KeptEmbeds(ds);
    EmbedsInWhole(Kept(ds), a, i, f);
    EmbedsInWhole(Kept(ds), b, j, g);
    LcsIsUpperBound(Kept(ds), a, b, i, j, f, g);
  }

  lemma WithoutInsert(es: seq<Delta>, init: seq<Delta>, s: seq<Line>, t: seq<Line>)
    requires es != [] && es[|es| - 1].tag == Insert && init == es[..|es| - 1] && Old(es) == s && New(es) == t
    ensures t != [] && Old(init) == s && New(init) == t[..|t| - 1] && |Kept(init)| == |Kept(es)|
  {
    InitAndLast(es);
    SnocViews(init, es[|es| - 1]);
    hide Old;
    hide New;
    hide Kept;
    assert (New(init) + [es[|es| - 1].line])[..|New(init)|] == New(init);
    assert Old(init) + [] == Old(init);
  }

  lemma EmbedsInWhole(c: seq<Line>, s: seq<Line>, i: nat, f: seq<nat>)
    requires i <= |s| && Embeds(c, s[..i], f)
    ensures Embeds(c, s, f) && Below(f, i)
  {
  }

  /** One step of the traceback moves the last line of the script to the front of the deltas. */
  lemma ScriptPushes(a: seq<Line>, b: seq<Line>, i: nat, j: nat, deltas: seq<Delta>)
    requires i <= |a| && j <= |b| && (i > 0 || j > 0)
    ensures SameLine(a, b, i, j) ==>
              Script(a, b, i - 1, j - 1) + ([Delta(i - 1, j - 1, Keep, a[i - 1])] + deltas) == Script(a, b, i, j) + deltas
    ensures !SameLine(a, b, i, j) && Removes(a, b, i, j) ==>
              Script(a, b, i - 1, j) + ([Delta(i - 1, j, Remove, a[i - 1])] + deltas) == Script(a, b, i, j) + deltas
    ensures !SameLine(a, b, i, j) && !Removes(a, b, i, j) ==>
              j > 0 && Script(a, b, i, j - 1) + ([Delta(i, j - 1, Insert, b[j - 1])] + deltas) == Script(a, b, i, j) + deltas
  {
    hide Lcs;
    if SameLine(a, b, i, j) {
      PushFront(Script(a, b, i - 1, j - 1), Delta(i - 1, j - 1, Keep, a[i - 1]), deltas);
    } else if Removes(a, b, i, j) {
      PushFront(Script(a, b, i - 1, j), Delta(i - 1, j, Remove, a[i - 1]), deltas);
    } else {
      PushFront(Script(a, b, i, j - 1), Delta(i, j - 1, Insert, b[j - 1]), deltas);
    }
  }

  /** The traceback of unified mode, built by pushing at the front, with its closing sentinel. */
  method UnifiedDeltas(a: seq<Line>, b: seq<Line>) returns (deltas: seq<Delta>)
    ensures deltas == Script(a, b, |a|, |b|) + [Delta(|a|, |b|, Keep, "")]
  {
    var dp := ComputeLcsGrid(a, b);
    var i, j := |a|, |b|;
    deltas := [Delta(|a|, |b|, Keep, "")];
    ghost var end := deltas;
    assert Script(a, b, 0, 0) == [];
    hide Script;
    hide Filled;
    hide Removes;
    while i > 0 || j > 0
      invariant 0 <= i <= |a| && 0 <= j <= |b| && Filled(dp, a, b, |a| + 1, 0)
      invariant Script(a, b, i, j) + deltas == Script(a, b, |a|, |b|) + end
      decreases i + j
    {
      GridBranch(dp, a, b, i, j);
      ScriptPushes(a, b, i, j, deltas);
      var d;
      if i > 0 && j > 0 && a[i - 1] == b[j - 1] {
        i, j := i - 1, j - 1;
        d := Delta(i, j, Keep, a[i]);
      } else if j <= 0 || (i > 0 && dp[i - 1, j] > dp[i, j - 1]) {
        i := i - 1;
        d := Delta(i, j, Remove, a[i]);
      } else {
        j := j - 1;
        d := Delta(i, j, Insert, b[j]);
      }
      deltas := [d] + deltas;
    }
    assert [] + deltas == deltas;
  }

  lemma PushFront<T>(a: seq<T>, x: T, b: seq<T>)
    ensures (a + [x]) + b == a + ([x] + b)
  {
  }

  // ----- default mode: hunks, and patching with them -----

  /** Lines `removed` at position i of file 1 become lines `added` at position j of file 2. */
  datatype Hunk = Hunk(i: nat, j: nat, removed: seq<Line>, added: seq<Line>)

  datatype Hunks = NoMore | More(head: Hunk, rest: Hunks)

  ghost predicate HunkFits(h: Hunk, a: seq<Line>) {
    h.i + |h.removed| <= |a| && a[h.i..h.i + |h.removed|] == h.removed
  }

  /** The hunks name lines that are there, in order, from pos on. */
  ghost predicate Fits(hs: Hunks, a: seq<Line>, pos: nat) {
    match hs
    case NoMore => pos <= |a|
    case More(h, rest) => pos <= h.i && HunkFits(h, a) && Fits(rest, a, h.i + |h.removed|)
  }

  /** Applies hunks, in order, to file 1 from position pos on. */
  ghost function Patch(hs: Hunks, a: seq<Line>, pos: nat): (r: seq<Line>)
    requires Fits(hs, a, pos)
  {
    match hs
    case NoMore => a[pos..]
    case More(h, rest) => a[pos..h.i] + (h.added + Patch(rest, a, h.i + |h.removed|))
  }

  /** Every hunk changes something, and a kept line lies between pos and the first hunk and between any two. */
  predicate Separated(hs: Hunks, pos: nat) {
    match hs
    case NoMore => true
    case More(h, rest) =>
      pos < h.i && (h.removed != [] || h.added != []) && Separated(rest, h.i + |h.removed|)
  }

  /** The hunks are runs of changed lines that cannot be made longer; the first may start at any line. */
  predicate Maximal(hs: Hunks) {
    hs.More? ==>
      (hs.head.removed != [] || hs.head.added != []) && Separated(hs.rest, hs.head.i + |hs.head.removed|)
  }

  /** The target positions are those of the patched file. */
  ghost predicate Targets(hs: Hunks, pos: nat, to: nat) {
    match hs
    case NoMore => true
    case More(h, rest) =>
      h.i - pos == h.j - to && Targets(rest, h.i + |h.removed|, h.j + |h.added|)
  }

  ghost function Changes(hs: Hunks): (n: nat) {
    match hs
    case NoMore => 0
    case More(h, rest) => |h.removed| + |h.added| + Changes(rest)
  }

  lemma FitsInside(hs: Hunks, a: seq<Line>, pos: nat)
    requires Fits(hs, a, pos)
    ensures pos <= |a|
  {
  }

  /** One kept line in front. */
  lemma PatchKeepsLine(hs: Hunks, a: seq<Line>, pos: nat)
    requires pos > 0 && Fits(hs, a, pos)
    ensures pos <= |a| && Fits(hs, a, pos - 1) && Patch(hs, a, pos - 1) == [a[pos - 1]] + Patch(hs, a, pos)
  {
    FitsInside(hs, a, pos);
    match hs
    case NoMore =>
      assert a[pos - 1..] == [a[pos - 1]] + a[pos..];
    case More(h, rest) =>
      assert a[pos - 1..h.i] == [a[pos - 1]] + a[pos..h.i];
      PushFront([], a[pos - 1], a[pos..h.i]);
      Assoc([a[pos - 1]], a[pos..h.i], h.added + Patch(rest, a, h.i + |h.removed|));
  }

  /** Pushes the pending patch as a hunk, if there is one. */
  function Flush(i: nat, j: nat, f1: seq<Line>, f2: seq<Line>, hs: Hunks): (r: Hunks) {
    if |f1| > 0 || |f2| > 0 then More(Hunk(i, j, f1, f2), hs) else hs
  }

  /** One hunk in front, starting exactly at its own position. */
  lemma PatchHunk(h: Hunk, hs: Hunks, a: seq<Line>)
    requires HunkFits(h, a) && Fits(hs, a, h.i + |h.removed|)
    ensures Fits(More(h, hs), a, h.i) && Patch(More(h, hs), a, h.i) == h.added + Patch(hs, a, h.i + |h.removed|)
  {
    var rest := h.added + Patch(hs, a, h.i + |h.removed|);
    assert Patch(More(h, hs), a, h.i) == a[h.i..h.i] + rest;
    EmptyInFront(a, h.i, rest);
  }

  lemma EmptyInFront<T>(a: seq<T>, i: nat, rest: seq<T>)
    requires i <= |a|
    ensures a[i..i] + rest == rest
  {
  }

  lemma ChangesOfFlush(i: nat, j: nat, f1: seq<Line>, f2: seq<Line>, hs: Hunks)
    ensures Changes(Flush(i, j, f1, f2, hs)) == |f1| + |f2| + Changes(hs)
  {
  }

  lemma FlushPatches(i: nat, j: nat, f1: seq<Line>, f2: seq<Line>, hs: Hunks, a: seq<Line>)
    requires HunkFits(Hunk(i, j, f1, f2), a) && Fits(hs, a, i + |f1|)
    ensures Fits(Flush(i, j, f1, f2, hs), a, i)
    ensures Patch(Flush(i, j, f1, f2, hs), a, i) == f2 + Patch(hs, a, i + |f1|)
    ensures Changes(Flush(i, j, f1, f2, hs)) == |f1| + |f2| + Changes(hs)
  {
    hide Changes;
    hide Fits;
    hide Patch;
    hide HunkFits;
    ChangesOfFlush(i, j, f1, f2, hs);
    if |f1| > 0 || |f2| > 0 {
      PatchHunk(Hunk(i, j, f1, f2), hs, a);
    } else {
      NilInFront(f2, Patch(hs, a, i + |f1|));
    }
  }

  lemma NilInFront<T>(none: seq<T>, s: seq<T>)
    requires |none| == 0
    ensures none + s == s
  {
  }

  lemma TargetsBefore(hs: Hunks, pos: nat, to: nat)
    requires pos > 0 && to > 0 && Targets(hs, pos, to)
    ensures Targets(hs, pos - 1, to - 1)
  {
  }

  lemma SeparatedBefore(hs: Hunks, pos: nat)
    requires pos > 0 && Separated(hs, pos)
    ensures Separated(hs, pos - 1)
  {
  }

  /** State of the default traceback: the suffixes already dealt with, and the patch not yet flushed. */
  ghost predicate Traced(hs: Hunks, f1: seq<Line>, f2: seq<Line>, a: seq<Line>, b: seq<Line>, i: nat, j: nat) {
    && i + |f1| <= |a| && j + |f2| <= |b| && f1 == a[i..i + |f1|] && f2 == b[j..j + |f2|]
    && Fits(hs, a, i + |f1|) && Separated(hs, i + |f1|) && Targets(hs, i + |f1|, j + |f2|)
    && Patch(hs, a, i + |f1|) == b[j + |f2|..]
  }

  lemma TracedFlush(hs: Hunks, f1: seq<Line>, f2: seq<Line>, a: seq<Line>, b: seq<Line>, i: nat, j: nat)
    requires Traced(hs, f1, f2, a, b, i, j)
    ensures var r := Flush(i, j, f1, f2, hs);
            && Fits(r, a, i) && Patch(r, a, i) == b[j..] && Targets(r, i, j) && Changes(r) == |f1| + |f2| + Changes(hs)
            && (i > 0 ==> Separated(r, i - 1)) && Maximal(r)
  {
    hide Fits;
    hide Patch;
    hide Changes;
    FlushPatches(i, j, f1, f2, hs, a);
    assert b[j..] == b[j..j + |f2|] + b[j + |f2|..];
    FlushSeparates(i, j, f1, f2, hs);
  }

  lemma FlushSeparates(i: nat, j: nat, f1: seq<Line>, f2: seq<Line>, hs: Hunks)
    requires Separated(hs, i + |f1|) && Targets(hs, i + |f1|, j + |f2|)
    ensures var r := Flush(i, j, f1, f2, hs);
            && Targets(r, i, j) && (i > 0 ==> Separated(r, i - 1)) && Maximal(r)
  {
    if f1 == [] && f2 == [] && i > 0 {
      SeparatedBefore(hs, i);
    }
  }

  lemma OneInFront<T>(s: seq<T>, j: nat)
    requires 0 < j <= |s|
    ensures s[j - 1..] == [s[j - 1]] + s[j..] && s[j - 1..j - 1] == []
  {
  }

  lemma TracedKeep(hs: Hunks, f1: seq<Line>, f2: seq<Line>, a: seq<Line>, b: seq<Line>, i: nat, j: nat)
    requires Traced(hs, f1, f2, a, b, i, j) && i > 0 && j > 0 && a[i - 1] == b[j - 1]
    ensures Traced(Flush(i, j, f1, f2, hs), [], [], a, b, i - 1, j - 1)
    ensures Changes(Flush(i, j, f1, f2, hs)) == |f1| + |f2| + Changes(hs)
  {
    hide Flush;
    hide Changes;
    hide Maximal;
    hide Patch;
    hide Targets;
    hide Fits;
    hide Separated;
    hide HunkFits;
    var r := Flush(i, j, f1, f2, hs);
    TracedFlush(hs, f1, f2, a, b, i, j);
    PatchKeepsLine(r, a, i);
    TargetsBefore(r, i, j);
    OneInFront(b, j);
    OneInFront(a, i);
  }

  lemma TracedGrow(hs: Hunks, f1: seq<Line>, f2: seq<Line>, a: seq<Line>, b: seq<Line>, i: nat, j: nat)
    requires Traced(hs, f1, f2, a, b, i, j)
    ensures i > 0 ==> Traced(hs, [a[i - 1]] + f1, f2, a, b, i - 1, j)
    ensures j > 0 ==> Traced(hs, f1, [b[j - 1]] + f2, a, b, i, j - 1)
  {
    hide Fits;
    hide Separated;
    hide Targets;
    if i > 0 {
      assert a[i - 1..i + |f1|] == [a[i - 1]] + a[i..i + |f1|];
    }
    if j > 0 {
      assert b[j - 1..j + |f2|] == [b[j - 1]] + b[j..j + |f2|];
    }
  }

  // ----- which lines are kept -----

  /** Positions in both files of n lines kept one after the other. */
  function Run(pos: nat, to: nat, n: int): (r: seq<(nat, nat)>)
    decreases n
  {
    if n <= 0 then [] else [(pos, to)] + Run(pos + 1, to + 1, n - 1)
  }

  /** Positions in both files of the lines that hunks leave alone, from pos and to on. */
  ghost function LeftAlone(hs: Hunks, a: seq<Line>, pos: nat, to: nat): (r: seq<(nat, nat)>) {
    match hs
    case NoMore => Run(pos, to, |a| - pos)
    case More(h, rest) => Run(pos, to, h.i - pos) + LeftAlone(rest, a, h.i + |h.removed|, h.j + |h.added|)
  }

  /** Positions in both files of the lines that a script keeps. */
  ghost function KeptAt(ds: seq<Delta>): (r: seq<(nat, nat)>) {
    if ds == [] then []
    else
      var d := ds[|ds| - 1];
      KeptAt(ds[..|ds| - 1]) + (if d.tag == Keep then [(d.i, d.j)] else [])
  }

  lemma KeptAtSnoc(ds: seq<Delta>, d: Delta)
    ensures KeptAt(ds + [d]) == KeptAt(ds) + (if d.tag == Keep then [(d.i, d.j)] else [])
  {
    assert (ds + [d])[..|ds|] == ds;
  }

  lemma LeftAloneBefore(hs: Hunks, a: seq<Line>, pos: nat, to: nat)
    requires pos > 0 && to > 0 && Fits(hs, a, pos)
    ensures LeftAlone(hs, a, pos - 1, to - 1) == [(pos - 1, to - 1)] + LeftAlone(hs, a, pos, to)
  {
    FitsInside(hs, a, pos);
    match hs
    case NoMore =>
    case More(h, rest) =>
      Assoc([(pos - 1, to - 1)], Run(pos, to, h.i - pos), LeftAlone(rest, a, h.i + |h.removed|, h.j + |h.added|));
  }

  lemma LeftAloneFlush(hs: Hunks, f1: seq<Line>, f2: seq<Line>, a: seq<Line>, i: nat, j: nat)
    ensures LeftAlone(Flush(i, j, f1, f2, hs), a, i, j) == LeftAlone(hs, a, i + |f1|, j + |f2|)
  {
    if |f1| > 0 || |f2| > 0 {
      NilInFront(Run(i, j, 0), LeftAlone(hs, a, i + |f1|, j + |f2|));
    }
  }

  /** The lines kept so far by the traceback are those that the rest of the script keeps. */
  ghost predicate SameKept(hs: Hunks, f1: seq<Line>, f2: seq<Line>, a: seq<Line>, b: seq<Line>, i: nat, j: nat)
    requires i <= |a| && j <= |b|
  {
    KeptAt(Script(a, b, i, j)) + LeftAlone(hs, a, i + |f1|, j + |f2|) == KeptAt(Script(a, b, |a|, |b|))
  }

  lemma KeptOfScript(a: seq<Line>, b: seq<Line>, i: nat, j: nat)
    requires i <= |a| && j <= |b| && (i > 0 || j > 0)
    ensures SameLine(a, b, i, j) ==> KeptAt(Script(a, b, i, j)) == KeptAt(Script(a, b, i - 1, j - 1)) + [(i - 1, j - 1)]
    ensures !SameLine(a, b, i, j) && Removes(a, b, i, j) ==> KeptAt(Script(a, b, i, j)) == KeptAt(Script(a, b, i - 1, j))
    ensures !SameLine(a, b, i, j) && !Removes(a, b, i, j) ==> j > 0 && KeptAt(Script(a, b, i, j)) == KeptAt(Script(a, b, i, j - 1))
  {
    hide KeptAt;
    hide Lcs;
    if SameLine(a, b, i, j) {
      KeptAtSnoc(Script(a, b, i - 1, j - 1), Delta(i - 1, j - 1, Keep, a[i - 1]));
    } else if Removes(a, b, i, j) {
      KeptAtSnoc(Script(a, b, i - 1, j), Delta(i - 1, j, Remove, a[i - 1]));
    } else {
      KeptAtSnoc(Script(a, b, i, j - 1), Delta(i, j - 1, Insert, b[j - 1]));
    }
  }

  lemma KeptStep(hs: Hunks, f1: seq<Line>, f2: seq<Line>, a: seq<Line>, b: seq<Line>, i: nat, j: nat)
    requires i <= |a| && j <= |b| && (i > 0 || j > 0) && Traced(hs, f1, f2, a, b, i, j) && SameKept(hs, f1, f2, a, b, i, j)
    ensures SameLine(a, b, i, j) ==> SameKept(Flush(i, j, f1, f2, hs), [], [], a, b, i - 1, j - 1)
    ensures !SameLine(a, b, i, j) && Removes(a, b, i, j) ==> SameKept(hs, [a[i - 1]] + f1, f2, a, b, i - 1, j)
    ensures !SameLine(a, b, i, j) && !Removes(a, b, i, j) ==> j > 0 && SameKept(hs, f1, [b[j - 1]] + f2, a, b, i, j - 1)
  {
    hide Traced;
    hide Script;
    hide KeptAt;
    hide LeftAlone;
    hide Flush;
    hide Removes;
    hide Lcs;
    KeptOfScript(a, b, i, j);
    if SameLine(a, b, i, j) {
      FlushKeeps(hs, f1, f2, a, b, i, j);
      Assoc(KeptAt(Script(a, b, i - 1, j - 1)), [(i - 1, j - 1)], LeftAlone(hs, a, i + |f1|, j + |f2|));
    }
  }

  lemma FlushKeeps(hs: Hunks, f1: seq<Line>, f2: seq<Line>, a: seq<Line>, b: seq<Line>, i: nat, j: nat)
    requires i > 0 && j > 0 && Traced(hs, f1, f2, a, b, i, j)
    ensures LeftAlone(Flush(i, j, f1, f2, hs), a, i - 1, j - 1)
         == [(i - 1, j - 1)] + LeftAlone(hs, a, i + |f1|, j + |f2|)
  {
    TracedFlush(hs, f1, f2, a, b, i, j);
    hide Traced;
    LeftAloneFlush(hs, f1, f2, a, i, j);
    hide Flush;
    LeftAloneBefore(Flush(i, j, f1, f2, hs), a, i, j);
  }

  lemma KeptStarts(a: seq<Line>, b: seq<Line>)
    ensures SameKept(NoMore, [], [], a, b, |a|, |b|)
  {
    hide Script;
    hide KeptAt;
    var none := LeftAlone(NoMore, a, |a|, |b|);
    assert none == [];
    assert KeptAt(Script(a, b, |a|, |b|)) + none == KeptAt(Script(a, b, |a|, |b|));
  }

  lemma KeptEnds(hs: Hunks, f1: seq<Line>, f2: seq<Line>, a: seq<Line>, b: seq<Line>)
    requires SameKept(hs, f1, f2, a, b, 0, 0)
    ensures LeftAlone(Flush(0, 0, f1, f2, hs), a, 0, 0) == KeptAt(Script(a, b, |a|, |b|))
  {
    assert Script(a, b, 0, 0) == [] && KeptAt([]) == [];
    hide LeftAlone;
    hide Script;
    hide KeptAt;
    hide Flush;
    LeftAloneFlush(hs, f1, f2, a, 0, 0);
    NilInFront(KeptAt(Script(a, b, 0, 0)), LeftAlone(hs, a, |f1|, |f2|));
  }

  /** What the hunks and the rest of the traceback cost together. */
  ghost function Cost(hs: Hunks, f1: seq<Line>, f2: seq<Line>, a: seq<Line>, b: seq<Line>, i: nat, j: nat): (n: int)
    requires i <= |a| && j <= |b|
  {
    Changes(hs) + |f1| + |f2| + i + j - 2 * Lcs(a, b, i, j)
  }

  lemma CostKept(hs: Hunks, f1: seq<Line>, f2: seq<Line>, a: seq<Line>, b: seq<Line>, i: nat, j: nat)
    requires i <= |a| && j <= |b| && (i > 0 || j > 0)
    ensures i > 0 && j > 0 && a[i - 1] == b[j - 1] ==>
              Cost(Flush(i, j, f1, f2, hs), [], [], a, b, i - 1, j - 1) == Cost(hs, f1, f2, a, b, i, j)
    ensures !(i > 0 && j > 0 && a[i - 1] == b[j - 1]) && Removes(a, b, i, j) ==>
              Cost(hs, [a[i - 1]] + f1, f2, a, b, i - 1, j) == Cost(hs, f1, f2, a, b, i, j)
    ensures !(i > 0 && j > 0 && a[i - 1] == b[j - 1]) && !Removes(a, b, i, j) ==>
              Cost(hs, f1, [b[j - 1]] + f2, a, b, i, j - 1) == Cost(hs, f1, f2, a, b, i, j)
  {
    hide Changes;
    ChangesOfFlush(i, j, f1, f2, hs);
    LcsAtBranch(a, b, i, j);
    hide Flush;
    hide Lcs;
  }

  lemma GridBranch(dp: array2<int>, a: seq<Line>, b: seq<Line>, i: nat, j: nat)
    requires i <= |a| && j <= |b| && (i > 0 || j > 0) && dp.Length0 == |a| + 1 && dp.Length1 == |b| + 1 && Filled(dp, a, b, |a| + 1, 0)
    ensures Removes(a, b, i, j) <==> j <= 0 || (i > 0 && dp[i - 1, j] > dp[i, j - 1])
  {
    if i > 0 && j > 0 {
      assert dp[i - 1, j] == Lcs(a, b, i - 1, j) && dp[i, j - 1] == Lcs(a, b, i, j - 1);
    }
  }

  lemma TraceStarts(a: seq<Line>, b: seq<Line>)
    ensures Traced(NoMore, [], [], a, b, |a|, |b|)
    ensures Cost(NoMore, [], [], a, b, |a|, |b|) == |a| + |b| - 2 * Lcs(a, b, |a|, |b|)
  {
    hide Lcs;
  }

  lemma TraceEnds(hs: Hunks, f1: seq<Line>, f2: seq<Line>, a: seq<Line>, b: seq<Line>)
    requires Traced(hs, f1, f2, a, b, 0, 0)
    ensures var r := Flush(0, 0, f1, f2, hs);
            && Fits(r, a, 0) && Patch(r, a, 0) == b && Targets(r, 0, 0) && Maximal(r)
            && Changes(r) == Cost(hs, f1, f2, a, b, 0, 0)
  {
    TracedFlush(hs, f1, f2, a, b, 0, 0);
    hide Traced;
    hide Flush;
    LcsAtBranch(a, b, 0, 0);
    hide Lcs;
    assert b[0..] == b;
  }

  /** The traceback of default mode. Patching file 1 with its hunks gives file 2; the hunks are
      separated by kept lines, keep exactly what the script of the unified mode keeps, and change no
      more lines than the common subsequence forces. */
  method DefaultHunks(a: seq<Line>, b: seq<Line>) returns (hs: Hunks)
    ensures Fits(hs, a, 0) && Patch(hs, a, 0) == b && Targets(hs, 0, 0) && Maximal(hs)
    ensures LeftAlone(hs, a, 0, 0) == KeptAt(Script(a, b, |a|, |b|))
    ensures Changes(hs) == |a| + |b| - 2 * Lcs(a, b, |a|, |b|)
  {
    var dp := ComputeLcsGrid(a, b);
    var i, j := |a|, |b|;
    hs := NoMore;
    var f1Patch: seq<Line>, f2Patch: seq<Line> := [], [];
    TraceStarts(a, b);
    KeptStarts(a, b);
    hide Traced;
    hide SameKept;
    hide Cost;
    hide Flush;
    hide Filled;
    hide Removes;
    while i > 0 || j > 0
      invariant 0 <= i <= |a| && 0 <= j <= |b| && Filled(dp, a, b, |a| + 1, 0)
      invariant Traced(hs, f1Patch, f2Patch, a, b, i, j) && SameKept(hs, f1Patch, f2Patch, a, b, i, j)
      invariant Cost(hs, f1Patch, f2Patch, a, b, i, j) == |a| + |b| - 2 * Lcs(a, b, |a|, |b|)
      decreases i + j
    {
      GridBranch(dp, a, b, i, j);
      CostKept(hs, f1Patch, f2Patch, a, b, i, j);
      KeptStep(hs, f1Patch, f2Patch, a, b, i, j);
      TracedGrow(hs, f1Patch, f2Patch, a, b, i, j);
      if i > 0 && j > 0 && a[i - 1] == b[j - 1] {
        TracedKeep(hs, f1Patch, f2Patch, a, b, i, j);
        hs := Flush(i, j, f1Patch, f2Patch, hs);
        f1Patch, f2Patch := [], [];
        i, j := i - 1, j - 1;
      } else if j <= 0 || (i > 0 && dp[i - 1, j] > dp[i, j - 1]) {
        i := i - 1;
        f1Patch := [a[i]] + f1Patch;
      } else {
        j := j - 1;
        f2Patch := [b[j]] + f2Patch;
      }
    }
    TraceEnds(hs, f1Patch, f2Patch, a, b);
    KeptEnds(hs, f1Patch, f2Patch, a, b);
    hs := Flush(i, j, f1Patch, f2Patch, hs);
  }

  // ----- the kept lines determine the hunks -----

  lemma {:induction false} RunAt(pos: nat, to: nat, n: int, k: nat)
    requires k < n
    ensures |Run(pos, to, n)| == n && Run(pos, to, n)[k] == (pos + k, to + k)
    decreases n
  {
    if k > 0 {
      RunAt(pos + 1, to + 1, n - 1, k - 1);
    } else if n > 1 {
      RunAt(pos + 1, to + 1, n - 1, 0);
    }
  }

  /** Between hunks the first line is kept. */
  lemma FirstLeft(hs: Hunks, a: seq<Line>, pos: nat, to: nat)
    requires Fits(hs, a, pos) && Separated(hs, pos)
    ensures pos <= |a| && (pos == |a| ==> hs.NoMore? && LeftAlone(hs, a, pos, to) == [])
    ensures pos < |a| ==> LeftAlone(hs, a, pos, to) != [] && LeftAlone(hs, a, pos, to)[0] == (pos, to)
  {
    FitsInside(hs, a, pos);
    if pos < |a| {
      RunAt(pos, to, if hs.NoMore? then |a| - pos else hs.head.i - pos, 0);
    }
  }

  /** Where the first hunk starts; past the end if there is none. */
  function Begins(hs: Hunks, a: seq<Line>): (i: nat) {
    if hs.NoMore? then |a| else hs.head.i
  }

  lemma LeftBeforeBegin(hs: Hunks, a: seq<Line>, pos: nat, to: nat, k: nat)
    requires Fits(hs, a, pos) && Targets(hs, pos, to) && Maximal(hs) && pos <= k <= Begins(hs, a)
    ensures k < Begins(hs, a) ==>
              k - pos < |LeftAlone(hs, a, pos, to)| && LeftAlone(hs, a, pos, to)[k - pos] == (k, to + (k - pos))
    ensures k == Begins(hs, a) && k - pos < |LeftAlone(hs, a, pos, to)| ==>
              LeftAlone(hs, a, pos, to)[k - pos] != (k, to + (k - pos))
  {
    FitsInside(hs, a, pos);
    var n := Begins(hs, a) - pos;
    if k < Begins(hs, a) {
      RunAt(pos, to, n, k - pos);
    } else {
      if n > 0 {
        RunAt(pos, to, n, 0);
      }
      if hs.More? {
        FirstLeft(hs.rest, a, hs.head.i + |hs.head.removed|, hs.head.j + |hs.head.added|);
      }
    }
  }

  lemma SameBegin(hs: Hunks, gs: Hunks, a: seq<Line>, pos: nat, to: nat)
    requires Fits(hs, a, pos) && Targets(hs, pos, to) && Maximal(hs)
    requires Fits(gs, a, pos) && Targets(gs, pos, to) && Maximal(gs)
    requires LeftAlone(hs, a, pos, to) == LeftAlone(gs, a, pos, to)
    ensures Begins(hs, a) == Begins(gs, a)
  {
    hide LeftAlone;
    hide Maximal;
    hide Targets;
    FitsInside(hs, a, pos);
    FitsInside(gs, a, pos);
    var k := if Begins(hs, a) < Begins(gs, a) then Begins(hs, a) else Begins(gs, a);
    LeftBeforeBegin(hs, a, pos, to, k);
    LeftBeforeBegin(gs, a, pos, to, k);
  }

  /** Two diffs of the same files that keep the same lines have the same hunks. */
  lemma {:induction false} KeptDeterminesHunks(hs: Hunks, gs: Hunks, a: seq<Line>, pos: nat, to: nat)
    requires Fits(hs, a, pos) && Targets(hs, pos, to) && Maximal(hs)
    requires Fits(gs, a, pos) && Targets(gs, pos, to) && Maximal(gs)
    requires LeftAlone(hs, a, pos, to) == LeftAlone(gs, a, pos, to) && Patch(hs, a, pos) == Patch(gs, a, pos)
    ensures hs == gs
    decreases hs
  {
    hide LeftAlone;
    hide Patch;
    hide Fits;
    hide Targets;
    hide Maximal;
    hide Separated;
    SameBegin(hs, gs, a, pos, to);
    FitsInside(hs, a, pos);
    NoHunks(a, pos);
    if hs.More? && gs.More? {
      SameHead(hs, gs, a, pos, to);
      FirstHunk(hs, a, pos, to);
      FirstHunk(gs, a, pos, to);
      KeptDeterminesHunks(hs.rest, gs.rest, a, hs.head.i + |hs.head.removed|, hs.head.j + |hs.head.added|);
    } else if hs.More? {
      AtTheEnd(hs, a, pos);
    } else if gs.More? {
      AtTheEnd(gs, a, pos);
    }
  }

  lemma NoHunks(a: seq<Line>, pos: nat)
    requires pos <= |a|
    ensures Fits(NoMore, a, pos) && |Patch(NoMore, a, pos)| == |a| - pos
  {
  }

  /** A hunk at the end of the file adds lines, so that the patch is longer than the file. */
  lemma AtTheEnd(hs: Hunks, a: seq<Line>, pos: nat)
    requires Fits(hs, a, pos) && Maximal(hs) && hs.More? && hs.head.i == |a|
    ensures |Patch(hs, a, pos)| > |a| - pos
  {
    FirstLeft(hs.rest, a, |a|, 0);
  }

  lemma SameHead(hs: Hunks, gs: Hunks, a: seq<Line>, pos: nat, to: nat)
    requires Fits(hs, a, pos) && Targets(hs, pos, to) && Maximal(hs) && hs.More?
    requires Fits(gs, a, pos) && Targets(gs, pos, to) && Maximal(gs) && gs.More? && hs.head.i == gs.head.i
    requires LeftAlone(hs, a, pos, to) == LeftAlone(gs, a, pos, to) && Patch(hs, a, pos) == Patch(gs, a, pos)
    ensures hs.head == gs.head
    ensures var end, jend := hs.head.i + |hs.head.removed|, hs.head.j + |hs.head.added|;
            && LeftAlone(hs.rest, a, end, jend) == LeftAlone(gs.rest, a, end, jend)
            && Patch(hs.rest, a, end) == Patch(gs.rest, a, end)
  {
    var h, g := hs.head, gs.head;
    FirstHunk(hs, a, pos, to);
    FirstHunk(gs, a, pos, to);
    hide LeftAlone;
    hide Patch;
    hide Fits;
    hide Targets;
    hide Maximal;
    hide Run;
    var run, e := Run(pos, to, h.i - pos), h.i + |h.removed|;
    SameTail(run, LeftAlone(hs.rest, a, e, h.j + |h.added|), run, LeftAlone(gs.rest, a, g.i + |g.removed|, g.j + |g.added|));
    FirstLeft(hs.rest, a, e, h.j + |h.added|);
    FirstLeft(gs.rest, a, g.i + |g.removed|, g.j + |g.added|);
    hide Separated;
    assert |h.removed| == |g.removed|;
    var p, q := Patch(hs.rest, a, e), Patch(gs.rest, a, e);
    SameTail(a[pos..h.i], h.added + p, a[pos..h.i], g.added + q);
    if e == |a| {
      NothingLeft(hs.rest, a);
      NothingLeft(gs.rest, a);
      assert h.added + p == h.added && g.added + q == g.added;
    }
    SameTail(h.added, p, g.added, q);
  }

  lemma NothingLeft(hs: Hunks, a: seq<Line>)
    requires Fits(hs, a, |a|) && hs.NoMore?
    ensures Patch(hs, a, |a|) == []
  {
  }

  /** What is known of the first hunk and of what follows it. */
  lemma FirstHunk(hs: Hunks, a: seq<Line>, pos: nat, to: nat)
    requires Fits(hs, a, pos) && Targets(hs, pos, to) && Maximal(hs) && hs.More?
    ensures var h, rest := hs.head, hs.rest;
            var e := h.i + |h.removed|;
            && pos <= h.i <= e <= |a| && h.removed == a[h.i..e] && h.j == to + (h.i - pos)
            && Fits(rest, a, e) && Separated(rest, e) && Targets(rest, e, h.j + |h.added|) && Maximal(rest)
            && LeftAlone(hs, a, pos, to) == Run(pos, to, h.i - pos) + LeftAlone(rest, a, e, h.j + |h.added|)
            && Patch(hs, a, pos) == a[pos..h.i] + (h.added + Patch(rest, a, e))
  {
  }

  lemma SameTail<T>(x: seq<T>, s: seq<T>, y: seq<T>, t: seq<T>)
    requires x + s == y + t && |x| == |y|
    ensures x == y && s == t
  {
    assert x == (x + s)[..|x|] && s == (x + s)[|x|..] && y == (y + t)[..|x|] && t == (y + t)[|x|..];
  }

  // ----- no patch changes fewer lines -----

  function Shifted(f: seq<nat>, d: nat): (r: seq<nat>)
    ensures |r| == |f| && forall k :: 0 <= k < |f| ==> r[k] == f[k] + d
  {
    seq(|f|, k requires 0 <= k < |f| => f[k] + d)
  }

  function UpTo(n: nat): (r: seq<nat>)
    ensures |r| == n && forall k :: 0 <= k < n ==> r[k] == k
  {
    seq(n, k => k)
  }

  lemma EmbedsAppend(head: seq<Line>, c: seq<Line>, mid: seq<Line>, tail: seq<Line>, f: seq<nat>)
    requires Embeds(c, tail, f)
    ensures Embeds(head + c, head + (mid + tail), UpTo(|head|) + Shifted(f, |head| + |mid|))
  {
    var r, whole := UpTo(|head|) + Shifted(f, |head| + |mid|), head + (mid + tail);
    forall k | 0 <= k < |r| ensures r[k] < |whole| && whole[r[k]] == (head + c)[k] {
      if k >= |head| {
        assert whole[r[k]] == tail[f[k - |head|]];
      }
    }
  }

  /** The lines a patch leaves alone are a common subsequence of both files. */
  lemma {:induction false} PatchLeavesCommon(hs: Hunks, a: seq<Line>, pos: nat)
    returns (c: seq<Line>, f: seq<nat>, g: seq<nat>)
    requires Fits(hs, a, pos)
    ensures pos <= |a| && Embeds(c, a[pos..], f) && Embeds(c, Patch(hs, a, pos), g)
    ensures Changes(hs) == (|a| - pos) + |Patch(hs, a, pos)| - 2 * |c|
    decreases hs
  {
    FitsInside(hs, a, pos);
    match hs
    case NoMore =>
      EmbedsWhole(a[pos..]);
      c, f, g := a[pos..], UpTo(|a| - pos), UpTo(|a| - pos);
    case More(h, rest) =>
      var c1, f1, g1 := PatchLeavesCommon(rest, a, h.i + |h.removed|);
      c, f, g := HunkLeavesCommon(h, rest, a, pos, c1, f1, g1);
  }

  lemma EmbedsWhole(s: seq<Line>)
    ensures Embeds(s, s, UpTo(|s|))
  {
  }

  lemma HunkLeavesCommon(h: Hunk, rest: Hunks, a: seq<Line>, pos: nat, c1: seq<Line>, f1: seq<nat>, g1: seq<nat>)
    returns (c: seq<Line>, f: seq<nat>, g: seq<nat>)
    requires var end := h.i + |h.removed|;
             && Fits(More(h, rest), a, pos)
             && end <= |a|
             && Embeds(c1, a[end..], f1)
             && Embeds(c1, Patch(rest, a, end), g1)
             && Changes(rest) == (|a| - end) + |Patch(rest, a, end)| - 2 * |c1|
    ensures var hs := More(h, rest);
            && pos <= |a|
            && Embeds(c, a[pos..], f)
            && Embeds(c, Patch(hs, a, pos), g)
            && Changes(hs) == (|a| - pos) + |Patch(hs, a, pos)| - 2 * |c|
  {
    hide Embeds;
    var end, head := h.i + |h.removed|, a[pos..h.i];
    EmbedsAppend(head, c1, h.removed, a[end..], f1);
    EmbedsAppend(head, c1, h.added, Patch(rest, a, end), g1);
    assert a[pos..] == head + (a[h.i..end] + a[end..]);
    c, f, g := head + c1, UpTo(|head|) + Shifted(f1, |head| + |h.removed|), UpTo(|head|) + Shifted(g1, |head| + |h.added|);
  }

  /** Every patch from a to b changes at least as many lines as the default diff does. */
  lemma DefaultDiffIsMinimal(hs: Hunks, a: seq<Line>, b: seq<Line>)
    requires Fits(hs, a, 0) && Patch(hs, a, 0) == b
    ensures Changes(hs) >= |a| + |b| - 2 * Lcs(a, b, |a|, |b|)
  {
    var c, f, g := PatchLeavesCommon(hs, a, 0);
    assert a[0..] == a;
    LcsIsUpperBound(c, a, b, |a|, |b|, f, g);
  }
}
