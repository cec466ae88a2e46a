/** The minesweeper board and its flood fill. */
module Minesweeper {

  type Pos = (int, int)

  const MINE: int := -1
  const EMPTY: int := 0

  datatype Status = Hidden | Flagged | Revealed

  datatype Cell = Cell(status: Status, kind: int)

  datatype Game = InProgress | Won | Lost

  type Grid = map<Pos, Cell>

  const DIRS: seq<Pos> := [(-1, -1), (-1, 0), (-1, 1), (0, -1), (0, 1), (1, -1), (1, 0), (1, 1)]

  function Plus(p: Pos, d: Pos): (q: Pos) { (p.0 + d.0, p.1 + d.1) }

  predicate Adjacent(p: Pos, q: Pos) {
    -1 <= q.0 - p.0 <= 1 && -1 <= q.1 - p.1 <= 1 && p != q
  }

  lemma DirsAreAdjacent(p: Pos, k: nat)
    requires k < |DIRS|
    ensures Adjacent(p, Plus(p, DIRS[k]))
  {
  }

  lemma AdjacentHasDir(p: Pos, q: Pos) returns (k: nat)
    requires Adjacent(p, q)
    ensures k < |DIRS| && q == Plus(p, DIRS[k])
  {
    var a := 3 * (q.0 - p.0 + 1) + (q.1 - p.1 + 1);
    k := if a < 4 then a else a - 1;
  }

  // ----- counting mines -----

  function CountUpTo(mines: set<Pos>, p: Pos, k: nat): (n: nat)
    requires k <= |DIRS|
  {
    if k == 0 then 0 else CountUpTo(mines, p, k - 1) + if Plus(p, DIRS[k - 1]) in mines then 1 else 0
  }

  /** The mines among the first k neighbours. */
  ghost function MinesUpTo(mines: set<Pos>, p: Pos, k: nat): (s: set<Pos>)
    requires k <= |DIRS|
  {
    set i | 0 <= i < k && Plus(p, DIRS[i]) in mines :: Plus(p, DIRS[i])
  }

  lemma DirsDiffer(p: Pos, i: nat, j: nat)
    requires i < j < |DIRS|
    ensures Plus(p, DIRS[i]) != Plus(p, DIRS[j])
  {
  }

  lemma {:induction false} CountIsSize(mines: set<Pos>, p: Pos, k: nat)
    requires k <= |DIRS|
    ensures CountUpTo(mines, p, k) == |MinesUpTo(mines, p, k)|
  {
    if k > 0 {
      CountIsSize(mines, p, k - 1);
      OneMoreMine(mines, p, k);
      hide MinesUpTo;
    }
  }

  lemma OneMoreMine(mines: set<Pos>, p: Pos, k: nat)
    requires 0 < k <= |DIRS|
    ensures var q, s := Plus(p, DIRS[k - 1]), MinesUpTo(mines, p, k - 1);
            q !in s && MinesUpTo(mines, p, k) == if q in mines then s + {q} else s
  {
    forall i | 0 <= i < k - 1 ensures Plus(p, DIRS[i]) != Plus(p, DIRS[k - 1]) {
      DirsDiffer(p, i, k - 1);
    }
    hide Plus;
  }

  /** The count over the eight directions is the number of adjacent mines. */
  lemma CountIsAdjacentMines(mines: set<Pos>, p: Pos)
    ensures CountUpTo(mines, p, |DIRS|) == |set q | q in mines && Adjacent(p, q)|
  {
    CountIsSize(mines, p, |DIRS|);
    var a, b := MinesUpTo(mines, p, |DIRS|), set q | q in mines && Adjacent(p, q);
    forall q | q in b ensures q in a {
      var k := AdjacentHasDir(p, q);
    }
    forall q | q in a ensures q in b {
      var i :| 0 <= i < |DIRS| && Plus(p, DIRS[i]) == q && q in mines;
      DirsAreAdjacent(p, i);
    }
    assert a == b;
  }

  method CountMines(p: Pos, mines: set<Pos>) returns (count: int)
    ensures count == CountUpTo(mines, p, |DIRS|)
    ensures count == |set q | q in mines && Adjacent(p, q)|
  {
    count := 0;
    for k := 0 to |DIRS|
      invariant count == CountUpTo(mines, p, k)
    {
      if Plus(p, DIRS[k]) in mines {
        count := count + 1;
      }
    }
    CountIsAdjacentMines(mines, p);
  }

  lemma {:induction false} ZeroMeansNone(mines: set<Pos>, p: Pos, k: nat)
    requires k <= |DIRS|
    ensures CountUpTo(mines, p, k) == 0 <==> forall i :: 0 <= i < k ==> Plus(p, DIRS[i]) !in mines
  {
    if k > 0 {
      ZeroMeansNone(mines, p, k - 1);
    }
  }

  /** No neighbour of an empty cell is a mine. */
  lemma EmptyIsSafe(mines: set<Pos>, p: Pos, q: Pos)
    requires CountUpTo(mines, p, |DIRS|) == 0 && Adjacent(p, q)
    ensures q !in mines
  {
    ZeroMeansNone(mines, p, |DIRS|);
    var k := AdjacentHasDir(p, q);
  }

  // ----- the board -----

  predicate InBoard(rows: nat, cols: nat, p: Pos) { 0 <= p.0 < rows && 0 <= p.1 < cols }

  function KindOf(mines: set<Pos>, p: Pos): (k: int) {
    if p in mines then MINE else CountUpTo(mines, p, |DIRS|)
  }

  /** Every cell of the board is there and shows its mine or the number of mines around it. */
  ghost predicate Laid(rows: nat, cols: nat, mines: set<Pos>, g: Grid) {
    && (forall p :: p in g <==> InBoard(rows, cols, p))
    && (forall p :: p in g ==> g[p].kind == KindOf(mines, p))
  }

  predicate Shown(g: Grid, p: Pos) { p in g && g[p].status == Revealed }

  function HiddenSafe(g: Grid): (s: set<Pos>) {
    set p | p in g && g[p].kind != MINE && g[p].status != Revealed
  }

  /** All neighbours on the board are revealed. */
  ghost predicate Surrounded(g: Grid, p: Pos) {
    forall q :: q in g && Adjacent(p, q) ==> Shown(g, q)
  }

  /** The revealed empty cells are surrounded, but for those still waiting. */
  ghost predicate Opened(g: Grid, waiting: set<Pos>) {
    forall p :: Shown(g, p) && g[p].kind == EMPTY && p !in waiting ==> Surrounded(g, p)
  }

  ghost predicate NoMineShown(g: Grid) {
    forall p :: Shown(g, p) ==> g[p].kind != MINE
  }

  function Show(g: Grid, p: Pos): (r: Grid)
    requires p in g
  {
    g[p := g[p].(status := Revealed)]
  }

  lemma ShowCounts(g: Grid, p: Pos)
    requires p in HiddenSafe(g)
    ensures HiddenSafe(Show(g, p)) == HiddenSafe(g) - {p} && |HiddenSafe(Show(g, p))| == |HiddenSafe(g)| - 1
  {
    assert HiddenSafe(Show(g, p)) == HiddenSafe(g) - {p};
  }

  // ----- what a click on an empty cell opens -----

  /** A walk over empty cells; only the last may be numbered. */
  ghost predicate IsWalk(g: Grid, walk: seq<Pos>) {
    && walk != [] && (forall i :: 0 <= i < |walk| ==> walk[i] in g)
    && (forall i :: 0 <= i < |walk| - 1 ==> g[walk[i]].kind == EMPTY && Adjacent(walk[i], walk[i + 1]))
  }

  ghost predicate Connected(g: Grid, a: Pos, b: Pos) {
    exists walk :: IsWalk(g, walk) && walk[0] == a && walk[|walk| - 1] == b
  }

  lemma ConnectedSelf(g: Grid, a: Pos)
    requires a in g
    ensures Connected(g, a, a)
  {
    assert IsWalk(g, [a]) && [a][0] == a;
  }

  lemma ConnectedStep(g: Grid, a: Pos, b: Pos, c: Pos)
    requires Connected(g, a, b) && g[b].kind == EMPTY && Adjacent(b, c) && c in g && b in g
    ensures Connected(g, a, c)
  {
    var walk :| IsWalk(g, walk) && walk[0] == a && walk[|walk| - 1] == b;
    var more := walk + [c];
    assert IsWalk(g, more) && more[0] == a && more[|more| - 1] == c;
  }

  ghost predicate SameKinds(g: Grid, h: Grid) {
    g.Keys == h.Keys && forall p :: p in g ==> g[p].kind == h[p].kind
  }

  /** If the start is revealed and all revealed empty cells are surrounded, walks are revealed. */
  lemma {:induction false} WalkIsShown(g0: Grid, g: Grid, walk: seq<Pos>, n: nat)
    requires SameKinds(g0, g) && IsWalk(g0, walk) && Shown(g, walk[0]) && Opened(g, {}) && n < |walk|
    ensures Shown(g, walk[n])
    decreases n
  {
    if n > 0 {
      WalkIsShown(g0, g, walk, n - 1);
      assert Surrounded(g, walk[n - 1]);
    }
  }

  /** Exactly the cells connected to the start were revealed, and nothing else changed. */
  ghost predicate OpensFrom(g0: Grid, g: Grid, start: Pos) {
    && g.Keys == g0.Keys
    && forall p :: p in g0 ==> g[p] == if Connected(g0, start, p) then g0[p].(status := Revealed) else g0[p]
  }

  // ----- the flood fill -----

  /** A cell is as before, or it was revealed and is connected to the start. */
  ghost predicate Opening(g0: Grid, g: Grid, start: Pos) {
    && SameKinds(g0, g) && Shown(g, start) && NoMineShown(g)
    && (forall p :: p in g0 ==> g[p] == g0[p] || (Shown(g, p) && Connected(g0, start, p)))
  }

  ghost predicate Waiting(g0: Grid, g: Grid, start: Pos, queue: seq<Pos>) {
    forall i :: 0 <= i < |queue| ==> Shown(g, queue[i]) && g[queue[i]].kind == EMPTY && Connected(g0, start, queue[i])
  }

  ghost function Elements(queue: seq<Pos>): (s: set<Pos>) { set p | p in queue }

  lemma OpeningStep(g0: Grid, g: Grid, start: Pos, p: Pos)
    requires Opening(g0, g, start) && p in HiddenSafe(g) && Connected(g0, start, p)
    ensures Opening(g0, Show(g, p), start)
  {
    var h := Show(g, p);
    forall q | q in g0 ensures h[q] == g0[q] || (Shown(h, q) && Connected(g0, start, q)) {
      if q != p {
        assert h[q] == g[q];
      }
    }
  }

  lemma WaitingStep(g0: Grid, g: Grid, start: Pos, queue: seq<Pos>, p: Pos)
    requires Waiting(g0, g, start, queue) && p in g
    ensures Waiting(g0, Show(g, p), start, queue)
  {
  }

  /** A newly revealed cell waits if it is empty. */
  lemma OpenedStep(g: Grid, p: Pos, waiting: set<Pos>)
    requires Opened(g, waiting) && p in HiddenSafe(g)
    ensures Opened(Show(g, p), waiting + if g[p].kind == EMPTY then {p} else {})
  {
    var h := Show(g, p);
    var w := waiting + if g[p].kind == EMPTY then {p} else {};
    forall q | Shown(h, q) && h[q].kind == EMPTY && q !in w ensures Surrounded(h, q) {
      assert Surrounded(g, q);
    }
  }

  /** When the fill is over, it has opened exactly what is connected. */
  lemma FillIsExact(g0: Grid, g: Grid, start: Pos)
    requires Opening(g0, g, start) && Opened(g, {}) && start in g0
    ensures OpensFrom(g0, g, start)
  {
    forall p | p in g0 ensures g[p] == if Connected(g0, start, p) then g0[p].(status := Revealed) else g0[p] {
      if Connected(g0, start, p) {
        var walk :| IsWalk(g0, walk) && walk[0] == start && walk[|walk| - 1] == p;
        WalkIsShown(g0, g, walk, |walk| - 1);
      }
    }
  }

  class Minesweeper {
    const rows: nat
    const cols: nat
    ghost const mines: set<Pos>
    var grid: Grid
    var safeCells: int
    var gameStatus: Game

    /** The counter is exact, no mine is revealed, revealed empty cells are surrounded, and a won game
        has nothing left to reveal. */
    ghost predicate Valid()
      reads this
    {
      && Laid(rows, cols, mines, grid)
      && safeCells == |HiddenSafe(grid)|
      && NoMineShown(grid)
      && Opened(grid, {})
      && (gameStatus == Won ==> safeCells == 0)
    }

    /** Lays the mines at the first places of a shuffled list of all cells. */
    constructor (r: nat, c: nat, mineCount: nat, shuffle: seq<Pos> -> seq<Pos>)
      requires mineCount <= r * c && forall s :: multiset(shuffle(s)) == multiset(s)
      ensures Valid() && rows == r && cols == c && |mines| == mineCount
      ensures gameStatus == InProgress && forall p :: p in grid ==> grid[p].status == Hidden
    {
      var g, minePlaces := LayMines(r, c, mineCount, shuffle);
      rows, cols, mines := r, c, minePlaces;
      grid, safeCells, gameStatus := g, r * c - mineCount, InProgress;
    }

    /** Reveals everything connected to an empty cell. */
    method FloodFill(start: Pos)
      requires Laid(rows, cols, mines, grid) && safeCells == |HiddenSafe(grid)| && NoMineShown(grid) && Opened(grid, {})
      requires start in HiddenSafe(grid) && grid[start].kind == EMPTY
      modifies this`grid, this`safeCells
      ensures Laid(rows, cols, mines, grid) && safeCells == |HiddenSafe(grid)| && NoMineShown(grid) && Opened(grid, {})
      ensures OpensFrom(old(grid), grid, start)
    {
      ghost var g0 := grid;
      var queue := [start];
      ConnectedSelf(g0, start);
      ShowCounts(grid, start);
      OpenedStep(grid, start, {});
      grid := Show(grid, start);
      safeCells := safeCells - 1;
      assert Elements([start]) == {start};
      while queue != []
        invariant Opening(g0, grid, start) && Waiting(g0, grid, start, queue) && Opened(grid, Elements(queue))
        invariant safeCells == |HiddenSafe(grid)|
        decreases |HiddenSafe(grid)|, |queue|
      {
        queue := OpenAround(g0, start, queue);
      }
      FillIsExact(g0, grid, start);
    }

    /** One turn of the fill: the neighbours of the first cell of the queue. */
    method OpenAround(ghost g0: Grid, ghost start: Pos, queue0: seq<Pos>) returns (queue: seq<Pos>)
      requires Laid(rows, cols, mines, g0) && queue0 != []
      requires Opening(g0, grid, start) && Waiting(g0, grid, start, queue0) && Opened(grid, Elements(queue0))
      requires safeCells == |HiddenSafe(grid)|
      modifies this`grid, this`safeCells
      ensures Opening(g0, grid, start) && Waiting(g0, grid, start, queue) && Opened(grid, Elements(queue))
      ensures safeCells == |HiddenSafe(grid)|
      ensures |HiddenSafe(grid)| < |HiddenSafe(old(grid))| || (grid == old(grid) && |queue| < |queue0|)
    {
      var front := queue0[0];
      queue := queue0[1..];
      assert Elements(queue0) == Elements(queue) + {front} && [front] + queue == queue0;
      hide Opening;
      hide Waiting;
      hide Opened;
      hide Laid;
      hide AroundShown;
      NoneAround(grid, front);
      for k := 0 to |DIRS|
        invariant Opening(g0, grid, start) && Waiting(g0, grid, start, [front] + queue)
        invariant Opened(grid, Elements(queue) + {front}) && safeCells == |HiddenSafe(grid)|
        invariant AroundShown(grid, front, k)
        invariant |HiddenSafe(grid)| < |HiddenSafe(old(grid))| || (grid == old(grid) && queue == queue0[1..])
      {
        queue := OpenOne(g0, start, front, queue, k);
      }
      FrontDone(g0, grid, start, front, queue);
    }

    method OpenOne(ghost g0: Grid, ghost start: Pos, front: Pos, queue0: seq<Pos>, k: nat) returns (queue: seq<Pos>)
      requires Laid(rows, cols, mines, g0) && k < |DIRS|
      requires Opening(g0, grid, start) && Waiting(g0, grid, start, [front] + queue0)
      requires Opened(grid, Elements(queue0) + {front}) && safeCells == |HiddenSafe(grid)| && AroundShown(grid, front, k)
      modifies this`grid, this`safeCells
      ensures Opening(g0, grid, start) && Waiting(g0, grid, start, [front] + queue)
      ensures Opened(grid, Elements(queue) + {front}) && safeCells == |HiddenSafe(grid)| && AroundShown(grid, front, k + 1)
      ensures |HiddenSafe(grid)| < |HiddenSafe(old(grid))| || (grid == old(grid) && queue == queue0)
    {
      queue := queue0;
      var q := Plus(front, DIRS[k]);
      DirsAreAdjacent(front, k);
      assert ([front] + queue0)[0] == front;
      hide Waiting;
      hide Opened;
      if q in grid {
        NeighbourIsSafe(rows, cols, mines, g0, grid, start, front, q);
        if grid[q].status != Revealed && grid[q].kind != MINE {
          RevealKeeps(g0, grid, start, front, queue0, k);
          grid := Show(grid, q);
          safeCells := safeCells - 1;
          if grid[q].kind == EMPTY {
            queue := queue0 + [q];
          }
        }
      }
    }

    method OnMouseEvent(row: nat, col: nat, leftClicked: bool, rightClicked: bool, clickReleased: bool)
      requires Valid()
      modifies this
      ensures Valid()
      ensures grid.Keys == old(grid).Keys && AfterEvent(old(grid), (row, col), leftClicked, rightClicked, clickReleased, grid)
      ensures (!InBoard(rows, cols, (row, col)) || !clickReleased) ==> gameStatus == old(gameStatus)
      ensures InBoard(rows, cols, (row, col)) && clickReleased ==>
                gameStatus == (if safeCells == 0 then Won
                  else if StepsOnMine(old(grid), (row, col), leftClicked, rightClicked) then Lost else old(gameStatus))
    {
      var p := (row, col);
      if !(row < rows && col < cols) || !clickReleased {
        return;
      } else if rightClicked && grid[p].status != Revealed {
        ToggleKeeps(grid, p);
        LaidKeeps(rows, cols, mines, grid, Toggle(grid, p));
        hide Laid;
        hide Opened;
        hide NoMineShown;
        hide HiddenSafe;
        grid := Toggle(grid, p);
      } else if leftClicked && grid[p].status == Hidden {
        LeftClick(p);
      }
      if safeCells == 0 {
        gameStatus := Won;
      }
    }

    /** A left click on a hidden cell of the board. */
    method LeftClick(p: Pos)
      requires Valid() && p in grid && grid[p].status == Hidden
      modifies this
      ensures Valid() && AfterEvent(old(grid), p, true, false, true, grid) && grid.Keys == old(grid).Keys
      ensures gameStatus == if old(grid)[p].kind == MINE then Lost else old(gameStatus)
    {
      if grid[p].kind == MINE {
        gameStatus := Lost;
      } else if grid[p].kind != EMPTY {
        RevealOne(rows, cols, mines, grid, p);
        grid := Show(grid, p);
        safeCells := safeCells - 1;
      } else {
        NotWonYet(grid, p);
        FloodFill(p);
      }
    }
  }

  lemma NotWonYet(g: Grid, p: Pos)
    requires p in HiddenSafe(g)
    ensures |HiddenSafe(g)| > 0
  {
  }

  lemma LaidKeeps(rows: nat, cols: nat, mines: set<Pos>, g: Grid, h: Grid)
    requires Laid(rows, cols, mines, g) && SameKinds(g, h)
    ensures Laid(rows, cols, mines, h)
  {
  }

  lemma RevealOne(rows: nat, cols: nat, mines: set<Pos>, g: Grid, p: Pos)
    requires Laid(rows, cols, mines, g) && NoMineShown(g) && Opened(g, {}) && p in HiddenSafe(g) && g[p].kind != EMPTY
    ensures var h := Show(g, p);
            && Laid(rows, cols, mines, h)
            && NoMineShown(h)
            && Opened(h, {})
            && |HiddenSafe(h)| == |HiddenSafe(g)| - 1
            && |HiddenSafe(g)| > 0
  {
    ShowCounts(g, p);
    OpenedStep(g, p, {});
    LaidKeeps(rows, cols, mines, g, Show(g, p));
    hide Laid;
    hide Opened;
    NotWonYet(g, p);
  }

  function Toggle(g: Grid, p: Pos): (r: Grid)
    requires p in g
  {
    g[p := g[p].(status := if g[p].status == Hidden then Flagged else Hidden)]
  }

  /** A second right click takes the flag back; every one changes its cell, between hidden and flagged. */
  lemma ToggleTwice(g: Grid, p: Pos)
    requires p in g && g[p].status != Revealed
    ensures Toggle(Toggle(g, p), p) == g && Toggle(g, p) != g && Toggle(g, p)[p].status != Revealed
    ensures forall q :: q in g && q != p ==> Toggle(g, p)[q] == g[q]
  {
    assert g[p := g[p]] == g;
    assert g[p].status == Hidden || g[p].status == Flagged;
    assert Toggle(g, p)[p].status != g[p].status;
  }

  lemma ToggleKeeps(g: Grid, p: Pos)
    requires p in g && g[p].status != Revealed
    ensures HiddenSafe(Toggle(g, p)) == HiddenSafe(g)
    ensures NoMineShown(g) ==> NoMineShown(Toggle(g, p))
    ensures Opened(g, {}) ==> Opened(Toggle(g, p), {})
  {
    var h := Toggle(g, p);
    if Opened(g, {}) {
      forall q | Shown(h, q) && h[q].kind == EMPTY ensures Surrounded(h, q) {
        assert Surrounded(g, q);
      }
    }
  }

  /** A left click that counts, on a hidden mine. */
  predicate StepsOnMine(g: Grid, p: Pos, left: bool, right: bool) {
    p in g && left && g[p].status == Hidden && !right && g[p].kind == MINE
  }

  /** What an event does to the board: a right click on an unrevealed cell toggles its flag, a left
      click on a hidden one reveals it and, from an empty one, everything connected to it. */
  ghost predicate AfterEvent(g0: Grid, p: Pos, left: bool, right: bool, released: bool, g: Grid) {
    if p !in g0 || !released then g == g0
    else if right && g0[p].status != Revealed then g == Toggle(g0, p)
    else if left && g0[p].status == Hidden && g0[p].kind == EMPTY then OpensFrom(g0, g, p)
    else if left && g0[p].status == Hidden && g0[p].kind != MINE then g == Show(g0, p)
    else g == g0
  }

  // ----- the neighbours of one cell -----

  ghost predicate AroundShown(g: Grid, p: Pos, k: nat)
    requires k <= |DIRS|
  {
    forall i :: 0 <= i < k ==> Plus(p, DIRS[i]) in g ==> Shown(g, Plus(p, DIRS[i]))
  }

  lemma NoneAround(g: Grid, p: Pos)
    ensures AroundShown(g, p, 0)
  {
  }

  lemma FrontDone(g0: Grid, g: Grid, start: Pos, front: Pos, queue: seq<Pos>)
    requires Waiting(g0, g, start, [front] + queue) && Opened(g, Elements(queue) + {front}) && AroundShown(g, front, |DIRS|)
    ensures Waiting(g0, g, start, queue) && Opened(g, Elements(queue))
  {
    AroundIsSurrounded(g, front);
    hide Surrounded;
    hide AroundShown;
    hide Connected;
    forall i | 0 <= i < |queue| ensures queue[i] == ([front] + queue)[i + 1] {
    }
  }

  lemma AroundIsSurrounded(g: Grid, p: Pos)
    requires AroundShown(g, p, |DIRS|)
    ensures Surrounded(g, p)
  {
    forall q | q in g && Adjacent(p, q) ensures Shown(g, q) {
      var k := AdjacentHasDir(p, q);
    }
  }

  /** Revealing the neighbour in direction k, and queueing it if it is empty. */
  lemma RevealKeeps(g0: Grid, g: Grid, start: Pos, front: Pos, queue: seq<Pos>, k: nat)
    requires k < |DIRS| && Plus(front, DIRS[k]) in HiddenSafe(g)
    requires Opening(g0, g, start) && Waiting(g0, g, start, [front] + queue)
    requires Opened(g, Elements(queue) + {front}) && AroundShown(g, front, k)
    ensures var q := Plus(front, DIRS[k]);
            var queue' := if g[q].kind == EMPTY then queue + [q] else queue;
            var h := Show(g, q);
            && Opening(g0, h, start)
            && Waiting(g0, h, start, [front] + queue')
            && Opened(h, Elements(queue') + {front})
            && AroundShown(h, front, k + 1)
            && |HiddenSafe(h)| == |HiddenSafe(g)| - 1
  {
    var q := Plus(front, DIRS[k]);
    FrontConnects(g0, g, start, front, queue, k);
    ShowCounts(g, q);
    OpeningStep(g0, g, start, q);
    QueueStep(g0, g, start, front, queue, q);
    AroundStep(g, front, k);
    hide *;
  }

  lemma FrontConnects(g0: Grid, g: Grid, start: Pos, front: Pos, queue: seq<Pos>, k: nat)
    requires k < |DIRS| && Plus(front, DIRS[k]) in g && SameKinds(g0, g) && Waiting(g0, g, start, [front] + queue)
    ensures Connected(g0, start, Plus(front, DIRS[k]))
  {
    assert ([front] + queue)[0] == front;
    DirsAreAdjacent(front, k);
    ConnectedStep(g0, start, front, Plus(front, DIRS[k]));
  }

  lemma QueueStep(g0: Grid, g: Grid, start: Pos, front: Pos, queue: seq<Pos>, q: Pos)
    requires q in HiddenSafe(g) && Connected(g0, start, q)
    requires Waiting(g0, g, start, [front] + queue) && Opened(g, Elements(queue) + {front})
    ensures var queue' := if g[q].kind == EMPTY then queue + [q] else queue;
            var h := Show(g, q);
            && Waiting(g0, h, start, [front] + queue')
            && Opened(h, Elements(queue') + {front})
  {
    WaitingStep(g0, g, start, [front] + queue, q);
    OpenedStep(g, q, Elements(queue) + {front});
    hide Opened;
    if g[q].kind == EMPTY {
      assert [front] + (queue + [q]) == [front] + queue + [q];
      assert Elements(queue + [q]) + {front} == Elements(queue) + {front} + {q};
    } else {
      assert Elements(queue) + {front} + {} == Elements(queue) + {front};
    }
  }

  lemma AroundStep(g: Grid, p: Pos, k: nat)
    requires k < |DIRS| && Plus(p, DIRS[k]) in g && AroundShown(g, p, k)
    ensures AroundShown(Show(g, Plus(p, DIRS[k])), p, k + 1)
  {
  }

  lemma NeighbourIsSafe(rows: nat, cols: nat, mines: set<Pos>, g0: Grid, g: Grid, start: Pos, p: Pos, q: Pos)
    requires Laid(rows, cols, mines, g0) && SameKinds(g0, g) && p in g && g[p].kind == EMPTY && q in g && Adjacent(p, q)
    ensures g[q].kind != MINE
  {
    EmptyIsSafe(mines, p, q);
  }

  // ----- laying out the board -----

  function SetOf(s: seq<Pos>): (r: set<Pos>) { set p | p in s }

  predicate Distinct(s: seq<Pos>) { forall i, j :: 0 <= i < j < |s| ==> s[i] != s[j] }

  lemma {:induction false} DistinctSize(s: seq<Pos>)
    requires Distinct(s)
    ensures |SetOf(s)| == |s|
  {
    if s != [] {
      var n := |s| - 1;
      DistinctSize(s[..n]);
      assert SetOf(s) == SetOf(s[..n]) + {s[n]};
    }
  }

  lemma {:induction false} DistinctPermutes(s: seq<Pos>, t: seq<Pos>)
    requires Distinct(s) && multiset(s) == multiset(t)
    ensures Distinct(t) && SetOf(s) == SetOf(t) && |s| == |t|
  {
    assert |multiset(s)| == |s| && |multiset(t)| == |t|;
    assert forall p :: p in s <==> p in multiset(t);
    forall i, j | 0 <= i < j < |t| ensures t[i] != t[j] {
      if t[i] == t[j] {
        TwiceCounts(t, i, j);
        OnceCounts(s, t[i]);
        assert false;
      }
    }
  }

  lemma TwiceCounts(t: seq<Pos>, i: nat, j: nat)
    requires i < j < |t| && t[i] == t[j]
    ensures multiset(t)[t[i]] >= 2
  {
    assert t == t[..i] + [t[i]] + t[i + 1..];
    assert t[j] in t[i + 1..];
  }

  lemma {:induction false} OnceCounts(s: seq<Pos>, p: Pos)
    requires Distinct(s)
    ensures multiset(s)[p] <= 1
  {
    if s != [] {
      var n := |s| - 1;
      assert s == s[..n] + [s[n]];
      OnceCounts(s[..n], p);
      assert p in s[..n] ==> p != s[n];
    }
  }

  /** Shuffling and splitting gives mineCount mines and the rest as safe cells. */
  lemma ShuffleSplits(cells: seq<Pos>, order: seq<Pos>, n: nat)
    requires Distinct(cells) && multiset(order) == multiset(cells) && n <= |cells|
    ensures |order| == |cells| && |SetOf(order[..n])| == n && |SetOf(order[n..])| == |cells| - n
    ensures SetOf(order[..n]) + SetOf(order[n..]) == SetOf(cells) && SetOf(order[..n]) !! SetOf(order[n..])
  {
    DistinctPermutes(cells, order);
    assert order == order[..n] + order[n..];
    DistinctSize(order[..n]);
    DistinctSize(order[n..]);
  }

  lemma FreshBoard(rows: nat, cols: nat, cells: seq<Pos>, order: seq<Pos>, n: nat, g: Grid)
    requires Distinct(cells) && multiset(order) == multiset(cells) && n <= |order| && n <= |cells|
    requires forall p :: p in cells <==> InBoard(rows, cols, p)
    requires Laid(rows, cols, SetOf(order[..n]), g) && forall p :: p in g ==> g[p].status == Hidden
    ensures |HiddenSafe(g)| == |cells| - n && NoMineShown(g) && Opened(g, {})
  {
    ShuffleSplits(cells, order, n);
    var safe := SetOf(order[n..]);
    forall p ensures p in HiddenSafe(g) <==> p in safe {
      assert p in g <==> p in SetOf(cells);
    }
    assert HiddenSafe(g) == safe;
  }

  method LayMines(r: nat, c: nat, mineCount: nat, shuffle: seq<Pos> -> seq<Pos>) returns (g: Grid, mines: set<Pos>)
    requires mineCount <= r * c && forall s :: multiset(shuffle(s)) == multiset(s)
    ensures Laid(r, c, mines, g) && |mines| == mineCount && forall p :: p in g ==> g[p].status == Hidden
    ensures |HiddenSafe(g)| == r * c - mineCount && NoMineShown(g) && Opened(g, {})
  {
    var cells := AllCells(r, c);
    var order := shuffle(cells);
    ShuffleSplits(cells, order, mineCount);
    mines := SetOf(order[..mineCount]);
    hide SetOf;
    hide Laid;
    hide HiddenSafe;
    hide Opened;
    hide NoMineShown;
    g := Lay(r, c, cells, mines);
    FreshBoard(r, c, cells, order, mineCount, g);
  }

  method AllCells(rows: nat, cols: nat) returns (cells: seq<Pos>)
    ensures |cells| == rows * cols && Distinct(cells)
    ensures forall p :: p in cells <==> InBoard(rows, cols, p)
  {
    cells := [];
    for i := 0 to rows
      invariant |cells| == i * cols && Distinct(cells)
      invariant forall p :: p in cells <==> InBoard(i, cols, p)
    {
      for j := 0 to cols
        invariant |cells| == i * cols + j && Distinct(cells)
        invariant forall p :: p in cells <==> InBoard(i, cols, p) || (p.0 == i && 0 <= p.1 < j)
      {
        cells := cells + [(i, j)];
      }
    }
  }

  method Lay(rows: nat, cols: nat, cells: seq<Pos>, mines: set<Pos>) returns (g: Grid)
    requires forall p :: p in cells <==> InBoard(rows, cols, p)
    ensures Laid(rows, cols, mines, g) && forall p :: p in g ==> g[p].status == Hidden
  {
    g := map[];
    for n := 0 to |cells|
      invariant forall p :: p in g <==> p in cells[..n]
      invariant forall p :: p in g ==> g[p] == Cell(Hidden, KindOf(mines, p))
    {
      if cells[n] in mines {
        g := g[cells[n] := Cell(Hidden, MINE)];
      } else {
        var count := CountMines(cells[n], mines);
        g := g[cells[n] := Cell(Hidden, count)];
      }
    }
    assert cells[..|cells|] == cells;
  }
}
