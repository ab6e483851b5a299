/** The game of game/winmine.c with its global grids, updated in place. */
module WinmineGame {
  import opened MineField

  class Game {
    /** mines */
    const a: array2<bool>
    /** marks */
    const m: array2<bool>
    /** opened cells */
    const o: array2<bool>
    var gameover: bool

    ghost predicate Shape() {
      && a.Length0 == m.Length0 == o.Length0 == WIDTH + 2
      && a.Length1 == m.Length1 == o.Length1 == HEIGHT + 2
      && a != m && a != o && m != o
    }

    ghost predicate Bordered(g: array2<bool>)
      requires g.Length0 == WIDTH + 2 && g.Length1 == HEIGHT + 2
      reads g
    {
      forall x, y :: 0 <= x < WIDTH + 2 && 0 <= y < HEIGHT + 2 && !InField(Cell(x, y)) ==> !g[x, y]
    }

    /** The border is empty in all three grids. */
    ghost predicate Valid()
      reads a, m, o
    {
      Shape() && Bordered(a) && Bordered(m) && Bordered(o)
    }

    ghost function Cells(g: array2<bool>): set<Cell>
      requires g.Length0 == WIDTH + 2 && g.Length1 == HEIGHT + 2
      reads g
    {
      set x, y | 1 <= x <= WIDTH && 1 <= y <= HEIGHT && g[x, y] :: Cell(x, y)
    }

    ghost function Mines(): set<Cell>
      requires Shape()
      reads a
    {
      Cells(a)
    }

    ghost function Marks(): set<Cell>
      requires Shape()
      reads m
    {
      Cells(m)
    }

    ghost function Open(): set<Cell>
      requires Shape()
      reads o
    {
      Cells(o)
    }

    /** The grids as `winmine` clears them for a new game. */
    constructor ()
      ensures Valid() && fresh(a) && fresh(m) && fresh(o)
      ensures Mines() == {} && Marks() == {} && Open() == {} && !gameover
    {
      a := new bool[WIDTH + 2, HEIGHT + 2]((x, y) => false);
      m := new bool[WIDTH + 2, HEIGHT + 2]((x, y) => false);
      o := new bool[WIDTH + 2, HEIGHT + 2]((x, y) => false);
      gameover := false;
    }

    /** `num_mine_beside`, of a cell of the field */
    method NumMineBeside(x: int, y: int) returns (s: nat)
      requires Valid() && InField(Cell(x, y))
      ensures s == NearbyIn(Mines(), Cell(x, y)) == |Neighbours(Mines(), Cell(x, y))|
    {
      s := 0;
      ghost var c := Cell(x, y);
      ghost var k := 0;
      for dx := x - 1 to x + 2
        invariant k == 3 * (dx - x + 1) && s == NearbyUpTo(Mines(), c, k)
      {
        for dy := y - 1 to y + 2
          invariant k == 3 * (dx - x + 1) + (dy - y + 1) && s == NearbyUpTo(Mines(), c, k)
        {
          NearbyStep(Mines(), c, Cell(dx, dy), k);
          if !(dx == x && dy == y) && a[dx, dy] {
            s := s + 1;
          }
          k := k + 1;
        }
      }
      NearbyCounts(Mines(), c);
    }

    /** `num_mark_beside` */
    method NumMarkBeside(x: int, y: int) returns (s: nat)
      requires Valid() && InField(Cell(x, y))
      ensures s == NearbyIn(Marks(), Cell(x, y)) == |Neighbours(Marks(), Cell(x, y))|
    {
      s := 0;
      ghost var c := Cell(x, y);
      ghost var k := 0;
      for dx := x - 1 to x + 2
        invariant k == 3 * (dx - x + 1) && s == NearbyUpTo(Marks(), c, k)
      {
        for dy := y - 1 to y + 2
          invariant k == 3 * (dx - x + 1) + (dy - y + 1) && s == NearbyUpTo(Marks(), c, k)
        {
          NearbyStep(Marks(), c, Cell(dx, dy), k);
          if !(dx == x && dy == y) && m[dx, dy] {
            s := s + 1;
          }
          k := k + 1;
        }
      }
      NearbyCounts(Marks(), c);
    }

    /** `windig` opens exactly the closed, unmarked cells that the start reaches through safe cells
        without neighbouring mines; it ends because every opening leaves fewer closed cells. */
    method Windig(x: int, y: int)
      requires Valid()
      modifies o, this`gameover
      decreases Field() - Open(), 1
      ensures Valid()
      ensures Dug(Mines(), old(Open()), Marks(), Cell(x, y), Open())
      ensures Settled(Mines(), old(Open()), Marks(), Open())
      ensures gameover == (old(gameover) || (Closed(old(Open()), Marks(), Cell(x, y)) && Cell(x, y) in Mines()))
    {
      ghost var c, before := Cell(x, y), Open();
      if x < 1 || x > 30 || y < 1 || y > 16 {
        NothingReached(Mines(), before, Marks(), c);
        return;
      }
      if o[x, y] || m[x, y] {
        NothingReached(Mines(), before, Marks(), c);
        return;
      }
      OpenCell(x, y);
      if a[x, y] {
        gameover := true;
        OnlyItself(Mines(), before, Marks(), c);
        return;
      }
      var n := NumMineBeside(x, y);
      NearbyNone(Mines(), c);
      if n == 0 {
        WindigAround(x, y, before);
      } else {
        OnlyItself(Mines(), before, Marks(), c);
      }
    }

    /** `dblclick`: on an open cell whose marked neighbours are as many as its mines, digs the square. */
    method Dblclick(x: int, y: int)
      requires Valid()
      modifies o, this`gameover
      ensures Valid()
      ensures Dblclicked(Mines(), old(Open()), Marks(), Cell(x, y), Open())
      ensures var c := Cell(x, y);
              if c in old(Open()) && |Neighbours(Mines(), c)| == |Neighbours(Marks(), c)|
              then forall e :: e in Open()
                     <==> e in old(Open()) || exists d :: Near(c, d) && Reaches(Mines(), old(Open()), Marks(), d, e)
              else Open() == old(Open())
      ensures gameover == (old(gameover) || OpenedMine(Mines(), old(Open()), Open()))
    {
      ghost var c, before := Cell(x, y), Open();
      NearbyCounts(Mines(), c);
      NearbyCounts(Marks(), c);
      DigIfMarked(x, y);
      if c in before && |Neighbours(Mines(), c)| == |Neighbours(Marks(), c)| {
        DigWholeSquare(Mines(), before, Marks(), c, Open());
        forall e {
          SquareMeans(Mines(), before, Marks(), c, e);
        }
      }
    }

    /** The body of `dblclick`. */
    method DigIfMarked(x: int, y: int)
      requires Valid()
      modifies o, this`gameover
      ensures Valid()
      ensures Dblclicked(Mines(), old(Open()), Marks(), Cell(x, y), Open())
      ensures gameover == (old(gameover) || OpenedMine(Mines(), old(Open()), Open()))
    {
      if x < 1 || x > 30 || y < 1 || y > 16 {
        return;
      }
      if !o[x, y] {
        return;
      }
      var mineCount := NumMineBeside(x, y);
      var markCount := NumMarkBeside(x, y);
      if mineCount != markCount {
        return;
      }
      DblclickSquare(x, y);
    }

    /** The double loop of `dblclick`. */
    method DblclickSquare(x: int, y: int)
      requires Valid()
      modifies o, this`gameover
      ensures Valid() && DugSquare(Mines(), old(Open()), Marks(), Cell(x, y), Open(), 9)
      ensures gameover == (old(gameover) || OpenedMine(Mines(), old(Open()), Open()))
    {
      ghost var c, before, k := Cell(x, y), Open(), 0;
      for dx := x - 1 to x + 2
        invariant Valid() && k == 3 * (dx - x + 1) && DugSquare(Mines(), before, Marks(), c, Open(), k)
        invariant gameover == (old(gameover) || OpenedMine(Mines(), before, Open()))
      {
        for dy := y - 1 to y + 2
          invariant Valid() && k == 3 * (dx - x + 1) + (dy - y + 1)
          invariant DugSquare(Mines(), before, Marks(), c, Open(), k)
          invariant gameover == (old(gameover) || OpenedMine(Mines(), before, Open()))
        {
          SquareAt(c, Cell(dx, dy));
          DblclickStep(dx, dy, c, before, old(gameover), k);
          k := k + 1;
        }
      }
    }

    /** The body of that loop. */
    method DblclickStep(dx: int, dy: int, ghost c: Cell, ghost before: set<Cell>, ghost was: bool, ghost k: nat)
      requires Valid() && k < 9 && Around(c, k) == Cell(dx, dy)
      requires DugSquare(Mines(), before, Marks(), c, Open(), k)
      requires gameover == (was || OpenedMine(Mines(), before, Open()))
      modifies o, this`gameover
      ensures Valid() && DugSquare(Mines(), before, Marks(), c, Open(), k + 1)
      ensures gameover == (was || OpenedMine(Mines(), before, Open()))
    {
      ghost var now := Open();
      Windig(dx, dy);
      DblclickNext(Mines(), before, Marks(), c, now, k, Open());
    }

    /** `dig` */
    method Dig(x: int, y: int)
      requires Valid() && InField(Cell(x, y))
      modifies o, this`gameover
      ensures Valid() && old(Open()) <= Open()
      ensures Cell(x, y) !in old(Open()) ==> Dug(Mines(), old(Open()), Marks(), Cell(x, y), Open())
      ensures Cell(x, y) in old(Open()) ==> Dblclicked(Mines(), old(Open()), Marks(), Cell(x, y), Open())
      ensures gameover == (old(gameover) || OpenedMine(Mines(), old(Open()), Open()))
    {
      if !o[x, y] {
        Windig(x, y);
        OneDigOpensMine(Mines(), old(Open()), Marks(), Cell(x, y), Open());
      } else {
        Dblclick(x, y);
      }
    }

    /** The mark key of `winloop` */
    method ToggleMark(x: int, y: int)
      requires Valid() && InField(Cell(x, y))
      modifies m
      ensures Valid()
      ensures Marks() == if Cell(x, y) in Open() then old(Marks())
                         else if Cell(x, y) in old(Marks()) then old(Marks()) - {Cell(x, y)}
                         else old(Marks()) + {Cell(x, y)}
    {
      if !o[x, y] {
        m[x, y] := !m[x, y];
      }
    }

    /** `wininit` with the values `rand` returns as a parameter, of which it uses `pairs` pairs; false when they run
        out. The mines are the cells drawn, except for those around the first one. */
    method WinInit(x1: int, y1: int, draws: seq<nat>) returns (ok: bool, ghost pairs: nat)
      requires Valid() && Mines() == {}
      modifies a
      ensures Valid()
      ensures Mines() <= Field() && |Mines()| <= MINES
      ensures ok ==> |Mines()| == MINES
      ensures forall d :: Near(Cell(x1, y1), d) ==> d !in Mines()
      ensures 2 * pairs <= |draws| && Mines() == Drawn(draws, pairs, Cell(x1, y1))
    {
      var next := 0;
      pairs := 0;
      for n := 1 to MINES + 1
        invariant Valid() && |Mines()| == n - 1 && next == 2 * pairs <= |draws|
        invariant Mines() == Drawn(draws, pairs, Cell(x1, y1))
      {
        var found, x, y;
        found, x, y, next, pairs := DrawCell(x1, y1, draws, next, pairs);
        if !found {
          DrawnApart(draws, pairs, Cell(x1, y1));
          return false, pairs;
        }
        PlantMine(x, y);
      }
      DrawnApart(draws, pairs, Cell(x1, y1));
      return true, pairs;
    }

    /** The inner loop of `wininit`: draws until the cell is free and not around the first one; false when the
        draws run out. */
    method DrawCell(x1: int, y1: int, draws: seq<nat>, start: nat, ghost before: nat)
        returns (found: bool, x: int, y: int, next: nat, ghost pairs: nat)
      requires Valid() && start == 2 * before <= |draws| && Mines() == Drawn(draws, before, Cell(x1, y1))
      ensures next == 2 * pairs <= |draws|
      ensures found ==> InField(Cell(x, y)) && Cell(x, y) !in Mines() && !Near(Cell(x1, y1), Cell(x, y))
      ensures Drawn(draws, pairs, Cell(x1, y1)) == if found then Mines() + {Cell(x, y)} else Mines()
    {
      next, pairs := start, before;
      while true
        invariant next == 2 * pairs <= |draws| && Mines() == Drawn(draws, pairs, Cell(x1, y1))
        decreases |draws| - next
      {
        if next + 1 >= |draws| {
          return false, 0, 0, next, pairs;
        }
        x := draws[next] % 30 + 1;
        y := draws[next + 1] % 16 + 1;
        next, pairs := next + 2, pairs + 1;
        assert DrawnCell(draws, pairs - 1) == Cell(x, y);
        if !(a[x, y] || (-2 < x - x1 < 2 && -2 < y - y1 < 2)) {
          return true, x, y, next, pairs;
        }
      }
    }

    method PlantMine(x: int, y: int)
      requires Valid() && InField(Cell(x, y))
      modifies a
      ensures Valid() && Mines() == old(Mines()) + {Cell(x, y)}
    {
      a[x, y] := true;
    }

    /** `checkwin` */
    method CheckWin() returns (won: bool)
      requires Valid()
      ensures won == (|Field() - Open()| == MINES)
      ensures |Mines()| == MINES ==> (won <==> |Field() - Mines() - Open()| == |Mines() * Open()|)
      ensures |Mines()| == MINES && Open() !! Mines() ==> (won <==> Field() - Mines() <= Open())
    {
      var s := 0;
      ghost var closed: set<Cell> := {};
      for x := 1 to WIDTH + 1
        invariant s == |closed|
        invariant forall c :: c in closed <==> InField(c) && c.x < x && c !in Open()
      {
        for y := 1 to HEIGHT + 1
          invariant s == |closed|
          invariant forall c :: c in closed <==> InField(c) && (c.x < x || (c.x == x && c.y < y)) && c !in Open()
        {
          if !o[x, y] {
            s := s + 1;
            closed := closed + {Cell(x, y)};
          }
        }
      }
      assert closed == Field() - Open();
      if |Mines()| == MINES {
        WinMeansAsManyMinesOpen(Mines(), Open());
        if Open() !! Mines() {
          WinMeansAllSafeOpen(Mines(), Open());
        }
      }
      return s == 99;
    }

    method OpenCell(x: int, y: int)
      requires Valid() && InField(Cell(x, y))
      modifies o
      ensures Valid() && Open() == old(Open()) + {Cell(x, y)}
    {
      o[x, y] := true;
    }

    /** The double loop of `windig` over the square around a cell just opened. */
    method WindigAround(x: int, y: int, ghost before: set<Cell>)
      requires Valid() && Open() == before + {Cell(x, y)}
      requires Closed(before, Marks(), Cell(x, y)) && Spreads(Mines(), Cell(x, y))
      modifies o, this`gameover
      decreases Field() - before, 0
      ensures Valid() && gameover == old(gameover)
      ensures Dug(Mines(), before, Marks(), Cell(x, y), Open())
      ensures Settled(Mines(), before, Marks(), Open())
    {
      ghost var c, k := Cell(x, y), 0;
      ReachesItself(Mines(), before, Marks(), c);
      for dx := x - 1 to x + 2
        invariant Valid() && gameover == old(gameover)
        invariant k == 3 * (dx - x + 1) && DugAround(Mines(), before, Marks(), c, Open(), k)
      {
        for dy := y - 1 to y + 2
          invariant Valid() && gameover == old(gameover)
          invariant k == 3 * (dx - x + 1) + (dy - y + 1) && DugAround(Mines(), before, Marks(), c, Open(), k)
        {
          ghost var now := Open();
          SquareAt(c, Cell(dx, dy));
          ReadyToDig(Mines(), before, Marks(), c, now, k);
          Windig(dx, dy);
          DigNext(Mines(), before, Marks(), c, now, k, Open());
          k := k + 1;
        }
      }
      DigAllAround(Mines(), before, Marks(), c, Open());
    }
  }

  function DrawnCell(draws: seq<nat>, i: nat): Cell
    requires 2 * i + 1 < |draws|
  {
    Cell(draws[2 * i] % 30 + 1, draws[2 * i + 1] % 16 + 1)
  }

  /** The cells that the first `k` pairs of draws give, other than those around `first`. */
  function Drawn(draws: seq<nat>, k: nat, first: Cell): set<Cell>
    requires 2 * k <= |draws|
  {
    if k == 0 then {}
    else Drawn(draws, k - 1, first) + var c := DrawnCell(draws, k - 1); if Near(first, c) then {} else {c}
  }

  lemma {:induction false} DrawnMeans(draws: seq<nat>, k: nat, first: Cell, c: Cell)
    requires 2 * k <= |draws|
    ensures c in Drawn(draws, k, first) <==> !Near(first, c) && exists i :: 0 <= i < k && DrawnCell(draws, i) == c
  {
    if k > 0 {
      DrawnMeans(draws, k - 1, first, c);
    }
  }

  lemma DrawnApart(draws: seq<nat>, k: nat, first: Cell)
    requires 2 * k <= |draws|
    ensures forall d :: Near(first, d) ==> d !in Drawn(draws, k, first)
    ensures Drawn(draws, k, first) <= Field()
  {
    forall d ensures d in Drawn(draws, k, first) ==> !Near(first, d) && d in Field() {
      DrawnMeans(draws, k, first, d);
    }
  }

  /** What a double click leaves open: on an open cell with as many marks as mines around it, what digging
      its whole square opens; otherwise nothing changes. */
  ghost predicate Dblclicked(mines: set<Cell>, open: set<Cell>, marks: set<Cell>, c: Cell, after: set<Cell>) {
    if InField(c) && c in open && NearbyIn(mines, c) == NearbyIn(marks, c)
    then DugSquare(mines, open, marks, c, after, 9)
    else after == open
  }

  /** Whether digging has opened a mine. */
  ghost predicate OpenedMine(mines: set<Cell>, open: set<Cell>, after: set<Cell>) {
    exists c :: c in mines && c in after && c !in open
  }

  lemma OneDigOpensMine(mines: set<Cell>, open: set<Cell>, marks: set<Cell>, c: Cell, after: set<Cell>)
    requires Dug(mines, open, marks, c, after)
    ensures OpenedMine(mines, open, after) <==> Closed(open, marks, c) && c in mines
  {
    if OpenedMine(mines, open, after) {
      var e :| e in mines && e in after && e !in open;
      OpensNoOtherMine(mines, open, marks, c, e);
      var path :| IsPath(mines, open, marks, path) && path[0] == c && path[|path| - 1] == e;
    }
    if Closed(open, marks, c) {
      ReachesItself(mines, open, marks, c);
    }
  }

  lemma MineOpenedBefore(mines: set<Cell>, open: set<Cell>, now: set<Cell>, after: set<Cell>)
    requires open <= now <= after
    ensures OpenedMine(mines, open, after) <==> OpenedMine(mines, open, now) || OpenedMine(mines, now, after)
  {}

  lemma ReadyToDig(mines: set<Cell>, open: set<Cell>, marks: set<Cell>, c: Cell, now: set<Cell>, k: nat)
    requires DugAround(mines, open, marks, c, now, k) && k < 9
    ensures Field() - now < Field() - open
    ensures Closed(now, marks, Around(c, k)) ==> Around(c, k) !in mines
  {
    assert c in Field() - open && c !in Field() - now;
    AroundIsNear(c, k);
  }

  lemma DblclickNext(mines: set<Cell>, open: set<Cell>, marks: set<Cell>, c: Cell, now: set<Cell>, k: nat,
                     after: set<Cell>)
    requires DugSquare(mines, open, marks, c, now, k) && k < 9
    requires Dug(mines, now, marks, Around(c, k), after) && Settled(mines, now, marks, after)
    ensures DugSquare(mines, open, marks, c, after, k + 1)
    ensures OpenedMine(mines, open, after)
      <==> OpenedMine(mines, open, now) || (Closed(now, marks, Around(c, k)) && Around(c, k) in mines)
  {
    OneDigOpensMine(mines, now, marks, Around(c, k), after);
    DigSquareNext(mines, open, marks, c, now, k, after);
    MineOpenedBefore(mines, open, now, after);
  }

  /** How many of the first `k` cells of the square, the middle one left out, are in `s`. */
  function NearbyUpTo(s: set<Cell>, c: Cell, k: nat): nat
    requires k <= 9
  {
    if k == 0 then 0
    else NearbyUpTo(s, c, k - 1) + if k - 1 != 4 && Around(c, k - 1) in s then 1 else 0
  }

  /** How many neighbours of `c` are in `s`. */
  function NearbyIn(s: set<Cell>, c: Cell): nat {
    NearbyUpTo(s, c, 9)
  }

  /** They are as many as the neighbours there are. */
  lemma NearbyCounts(s: set<Cell>, c: Cell)
    ensures NearbyIn(s, c) == |Neighbours(s, c)|
  {
    var found := CountUpTo(s, c, 9);
    assert found == Neighbours(s, c) by {
      forall d | d in Neighbours(s, c) ensures d in found {
        SquareAt(c, d);
      }
      forall k | 0 <= k < 9 ensures Near(c, Around(c, k)) && (Around(c, k) == c <==> k == 4) {
        AroundIsNear(c, k);
      }
    }
  }

  lemma {:induction false} CountUpTo(s: set<Cell>, c: Cell, k: nat) returns (found: set<Cell>)
    requires k <= 9
    ensures |found| == NearbyUpTo(s, c, k)
    ensures forall d :: d in found <==> exists i :: 0 <= i < k && i != 4 && Around(c, i) == d && d in s
  {
    found := {};
    if k > 0 {
      found := CountUpTo(s, c, k - 1);
      var d := Around(c, k - 1);
      if k - 1 != 4 && d in s {
        forall i | 0 <= i < k - 1 ensures Around(c, i) != d {
          AroundDiffers(c, i, k - 1);
        }
        found := found + {d};
      }
    }
  }

  lemma AroundDiffers(c: Cell, i: nat, k: nat)
    requires i < k
    ensures Around(c, i) != Around(c, k)
  {
    assert i == 3 * (i / 3) + i % 3 && k == 3 * (k / 3) + k % 3;
  }

  lemma NearbyStep(s: set<Cell>, c: Cell, d: Cell, k: nat)
    requires Near(c, d) && k == PlaceIn(c, d)
    ensures k < 9 && NearbyUpTo(s, c, k + 1) == NearbyUpTo(s, c, k) + if d != c && d in s then 1 else 0
  {
    SquareAt(c, d);
    AroundIsNear(c, k);
  }

  lemma NearbyNone(mines: set<Cell>, c: Cell)
    ensures NearbyIn(mines, c) == 0 <==> Quiet(mines, c)
  {
    NoneUpTo(mines, c, 9);
  }

  lemma {:induction false} NoneUpTo(mines: set<Cell>, c: Cell, k: nat)
    requires k <= 9
    ensures NearbyUpTo(mines, c, k) == 0 <==> forall i :: 0 <= i < k && i != 4 ==> Around(c, i) !in mines
  {
    if k > 0 {
      NoneUpTo(mines, c, k - 1);
    }
  }

  /** From a cell that is not closed nothing is reached. */
  lemma NothingReached(mines: set<Cell>, open: set<Cell>, marks: set<Cell>, c: Cell)
    requires !Closed(open, marks, c)
    ensures Dug(mines, open, marks, c, open) && Settled(mines, open, marks, open)
  {}

  /** From a closed cell that does not spread only the cell itself is reached. */
  lemma OnlyItself(mines: set<Cell>, open: set<Cell>, marks: set<Cell>, c: Cell)
    requires Closed(open, marks, c) && !Spreads(mines, c)
    ensures Dug(mines, open, marks, c, open + {c}) && Settled(mines, open, marks, open + {c})
  {
    ReachesItself(mines, open, marks, c);
    forall d | Reaches(mines, open, marks, c, d) ensures d == c {
      var path :| IsPath(mines, open, marks, path) && path[0] == c && path[|path| - 1] == d;
      PathGoesOn(mines, open, marks, path);
    }
  }

  lemma PathGoesOn(mines: set<Cell>, open: set<Cell>, marks: set<Cell>, path: seq<Cell>)
    requires IsPath(mines, open, marks, path)
    ensures |path| > 1 ==> Spreads(mines, path[0])
  {
    if |path| > 1 {
      assert Spreads(mines, path[0]) && Near(path[0], path[1]);
    }
  }
}
