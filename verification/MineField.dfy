/** The mine field of game/winmine.c. Cells outside 1..30 by 1..16 form a border that never holds a
    mine or a mark and is never opened. */
module MineField {

  datatype Cell = Cell(x: int, y: int)

  const WIDTH := 30
  const HEIGHT := 16
  const MINES := 99

  predicate InField(c: Cell) {
    1 <= c.x <= WIDTH && 1 <= c.y <= HEIGHT
  }

  /** The cells of the 3 by 3 square around `c`, `c` included. */
  predicate Near(c: Cell, d: Cell) {
    c.x - 1 <= d.x <= c.x + 1 && c.y - 1 <= d.y <= c.y + 1
  }

  /** The `k`th cell of the square around `c`, in the order of the double loops; the fourth is `c`. */
  function Around(c: Cell, k: nat): Cell {
    Cell(c.x - 1 + k / 3, c.y - 1 + k % 3)
  }

  /** The whole field as a set. */
  function Field(): set<Cell> {
    set x, y | 1 <= x <= WIDTH && 1 <= y <= HEIGHT :: Cell(x, y)
  }

  /** No mine among the neighbours of `c`. */
  predicate Quiet(mines: set<Cell>, c: Cell) {
    forall i :: 0 <= i < 9 && i != 4 ==> Around(c, i) !in mines
  }

  /** A cell whose opening opens its neighbours too. */
  predicate Spreads(mines: set<Cell>, c: Cell) {
    c !in mines && Quiet(mines, c)
  }

  /** A cell that can be opened: inside, neither open nor marked. */
  predicate Closed(open: set<Cell>, marks: set<Cell>, c: Cell) {
    InField(c) && c !in open && c !in marks
  }

  /** A chain of closed cells from `path[0]`, each next to the one before, all but the last spreading. */
  ghost predicate IsPath(mines: set<Cell>, open: set<Cell>, marks: set<Cell>, path: seq<Cell>) {
    && path != []
    && (forall i :: 0 <= i < |path| ==> Closed(open, marks, path[i]))
    && (forall i :: 0 <= i < |path| - 1 ==> Spreads(mines, path[i]) && Near(path[i], path[i + 1]))
  }

  ghost predicate Reaches(mines: set<Cell>, open: set<Cell>, marks: set<Cell>, from: Cell, c: Cell) {
    exists path :: IsPath(mines, open, marks, path) && path[0] == from && path[|path| - 1] == c
  }

  /** The place of a cell in the square around `c`. */
  function PlaceIn(c: Cell, d: Cell): nat
    requires Near(c, d)
  {
    3 * (d.x - c.x + 1) + (d.y - c.y + 1)
  }

  lemma SquareAt(c: Cell, d: Cell)
    requires Near(c, d)
    ensures PlaceIn(c, d) < 9 && Around(c, PlaceIn(c, d)) == d
  {}

  lemma AroundIsNear(c: Cell, k: nat)
    requires k < 9
    ensures Near(c, Around(c, k)) && (Around(c, k) == c <==> k == 4)
  {}

  /** The neighbours of `c` in `s`: within one column and one row of it, and not `c` itself. */
  function Neighbours(s: set<Cell>, c: Cell): set<Cell> {
    set d | d in s && c.x - 1 <= d.x <= c.x + 1 && c.y - 1 <= d.y <= c.y + 1 && d != c
  }

  /** A cell is quiet if no mine is a neighbour of it. */
  lemma QuietMeans(mines: set<Cell>, c: Cell)
    ensures Quiet(mines, c) <==> Neighbours(mines, c) == {}
  {
    if Quiet(mines, c) {
      forall d | d in Neighbours(mines, c) ensures false {
        SquareAt(c, d);
      }
    }
    forall i | 0 <= i < 9 && i != 4 ensures Around(c, i) in mines ==> Around(c, i) in Neighbours(mines, c) {
      AroundIsNear(c, i);
    }
  }

  /** Closing off cells only removes paths. */
  lemma FewerClosed(mines: set<Cell>, open: set<Cell>, more: set<Cell>, marks: set<Cell>, from: Cell, c: Cell)
    requires open <= more && Reaches(mines, more, marks, from, c)
    ensures Reaches(mines, open, marks, from, c)
  {
    var path :| IsPath(mines, more, marks, path) && path[0] == from && path[|path| - 1] == c;
    assert IsPath(mines, open, marks, path);
  }

  /** One step in front of a path. */
  lemma OneStep(mines: set<Cell>, open: set<Cell>, marks: set<Cell>, from: Cell, next: Cell, c: Cell)
    requires Closed(open, marks, from) && Spreads(mines, from) && Near(from, next)
    requires Reaches(mines, open, marks, next, c)
    ensures Reaches(mines, open, marks, from, c)
  {
    var path :| IsPath(mines, open, marks, path) && path[0] == next && path[|path| - 1] == c;
    var longer := [from] + path;
    assert forall i :: 0 < i < |longer| ==> longer[i] == path[i - 1];
    assert IsPath(mines, open, marks, longer);
  }

  lemma ReachesItself(mines: set<Cell>, open: set<Cell>, marks: set<Cell>, c: Cell)
    requires Closed(open, marks, c)
    ensures Reaches(mines, open, marks, c, c)
  {
    assert IsPath(mines, open, marks, [c]);
  }

  /** What is open after digging: everything open before, and exactly the cells reached. */
  ghost predicate Dug(mines: set<Cell>, open: set<Cell>, marks: set<Cell>, from: Cell, after: set<Cell>) {
    && open <= after
    && (forall c :: c in after <==> c in open || Reaches(mines, open, marks, from, c))
  }

  /** Cells 1 to 30 by 1 to 16 that are neither open nor marked can be opened, and no others are. A mine, or a cell with
      a mine beside it, opens alone; any other cell opens all around it. */
  lemma DugMeans(mines: set<Cell>, open: set<Cell>, marks: set<Cell>, c: Cell, after: set<Cell>)
    requires Dug(mines, open, marks, c, after)
    ensures var can := 1 <= c.x <= 30 && 1 <= c.y <= 16 && c !in open && c !in marks;
            && (!can ==> after == open)
            && (can && (c in mines || Neighbours(mines, c) != {}) ==> after == open + {c})
            && (can && c !in mines && Neighbours(mines, c) == {} ==>
                  forall d :: Near(c, d) && 1 <= d.x <= 30 && 1 <= d.y <= 16 && d !in marks ==> d in after)
    ensures forall d :: d in after && d !in open ==> 1 <= d.x <= 30 && 1 <= d.y <= 16 && d !in marks
  {
    QuietMeans(mines, c);
    if Closed(open, marks, c) {
      ReachesItself(mines, open, marks, c);
    }
    forall d | Reaches(mines, open, marks, c, d)
      ensures Closed(open, marks, c) && Closed(open, marks, d) && (!Spreads(mines, c) ==> d == c)
    {
      var path :| IsPath(mines, open, marks, path) && path[0] == c && path[|path| - 1] == d;
      assert |path| > 1 ==> Spreads(mines, path[0]) && Near(path[0], path[1]);
    }
    forall d | Near(c, d) && Closed(open, marks, c) && Spreads(mines, c) && Closed(open, marks, d) ensures d in after {
      ReachesItself(mines, open, marks, d);
      OneStep(mines, open, marks, c, d, d);
    }
  }

  /** Newly opened spreading cells leave no closed neighbour. */
  ghost predicate Settled(mines: set<Cell>, open: set<Cell>, marks: set<Cell>, after: set<Cell>) {
    forall c, d {:trigger Spreads(mines, c), Near(c, d)} ::
      c in after && c !in open && Spreads(mines, c) && Near(c, d) ==> !Closed(after, marks, d)
  }

  /** An opening that settles everything it opens covers all paths from an opened cell. */
  lemma {:induction false} SettledCovers(mines: set<Cell>, open: set<Cell>, marks: set<Cell>, after: set<Cell>,
                                         path: seq<Cell>, i: nat)
    requires open <= after && Settled(mines, open, marks, after)
    requires IsPath(mines, open, marks, path) && path[0] in after && i < |path|
    ensures path[i] in after
  {
    if i > 0 {
      SettledCovers(mines, open, marks, after, path, i - 1);
      assert Near(path[i - 1], path[i]) && Spreads(mines, path[i - 1]);
      assert !Closed(after, marks, path[i]);
    }
  }

  // ----- digging around a cell that spreads

  /** Cell `c` spreads and has been opened on top of `open`; the first `k` cells of its square have been
      dug, and `now` is open. */
  ghost predicate DugAround(mines: set<Cell>, open: set<Cell>, marks: set<Cell>, c: Cell, now: set<Cell>, k: nat) {
    && k <= 9 && Closed(open, marks, c) && Spreads(mines, c)
    && open <= now && c in now
    && (forall e :: e in now && e !in open ==> Reaches(mines, open, marks, c, e))
    && (forall e, d {:trigger Spreads(mines, e), Near(e, d)} ::
          e in now && e !in open && e != c && Spreads(mines, e) && Near(e, d) ==> !Closed(now, marks, d))
    && (forall i :: 0 <= i < k ==> !Closed(now, marks, Around(c, i)))
  }

  lemma DigNext(mines: set<Cell>, open: set<Cell>, marks: set<Cell>, c: Cell, now: set<Cell>, k: nat, after: set<Cell>)
    requires DugAround(mines, open, marks, c, now, k) && k < 9
    requires Dug(mines, now, marks, Around(c, k), after) && Settled(mines, now, marks, after)
    ensures DugAround(mines, open, marks, c, after, k + 1)
  {
    var n := Around(c, k);
    AroundIsNear(c, k);
    forall e | e in after && e !in open ensures Reaches(mines, open, marks, c, e) {
      if e !in now {
        FewerClosed(mines, open, now, marks, n, e);
        OneStep(mines, open, marks, c, n, e);
      }
    }
    if Closed(now, marks, n) {
      ReachesItself(mines, now, marks, n);
    }
  }

  lemma DigAllAround(mines: set<Cell>, open: set<Cell>, marks: set<Cell>, c: Cell, now: set<Cell>)
    requires DugAround(mines, open, marks, c, now, 9)
    ensures Dug(mines, open, marks, c, now) && Settled(mines, open, marks, now)
  {
    forall d | Near(c, d) ensures !Closed(now, marks, d) {
      SquareAt(c, d);
    }
    forall e | Reaches(mines, open, marks, c, e) ensures e in now {
      var path :| IsPath(mines, open, marks, path) && path[0] == c && path[|path| - 1] == e;
      SettledCovers(mines, open, marks, now, path, |path| - 1);
    }
  }

  /** Digging opens a mine only where it starts: cells that spread have no mine next to them. */
  lemma OpensNoOtherMine(mines: set<Cell>, open: set<Cell>, marks: set<Cell>, from: Cell, c: Cell)
    requires Reaches(mines, open, marks, from, c) && c in mines
    ensures c == from
  {
    var path :| IsPath(mines, open, marks, path) && path[0] == from && path[|path| - 1] == c;
    if |path| > 1 {
      var d := path[|path| - 2];
      assert Spreads(mines, d) && Near(d, path[|path| - 1]);
      SquareAt(d, c);
    }
  }

  /** On a field without mines around the first cell, the first dig opens no mine and every closed cell
      of the square: the promise of the help text. */
  lemma FirstDigIsSafe(mines: set<Cell>, open: set<Cell>, marks: set<Cell>, c: Cell, after: set<Cell>)
    requires Closed(open, marks, c) && open !! mines
    requires forall d :: Near(c, d) ==> d !in mines
    requires Dug(mines, open, marks, c, after)
    ensures after !! mines
    ensures forall d :: Near(c, d) && Closed(open, marks, d) ==> d in after
  {
    forall i | 0 <= i < 9 ensures Around(c, i) !in mines {
      AroundIsNear(c, i);
    }
    forall d | Near(c, d) && Closed(open, marks, d) ensures d in after {
      ReachesItself(mines, open, marks, d);
      OneStep(mines, open, marks, c, d, d);
    }
    forall e | e in after && e in mines ensures false {
      OpensNoOtherMine(mines, open, marks, c, e);
      assert Near(c, c);
    }
  }

  // ----- digging all of a square

  /** One of the first `k` cells of the square reaches `e`. */
  ghost predicate FromSquare(mines: set<Cell>, open: set<Cell>, marks: set<Cell>, c: Cell, k: nat, e: Cell)
    requires k <= 9
  {
    exists i {:trigger Around(c, i)} :: 0 <= i < k && Reaches(mines, open, marks, Around(c, i), e)
  }

  /** The first `k` cells of the square have been dug on top of `open`, and `now` is open. */
  ghost predicate DugSquare(mines: set<Cell>, open: set<Cell>, marks: set<Cell>, c: Cell, now: set<Cell>, k: nat) {
    && k <= 9 && open <= now && Settled(mines, open, marks, now)
    && (forall e :: e in now && e !in open ==> FromSquare(mines, open, marks, c, k, e))
    && (forall i :: 0 <= i < k ==> !Closed(now, marks, Around(c, i)))
  }

  lemma DigSquareReach(mines: set<Cell>, open: set<Cell>, marks: set<Cell>, c: Cell, now: set<Cell>, k: nat, e: Cell)
    requires k < 9 && open <= now
    requires FromSquare(mines, open, marks, c, k, e) || Reaches(mines, now, marks, Around(c, k), e)
    ensures FromSquare(mines, open, marks, c, k + 1, e)
  {
    if Reaches(mines, now, marks, Around(c, k), e) {
      FewerClosed(mines, open, now, marks, Around(c, k), e);
    }
  }

  lemma SettledTwice(mines: set<Cell>, open: set<Cell>, marks: set<Cell>, now: set<Cell>, after: set<Cell>)
    requires Settled(mines, open, marks, now) && Settled(mines, now, marks, after) && now <= after
    ensures Settled(mines, open, marks, after)
  {
  }

  lemma DigSquareNext(mines: set<Cell>, open: set<Cell>, marks: set<Cell>, c: Cell, now: set<Cell>, k: nat,
                      after: set<Cell>)
    requires DugSquare(mines, open, marks, c, now, k) && k < 9
    requires Dug(mines, now, marks, Around(c, k), after) && Settled(mines, now, marks, after)
    ensures DugSquare(mines, open, marks, c, after, k + 1)
  {
    SettledTwice(mines, open, marks, now, after);
    forall e | e in after && e !in open ensures FromSquare(mines, open, marks, c, k + 1, e) {
      DigSquareReach(mines, open, marks, c, now, k, e);
    }
    forall i | 0 <= i < k + 1 ensures !Closed(after, marks, Around(c, i)) {
      if i == k && Closed(now, marks, Around(c, k)) {
        ReachesItself(mines, now, marks, Around(c, k));
      }
    }
  }

  /** Digging all of a square opens exactly what some cell of it reaches. */
  lemma DigWholeSquare(mines: set<Cell>, open: set<Cell>, marks: set<Cell>, c: Cell, now: set<Cell>)
    requires DugSquare(mines, open, marks, c, now, 9)
    ensures forall e :: e in now <==> e in open || FromSquare(mines, open, marks, c, 9, e)
  {
    forall e, i | 0 <= i < 9 && Reaches(mines, open, marks, Around(c, i), e) ensures e in now {
      var path :| IsPath(mines, open, marks, path) && path[0] == Around(c, i) && path[|path| - 1] == e;
      SettledCovers(mines, open, marks, now, path, |path| - 1);
    }
  }

  /** In other words, what some neighbour of `c`, or `c` itself, reaches. */
  lemma SquareMeans(mines: set<Cell>, open: set<Cell>, marks: set<Cell>, c: Cell, e: Cell)
    ensures FromSquare(mines, open, marks, c, 9, e) <==> exists d :: Near(c, d) && Reaches(mines, open, marks, d, e)
  {
    if FromSquare(mines, open, marks, c, 9, e) {
      var i :| 0 <= i < 9 && Reaches(mines, open, marks, Around(c, i), e);
      AroundIsNear(c, i);
    }
    if d :| Near(c, d) && Reaches(mines, open, marks, d, e) {
      SquareAt(c, d);
      assert Reaches(mines, open, marks, Around(c, PlaceIn(c, d)), e);
    }
  }

  /** With all 99 mines in the field, exactly 99 closed cells means that as many safe cells are closed as
      mines are open, whether the game is over or not. */
  lemma WinMeansAsManyMinesOpen(mines: set<Cell>, open: set<Cell>)
    requires mines <= Field() && |mines| == MINES
    ensures |Field() - open| == MINES <==> |Field() - mines - open| == |mines * open|
  {
    var safe := Field() - mines - open;
    assert Field() - open == safe + (mines - open);
    assert |safe + (mines - open)| == |safe| + |mines - open|;
    assert mines == (mines - open) + mines * open;
    assert |(mines - open) + mines * open| == |mines - open| + |mines * open|;
  }

  /** So with none of them open it means that every safe cell is open. */
  lemma WinMeansAllSafeOpen(mines: set<Cell>, open: set<Cell>)
    requires mines <= Field() && |mines| == MINES && open !! mines
    ensures |Field() - open| == MINES <==> Field() - mines <= open
  {
    WinMeansAsManyMinesOpen(mines, open);
    assert mines * open == {};
    var safe := Field() - mines - open;
    assert |safe| == 0 <==> safe == {};
    assert safe == {} <==> Field() - mines <= open;
  }
}
