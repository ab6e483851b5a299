/** The arena allocator of lib/pool.c. Addresses are numbers; what `malloc` returns is a parameter. */
module Pool {

  /** `sizeof(pool_block_t)`, `sizeof(pool_t)` and `sizeof(pool_large_t)` with 8-byte pointers. */
  const HEADER := 24
  const POOL := 16
  const LARGE := 16

  /** A range of addresses. */
  datatype Region = Region(start: int, size: nat)

  /** `pool_block_t` at address `start`. */
  datatype Block = Block(start: int, last: int, end: int)

  /** The pool: its blocks, head first, its large allocations and, for the record, what it has handed out
      since it was created or cleared. Requests of `max` bytes and more are large. */
  datatype State = State(max: nat, blocks: seq<Block>, large: seq<Region>, given: seq<Region>)

  function AlignUp(x: int): (r: int)
    ensures r % 8 == 0 && x <= r < x + 8
  {
    (x + 7) / 8 * 8
  }

  predicate Apart(a: Region, b: Region) {
    a.start + a.size <= b.start || b.start + b.size <= a.start
  }

  function Extent(b: Block): Region {
    Region(b.start, if b.end < b.start then 0 else b.end - b.start)
  }

  /** Pointer differences are compared as unsigned numbers. */
  function Unsigned(d: int): int {
    if d < 0 then d + 0x1_0000_0000_0000_0000 else d
  }

  predicate Fits(b: Block, size: nat) {
    Unsigned(b.end - AlignUp(b.last)) >= size
  }

  /** The first block from the `i`th on that takes the request. */
  function FirstFit(blocks: seq<Block>, size: nat, i: nat): (r: nat)
    requires i <= |blocks|
    ensures i <= r <= |blocks|
    ensures r < |blocks| ==> Fits(blocks[r], size)
    ensures forall j :: i <= j < r ==> !Fits(blocks[j], size)
    decreases |blocks| - i
  {
    if i == |blocks| || Fits(blocks[i], size) then i else FirstFit(blocks, size, i + 1)
  }

  /** A request below `max`; a new block, if one is needed, is put at `base`, after the head. */
  function Small(s: State, size: nat, base: int): State
    requires s.blocks != []
  {
    var i := FirstFit(s.blocks, size, 0);
    var head := s.blocks[0];
    if i < |s.blocks| then
      var ret := AlignUp(s.blocks[i].last);
      s.(blocks := s.blocks[i := s.blocks[i].(last := ret + size)], given := s.given + [Region(ret, size)])
    else
      var ret := AlignUp(base + HEADER);
      var b := Block(base, ret + size, base + (head.end - head.start));
      s.(blocks := [head, b] + s.blocks[1..], given := s.given + [Region(ret, size)])
  }

  /** A large request: a small one for the list node, and memory of its own at `far`. */
  function Large(s: State, size: nat, base: int, far: int): State
    requires s.blocks != []
  {
    var t := Small(s, LARGE, base);
    t.(large := [Region(far, size)] + t.large, given := t.given + [Region(far, size)])
  }

  function Alloc(s: State, size: nat, base: int, far: int): State
    requires s.blocks != []
  {
    if size < s.max then Small(s, size, base) else Large(s, size, base, far)
  }

  function Reset(b: Block): Block {
    b.(last := b.start + HEADER)
  }

  function Clear(s: State): State
    requires s.blocks != []
  {
    var head := s.blocks[0];
    s.(blocks := [head.(last := AlignUp(head.start + HEADER) + POOL)]
         + seq(|s.blocks| - 1, i requires 0 <= i < |s.blocks| - 1 => Reset(s.blocks[i + 1])),
       large := [], given := [])
  }

  function Create(max: nat, size: nat, base: int): State {
    State(max, [Block(base, AlignUp(base + HEADER) + POOL, base + size)], [], [])
  }

  // ----- what is kept

  /** A region inside the used part of a block, behind its header and, in the head, behind the pool. */
  predicate InUse(s: State, i: nat, r: Region)
    requires i < |s.blocks|
  {
    && s.blocks[i].start + HEADER + (if i == 0 then POOL else 0) <= r.start
    && r.start + r.size <= s.blocks[i].last
  }

  predicate Placed(s: State, r: Region) {
    r in s.large || exists i :: 0 <= i < |s.blocks| && InUse(s, i, r)
  }

  /** A block of the right size with its mark inside it. */
  predicate BlockOk(b: Block, size: nat, reserved: nat) {
    && b.start % 8 == 0 && b.end == b.start + size
    && b.start + HEADER + reserved <= b.last <= b.end
  }

  /** Blocks of the right size and large allocations, all apart. */
  predicate GoodBlocks(s: State, size: nat) {
    && s.blocks != [] && LARGE < s.max
    && BlockOk(s.blocks[0], size, POOL)
    && (forall i :: 0 < i < |s.blocks| ==> BlockOk(s.blocks[i], size, 0))
    && (forall i, j {:trigger Apart(Extent(s.blocks[i]), Extent(s.blocks[j]))} :: 0 <= i < j < |s.blocks| ==>
          Apart(Extent(s.blocks[i]), Extent(s.blocks[j])))
    && (forall i, j {:trigger Apart(s.large[i], s.large[j])} :: 0 <= i < j < |s.large| ==>
          Apart(s.large[i], s.large[j]))
    && (forall i, r :: 0 <= i < |s.blocks| && r in s.large ==> Apart(Extent(s.blocks[i]), r))
  }

  /** All that was handed out is in its place, aligned and apart. */
  predicate GoodGiven(s: State) {
    && (forall r {:trigger Placed(s, r)} :: r in s.given ==> Placed(s, r) && r.start % 8 == 0)
    && (forall i, j {:trigger Apart(s.given[i], s.given[j])} :: 0 <= i < j < |s.given| ==>
          Apart(s.given[i], s.given[j]))
  }

  predicate Good(s: State, size: nat) {
    GoodBlocks(s, size) && GoodGiven(s)
  }

  /** What `malloc` promises: aligned memory apart from everything the pool holds. */
  predicate Unused(s: State, r: Region) {
    && r.start % 8 == 0
    && (forall i :: 0 <= i < |s.blocks| ==> Apart(Extent(s.blocks[i]), r))
    && (forall l :: l in s.large ==> Apart(l, r))
  }

  /** Block sizes for which the arithmetic of the pool is right. */
  predicate Roomy(size: nat, max: nat) {
    size % 8 == 0 && size >= HEADER + max - 1
  }

  /** With a roomy block size the comparison of `pool_alloc` is the one meant. */
  lemma FitsIsEnough(b: Block, bsize: nat, reserved: nat, size: nat)
    requires BlockOk(b, bsize, reserved) && bsize % 8 == 0
    ensures Fits(b, size) ==> AlignUp(b.last) + size <= b.end
  {
  }

  /** Memory past the mark of a block is apart from all that was handed out. */
  lemma PastMark(s: State, bsize: nat, i: nat, ret: int, size: nat)
    requires Good(s, bsize) && i < |s.blocks|
    requires s.blocks[i].last <= ret && ret + size <= s.blocks[i].end
    ensures forall r :: r in s.given ==> Apart(r, Region(ret, size))
  {
    forall r | r in s.given ensures Apart(r, Region(ret, size)) {
      assert Placed(s, r);
      if r in s.large {
        assert Apart(Extent(s.blocks[i]), r);
      } else {
        var j :| 0 <= j < |s.blocks| && InUse(s, j, r);
        if j < i {
          assert Apart(Extent(s.blocks[j]), Extent(s.blocks[i]));
        } else if i < j {
          assert Apart(Extent(s.blocks[i]), Extent(s.blocks[j]));
        }
        assert BlockOk(s.blocks[j], bsize, if j == 0 then POOL else 0);
      }
    }
  }

  /** One more region, apart from the others. */
  lemma OneMoreGiven(given: seq<Region>, r: Region)
    requires forall i, j {:trigger Apart(given[i], given[j])} :: 0 <= i < j < |given| ==> Apart(given[i], given[j])
    requires forall g :: g in given ==> Apart(g, r)
    ensures var more := given + [r];
            forall i, j {:trigger Apart(more[i], more[j])} :: 0 <= i < j < |more| ==> Apart(more[i], more[j])
  {
    var more := given + [r];
    forall i, j | 0 <= i < j < |more| ensures Apart(more[i], more[j]) {
      if j < |given| {
        assert Apart(given[i], given[j]);
      } else {
        assert given[i] in given;
      }
    }
  }

  /** Taking memory from a block that has it. */
  function Taken(s: State, i: nat, size: nat): State
    requires i < |s.blocks|
  {
    var ret := AlignUp(s.blocks[i].last);
    s.(blocks := s.blocks[i := s.blocks[i].(last := ret + size)], given := s.given + [Region(ret, size)])
  }

  lemma TakeKeepsBlocks(s: State, bsize: nat, i: nat, size: nat)
    requires Good(s, bsize) && bsize % 8 == 0 && i < |s.blocks| && Fits(s.blocks[i], size)
    ensures GoodBlocks(Taken(s, i, size), bsize)
  {
    var t := Taken(s, i, size);
    FitsIsEnough(s.blocks[i], bsize, if i == 0 then POOL else 0, size);
    forall j, k | 0 <= j < k < |t.blocks| ensures Apart(Extent(t.blocks[j]), Extent(t.blocks[k])) {
      assert Apart(Extent(s.blocks[j]), Extent(s.blocks[k]));
    }
  }

  lemma TakeKeepsPlaces(s: State, bsize: nat, i: nat, size: nat, g: Region)
    requires Good(s, bsize) && i < |s.blocks| && g in Taken(s, i, size).given
    ensures Placed(Taken(s, i, size), g) && g.start % 8 == 0
  {
    var t := Taken(s, i, size);
    if g == Region(AlignUp(s.blocks[i].last), size) {
      assert BlockOk(s.blocks[i], bsize, if i == 0 then POOL else 0);
      assert InUse(t, i, g);
    } else {
      assert Placed(s, g);
      if g !in s.large {
        var j :| 0 <= j < |s.blocks| && InUse(s, j, g);
        assert InUse(t, j, g);
      }
    }
  }

  lemma TakeGood(s: State, bsize: nat, i: nat, size: nat)
    requires Good(s, bsize) && bsize % 8 == 0 && i < |s.blocks| && Fits(s.blocks[i], size)
    ensures Good(Taken(s, i, size), bsize)
  {
    var ret, t := AlignUp(s.blocks[i].last), Taken(s, i, size);
    TakeKeepsBlocks(s, bsize, i, size);
    FitsIsEnough(s.blocks[i], bsize, if i == 0 then POOL else 0, size);
    PastMark(s, bsize, i, ret, size);
    OneMoreGiven(s.given, Region(ret, size));
    forall g | g in t.given ensures Placed(t, g) && g.start % 8 == 0 {
      TakeKeepsPlaces(s, bsize, i, size, g);
    }
  }

  /** A block is put at the second place. */
  lemma InsertedApart(blocks: seq<Block>, b: Block)
    requires blocks != []
    requires forall i, j {:trigger Apart(Extent(blocks[i]), Extent(blocks[j]))} :: 0 <= i < j < |blocks| ==>
               Apart(Extent(blocks[i]), Extent(blocks[j]))
    requires forall i :: 0 <= i < |blocks| ==> Apart(Extent(blocks[i]), Extent(b))
    ensures var more := [blocks[0], b] + blocks[1..];
            forall i, j {:trigger Apart(Extent(more[i]), Extent(more[j]))} :: 0 <= i < j < |more| ==>
              Apart(Extent(more[i]), Extent(more[j]))
  {
    var more := [blocks[0], b] + blocks[1..];
    forall i, j | 0 <= i < j < |more| ensures Apart(Extent(more[i]), Extent(more[j])) {
      var i', j' := if i < 2 then 0 else i - 1, if j < 2 then 0 else j - 1;
      assert i' < j' ==> Apart(Extent(blocks[i']), Extent(blocks[j']));
      assert Apart(Extent(blocks[j']), Extent(b)) && Apart(Extent(blocks[i']), Extent(b));
    }
  }

  /** A new block, empty. */
  lemma BlockGood(s: State, bsize: nat, base: int)
    requires Good(s, bsize) && Unused(s, Region(base, bsize)) && bsize >= HEADER
    ensures var b := Block(base, base + HEADER, base + bsize);
            Good(s.(blocks := [s.blocks[0], b] + s.blocks[1..]), bsize)
  {
    var b := Block(base, base + HEADER, base + bsize);
    var t := s.(blocks := [s.blocks[0], b] + s.blocks[1..]);
    forall j | 0 <= j < |t.blocks| && j != 1
      ensures t.blocks[j] == s.blocks[if j == 0 then 0 else j - 1] && Apart(Extent(t.blocks[j]), Extent(b))
    {
      assert Apart(Extent(s.blocks[if j == 0 then 0 else j - 1]), Region(base, bsize));
    }
    InsertedApart(s.blocks, b);
    forall l | l in t.large ensures Apart(Extent(b), l) {
      assert Apart(l, Region(base, bsize));
    }
    forall j, k | 0 <= j < k < |t.given| ensures Apart(t.given[j], t.given[k]) {
      assert Apart(s.given[j], s.given[k]);
    }
    forall g | g in t.given ensures Placed(t, g) && g.start % 8 == 0 {
      assert Placed(s, g);
      if g !in s.large {
        var j :| 0 <= j < |s.blocks| && InUse(s, j, g);
        assert InUse(t, if j == 0 then 0 else j + 1, g);
      }
    }
  }

  /** Requests for which no block has room are served from the start of a new one. */
  lemma NewBlockTaken(s: State, size: nat, base: int, bsize: nat, t: State)
    requires s.blocks != [] && base % 8 == 0 && s.blocks[0].end - s.blocks[0].start == bsize
    requires FirstFit(s.blocks, size, 0) == |s.blocks|
    requires t == s.(blocks := [s.blocks[0], Block(base, base + HEADER, base + bsize)] + s.blocks[1..])
    ensures Small(s, size, base) == Taken(t, 1, size)
    ensures bsize >= HEADER + size ==> Fits(t.blocks[1], size)
  {
    var b := Block(base, base + HEADER, base + bsize);
    assert AlignUp(b.last) == base + HEADER;
    assert t.blocks[1 := b.(last := base + HEADER + size)]
        == [s.blocks[0], b.(last := base + HEADER + size)] + s.blocks[1..];
  }

  lemma SmallGood(s: State, bsize: nat, size: nat, base: int)
    requires Good(s, bsize) && Roomy(bsize, s.max) && size < s.max && Unused(s, Region(base, bsize))
    ensures Good(Small(s, size, base), bsize)
  {
    var i := FirstFit(s.blocks, size, 0);
    if i < |s.blocks| {
      assert Small(s, size, base) == Taken(s, i, size);
      TakeGood(s, bsize, i, size);
    } else {
      var t := s.(blocks := [s.blocks[0], Block(base, base + HEADER, base + bsize)] + s.blocks[1..]);
      assert BlockOk(s.blocks[0], bsize, POOL);
      BlockGood(s, bsize, base);
      NewBlockTaken(s, size, base, bsize, t);
      TakeGood(t, bsize, 1, size);
    }
  }

  lemma LargeGood(s: State, bsize: nat, r: Region)
    requires Good(s, bsize) && Unused(s, r)
    ensures Good(s.(large := [r] + s.large, given := s.given + [r]), bsize)
  {
    var t := s.(large := [r] + s.large, given := s.given + [r]);
    forall j, k | 0 <= j < k < |t.blocks| ensures Apart(Extent(t.blocks[j]), Extent(t.blocks[k])) {
      assert Apart(Extent(s.blocks[j]), Extent(s.blocks[k]));
    }
    forall g | g in s.given ensures Placed(t, g) && Apart(g, r) && g.start % 8 == 0 {
      assert Placed(s, g);
      if g !in s.large {
        var j :| 0 <= j < |s.blocks| && InUse(s, j, g);
        assert InUse(t, j, g);
        assert BlockOk(s.blocks[j], bsize, if j == 0 then POOL else 0);
        assert Apart(Extent(s.blocks[j]), r);
      }
    }
    assert Placed(t, r);
    OneMoreGiven(s.given, r);
    forall i, j | 0 <= i < j < |t.large| ensures Apart(t.large[i], t.large[j]) {
      if i == 0 {
        assert t.large[j] in s.large;
      } else {
        assert Apart(s.large[i - 1], s.large[j - 1]);
      }
    }
  }

  // ----- runs

  datatype Step = Request(size: nat, base: int, far: int) | Clearing

  function Next(s: State, step: Step): State
    requires s.blocks != []
  {
    match step
    case Request(size, base, far) => Alloc(s, size, base, far)
    case Clearing => Clear(s)
  }

  /** `malloc` keeps its promise at this step. */
  predicate Legal(s: State, step: Step, bsize: nat)
    requires s.blocks != []
  {
    match step
    case Request(size, base, far) =>
      && Unused(s, Region(base, bsize))
      && (size >= s.max ==> Unused(Small(s, LARGE, base), Region(far, size)))
    case Clearing => true
  }

  function Run(s: State, steps: seq<Step>): State
    requires s.blocks != []
    ensures Run(s, steps).blocks != []
    decreases |steps|
  {
    if steps == [] then s else Run(Next(s, steps[0]), steps[1..])
  }

  predicate AllLegal(s: State, steps: seq<Step>, bsize: nat)
    requires s.blocks != []
    decreases |steps|
  {
    steps == [] || (Legal(s, steps[0], bsize) && AllLegal(Next(s, steps[0]), steps[1..], bsize))
  }

  lemma ClearGood(s: State, bsize: nat)
    requires Good(s, bsize) && bsize >= HEADER + POOL
    ensures Good(Clear(s), bsize)
  {
    var t := Clear(s);
    assert AlignUp(s.blocks[0].start + HEADER) == s.blocks[0].start + HEADER;
    assert |t.blocks| == |s.blocks|;
    forall i | 0 < i < |s.blocks| ensures t.blocks[i] == Reset(s.blocks[i]) && BlockOk(t.blocks[i], bsize, 0) {
      assert t.blocks[i] == Reset(s.blocks[i - 1 + 1]);
      assert BlockOk(s.blocks[i], bsize, 0);
    }
    forall i | 0 <= i < |s.blocks| ensures Extent(t.blocks[i]) == Extent(s.blocks[i]) {}
  }

  /** After clearing nothing counts as handed out, and every block offers all of its memory again: what is behind its
      header and, in the head, behind the pool. */
  lemma ClearFreesAll(s: State, bsize: nat, i: nat, size: nat)
    requires Good(s, bsize) && bsize % 8 == 0 && bsize >= HEADER + POOL && i < |s.blocks|
    ensures var t := Clear(s);
            && t.given == [] && t.large == [] && |t.blocks| == |s.blocks|
            && t.blocks[i].start == s.blocks[i].start && t.blocks[i].end == s.blocks[i].end
            && (Fits(t.blocks[i], size) <==> 24 + (if i == 0 then 16 else 0) + size <= bsize)
  {
    ClearGood(s, bsize);
    var b := Clear(s).blocks[i];
    assert BlockOk(b, bsize, if i == 0 then POOL else 0);
    assert i > 0 ==> b == Reset(s.blocks[i - 1 + 1]);
    assert BlockOk(s.blocks[i], bsize, if i == 0 then POOL else 0);
    assert AlignUp(b.last) == b.last;
  }

  /** A small request takes memory from a block if there is one with room, and then from no other place; only if there
      is none it gets a block of its own. A large one always gets memory of its own. */
  lemma WhereServed(s: State, size: nat, base: int, far: int)
    requires s.blocks != []
    ensures var t := Alloc(s, size, base, far);
            && s.given < t.given && t.given[|t.given| - 1].size == size
            && (size >= s.max ==> t.given[|t.given| - 1].start == far && t.large[1..] == s.large)
            && (size < s.max ==> t.large == s.large)
            && (size < s.max && (exists b :: b in s.blocks && Fits(b, size)) ==>
                  |t.blocks| == |s.blocks|
                  && exists b :: b in s.blocks && Fits(b, size) && t.given[|t.given| - 1].start == AlignUp(b.last))
            && (size < s.max && (exists b :: b in s.blocks && Fits(b, size)) ==>
                  exists i {:trigger t.blocks[i]} ::
                    0 <= i < |s.blocks| && t.blocks == s.blocks[i := s.blocks[i].(last := t.blocks[i].last)]
                    && t.blocks[i].last == t.given[|t.given| - 1].start + size)
            && (size < s.max && !(exists b :: b in s.blocks && Fits(b, size)) ==>
                  |t.blocks| == |s.blocks| + 1 && t.given[|t.given| - 1].start == AlignUp(base + 24)
                  && t.blocks[1].start == base && t.blocks[1].last == AlignUp(base + 24) + size)
  {
    var i := FirstFit(s.blocks, size, 0);
    if i < |s.blocks| {
      assert s.blocks[i] in s.blocks;
      var t := Small(s, size, base);
      assert t.blocks == s.blocks[i := s.blocks[i].(last := t.blocks[i].last)];
    }
  }

  lemma StepGood(s: State, bsize: nat, step: Step)
    requires Good(s, bsize) && Roomy(bsize, s.max) && Legal(s, step, bsize)
    ensures Good(Next(s, step), bsize) && Next(s, step).max == s.max
  {
    match step
    case Clearing => ClearGood(s, bsize);
    case Request(size, base, far) =>
      if size < s.max {
        SmallGood(s, bsize, size, base);
      } else {
        SmallGood(s, bsize, LARGE, base);
        LargeGood(Small(s, LARGE, base), bsize, Region(far, size));
      }
  }

  lemma {:induction false} RunGood(s: State, bsize: nat, steps: seq<Step>)
    requires Good(s, bsize) && Roomy(bsize, s.max) && AllLegal(s, steps, bsize)
    ensures Good(Run(s, steps), bsize)
    decreases |steps|
  {
    if steps != [] {
      StepGood(s, bsize, steps[0]);
      RunGood(Next(s, steps[0]), bsize, steps[1..]);
    }
  }

  // ----- exactly when

  /** Every region lies in a block, or has memory of its own. */
  predicate Inside(s: State) {
    forall r :: r in s.given ==>
      r in s.large
      || exists i :: 0 <= i < |s.blocks| && s.blocks[i].start <= r.start && r.start + r.size <= s.blocks[i].end
  }

  /** No run from a new pool hands out memory beyond its blocks. */
  ghost predicate Safe(max: nat, bsize: nat, start: int) {
    forall steps :: AllLegal(Create(max, bsize, start), steps, bsize) ==> Inside(Run(Create(max, bsize, start), steps))
  }

  lemma GoodIsInside(s: State, bsize: nat)
    requires Good(s, bsize)
    ensures Inside(s)
  {
    forall r | r in s.given && r !in s.large
      ensures exists i :: 0 <= i < |s.blocks| && s.blocks[i].start <= r.start && r.start + r.size <= s.blocks[i].end
    {
      assert Placed(s, r);
      var i :| 0 <= i < |s.blocks| && InUse(s, i, r);
      assert BlockOk(s.blocks[i], bsize, if i == 0 then POOL else 0);
    }
  }

  lemma RoomyIsSafe(max: nat, bsize: nat, start: int)
    requires LARGE < max && start % 8 == 0 && Roomy(bsize, max)
    ensures Safe(max, bsize, start)
  {
    var s := Create(max, bsize, start);
    assert AlignUp(start + HEADER) == start + HEADER;
    assert Good(s, bsize);
    forall steps | AllLegal(s, steps, bsize) ensures Inside(Run(s, steps)) {
      RunGood(s, bsize, steps);
      GoodIsInside(Run(s, steps), bsize);
    }
  }

  /** The state of a pool of one block with nothing handed out past `last`. */
  predicate OneBlock(s: State, bsize: nat) {
    && |s.blocks| == 1 && s.large == [] && LARGE < s.max <= 0x8000_0000
    && s.blocks[0].start % 8 == 0 && s.blocks[0].end == s.blocks[0].start + bsize
  }

  /** Some legal run from here hands out memory outside the blocks. */
  ghost predicate Overruns(s: State, bsize: nat)
    requires s.blocks != []
  {
    exists steps :: AllLegal(s, steps, bsize) && !Inside(Run(s, steps))
  }

  lemma OneMore(s: State, bsize: nat, step: Step)
    requires s.blocks != [] && Legal(s, step, bsize) && Overruns(Next(s, step), bsize)
    ensures Overruns(s, bsize)
  {
    var steps :| AllLegal(Next(s, step), steps, bsize) && !Inside(Run(Next(s, step), steps));
    assert ([step] + steps)[1..] == steps;
    assert AllLegal(s, [step] + steps, bsize) && !Inside(Run(s, [step] + steps));
  }

  lemma Already(s: State, bsize: nat)
    requires s.blocks != [] && !Inside(s)
    ensures Overruns(s, bsize)
  {
    assert AllLegal(s, [], bsize) && !Inside(Run(s, []));
  }

  /** A request of the size given, with memory behind the block on offer. */
  function Ask(s: State, size: nat): Step
    requires s.blocks != []
  {
    var far := AlignUp(s.blocks[0].end);
    Request(size, far, far)
  }

  /** A block whose end is not aligned is filled up to its end and the next request goes past it. */
  lemma {:induction false} UnalignedOverruns(s: State, bsize: nat)
    requires OneBlock(s, bsize) && bsize % 8 != 0
    requires s.blocks[0].last % 8 == 0 && s.blocks[0].last <= s.blocks[0].end
    ensures Overruns(s, bsize)
    decreases s.blocks[0].end - s.blocks[0].last
  {
    var b := s.blocks[0];
    var room := b.end - b.last;
    assert AlignUp(b.last) == b.last;
    if room >= 8 {
      var t := Next(s, Ask(s, 8));
      assert FirstFit(s.blocks, 8, 0) == 0;
      UnalignedOverruns(t, bsize);
      OneMore(s, bsize, Ask(s, 8));
    } else {
      assert FirstFit(s.blocks, room, 0) == 0;
      FullOverruns(Next(s, Ask(s, room)), bsize);
      OneMore(s, bsize, Ask(s, room));
    }
  }

  /** The next request after the unaligned end of a full block. */
  lemma FullOverruns(s: State, bsize: nat)
    requires OneBlock(s, bsize) && bsize % 8 != 0 && s.blocks[0].last == s.blocks[0].end
    ensures Overruns(s, bsize)
  {
    assert FirstFit(s.blocks, 1, 0) == 0;
    var u := Next(s, Ask(s, 1));
    assert u.given[|u.given| - 1] in u.given && u.given[|u.given| - 1].start > s.blocks[0].end;
    Already(u, bsize);
    OneMore(s, bsize, Ask(s, 1));
  }

  /** A block too small for the largest small request. */
  lemma TightOverruns(s: State, bsize: nat)
    requires OneBlock(s, bsize) && HEADER < bsize < HEADER + s.max - 1
    requires s.blocks[0].last == s.blocks[0].start + HEADER + POOL
    ensures Overruns(s, bsize)
  {
    var b, size := s.blocks[0], s.max - 1;
    assert AlignUp(b.last) == b.last;
    var step := Ask(s, size);
    var t := Next(s, step);
    assert AlignUp(step.base + HEADER) == step.base + HEADER;
    assert t.given[|t.given| - 1] in t.given;
    Already(t, bsize);
    OneMore(s, bsize, step);
  }

  /** A pool stays within its blocks, whatever is asked of it, exactly if its block size is a multiple of
      the alignment and leaves room for the largest request that is not given memory of its own. */
  lemma SafeExactly(max: nat, bsize: nat, start: int)
    requires LARGE < max <= 0x8000_0000 && start % 8 == 0 && HEADER < bsize
    ensures Safe(max, bsize, start) <==> Roomy(bsize, max)
  {
    var s := Create(max, bsize, start);
    assert AlignUp(start + HEADER) == start + HEADER;
    if Roomy(bsize, max) {
      RoomyIsSafe(max, bsize, start);
    } else {
      if bsize < HEADER + max - 1 {
        TightOverruns(s, bsize);
      } else {
        UnalignedOverruns(s, bsize);
      }
      var steps :| AllLegal(s, steps, bsize) && !Inside(Run(s, steps));
    }
  }

  /** The default of two pages is roomy. */
  lemma DefaultIsRoomy(page: nat)
    requires page % 8 == 0 && page >= HEADER
    ensures Roomy(2 * page, page)
  {
  }

  // ----- the operations

  lemma {:induction false} FirstFitIs(blocks: seq<Block>, size: nat, i: nat, k: nat)
    requires i <= k <= |blocks| && (k < |blocks| ==> Fits(blocks[k], size))
    requires forall j :: i <= j < k ==> !Fits(blocks[j], size)
    ensures FirstFit(blocks, size, i) == k
    decreases k - i
  {
    if i < k {
      FirstFitIs(blocks, size, i + 1, k);
    }
  }

  /** `pool_t`. The list of blocks is a sequence, head first. */
  class Arena {
    const max: nat
    var blocks: seq<Block>
    var large: seq<Region>
    ghost var given: seq<Region>

    ghost function Value(): State
      reads this
    {
      State(max, blocks, large, given)
    }

    /** `pool_create`, with the block `malloc` returns */
    constructor (max: nat, size: nat, base: int)
      requires size > HEADER
      ensures Value() == Create(max, size, base)
    {
      this.max := max;
      blocks := [Block(base, AlignUp(base + HEADER) + POOL, base + size)];
      large, given := [], [];
    }

    /** `_pool_alloc_block` */
    method AllocBlock(size: nat, base: int) returns (ret: int)
      requires blocks != [] && FirstFit(blocks, size, 0) == |blocks|
      modifies this
      ensures Value() == Small(old(Value()), size, base) && ret == AlignUp(base + HEADER)
    {
      var bsize := blocks[0].end - blocks[0].start;
      ret := AlignUp(base + HEADER);
      blocks := [blocks[0], Block(base, ret + size, base + bsize)] + blocks[1..];
      given := given + [Region(ret, size)];
    }

    /** `_pool_alloc_large` */
    method AllocLarge(size: nat, base: int, far: int) returns (ret: int)
      requires blocks != [] && LARGE < max
      modifies this
      decreases 1
      ensures Value() == Large(old(Value()), size, base, far) && ret == far
    {
      var l := PoolAlloc(LARGE, base, far);
      large := [Region(far, size)] + large;
      given := given + [Region(far, size)];
      ret := far;
    }

    /** `pool_alloc`: the first block with room serves the request. */
    method PoolAlloc(size: nat, base: int, far: int) returns (ret: int)
      requires blocks != [] && LARGE < max
      modifies this
      decreases if size < max then 0 else 2
      ensures Value() == Alloc(old(Value()), size, base, far)
      ensures given[|given| - 1..] == [Region(ret, size)]
    {
      if size < max {
        var b := 0;
        while b < |blocks|
          invariant b <= |blocks| && Value() == old(Value())
          invariant forall j :: 0 <= j < b ==> !Fits(blocks[j], size)
        {
          ret := AlignUp(blocks[b].last);
          if Unsigned(blocks[b].end - ret) >= size {
            FirstFitIs(blocks, size, 0, b);
            blocks := blocks[b := blocks[b].(last := ret + size)];
            given := given + [Region(ret, size)];
            return;
          }
          b := b + 1;
        }
        FirstFitIs(blocks, size, 0, b);
        ret := AllocBlock(size, base);
      } else {
        ret := AllocLarge(size, base, far);
      }
    }

    /** `pool_clear` */
    method PoolClear()
      requires blocks != []
      modifies this
      ensures Value() == Clear(old(Value()))
    {
      large, given := [], [];
      var i := 1;
      ghost var before := blocks;
      while i < |blocks|
        invariant 1 <= i <= |blocks| == |before| && large == [] && given == []
        invariant forall j :: 0 <= j < |blocks| ==> blocks[j] == if 0 < j < i then Reset(before[j]) else before[j]
      {
        blocks := blocks[i := blocks[i].(last := blocks[i].start + HEADER)];
        i := i + 1;
      }
      var head := blocks[0];
      blocks := blocks[0 := head.(last := AlignUp(head.start + HEADER) + POOL)];
      assert blocks == Clear(old(Value())).blocks;
    }
  }
}
