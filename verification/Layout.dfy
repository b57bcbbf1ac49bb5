/**
 Where the cells and large blocks of the whole heap lie, and what the address test of
 `sgc_allocator_is_valid` (src/sgc_allocator.c:123-150) therefore accepts.
 */
module HeapLayout {
  import opened Seqs
  import opened SizeClasses
  import opened Carving
  import opened IntervalHull
  import opened AreaPool

  /** The class of every carved cell and large block, by address; the areas of each small
      class; the areas not yet carved; and all blocks obtained from the system. */
  datatype Layout = Layout(classOf: map<int, nat>, areas: seq<seq<int>>, freeAreas: seq<int>, blocks: seq<Block>)

  /** The bytes that a block of class `c` occupies, header included. */
  function Extent(c: nat): (n: nat)
    requires c < SIZE_COUNT
    ensures n > 0
  {
    if c < SMALL_COUNT then CellSize(MEM_SIZES[c], HEADER, WORD) else HEADER + MEM_SIZES[c]
  }

  function CellCount(c: nat): nat
    requires c < SMALL_COUNT
  {
    AREA_ROOM / Extent(c)
  }

  function CellAddress(area: int, c: nat, i: nat): int
    requires c < SMALL_COUNT
  {
    CellStart(area + AREA_HEADER, i, Extent(c))
  }

  /** The test of `sgc_mem_heap_valid` for one area of class `c`. */
  predicate IsCellOf(p: int, area: int, c: nat)
    requires c < SMALL_COUNT
  {
    StartsIn(p, area + AREA_HEADER, CellCount(c) * Extent(c), Extent(c))
  }

  predicate IsCellIn(p: int, areas: seq<int>, c: nat)
    requires c < SMALL_COUNT
  {
    exists area | area in areas :: IsCellOf(p, area, c)
  }

  /** The part of the validity test that looks at the address `p`, for a header that
      claims class `c`.  Nothing is asked of large blocks beyond the hull. */
  predicate Located(l: Layout, p: int, c: nat)
    requires |l.areas| == SMALL_COUNT
  {
    Covers(HullOf(l.blocks), p) && (c < SMALL_COUNT ==> IsCellIn(p, l.areas[c], c))
  }

  predicate Within(p: int, c: nat, b: Block)
    requires c < SIZE_COUNT
  {
    b.start <= p && p + Extent(c) <= b.start + b.size
  }

  predicate InSomeBlock(p: int, c: nat, blocks: seq<Block>)
    requires c < SIZE_COUNT
  {
    exists b | b in blocks :: Within(p, c, b)
  }

  ghost predicate PairwiseApart(blocks: seq<Block>) {
    forall i, j :: 0 <= i < j < |blocks| ==> Apart(blocks[i].start, blocks[i].size, blocks[j].start, blocks[j].size)
  }

  ghost predicate BlocksOk(l: Layout) {
    ProperBlocks(l.blocks) && FirstIsLowest(l.blocks) && PairwiseApart(l.blocks)
  }

  /** Every cell lies in one block and overlaps no other cell. */
  ghost predicate CellsOk(l: Layout) {
    && (forall p | p in l.classOf :: l.classOf[p] < SIZE_COUNT)
    && (forall p | p in l.classOf :: InSomeBlock(p, l.classOf[p], l.blocks))
    && (forall p, q | p in l.classOf && q in l.classOf && p < q :: p + Extent(l.classOf[p]) <= q)
  }

  /** The small cells are exactly the starts of cells in the areas of their class. */
  ghost predicate AreasOk(l: Layout) {
    && |l.areas| == SMALL_COUNT
    && (forall c: nat, p: int | c < SMALL_COUNT :: AgreesAt(l, c, p))
  }

  ghost predicate AgreesAt(l: Layout, c: nat, p: int)
    requires c < SMALL_COUNT == |l.areas|
  {
    IsCellIn(p, l.areas[c], c) <==> p in l.classOf && l.classOf[p] == c
  }

  /** A free area is a block of its own in which no cell starts. */
  ghost predicate FreeOk(l: Layout) {
    && NoDup(l.freeAreas)
    && (forall x | x in l.freeAreas :: Block(x, AREA_SIZE) in l.blocks)
    && (forall x, p | x in l.freeAreas && p in l.classOf :: !(x <= p < x + AREA_SIZE))
  }

  ghost predicate WellLaid(l: Layout) {
    BlocksOk(l) && CellsOk(l) && AreasOk(l) && FreeOk(l)
  }

  const EMPTY: Layout := Layout(map[], seq(SMALL_COUNT, _ => []), [], [])

  lemma EmptyIsWellLaid()
    ensures WellLaid(EMPTY)
  {
  }

  // ----- What the address test accepts -----

  lemma CellInHull(l: Layout, p: int)
    requires BlocksOk(l) && CellsOk(l) && p in l.classOf
    ensures Covers(HullOf(l.blocks), p)
  {
    var b :| b in l.blocks && Within(p, l.classOf[p], b);
    var i :| 0 <= i < |l.blocks| && l.blocks[i] == b;
    HullCoversIff(l.blocks);
  }

  /** Exactness for the small classes: whatever header bytes are found at `p`, the test
      accepts `p` for class `c` only if a cell of class `c` starts there; and no cell or
      large block is ever rejected. */
  lemma ValidityIsExact(l: Layout, p: int)
    requires WellLaid(l)
    ensures forall c: nat | c < SMALL_COUNT :: Located(l, p, c) <==> p in l.classOf && l.classOf[p] == c
    ensures p in l.classOf ==> Located(l, p, l.classOf[p])
  {
    if p in l.classOf {
      CellInHull(l, p);
    }
    forall c: nat | c < SMALL_COUNT
      ensures Located(l, p, c) <==> p in l.classOf && l.classOf[p] == c
    {
      assert AgreesAt(l, c, p);
    }
  }

  // ----- How the layout grows -----

  /** A fresh area from the system. */
  function AddArea(l: Layout, x: int): Layout {
    l.(blocks := l.blocks + [Block(x, AREA_SIZE)], freeAreas := [x] + l.freeAreas)
  }

  /** The first free area is cut into cells of class `c`. */
  function CarveArea(l: Layout, c: nat): Layout
    requires c < SMALL_COUNT && |l.areas| == SMALL_COUNT && l.freeAreas != []
  {
    var x := l.freeAreas[0];
    l.(classOf := l.classOf + NewCells(x, c),
       areas := l.areas[c := [x] + l.areas[c]],
       freeAreas := l.freeAreas[1..])
  }

  function NewCells(x: int, c: nat): (m: map<int, nat>)
    requires c < SMALL_COUNT
  {
    map p: int | x <= p < x + AREA_SIZE && IsCellOf(p, x, c) :: c
  }

  /** A large block from the system. */
  function AddLarge(l: Layout, x: int, c: nat): Layout
    requires SMALL_COUNT <= c < SIZE_COUNT
  {
    l.(blocks := l.blocks + [Block(x, Extent(c))], classOf := l.classOf[x := c])
  }

  lemma AddBlock(blocks: seq<Block>, x: int, n: nat)
    requires ProperBlocks(blocks) && FirstIsLowest(blocks) && PairwiseApart(blocks)
    requires x > 0 && n > 0 && Available(blocks, x, n)
    ensures var bs := blocks + [Block(x, n)];
      ProperBlocks(bs) && FirstIsLowest(bs) && PairwiseApart(bs)
  {
  }

  lemma OutsideNewBlock(l: Layout, x: int, n: nat, p: int)
    requires CellsOk(l) && x > 0 && Available(l.blocks, x, n) && p in l.classOf
    ensures p + Extent(l.classOf[p]) <= x || x + n <= p
  {
    var b :| b in l.blocks && Within(p, l.classOf[p], b);
    var i :| 0 <= i < |l.blocks| && l.blocks[i] == b;
    assert Apart(l.blocks[i].start, l.blocks[i].size, x, n);
  }

  lemma MoreBlocks(p: int, c: nat, blocks: seq<Block>, b: Block)
    requires c < SIZE_COUNT && InSomeBlock(p, c, blocks)
    ensures InSomeBlock(p, c, blocks + [b])
  {
    var w :| w in blocks && Within(p, c, w);
    assert w in blocks + [b];
  }

  lemma LastBlock(p: int, c: nat, blocks: seq<Block>, b: Block)
    requires c < SIZE_COUNT && Within(p, c, b)
    ensures InSomeBlock(p, c, blocks + [b])
  {
    assert (blocks + [b])[|blocks|] == b;
  }

  lemma FreeAreaIsApart(l: Layout, y: int, x: int, n: nat)
    requires FreeOk(l) && y in l.freeAreas && x > 0 && n > 0 && Available(l.blocks, x, n)
    ensures Apart(y, AREA_SIZE, x, n)
  {
    var i :| 0 <= i < |l.blocks| && l.blocks[i] == Block(y, AREA_SIZE);
    assert Apart(l.blocks[i].start, l.blocks[i].size, x, n);
  }

  lemma AddAreaCells(l: Layout, x: int)
    requires CellsOk(l)
    ensures CellsOk(AddArea(l, x))
  {
    forall p | p in l.classOf
      ensures InSomeBlock(p, l.classOf[p], AddArea(l, x).blocks)
    {
      MoreBlocks(p, l.classOf[p], l.blocks, Block(x, AREA_SIZE));
    }
  }

  lemma AddAreaFree(l: Layout, x: int)
    requires CellsOk(l) && FreeOk(l) && x > 0 && Available(l.blocks, x, AREA_SIZE)
    ensures FreeOk(AddArea(l, x))
  {
    forall y | y in l.freeAreas
      ensures y != x
    {
      FreeAreaIsApart(l, y, x, AREA_SIZE);
    }
    forall p | p in l.classOf
      ensures !(x <= p < x + AREA_SIZE)
    {
      OutsideNewBlock(l, x, AREA_SIZE, p);
    }
    assert AddArea(l, x).blocks[|l.blocks|] == Block(x, AREA_SIZE);
  }

  lemma AddAreaKeeps(l: Layout, x: int)
    requires WellLaid(l) && x > 0 && Available(l.blocks, x, AREA_SIZE)
    ensures WellLaid(AddArea(l, x))
  {
    AddBlock(l.blocks, x, AREA_SIZE);
    AddAreaCells(l, x);
    AddAreaFree(l, x);
    forall c: nat, p: int | c < SMALL_COUNT
      ensures AgreesAt(AddArea(l, x), c, p)
    {
      assert AgreesAt(l, c, p);
    }
  }

  lemma AddLargeCells(l: Layout, x: int, c: nat)
    requires CellsOk(l) && SMALL_COUNT <= c < SIZE_COUNT && x > 0 && Available(l.blocks, x, Extent(c))
    ensures CellsOk(AddLarge(l, x, c)) && x !in l.classOf
  {
    var l' := AddLarge(l, x, c);
    forall p | p in l.classOf
      ensures p + Extent(l.classOf[p]) <= x || x + Extent(c) <= p
    {
      OutsideNewBlock(l, x, Extent(c), p);
    }
    forall p | p in l'.classOf
      ensures InSomeBlock(p, l'.classOf[p], l'.blocks)
    {
      if p == x {
        LastBlock(x, c, l.blocks, Block(x, Extent(c)));
      } else {
        MoreBlocks(p, l.classOf[p], l.blocks, Block(x, Extent(c)));
      }
    }
  }

  lemma AddLargeFree(l: Layout, x: int, c: nat)
    requires FreeOk(l) && SMALL_COUNT <= c < SIZE_COUNT && x > 0 && Available(l.blocks, x, Extent(c))
    ensures FreeOk(AddLarge(l, x, c))
  {
    forall y | y in l.freeAreas
      ensures !(y <= x < y + AREA_SIZE)
    {
      FreeAreaIsApart(l, y, x, Extent(c));
    }
  }

  lemma AddLargeKeeps(l: Layout, x: int, c: nat)
    requires WellLaid(l) && SMALL_COUNT <= c < SIZE_COUNT && x > 0 && Available(l.blocks, x, Extent(c))
    ensures WellLaid(AddLarge(l, x, c)) && x !in l.classOf
  {
    AddBlock(l.blocks, x, Extent(c));
    AddLargeCells(l, x, c);
    AddLargeFree(l, x, c);
    forall d: nat, p: int | d < SMALL_COUNT
      ensures AgreesAt(AddLarge(l, x, c), d, p)
    {
      assert AgreesAt(l, d, p);
    }
  }

  // ----- Carving -----

  /** The i-th cell that is cut out of the area `x`. */
  lemma NewCellWithin(x: int, c: nat, p: int) returns (i: nat)
    requires c < SMALL_COUNT && IsCellOf(p, x, c)
    ensures i < CellCount(c) && p == CellAddress(x, c, i) && Within(p, c, Block(x, AREA_SIZE))
  {
    StartTestIsExact(p, x + AREA_HEADER, CellCount(c), Extent(c));
    i :| i < CellCount(c) && p == CellStart(x + AREA_HEADER, i, Extent(c));
    CellEnd(x + AREA_HEADER, AREA_ROOM, Extent(c), i);
  }

  lemma IsNewCell(x: int, c: nat, p: int)
    requires c < SMALL_COUNT
    ensures p in NewCells(x, c) <==> IsCellOf(p, x, c)
    ensures p in NewCells(x, c) ==> NewCells(x, c)[p] == c && x <= p && p + Extent(c) <= x + AREA_SIZE
  {
    if IsCellOf(p, x, c) {
      var _ := NewCellWithin(x, c, p);
    }
  }

  lemma IsCellAddress(x: int, c: nat, i: nat)
    requires c < SMALL_COUNT && i < CellCount(c)
    ensures IsCellOf(CellAddress(x, c, i), x, c)
  {
    StartTestIsExact(CellAddress(x, c, i), x + AREA_HEADER, CellCount(c), Extent(c));
  }

  lemma NewCellsApart(x: int, c: nat, p: int, q: int)
    requires c < SMALL_COUNT && IsCellOf(p, x, c) && IsCellOf(q, x, c) && p < q
    ensures p + Extent(c) <= q
  {
    var i := NewCellWithin(x, c, p);
    var j := NewCellWithin(x, c, q);
    if j <= i {
      MulMono(j, i, Extent(c));
    } else {
      CellsAreDisjoint(x + AREA_HEADER, AREA_ROOM, Extent(c), i, j);
    }
  }

  /** No cell overlaps a free area. */
  lemma OutsideFreeArea(l: Layout, x: int, p: int)
    requires BlocksOk(l) && CellsOk(l) && FreeOk(l) && x in l.freeAreas && p in l.classOf
    ensures p + Extent(l.classOf[p]) <= x || x + AREA_SIZE <= p
  {
    var b :| b in l.blocks && Within(p, l.classOf[p], b);
    var i :| 0 <= i < |l.blocks| && l.blocks[i] == b;
    var j :| 0 <= j < |l.blocks| && l.blocks[j] == Block(x, AREA_SIZE);
    if i == j {
      assert !(x <= p < x + AREA_SIZE);
    } else if i < j {
      assert Apart(l.blocks[i].start, l.blocks[i].size, l.blocks[j].start, l.blocks[j].size);
    } else {
      assert Apart(l.blocks[j].start, l.blocks[j].size, l.blocks[i].start, l.blocks[i].size);
    }
  }

  lemma FreeAreasApart(l: Layout, i: nat, j: nat)
    requires BlocksOk(l) && FreeOk(l) && i < j < |l.freeAreas|
    ensures Apart(l.freeAreas[i], AREA_SIZE, l.freeAreas[j], AREA_SIZE)
  {
    var a :| 0 <= a < |l.blocks| && l.blocks[a] == Block(l.freeAreas[i], AREA_SIZE);
    var b :| 0 <= b < |l.blocks| && l.blocks[b] == Block(l.freeAreas[j], AREA_SIZE);
    if a < b {
      assert Apart(l.blocks[a].start, l.blocks[a].size, l.blocks[b].start, l.blocks[b].size);
    } else {
      assert Apart(l.blocks[b].start, l.blocks[b].size, l.blocks[a].start, l.blocks[a].size);
    }
  }

  lemma CarveCells(l: Layout, c: nat)
    requires WellLaid(l) && c < SMALL_COUNT && l.freeAreas != []
    ensures CellsOk(CarveArea(l, c))
  {
    var x, l' := l.freeAreas[0], CarveArea(l, c);
    forall p | p in l'.classOf
      ensures l'.classOf[p] < SIZE_COUNT && InSomeBlock(p, l'.classOf[p], l'.blocks)
    {
      IsNewCell(x, c, p);
      if p in NewCells(x, c) {
        assert Within(p, c, Block(x, AREA_SIZE));
      }
    }
    forall p, q | p in l'.classOf && q in l'.classOf && p < q
      ensures p + Extent(l'.classOf[p]) <= q
    {
      CarveApart(l, c, p, q);
    }
  }

  lemma CarveApart(l: Layout, c: nat, p: int, q: int)
    requires WellLaid(l) && c < SMALL_COUNT && l.freeAreas != [] && p < q
    requires p in CarveArea(l, c).classOf && q in CarveArea(l, c).classOf
    ensures p + Extent(CarveArea(l, c).classOf[p]) <= q
  {
    var x := l.freeAreas[0];
    IsNewCell(x, c, p);
    IsNewCell(x, c, q);
    if p in NewCells(x, c) && q in NewCells(x, c) {
      NewCellsApart(x, c, p, q);
    } else if p in NewCells(x, c) {
      OutsideFreeArea(l, x, q);
    } else if q in NewCells(x, c) {
      OutsideFreeArea(l, x, p);
    }
  }

  lemma CarvedIsNew(l: Layout, c: nat, p: int)
    requires WellLaid(l) && c < SMALL_COUNT && l.freeAreas != [] && p in NewCells(l.freeAreas[0], c)
    ensures p !in l.classOf && forall d: nat | d < SMALL_COUNT :: !IsCellIn(p, l.areas[d], d)
  {
    IsNewCell(l.freeAreas[0], c, p);
    if p in l.classOf {
      OutsideFreeArea(l, l.freeAreas[0], p);
    }
    forall d: nat | d < SMALL_COUNT
      ensures !IsCellIn(p, l.areas[d], d)
    {
      assert AgreesAt(l, d, p);
    }
  }

  lemma ConsIsCellIn(p: int, x: int, areas: seq<int>, c: nat)
    requires c < SMALL_COUNT
    ensures IsCellIn(p, [x] + areas, c) <==> IsCellOf(p, x, c) || IsCellIn(p, areas, c)
  {
    var xs := [x] + areas;
    if IsCellOf(p, x, c) {
      assert x in xs;
    }
    if IsCellIn(p, areas, c) {
      var y :| y in areas && IsCellOf(p, y, c);
      assert y in xs;
    }
  }

  lemma CarveAreaAt(l: Layout, c: nat, d: nat, p: int)
    requires WellLaid(l) && c < SMALL_COUNT && d < SMALL_COUNT && l.freeAreas != []
    ensures AgreesAt(CarveArea(l, c), d, p)
  {
    var x := l.freeAreas[0];
    IsNewCell(x, c, p);
    ConsIsCellIn(p, x, l.areas[c], c);
    if p in NewCells(x, c) {
      CarvedIsNew(l, c, p);
    }
    assert AgreesAt(l, d, p);
  }

  lemma CarveAreas(l: Layout, c: nat)
    requires WellLaid(l) && c < SMALL_COUNT && l.freeAreas != []
    ensures AreasOk(CarveArea(l, c))
  {
    forall d: nat, p: int | d < SMALL_COUNT
      ensures AgreesAt(CarveArea(l, c), d, p)
    {
      CarveAreaAt(l, c, d, p);
    }
  }

  lemma CarveFree(l: Layout, c: nat)
    requires WellLaid(l) && c < SMALL_COUNT && l.freeAreas != []
    ensures FreeOk(CarveArea(l, c))
  {
    var x, l' := l.freeAreas[0], CarveArea(l, c);
    forall j, p | 1 <= j < |l.freeAreas| && p in l'.classOf
      ensures !(l.freeAreas[j] <= p < l.freeAreas[j] + AREA_SIZE)
    {
      IsNewCell(x, c, p);
      if p in NewCells(x, c) {
        FreeAreasApart(l, 0, j);
      } else {
        assert p in l.classOf && l.freeAreas[j] in l.freeAreas;
      }
    }
  }

  lemma CarveKeeps(l: Layout, c: nat)
    requires WellLaid(l) && c < SMALL_COUNT && l.freeAreas != []
    ensures WellLaid(CarveArea(l, c))
    ensures NewCells(l.freeAreas[0], c).Keys !! l.classOf.Keys
  {
    CarveCells(l, c);
    CarveAreas(l, c);
    CarveFree(l, c);
    forall p | p in NewCells(l.freeAreas[0], c)
      ensures p !in l.classOf
    {
      CarvedIsNew(l, c, p);
    }
  }
}
