/** The segregated-fit allocator of src/sgc_allocator.c. */
module SegregatedFit {
  import opened Seqs
  import opened DList
  import opened SizeClasses
  import opened Carving
  import opened IntervalHull
  import opened AreaPool
  import opened CellHeap
  import opened LargeBlocks
  import opened HeapLayout

  const COLOR_MAX: nat := 4
  const DUMMY_VALUE: nat := 0x88

  /** The header bytes that the validity test looks at. */
  datatype Header = Header(size: nat, color: nat, dummy: nat)

  /** The checks of src/sgc_allocator.c:127-141.  The third one is meant for the flags but
      reads the colour again, and the first lets one class too many through. */
  predicate HeaderOk(h: Header) {
    h.size <= SIZE_COUNT && h.color < COLOR_MAX && h.dummy == DUMMY_VALUE
  }

  datatype AllocResult = Overflow | OutOfMemory | Allocated(mem: Mem)

  /** What the system may return for areas that are asked for one after the other. */
  ghost predicate AreasAvailable(blocks: seq<Block>, areas: seq<int>)
    decreases |areas|
  {
    areas == [] || (areas[0] >= 0 && Available(blocks, areas[0], AREA_SIZE) &&
                    (areas[0] != 0 ==> AreasAvailable(blocks + [Block(areas[0], AREA_SIZE)], areas[1..])))
  }

  /** All cells on the free lists of the small classes. */
  ghost function Members(free: seq<seq<Mem>>): set<Mem> {
    set c, i | 0 <= c < |free| && 0 <= i < |free[c]| :: free[c][i]
  }

  /** A free list holds only cells of its own class. */
  ghost predicate Sorted(free: seq<seq<Mem>>) {
    forall c, i {:trigger free[c][i]} :: 0 <= c < |free| && 0 <= i < |free[c]| ==> free[c][i].size == c
  }

  lemma ListInMembers(free: seq<seq<Mem>>, c: nat)
    requires c < |free|
    ensures forall m | m in free[c] :: m in Members(free)
  {
    forall m | m in free[c]
      ensures m in Members(free)
    {
      var i :| 0 <= i < |free[c]| && free[c][i] == m;
    }
  }

  lemma MembersUpdate(free: seq<seq<Mem>>, c: nat, s: seq<Mem>)
    requires c < |free| && Sorted(free) && forall m | m in s :: m.size == c
    ensures Sorted(free[c := s])
    ensures Members(free[c := s]) == Members(free) - Elements(free[c]) + Elements(s)
  {
    var free' := free[c := s];
    forall m | m in Members(free) - Elements(free[c])
      ensures m in Members(free')
    {
      var d, i :| 0 <= d < |free| && 0 <= i < |free[d]| && free[d][i] == m;
      assert free'[d][i] == m;
    }
    forall m | m in s
      ensures m in Members(free')
    {
      var i :| 0 <= i < |s| && s[i] == m;
      assert free'[c][i] == m;
    }
    forall m | m in Members(free')
      ensures m in Members(free) - Elements(free[c]) + Elements(s)
    {
      var d, i :| 0 <= d < |free'| && 0 <= i < |free'[d]| && free'[d][i] == m;
      if d != c {
        assert free[d][i] == m && m.size == d;
      }
    }
  }

  method MakeHeaps() returns (hs: seq<MemHeap>)
    ensures |hs| == SMALL_COUNT && fresh(hs)
    ensures forall c: nat | c < SMALL_COUNT :: hs[c].Valid() && hs[c].sizeIndex == c && hs[c].areas == []
    ensures forall c: nat, d: nat | c < d < SMALL_COUNT :: hs[c] != hs[d]
  {
    hs := [];
    for c := 0 to SMALL_COUNT
      invariant |hs| == c && fresh(hs)
      invariant forall d: nat | d < c :: hs[d].Valid() && hs[d].sizeIndex == d && hs[d].areas == []
      invariant forall d: nat, e: nat | d < e < c :: hs[d] != hs[e]
    {
      var h := new MemHeap(c);
      hs := hs + [h];
    }
  }

  /** The memory map of a run of new cells. */
  ghost predicate MapOf(m: map<int, Mem>, s: seq<Mem>) {
    && (forall i :: 0 <= i < |s| ==> s[i].addr in m && m[s[i].addr] == s[i])
    && (forall a | a in m :: exists i :: 0 <= i < |s| && s[i].addr == a)
  }

  /** Memory holds a header of the right class at every address where one belongs. */
  ghost predicate MappedAt(cells: map<int, Mem>, classOf: map<int, nat>) {
    && cells.Keys == classOf.Keys
    && (forall a | a in cells :: cells[a].addr == a && cells[a].size == classOf[a] < SIZE_COUNT)
  }

  lemma MergeMapped(cells: map<int, Mem>, classOf: map<int, nat>, m: map<int, Mem>, s: seq<Mem>, x: int, c: nat)
    requires MappedAt(cells, classOf) && MapOf(m, s) && c < SMALL_COUNT && m.Keys == NewCells(x, c).Keys
    requires NewCells(x, c).Keys !! classOf.Keys && forall a | a in s :: a.size == c
    ensures MappedAt(cells + m, classOf + NewCells(x, c))
    ensures forall a | a in cells :: (cells + m)[a] == cells[a]
    ensures forall a | a in cells + m :: a in cells || (cells + m)[a] in s
    ensures forall a | a in s :: a.addr in cells + m && (cells + m)[a.addr] == a
  {
    forall a | a in m
      ensures m[a].addr == a && m[a] in s
    {
      var i :| 0 <= i < |s| && s[i].addr == a;
    }
  }

  method MapCells(s: seq<Mem>) returns (m: map<int, Mem>)
    requires forall i, j :: 0 <= i < j < |s| ==> s[i].addr != s[j].addr
    ensures MapOf(m, s)
  {
    m := map[];
    for k := 0 to |s|
      invariant forall i :: 0 <= i < k ==> s[i].addr in m && m[s[i].addr] == s[i]
      invariant forall a | a in m :: exists i :: 0 <= i < k && s[i].addr == a
    {
      m := m[s[k].addr := s[k]];
    }
  }

  /** The cells that `MemHeap.Expand` makes are those that the layout expects. */
  lemma CarvedCells(m: map<int, Mem>, s: seq<Mem>, x: int, c: nat)
    requires c < SMALL_COUNT && |s| == CellCount(c) && MapOf(m, s)
    requires forall i :: 0 <= i < |s| ==> s[i].addr == CellAddress(x, c, |s| - 1 - i)
    ensures m.Keys == NewCells(x, c).Keys
  {
    forall a
      ensures a in m <==> a in NewCells(x, c)
    {
      IsNewCell(x, c, a);
      if a in NewCells(x, c) {
        var i := NewCellWithin(x, c, a);
        assert s[|s| - 1 - i].addr == a;
      }
      if a in m {
        var i :| 0 <= i < |s| && s[i].addr == a;
        IsCellAddress(x, c, |s| - 1 - i);
      }
    }
  }

  lemma CarvedDistinct(s: seq<Mem>, x: int, c: nat)
    requires c < SMALL_COUNT && |s| == CellCount(c)
    requires forall i :: 0 <= i < |s| ==> s[i].addr == CellAddress(x, c, |s| - 1 - i)
    ensures forall i, j :: 0 <= i < j < |s| ==> s[i].addr != s[j].addr
  {
    forall i, j | 0 <= i < j < |s|
      ensures s[i].addr != s[j].addr
    {
      CellsAreDisjoint(x + AREA_HEADER, AREA_ROOM, Extent(c), |s| - 1 - j, |s| - 1 - i);
    }
  }

  class Allocator {
    const heaps: seq<MemHeap>
    const areaHeap: AreaHeap
    const varHeap: VarHeap
    const interval: Interval
    const junk: int -> Header           // the bytes found where no header is
    var freeList: seq<Mem?>
    var cells: map<int, Mem>            // memory: the headers, by address
    ghost var free: seq<seq<Mem>>       // the free lists of the small classes
    ghost var layout: Layout
    ghost var idle: set<Mem>            // the cells and blocks that the program does not own
    ghost const owners: set<MemHeap>

    ghost predicate Has(m: Mem)
      reads `cells
    {
      m.addr in cells && cells[m.addr] == m
    }

    ghost predicate HeapsOk()
      reads `layout, heaps
    {
      && |heaps| == SMALL_COUNT == |layout.areas|
      && (forall c: nat | c < SMALL_COUNT :: heaps[c].Valid() && heaps[c].sizeIndex == c && heaps[c].areas == layout.areas[c])
      && (forall c: nat, d: nat | c < d < SMALL_COUNT :: heaps[c] != heaps[d])
    }

    ghost predicate PoolOk()
      reads `layout, areaHeap, interval
    {
      && areaHeap.Valid() && interval.Valid() && WellLaid(layout)
      && areaHeap.areaSize == AREA_SIZE && areaHeap.maxAreas == 0
      && layout.blocks == interval.blocks && layout.freeAreas == areaHeap.free
      && (forall x | x in areaHeap.made :: Block(x, AREA_SIZE) in layout.blocks)
    }

    ghost predicate CellsKnown()
      reads `cells, `layout
    {
      MappedAt(cells, layout.classOf)
    }

    ghost predicate ListsOk()
      reads `freeList, `free, Members(free)`next, varHeap, varHeap.blocks`next, varHeap.blocks`prev
    {
      && |freeList| == SMALL_COUNT == |free| && Sorted(free)
      && (forall c: nat | c < SMALL_COUNT :: Chain(freeList[c], free[c]))
      && varHeap.Valid()
      && (forall m | m in varHeap.blocks :: m.size >= SMALL_COUNT)
    }

    ghost predicate FreeKnown()
      reads `cells, `free, varHeap
    {
      forall m | m in FreeBlocks() :: Has(m)
    }

    ghost predicate Consistent()
      reads this, heaps, areaHeap, interval, Members(free)`next, varHeap, varHeap.blocks`next, varHeap.blocks`prev
    {
      HeapsOk() && PoolOk() && CellsKnown() && ListsOk() && FreeKnown()
    }

    ghost predicate Valid()
      reads this, owners, areaHeap, interval, varHeap, idle`next, idle`prev
    {
      owners == Elements(heaps) && idle == FreeBlocks() && Consistent()
    }

    /** The cells and blocks that the program does not own. */
    ghost function FreeBlocks(): set<Mem>
      reads `free, varHeap
    {
      Members(free) + Elements(varHeap.blocks)
    }

    constructor (junk: int -> Header)
      ensures Valid() && cells == map[] && idle == {} && layout == EMPTY && this.junk == junk
      ensures fresh(heaps) && fresh(owners) && fresh(areaHeap) && fresh(varHeap) && fresh(interval)
    {
      this.junk := junk;
      areaHeap := new AreaHeap(AREA_SIZE, 0);
      varHeap := new VarHeap();
      interval := new Interval();
      freeList := seq(SMALL_COUNT, _ => null);
      cells, layout := map[], EMPTY;
      free := seq(SMALL_COUNT, _ => []);
      var hs := MakeHeaps();
      heaps, owners, idle := hs, Elements(hs), {};
      new;
      EmptyIsWellLaid();
    }

    function HeaderAt(a: int): Header
      reads `cells, cells.Values`color, cells.Values`dummy
    {
      if a in cells then Header(cells[a].size, cells[a].color, cells[a].dummy) else junk(a)
    }

    /** `a` passes the validity test. */
    ghost predicate Accepts(a: int)
      requires |layout.areas| == SMALL_COUNT
      reads `cells, `layout, cells.Values`color, cells.Values`dummy
    {
      HeaderOk(HeaderAt(a)) && Located(layout, a, HeaderAt(a).size)
    }

    /** What passes, in full: cells whose header is stamped, and what looks like the header of a
        large block, or of the class above the last one, and is inside the hull. */
    lemma AcceptsIff(a: int)
      requires Valid() && interval.blocks != []
      ensures a in cells ==> (Accepts(a) <==> cells[a].color <= 3 && cells[a].dummy == 0x88)
      ensures a !in cells ==>
        (Accepts(a) <==>
          && 9 <= junk(a).size <= 29 && junk(a).color <= 3 && junk(a).dummy == 0x88 && interval.blocks[0].start <= a
          && exists i :: 0 <= i < |interval.blocks| && a < interval.blocks[i].start + 8 * interval.blocks[i].size)
    {
      hide HeapsOk, ListsOk, FreeKnown, WellLaid;
      BlocksProper();
      ValidityIsExact(layout, a);
      HullIs(interval.blocks, a);
    }

    lemma BlocksProper()
      requires PoolOk()
      ensures ProperBlocks(interval.blocks)
    {
    }

    /** `sgc_allocator_is_valid` */
    method IsValid(a: int) returns (r: bool)
      requires Valid()
      ensures r <==> Accepts(a)
    {
      var h := HeaderAt(a);
      if h.size > SIZE_COUNT {
        return false;
      }
      if h.color >= COLOR_MAX {
        return false;
      }
      if h.dummy != DUMMY_VALUE {
        return false;
      }
      var inside := interval.Inside(a);
      if !inside {
        return false;
      }
      if h.size >= SMALL_COUNT {
        return true;
      }
      r := heaps[h.size].IsValid(a);
    }

    /** One area for the pool; 0 if the system has no memory. */
    method Reserve(block: int) returns (ok: bool)
      requires Valid() && block >= 0 && Available(layout.blocks, block, AREA_SIZE)
      modifies `layout, areaHeap, interval
      ensures Valid() && (ok <==> block != 0)
      ensures areaHeap.free == (if ok then [block] else []) + old(areaHeap.free)
      ensures layout.blocks == old(layout.blocks) + if ok then [Block(block, AREA_SIZE)] else []
    {
      hide WellLaid, ListsOk, MappedAt, FreeKnown;
      if block != 0 {
        AddAreaKeeps(layout, block);
      }
      ok := areaHeap.Expand(interval, block);
      if ok {
        layout := AddArea(layout, block);
      }
    }

    /** The loop of `sgc_area_heap_init`, for the areas that the system returns one by one. */
    method Preallocate(areas: seq<int>) returns (ok: bool)
      requires Valid() && AreasAvailable(layout.blocks, areas)
      modifies `layout, areaHeap, interval
      ensures Valid() && (ok <==> 0 !in areas)
      ensures ok ==> |areaHeap.free| == |areas| + |old(areaHeap.free)| && areaHeap.free[|areas|..] == old(areaHeap.free)
      ensures ok ==> forall i :: 0 <= i < |areas| ==> areaHeap.free[i] == areas[|areas| - 1 - i]
    {
      hide Valid, Available;
      for i := 0 to |areas|
        invariant Valid() && AreasAvailable(layout.blocks, areas[i..]) && 0 !in areas[..i]
        invariant |areaHeap.free| == i + |old(areaHeap.free)| && areaHeap.free[i..] == old(areaHeap.free)
        invariant forall j :: 0 <= j < i ==> areaHeap.free[j] == areas[i - 1 - j]
      {
        ok := Reserve(areas[i]);
        if !ok {
          return;
        }
        assert areas[i..][1..] == areas[i + 1..];
      }
      assert areas[..|areas|] == areas;
      ok := true;
    }

    /** An area to be carved for class `c`; 0 if the system has no memory. */
    method GetArea(c: nat, block: int) returns (area: int, ghost l: Layout)
      requires HeapsOk() && PoolOk() && c < SMALL_COUNT && Available(layout.blocks, block, AREA_SIZE)
      modifies `layout, areaHeap, interval
      ensures PoolOk()
      ensures area == 0 ==> layout == old(layout) && block == 0
      ensures area != 0 ==>
        && WellLaid(l) && l.classOf == old(layout.classOf) && l.areas == old(layout.areas)
        && l.freeAreas != [] && l.freeAreas[0] == area && layout == CarveArea(l, c)
    {
      l := layout;
      if areaHeap.free == [] && block != 0 {
        AddAreaKeeps(layout, block);
        l := AddArea(layout, block);
      }
      area := areaHeap.Alloc(interval, block);
      if area != 0 {
        CarveKeeps(l, c);
        layout := CarveArea(l, c);
      }
    }

    /** Cuts `area` into cells of class `c` and maps them. */
    method CarveCells(c: nat, area: int) returns (list: Mem?, carved: seq<Mem>, m: map<int, Mem>)
      requires |heaps| == SMALL_COUNT && c < SMALL_COUNT && heaps[c].Valid() && heaps[c].sizeIndex == c
      modifies heaps[c]
      ensures heaps[c].areas == [area] + old(heaps[c].areas)
      ensures Chain(list, carved) && fresh(carved) && carved != []
      ensures forall x | x in carved :: x.size == c && Sized(x)
      ensures MapOf(m, carved) && m.Keys == NewCells(area, c).Keys
    {
      EveryAreaHasCells(c);
      list, carved := heaps[c].Expand(area);
      CarvedDistinct(carved, area, c);
      m := MapCells(carved);
      CarvedCells(m, carved, area, c);
    }

    /** `sgc_mem_heap_expand`: the cells of one more area for class `c`, chained. */
    method ExpandClass(c: nat, block: int) returns (list: Mem?, ghost carved: seq<Mem>)
      requires HeapsOk() && PoolOk() && CellsKnown() && c < SMALL_COUNT && Available(layout.blocks, block, AREA_SIZE)
      modifies `cells, `layout, heaps, areaHeap, interval
      ensures HeapsOk() && PoolOk() && CellsKnown()
      ensures Chain(list, carved) && fresh(carved) && (list == null ==> cells == old(cells) && block == 0)
      ensures forall m | m in carved :: m.size == c && Has(m) && Sized(m)
      ensures forall a | a in old(cells) :: a in cells && cells[a] == old(cells[a])
      ensures forall a | a in cells :: a in old(cells) || cells[a] in carved
    {
      hide WellLaid, NewCells, MapOf, Chain, NoDup;
      carved := [];
      var area: int;
      ghost var l;
      area, l := GetArea(c, block);
      if area == 0 {
        EmptyChain();
        return null, [];
      }
      CarveKeeps(l, c);
      var newCells, m;
      list, newCells, m := CarveCells(c, area);
      MergeMapped(cells, l.classOf, m, newCells, area, c);
      cells := cells + m;
      carved := newCells;
    }

    /** Makes `list` the free list of class `c`, which was empty. */
    method Install(c: nat, list: Mem?, ghost carved: seq<Mem>)
      requires ListsOk() && c < SMALL_COUNT && freeList[c] == null
      requires Chain(list, carved) && forall m | m in carved :: m.size == c
      modifies `freeList, `free
      ensures ListsOk() && free == old(free)[c := carved] && freeList[c] == list
      ensures Members(free) == old(Members(free)) + Elements(carved)
    {
      assert free[c] == [];
      MembersUpdate(free, c, carved);
      freeList := freeList[c := list];
      free := free[c := carved];
    }

    /** Replaces the free list of class `c`, which is empty, by the cells of a new area. */
    method Refill(c: nat, block: int) returns (ghost carved: seq<Mem>)
      requires Consistent() && c < SMALL_COUNT && freeList[c] == null && Available(layout.blocks, block, AREA_SIZE)
      modifies `cells, `layout, `freeList, `free, heaps, areaHeap, interval
      ensures Consistent() && fresh(carved) && free == old(free)[c := carved]
      ensures forall m | m in carved :: Has(m) && Sized(m)
      ensures freeList[c] == null ==> cells == old(cells) && block == 0
      ensures forall a | a in old(cells) :: a in cells && cells[a] == old(cells[a])
      ensures forall a | a in cells :: a in old(cells) || cells[a] in carved
      ensures Members(free) == old(Members(free)) + Elements(carved)
    {
      hide WellLaid, Chain, HeapsOk, PoolOk, CellsKnown;
      var list;
      list, carved := ExpandClass(c, block);
      Install(c, list, carved);
      forall m | m in FreeBlocks()
        ensures Has(m)
      {
        assert m in carved || m in old(FreeBlocks());
      }
    }

    /** Takes the first cell off the free list of class `c`. */
    method Pop(c: nat) returns (mem: Mem)
      requires ListsOk() && c < SMALL_COUNT && freeList[c] != null
      modifies `freeList, `free, Members(free)`next
      ensures ListsOk() && mem.size == c && mem == old(free)[c][0] && free == old(free)[c := old(free)[c][1..]]
      ensures mem.next == null && mem in old(Members(free))
      ensures Members(free) == old(Members(free)) - {mem}
    {
      mem := freeList[c];
      assert mem == free[c][0] && mem in Members(free);
      ghost var rest := free[c][1..];
      MembersUpdate(free, c, rest);
      assert Elements(free[c]) == Elements(rest) + {mem};
      freeList := freeList[c := mem.next];
      mem.next := null;
      free := free[c := rest];
    }

    /** Refills the free list of class `c` if it is empty. */
    method Replenish(c: nat, block: int) returns (ghost added: set<Mem>)
      requires Consistent() && c < SMALL_COUNT && Available(layout.blocks, block, AREA_SIZE)
      modifies `cells, `layout, `freeList, `free, heaps, areaHeap, interval
      ensures Consistent() && fresh(added) && forall m | m in added :: Sized(m)
      ensures Grew(old(cells), cells, added) && Members(free) == old(Members(free)) + added
      ensures freeList[c] == null ==> cells == old(cells) && added == {} && block == 0
      ensures |freeList| == SMALL_COUNT == |free| && (added == {} || added == Elements(free[c]))
      ensures |free| == |old(free)| && forall d :: 0 <= d < |free| && (d != c || old(free)[c] != []) ==> free[d] == old(free)[d]
    {
      hide WellLaid, Chain, HeapsOk, PoolOk, CellsKnown, ListsOk, FreeKnown;
      added := {};
      ListsNonEmpty(c);
      if freeList[c] == null {
        ghost var carved := Refill(c, block);
        added := Elements(carved);
        ListsNonEmpty(c);
      }
    }

    lemma ListsNonEmpty(c: nat)
      requires ListsOk() && c < SMALL_COUNT
      ensures |freeList| == SMALL_COUNT == |free| && (freeList[c] == null <==> free[c] == [])
    {
    }

    /** Taking the first cell of class `c`, with the rest of the state in view. */
    method PopFirst(c: nat) returns (mem: Mem)
      requires Consistent() && c < SMALL_COUNT && freeList[c] != null
      modifies `freeList, `free, Members(free)`next
      ensures Consistent() && mem.size == c && c < |old(free)| && old(free)[c] != []
      ensures mem == old(free)[c][0] && free == old(free)[c := old(free)[c][1..]]
      ensures mem in old(FreeBlocks()) && FreeBlocks() == old(FreeBlocks()) - {mem}
    {
      hide WellLaid, Chain, HeapsOk, PoolOk, CellsKnown, Sorted, NoDup;
      ListsNonEmpty(c);
      mem := Pop(c);
      assert mem.size == c && mem !in varHeap.blocks;
    }

    /** The small-class branch of `sgc_allocator_alloc`. */
    method AllocSmall(c: nat, block: int) returns (mem: Mem?, ghost added: set<Mem>)
      requires Consistent() && c < SMALL_COUNT && Available(layout.blocks, block, AREA_SIZE)
      modifies `cells, `layout, `freeList, `free, heaps, areaHeap, interval, Members(free)`next
      ensures Consistent() && fresh(added) && forall m | m in added :: Sized(m)
      ensures mem == null ==> cells == old(cells) && FreeBlocks() == old(FreeBlocks()) && block == 0
      ensures mem != null ==> mem.size == c && Took(old(cells), old(FreeBlocks()), cells, FreeBlocks(), mem, added)
      ensures mem != null ==> TookFirst(old(free), old(varHeap.blocks), free, varHeap.blocks, mem)
      ensures mem != null && !fresh(mem) ==> added == {}
    {
      hide Consistent, TookFirst, Members;
      ghost var free0 := free;
      added := Replenish(c, block);
      if freeList[c] == null {
        return null, added;
      }
      ghost var free1 := free;
      mem := PopFirst(c);
      PopTakesFirst(free0, free1, varHeap.blocks, mem, c);
      assert added != {} ==> mem in added;
    }

    /** What the large-block heap does to the free lists and to the pool. */
    method TakeLarge(c: nat, block: int) returns (mem: Mem?, ghost isNew: bool)
      requires ListsOk() && PoolOk() && SMALL_COUNT <= c < SIZE_COUNT && block >= 0
      requires Available(layout.blocks, block, Extent(c))
      modifies interval, varHeap, Elements(varHeap.blocks)`next, Elements(varHeap.blocks)`prev
      ensures ListsOk() && (mem != null ==> mem.size == c)
      ensures mem == null ==> PoolOk() && varHeap.blocks == old(varHeap.blocks) && block == 0
      ensures mem != null && !isNew ==>
        && PoolOk() && mem in old(varHeap.blocks)
        && Elements(varHeap.blocks) == Elements(old(varHeap.blocks)) - {mem}
      ensures mem != null && isNew ==>
        Pending(mem) && varHeap.blocks == old(varHeap.blocks) && fresh(mem) && Sized(mem) && mem.addr == block
      ensures mem != null ==> TookFirst(free, old(varHeap.blocks), free, varHeap.blocks, mem)
    {
      hide WellLaid, Chain;
      ghost var s := varHeap.blocks;
      ghost var k;
      mem, k := varHeap.Alloc(c, interval, block);
      if k < |s| {
        TakeElements(s, k);
      }
      isNew := k == |s|;
      assert forall m | m in varHeap.blocks :: m in s;
    }

    /** The large-block branch of `sgc_allocator_alloc`. */
    method AllocLarge(c: nat, block: int) returns (mem: Mem?, ghost added: set<Mem>)
      requires Consistent() && SMALL_COUNT <= c < SIZE_COUNT && block >= 0 && Available(layout.blocks, block, Extent(c))
      modifies `cells, `layout, interval, varHeap, Elements(varHeap.blocks)`next, Elements(varHeap.blocks)`prev
      ensures Consistent() && fresh(added) && forall m | m in added :: Sized(m)
      ensures mem == null ==> cells == old(cells) && FreeBlocks() == old(FreeBlocks()) && block == 0
      ensures mem != null ==> mem.size == c && Took(old(cells), old(FreeBlocks()), cells, FreeBlocks(), mem, added)
      ensures mem != null ==> TookFirst(old(free), old(varHeap.blocks), free, varHeap.blocks, mem)
      ensures mem != null ==> LargeGrowth(old(layout.blocks), layout.blocks, mem, added, block)
      ensures mem != null && !fresh(mem) ==> added == {}
    {
      hide WellLaid, Chain, Sorted, ListsOk, HeapsOk, CellsKnown, PoolOk, Pending, TookFirst;
      added := {};
      ghost var isNew;
      SizesApart();
      mem, isNew := TakeLarge(c, block);
      if mem == null {
        return;
      }
      assert !isNew ==> mem in old(FreeBlocks());
      added := Record(mem, isNew);
      forall m | m in FreeBlocks()
        ensures Has(m)
      {
        assert m in old(FreeBlocks());
      }
    }

    /** Enters `mem` in the memory map; it may be known already. */
    method Record(mem: Mem, ghost isNew: bool) returns (ghost added: set<Mem>)
      requires HeapsOk() && CellsKnown() && SMALL_COUNT <= mem.size < SIZE_COUNT
      requires isNew ==> Pending(mem)
      requires !isNew ==> PoolOk() && Has(mem)
      modifies `cells, `layout
      ensures HeapsOk() && CellsKnown() && PoolOk()
      ensures added == (if isNew then {mem} else {}) && Grew(old(cells), cells, added) && Has(mem)
      ensures LargeGrowth(old(layout.blocks), layout.blocks, mem, added, mem.addr)
    {
      hide WellLaid, Available;
      assert HeapsOk() && (isNew ==> mem.addr !in cells) by {
        if isNew { AddLargeKeeps(layout, mem.addr, mem.size); }
      }
      added := {};
      if isNew {
        AddLargeKeeps(layout, mem.addr, mem.size);
        layout := AddLarge(layout, mem.addr, mem.size);
        added := {mem};
      }
      cells := cells[mem.addr := mem];
    }

    /** The pool just after `mem` was obtained from the system. */
    ghost predicate Pending(mem: Mem)
      requires SMALL_COUNT <= mem.size < SIZE_COUNT
      reads `layout, areaHeap, interval
    {
      && areaHeap.Valid() && interval.Valid() && WellLaid(layout)
      && areaHeap.areaSize == AREA_SIZE && areaHeap.maxAreas == 0
      && interval.blocks == layout.blocks + [Block(mem.addr, Extent(mem.size))] && layout.freeAreas == areaHeap.free
      && (forall x | x in areaHeap.made :: Block(x, AREA_SIZE) in layout.blocks)
      && mem.addr > 0 && Available(layout.blocks, mem.addr, Extent(mem.size))
    }

    /** `block` is what the system may return for a request of `nbytes` bytes. */
    ghost predicate Offered(nbytes: int, block: int)
      reads `layout
    {
      block >= 0 && forall c: nat | IsClassOf(nbytes, c) ::
        Available(layout.blocks, block, if c < SMALL_COUNT then AREA_SIZE else Extent(c))
    }

    /** The two branches of `sgc_allocator_alloc`. */
    method AllocClass(c: nat, block: int) returns (mem: Mem?, ghost added: set<Mem>)
      requires Consistent() && c < SIZE_COUNT && block >= 0
      requires Available(layout.blocks, block, if c < SMALL_COUNT then AREA_SIZE else Extent(c))
      modifies `cells, `layout, `freeList, `free, heaps, areaHeap, interval
      modifies varHeap, FreeBlocks()`next, FreeBlocks()`prev
      ensures Consistent() && fresh(added) && forall m | m in added :: Sized(m)
      ensures mem == null ==> cells == old(cells) && FreeBlocks() == old(FreeBlocks()) && block == 0
      ensures mem != null ==> mem.size == c && Took(old(cells), old(FreeBlocks()), cells, FreeBlocks(), mem, added)
      ensures mem != null ==> TookFirst(old(free), old(varHeap.blocks), free, varHeap.blocks, mem)
      ensures mem != null && c >= SMALL_COUNT ==> LargeGrowth(old(layout.blocks), layout.blocks, mem, added, block)
      ensures mem != null && !fresh(mem) ==> added == {}
    {
      hide WellLaid, Consistent, Took, TookFirst, LargeGrowth;
      if c < SMALL_COUNT {
        mem, added := AllocSmall(c, block);
      } else {
        mem, added := AllocLarge(c, block);
      }
    }

    /** `sgc_allocator_alloc` */
    method Alloc(nbytes: int, block: int) returns (r: AllocResult, ghost added: set<Mem>)
      requires Valid() && Offered(nbytes, block)
      modifies `cells, `layout, `freeList, `free, owners, areaHeap, interval
      modifies `idle, varHeap, idle`next, idle`prev
      ensures Valid() && fresh(added) && forall m | m in added :: Sized(m)
      ensures r == Overflow <==> nbytes > LARGEST
      ensures !r.Allocated? ==> cells == old(cells) && idle == old(idle) && (r == OutOfMemory ==> block == 0)
      ensures r.Allocated? ==>
        IsClassOf(nbytes, r.mem.size) && Took(old(cells), old(idle), cells, idle, r.mem, added)
      ensures r.Allocated? ==> TookFirst(old(free), old(varHeap.blocks), free, varHeap.blocks, r.mem)
      ensures r.Allocated? && r.mem.size >= SMALL_COUNT ==>
        LargeGrowth(old(layout.blocks), layout.blocks, r.mem, added, block)
      ensures r.Allocated? && r.mem in old(idle) ==> added == {}
    {
      hide WellLaid, ListsOk, HeapsOk, CellsKnown, PoolOk, FreeKnown, Took, TookFirst, LargeGrowth;
      added := {};
      var mem: Mem?;
      var index := GetSizeIndex(nbytes);
      if index.None? {
        return Overflow, added;
      }
      mem, added := AllocClass(index.value, block);
      idle := FreeBlocks();
      r := if mem == null then OutOfMemory else Allocated(mem);
    }

    /** Puts a cell at the front of its free list. */
    method Push(mem: Mem)
      requires ListsOk() && mem !in Members(free) && mem.size < SMALL_COUNT
      modifies `freeList, `free, mem`next
      ensures ListsOk() && free == old(free)[mem.size := [mem] + old(free)[mem.size]]
      ensures Members(free) == old(Members(free)) + {mem}
    {
      ghost var c, s := mem.size, [mem] + free[mem.size];
      ListInMembers(free, c);
      MembersUpdate(free, c, s);
      assert Elements(s) == Elements(free[c]) + {mem};
      mem.next := freeList[mem.size];
      ChainCons(mem, mem.next, free[c]);
      freeList := freeList[mem.size := mem];
      free := free[c := s];
    }

    method FreeLarge(mem: Mem)
      requires ListsOk() && mem !in Elements(varHeap.blocks) && mem.size >= SMALL_COUNT
      modifies varHeap, Elements(varHeap.blocks)`next, Elements(varHeap.blocks)`prev, mem`next, mem`prev
      ensures ListsOk() && varHeap.blocks == old(varHeap.blocks) + [mem]
    {
      varHeap.Free(mem);
    }

    /** The two branches of `sgc_allocator_free`. */
    method FreeCell(mem: Mem)
      requires Consistent() && Has(mem) && mem !in FreeBlocks()
      modifies `freeList, `free, varHeap, Elements(varHeap.blocks)`next, Elements(varHeap.blocks)`prev, mem`next, mem`prev
      ensures Consistent() && |free| == |old(free)| == SMALL_COUNT
      ensures free == if mem.size < SMALL_COUNT then old(free)[mem.size := [mem] + old(free)[mem.size]] else old(free)
      ensures varHeap.blocks == old(varHeap.blocks) + if mem.size < SMALL_COUNT then [] else [mem]
      ensures FreeBlocks() == old(FreeBlocks()) + {mem}
    {
      hide WellLaid, HeapsOk, CellsKnown, PoolOk, Chain, Sorted, Ring;
      if mem.size < SMALL_COUNT {
        Push(mem);
      } else {
        FreeLarge(mem);
      }
    }

    /** `sgc_allocator_free` */
    method Free(mem: Mem)
      requires Valid() && Has(mem) && mem !in idle
      modifies `freeList, `free, `idle, varHeap, idle`next, idle`prev, mem`next, mem`prev
      ensures Valid() && |free| == |old(free)| == SMALL_COUNT
      ensures free == if mem.size < SMALL_COUNT then old(free)[mem.size := [mem] + old(free)[mem.size]] else old(free)
      ensures varHeap.blocks == old(varHeap.blocks) + if mem.size < SMALL_COUNT then [] else [mem]
      ensures idle == old(idle) + {mem}
    {
      hide ListsOk, HeapsOk, CellsKnown, PoolOk, FreeKnown;
      FreeCell(mem);
      idle := FreeBlocks();
    }

    /** Header and payload of a cell end before the next cell begins. */
    lemma PayloadsApart(p: Mem, q: Mem)
      requires Valid() && Has(p) && Has(q) && Sized(p) && Sized(q) && p.addr < q.addr
      ensures p.addr + HEADER + |p.data| <= q.addr && MEM_SIZES[p.size] <= |p.data|
    {
      hide ListsOk, HeapsOk, AreasOk, FreeOk, BlocksOk, Room, Extent;
      ExtentIsRoom(p.size);
      assert p.addr in layout.classOf.Keys && q.addr in layout.classOf.Keys;
      assert p.addr + Extent(layout.classOf[p.addr]) <= q.addr;
    }

    /** And they lie inside one block that the system returned. */
    lemma PayloadInBlock(p: Mem)
      requires Valid() && Has(p) && Sized(p)
      ensures exists b | b in interval.blocks :: b.start <= p.addr && p.addr + HEADER + |p.data| <= b.start + b.size
    {
      hide ListsOk, HeapsOk, AreasOk, FreeOk, BlocksOk, Room, Extent;
      ExtentIsRoom(p.size);
      assert p.addr in layout.classOf.Keys;
      var b :| b in layout.blocks && Within(p.addr, layout.classOf[p.addr], b);
    }

    lemma SizesApart()
      requires ListsOk()
      ensures Members(free) !! Elements(varHeap.blocks)
    {
    }
  }

  /** Memory keeps every header it had and gains those of `added`. */
  ghost predicate Grew(cells: map<int, Mem>, cells': map<int, Mem>, added: set<Mem>) {
    && (forall a | a in cells :: a in cells' && cells'[a] == cells[a])
    && (forall a | a in cells' :: a in cells || cells'[a] in added)
    && (forall m | m in added :: m.addr in cells' && cells'[m.addr] == m)
  }

  /** What an allocation owes its caller: the memory that was there is still there, `mem`
      comes from the free blocks or from new memory, and nothing but `mem` leaves them. */
  ghost predicate Took(cells: map<int, Mem>, free: set<Mem>, cells': map<int, Mem>, free': set<Mem>,
                       mem: Mem, added: set<Mem>)
  {
    && Grew(cells, cells', added)
    && mem in free + added && free' == free + added - {mem}
  }

  /** Which free block an allocation takes, and where the others are afterwards: a small class
      gives its first cell, the large ones the first block that fits, and the rest stay as
      they were, the ring of large blocks rotated.  Otherwise the memory is new. */
  ghost predicate TookFirst(free: seq<seq<Mem>>, blocks: seq<Mem>, free': seq<seq<Mem>>, blocks': seq<Mem>, mem: Mem) {
    var c := mem.size;
    if c < |free| then
      && blocks' == blocks && |free'| == |free| && (forall d :: 0 <= d < |free| && d != c ==> free'[d] == free[d])
      && (free[c] != [] ==> mem == free[c][0] && free'[c] == free[c][1..])
    else
      && free' == free
      && exists k: nat :: k <= |blocks| && NoneBefore(blocks, k, c) &&
           if k == |blocks| then blocks' == blocks
           else mem == blocks[k] && blocks' == blocks[k + 1..] + blocks[..k]
  }

  /** What an allocation of the large classes adds to memory: nothing, or the one block that
      the system returned. */
  ghost predicate LargeGrowth(blocks: seq<Block>, blocks': seq<Block>, mem: Mem, added: set<Mem>, block: int) {
    && mem.size < SIZE_COUNT && added <= {mem}
    && blocks' == blocks + if added == {} then [] else [Block(block, Extent(mem.size))]
  }

  lemma PopTakesFirst(free: seq<seq<Mem>>, filled: seq<seq<Mem>>, blocks: seq<Mem>, mem: Mem, c: nat)
    requires c < |free| == |filled| && filled[c] != [] && mem == filled[c][0] && mem.size == c
    requires forall d :: 0 <= d < |free| && (d != c || free[c] != []) ==> filled[d] == free[d]
    ensures TookFirst(free, blocks, filled[c := filled[c][1..]], blocks, mem)
  {
  }

  ghost predicate Sized(m: Mem)
    reads m`data
  {
    m.size < SIZE_COUNT && |m.data| == Room(m.size)
  }

  /** A block holds its header, the bytes of its class, and what the alignment adds. */
  lemma ExtentIsRoom(c: nat)
    requires c < SIZE_COUNT
    ensures HEADER + Room(c) == Extent(c) && MEM_SIZES[c] <= Room(c)
  {
  }

  lemma TakeElements(s: seq<Mem>, k: nat)
    requires NoDup(s) && k < |s|
    ensures Elements(s[k + 1..] + s[..k]) == Elements(s) - {s[k]}
  {
    forall m | m in s && m != s[k]
      ensures m in s[k + 1..] + s[..k]
    {
      var i :| 0 <= i < |s| && s[i] == m;
      if i < k { assert s[..k][i] == m; } else { assert s[k + 1..][i - k - 1] == m; }
    }
  }
}
