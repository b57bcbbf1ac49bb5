/** The heaps of equally sized cells of src/sgc_mem_heap.c. */
module CellHeap {
  import opened Seqs
  import opened DList
  import opened SizeClasses
  import opened Carving

  /** The NULL-terminated chain through `next` that starts at `head`. */
  ghost predicate Chain(head: Mem?, s: seq<Mem>)
    reads s`next
  {
    && NoDup(s) && head == (if s == [] then null else s[0])
    && forall i {:trigger s[i].next} :: 0 <= i < |s| ==> s[i].next == if i + 1 == |s| then null else s[i + 1]
  }

  lemma EmptyChain()
    ensures Chain(null, [])
  {
  }

  lemma ChainCons(mem: Mem, list: Mem?, s: seq<Mem>)
    requires Chain(list, s) && mem !in s && mem.next == list
    ensures Chain(mem, [mem] + s)
  {
  }

  /** Uninitialised memory: `n` bytes of unknown content. */
  method UnknownBytes(n: nat) returns (data: seq<Byte>)
    ensures |data| == n
  {
    ghost var zeros := seq(n, _ => 0 as Byte);
    assert |zeros| == n;
    data :| |data| == n;
  }

  /** The payload bytes of a block of class `c`. */
  function Room(c: nat): nat
    requires c < SIZE_COUNT
  {
    CellSize(MEM_SIZES[c], HEADER, WORD) - HEADER
  }

  class MemHeap {
    const objSize: nat
    const memSize: nat
    const areaSize: nat
    const numMems: nat
    const sizeIndex: nat
    var areas: seq<int>   // the chain `mem_areas`, newest first

    ghost predicate Valid() {
      && sizeIndex < SMALL_COUNT && objSize == MEM_SIZES[sizeIndex]
      && memSize == CellSize(objSize, HEADER, WORD) && memSize > 0
      && numMems == AREA_ROOM / memSize && areaSize == numMems * memSize
    }

    /** `sgc_mem_heap_init` */
    constructor (sizeIndex: nat)
      requires sizeIndex < SMALL_COUNT
      ensures Valid() && this.sizeIndex == sizeIndex && areas == []
    {
      var mem := MEM_SIZES[sizeIndex] + HEADER;
      if mem % WORD != 0 {
        mem := mem + (WORD - mem % WORD);
      }
      this.sizeIndex := sizeIndex;
      objSize := MEM_SIZES[sizeIndex];
      memSize := mem;
      numMems := AREA_ROOM / mem;
      areaSize := AREA_ROOM / mem * mem;
      areas := [];
    }

    /** The address of the i-th cell of `area`. */
    function Cell(area: int, i: nat): int {
      CellStart(area + AREA_HEADER, i, memSize)
    }

    /** `p` passes the cell-start test for one of the areas. */
    predicate IsCell(p: int)
      requires memSize > 0
      reads this
    {
      exists area | area in areas :: StartsIn(p, area + AREA_HEADER, areaSize, memSize)
    }

    /** Cuts `area` into cells that are chained last cell first. */
    method Expand(area: int) returns (list: Mem?, cells: seq<Mem>)
      requires Valid()
      modifies this
      ensures areas == [area] + old(areas)
      ensures |cells| == numMems && Chain(list, cells) && fresh(cells)
      ensures AREA_HEADER + |cells| * memSize <= AREA_SIZE < AREA_HEADER + (|cells| + 1) * memSize
      ensures forall i :: 0 <= i < |cells| ==>
        && cells[i].addr == Cell(area, numMems - 1 - i) && cells[i].size == sizeIndex
        && |cells[i].data| == Room(sizeIndex) && cells[i].prev == null
    {
      hide Room;
      AsManyAsFit(AREA_ROOM, memSize);
      areas := [area] + areas;
      list, cells := null, [];
      var p := area + AREA_HEADER;
      for i := 0 to numMems
        invariant areas == [area] + old(areas)
        invariant |cells| == i && Chain(list, cells) && fresh(cells)
        invariant p == Cell(area, i)
        invariant forall j :: 0 <= j < i ==>
          && cells[j].addr == Cell(area, i - 1 - j) && cells[j].size == sizeIndex
          && |cells[j].data| == Room(sizeIndex) && cells[j].prev == null
      {
        var data := UnknownBytes(Room(sizeIndex));
        var mem := new Mem(p, sizeIndex, data);
        mem.next := list;
        mem.prev := null;
        ChainCons(mem, list, cells);
        list := mem;
        cells := [mem] + cells;
        p := p + memSize;
      }
    }

    /** `sgc_mem_heap_valid` */
    method IsValid(p: int) returns (r: bool)
      requires Valid()
      ensures r <==> IsCell(p)
    {
      var i := 0;
      while i < |areas|
        invariant i <= |areas|
        invariant forall j :: 0 <= j < i ==> !StartsIn(p, areas[j] + AREA_HEADER, areaSize, memSize)
      {
        var p0 := areas[i] + AREA_HEADER;
        var p1 := p0 + areaSize;
        if p0 <= p < p1 {
          if (p - p0) % memSize == 0 {
            assert areas[i] in areas && StartsIn(p, areas[i] + AREA_HEADER, areaSize, memSize);
            return true;
          }
        }
        i := i + 1;
      }
      return false;
    }
  }
}
