/** The pool of fixed-size areas of src/sgc_area_heap.c. */
module AreaPool {
  import opened Seqs
  import opened IntervalHull

  /** The system may return `start` for `size` bytes: NULL, or a block that overlaps
      none of the earlier ones and does not start below the first. */
  ghost predicate Available(blocks: seq<Block>, start: int, size: nat) {
    start == 0 ||
    (&& start > 0
     && (blocks != [] ==> blocks[0].start <= start)
     && forall i :: 0 <= i < |blocks| ==> Apart(blocks[i].start, blocks[i].size, start, size))
  }

  predicate Apart(a: int, m: nat, b: int, n: nat) {
    a + m <= b || b + n <= a
  }

  class AreaHeap {
    var free: seq<int>       // the chain through `area->next`
    const areaSize: nat
    const maxAreas: nat      // 0 stands for no limit
    var numAreas: nat
    var numFreeAreas: nat
    ghost var made: seq<int> // every area ever obtained, oldest first

    ghost predicate Valid()
      reads this
    {
      && areaSize > 0 && numAreas == |made| && numFreeAreas == |free|
      && NoDup(made) && NoDup(free) && (forall a :: a in free ==> a in made)
      && (forall a :: a in made ==> a > 0)
      && (maxAreas > 0 ==> numAreas <= maxAreas)
    }

    ghost function InUse(): set<int>
      reads this
    {
      Elements(made) - Elements(free)
    }

    constructor (areaSize: nat, maxAreas: nat)
      requires areaSize > 0
      ensures Valid() && made == [] && free == []
      ensures this.areaSize == areaSize && this.maxAreas == maxAreas
    {
      this.areaSize, this.maxAreas := areaSize, maxAreas;
      free, numAreas, numFreeAreas, made := [], 0, 0, [];
    }

    /** `block` is what the system returns, should it be asked. */
    method Expand(interval: Interval, block: int) returns (ok: bool)
      requires Valid() && interval.Valid()
      requires block == 0 || (block > 0 && block !in made)
      modifies this, interval
      ensures Valid() && interval.Valid()
      ensures ok <==> block != 0 && !(maxAreas > 0 && old(numAreas) >= maxAreas)
      ensures ok ==> free == [block] + old(free) && made == old(made) + [block]
      ensures ok ==> interval.blocks == old(interval.blocks) + [Block(block, areaSize)]
      ensures !ok ==> free == old(free) && made == old(made) && interval.blocks == old(interval.blocks)
    {
      if maxAreas > 0 && numAreas >= maxAreas {
        return false;
      }
      var area := block;
      if area == 0 {
        return false;
      }
      interval.Register(area, areaSize);
      free := [area] + free;
      numAreas := numAreas + 1;
      numFreeAreas := numFreeAreas + 1;
      made := made + [area];
      return true;
    }

    /** 0 stands for NULL. */
    method Alloc(interval: Interval, block: int) returns (area: int)
      requires Valid() && interval.Valid()
      requires block == 0 || (block > 0 && block !in made)
      modifies this, interval
      ensures Valid() && interval.Valid()
      ensures area == 0 <==> old(free) == [] && (block == 0 || (maxAreas > 0 && old(numAreas) >= maxAreas))
      ensures area == 0 ==> free == [] && made == old(made) && interval.blocks == old(interval.blocks)
      ensures area != 0 && old(free) == [] ==>
        && area == block && free == [] && made == old(made) + [block]
        && interval.blocks == old(interval.blocks) + [Block(block, areaSize)]
      ensures area != 0 && old(free) != [] ==>
        && area == old(free)[0] && free == old(free)[1..] && made == old(made)
        && interval.blocks == old(interval.blocks)
      ensures area != 0 ==> InUse() == old(InUse()) + {area}
    {
      if free == [] {
        var ok := Expand(interval, block);
        if !ok {
          return 0;
        }
      }
      area := free[0];
      assert area in made;
      free := free[1..];
      numFreeAreas := numFreeAreas - 1;
    }

    /** An area in use goes back to the pool. */
    method Free(area: int)
      requires Valid() && area in InUse()
      modifies this
      ensures Valid() && free == [area] + old(free) && made == old(made)
      ensures InUse() == old(InUse()) - {area}
    {
      free := [area] + free;
      numFreeAreas := numFreeAreas + 1;
    }
  }
}
