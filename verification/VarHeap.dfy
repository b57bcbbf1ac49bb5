/** The heap of large blocks of src/sgc_var_heap.c: first fit on a circular free list. */
module LargeBlocks {
  import opened Seqs
  import opened DList
  import opened SizeClasses
  import opened Carving
  import opened CellHeap
  import opened IntervalHull

  /** No block before the k-th has class `c`. */
  ghost predicate NoneBefore(s: seq<Mem>, k: nat, c: nat)
    requires k <= |s|
  {
    forall i :: 0 <= i < k ==> s[i].size != c
  }

  method RemoveAndRotate(cur: Mem, ghost s: seq<Mem>, ghost k: nat) returns (next: Mem?)
    requires Ring(s) && k < |s| && cur == s[k]
    modifies Elements(s)`next, Elements(s)`prev
    ensures IsList(next, s[k + 1..] + s[..k])
  {
    hide Linked;
    ghost var rest := Delete(s, k);
    assert rest[k..] == s[k + 1..] && rest[..k] == s[..k];
    next := RemoveNode(cur, s, k);
    Rotation(rest, k);
  }

  class VarHeap {
    var freeList: Mem?
    ghost var blocks: seq<Mem>

    ghost predicate Valid()
      reads this, blocks`next, blocks`prev
    {
      IsList(freeList, blocks)
    }

    constructor ()
      ensures Valid() && blocks == []
    {
      freeList, blocks := null, [];
    }

    /** Takes the k-th free block off the ring, which afterwards starts at its successor. */
    method Take(cur: Mem, ghost k: nat)
      requires Valid() && k < |blocks| && cur == blocks[k]
      modifies this, Elements(blocks)`next, Elements(blocks)`prev
      ensures Valid() && blocks == old(blocks)[k + 1..] + old(blocks)[..k]
    {
      var next := RemoveAndRotate(cur, blocks, k);
      freeList, blocks := next, blocks[k + 1..] + blocks[..k];
    }

    /** A block that the system returns at `start`. */
    method NewBlock(index: nat, interval: Interval, start: int) returns (mem: Mem?)
      requires interval.Valid() && SMALL_COUNT <= index < SIZE_COUNT && start >= 0
      modifies interval
      ensures interval.Valid() && (mem == null <==> start == 0)
      ensures interval.blocks == old(interval.blocks) + if start == 0 then [] else [Block(start, HEADER + MEM_SIZES[index])]
      ensures mem != null ==> fresh(mem) && mem.addr == start && mem.size == index && |mem.data| == Room(index)
      ensures mem != null ==> mem.next == null && mem.prev == null
    {
      if start == 0 {
        return null;
      }
      var memSize := HEADER + MEM_SIZES[index];
      var data := UnknownBytes(Room(index));
      mem := new Mem(start, index, data);
      interval.Register(start, memSize);
      mem.next := null;
      mem.prev := null;
    }

    /** The first free block of class `index`, or else a new block at `start`, the
        address that the system returns; NULL if the system has none. */
    method Alloc(index: nat, interval: Interval, start: int) returns (mem: Mem?, ghost k: nat)
      requires Valid() && interval.Valid()
      requires SMALL_COUNT <= index < SIZE_COUNT && start >= 0
      modifies this, interval, Elements(blocks)`next, Elements(blocks)`prev
      ensures Valid() && interval.Valid()
      ensures k <= |old(blocks)| && NoneBefore(old(blocks), k, index)
      ensures k < |old(blocks)| ==>
        && old(blocks)[k].size == index && mem == old(blocks)[k]
        && blocks == old(blocks)[k + 1..] + old(blocks)[..k] && interval.blocks == old(interval.blocks)
      ensures k == |old(blocks)| ==>
        && blocks == old(blocks) && (mem == null <==> start == 0)
        && interval.blocks == old(interval.blocks) + if start == 0 then [] else [Block(start, HEADER + MEM_SIZES[index])]
      ensures k == |old(blocks)| && mem != null ==>
        fresh(mem) && mem.addr == start && mem.size == index && |mem.data| == Room(index)
    {
      k := 0;
      if freeList != null {
        var cur := freeList;
        var last := freeList.prev;
        while true
          invariant k < |blocks| && cur == blocks[k] && last == blocks[|blocks| - 1]
          invariant NoneBefore(blocks, k, index)
          invariant Valid() && unchanged(this) && interval.Valid() && unchanged(interval)
          invariant blocks == old(blocks)
          decreases |blocks| - k
        {
          mem := cur;
          if mem.size == index {
            Take(cur, k);
            return;
          }
          if cur == last {
            k := k + 1;
            break;
          }
          cur := cur.next;
          k := k + 1;
        }
      }
      mem := NewBlock(index, interval, start);
    }

    method Free(mem: Mem)
      requires Valid() && mem !in blocks
      modifies this, Elements(blocks)`next, Elements(blocks)`prev, mem`next, mem`prev
      ensures Valid() && blocks == old(blocks) + [mem]
    {
      freeList := Append(freeList, mem, blocks);
      blocks := blocks + [mem];
    }
  }
}
