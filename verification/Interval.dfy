/** The address hull of src/sgc_interval.c:33-49 (the `USE_SBRK` branch). */
module IntervalHull {
  import opened Carving

  /** A block obtained from the system. */
  datatype Block = Block(start: int, size: nat)

  datatype Hull = Hull(low: int, high: int)

  predicate Covers(h: Hull, p: int) {
    h.low <= p < h.high
  }

  /** The address added to a pointer to words counts words, not bytes. */
  function Extend(h: Hull, b: Block): Hull {
    Hull(if h.low == 0 then b.start else h.low,
         if h.high < b.start + WORD * b.size then b.start + WORD * b.size else h.high)
  }

  /** The hull after registering `blocks` in order; 0 stands for NULL. */
  function HullOf(blocks: seq<Block>): Hull {
    if blocks == [] then Hull(0, 0)
    else Extend(HullOf(blocks[..|blocks| - 1]), blocks[|blocks| - 1])
  }

  ghost predicate ProperBlocks(blocks: seq<Block>) {
    forall i :: 0 <= i < |blocks| ==> blocks[i].start > 0 && blocks[i].size > 0
  }

  /** No block starts below the first one. */
  ghost predicate FirstIsLowest(blocks: seq<Block>) {
    forall i :: 0 <= i < |blocks| ==> blocks[0].start <= blocks[i].start
  }

  lemma {:induction false} HullBounds(blocks: seq<Block>)
    requires ProperBlocks(blocks) && blocks != []
    ensures HullOf(blocks).low == blocks[0].start
    ensures forall i :: 0 <= i < |blocks| ==> blocks[i].start + WORD * blocks[i].size <= HullOf(blocks).high
    ensures exists i :: 0 <= i < |blocks| && HullOf(blocks).high == blocks[i].start + WORD * blocks[i].size
  {
    var front := blocks[..|blocks| - 1];
    var b := blocks[|blocks| - 1];
    if front != [] {
      HullBounds(front);
      var i :| 0 <= i < |front| && HullOf(front).high == front[i].start + WORD * front[i].size;
      assert blocks[i] == front[i];
    }
    if HullOf(front).high < b.start + WORD * b.size {
      assert HullOf(blocks).high == blocks[|blocks| - 1].start + WORD * blocks[|blocks| - 1].size;
    }
  }

  /** The hull accepts every address of every registered block exactly when no block
      starts below the first: `low` is set once and never lowered. */
  lemma HullCoversIff(blocks: seq<Block>)
    requires ProperBlocks(blocks)
    ensures FirstIsLowest(blocks) <==>
      forall i, p :: 0 <= i < |blocks| && blocks[i].start <= p < blocks[i].start + blocks[i].size ==> Covers(HullOf(blocks), p)
  {
    if blocks != [] {
      HullBounds(blocks);
      if i :| 0 <= i < |blocks| && blocks[i].start < blocks[0].start {
        assert !Covers(HullOf(blocks), blocks[i].start);
      }
    }
  }

  /** What the hull accepts, exactly: nothing below the first block, and nothing at or above eight
      times the size of some block past its start. */
  lemma HullIs(blocks: seq<Block>, p: int)
    requires ProperBlocks(blocks) && blocks != []
    ensures Covers(HullOf(blocks), p) <==>
      blocks[0].start <= p && exists i :: 0 <= i < |blocks| && p < blocks[i].start + 8 * blocks[i].size
  {
    HullBounds(blocks);
  }

  class Interval {
    var low: int
    var high: int
    ghost var blocks: seq<Block>

    ghost predicate Valid()
      reads this
    {
      Hull(low, high) == HullOf(blocks) && ProperBlocks(blocks)
    }

    constructor ()
      ensures Valid() && blocks == []
    {
      low, high, blocks := 0, 0, [];
    }

    method Register(start: int, size: nat)
      requires Valid() && start > 0 && size > 0
      modifies this
      ensures Valid() && blocks == old(blocks) + [Block(start, size)]
    {
      if low == 0 {
        low := start;
      }
      if high < start + WORD * size {
        high := start + WORD * size;
      }
      blocks := blocks + [Block(start, size)];
      assert blocks[..|blocks| - 1] == old(blocks);
    }

    predicate Inside(p: int)
      reads this
    {
      low <= p < high
    }
  }
}
