/** When a program makes the root loop of `sgc_mark` (src/sgc.c:572-597) fail. */
module RootFaults {
  import opened Seqs
  import opened DList
  import opened MarkSpec
  import opened SizeClasses
  import opened Carving
  import opened IntervalHull
  import opened AreaPool
  import opened HeapLayout
  import opened SegregatedFit
  import opened PayloadWords
  import opened SequentialCollector
  import opened ObjectCalls

  /** The i-th root is the first that denotes anything, the j-th denotes something else and
      the k-th the same again. */
  ghost predicate ComesBack<T>(rs: seq<seq<T>>, i: nat, j: nat, k: nat) {
    && i < j < k < |rs| && (forall h: nat | h < i :: rs[h] == [])
    && rs[i] != [] && rs[j] != [] && rs[j] != rs[i] && rs[k] == rs[i]
  }

  /** Where the p-th object of the table comes from. */
  lemma {:induction false} FlatSource<T>(rs: seq<seq<T>>, n: nat, p: nat) returns (h: nat)
    requires n <= |rs| && p < |Flat(rs, n)| && forall i :: 0 <= i < |rs| ==> |rs[i]| <= 1
    ensures h < n && rs[h] == [Flat(rs, n)[p]] && |Flat(rs, h)| == p
  {
    if p < |Flat(rs, n - 1)| {
      h := FlatSource(rs, n - 1, p);
    } else {
      h := n - 1;
    }
  }

  lemma {:induction false} FlatTarget<T>(rs: seq<seq<T>>, h: nat, n: nat)
    requires h < n <= |rs| && |rs[h]| == 1
    ensures |Flat(rs, h)| < |Flat(rs, n)| && Flat(rs, n)[|Flat(rs, h)|] == rs[h][0]
    decreases n
  {
    if h < n - 1 {
      FlatTarget(rs, h, n - 1);
    }
  }

  lemma {:induction false} FlatGrows<T>(rs: seq<seq<T>>, h: nat, n: nat)
    requires h <= n <= |rs|
    ensures |Flat(rs, h)| <= |Flat(rs, n)|
    decreases n - h
  {
    if h < n {
      FlatGrows(rs, h, n - 1);
    }
  }

  lemma {:induction false} FlatEmpty<T>(rs: seq<seq<T>>, n: nat)
    requires n <= |rs| && forall h: nat | h < n :: rs[h] == []
    ensures Flat(rs, n) == []
  {
    if n > 0 {
      FlatEmpty(rs, n - 1);
    }
  }

  lemma SourcesAscend<T>(rs: seq<seq<T>>, i: nat, j: nat)
    requires i < |rs| && j < |rs| && |Flat(rs, i)| < |Flat(rs, j)|
    ensures i < j
  {
    if j <= i { FlatGrows(rs, j, i); }
  }

  lemma RepeatComesBack<T>(rs: seq<seq<T>>)
    requires HeadRepeats(Flat(rs, |rs|)) && forall i :: 0 <= i < |rs| ==> |rs[i]| <= 1
    ensures exists i: nat, j: nat, k: nat :: ComesBack(rs, i, j, k)
  {
    var n, xs := |rs|, Flat(rs, |rs|);
    var p, q :| 0 <= p < q < |xs| && xs[p] != xs[0] && xs[q] == xs[0];
    hide Flat;
    var i := FlatSource(rs, n, 0);
    var j := FlatSource(rs, n, p);
    var k := FlatSource(rs, n, q);
    SourcesAscend(rs, i, j);
    SourcesAscend(rs, j, k);
    forall h: nat | h < i
      ensures rs[h] == []
    {
      if rs[h] != [] { FlatTarget(rs, h, i); }
    }
    assert ComesBack(rs, i, j, k);
  }

  lemma ComingBackRepeats<T>(rs: seq<seq<T>>, i: nat, j: nat, k: nat)
    requires ComesBack(rs, i, j, k) && forall i :: 0 <= i < |rs| ==> |rs[i]| <= 1
    ensures HeadRepeats(Flat(rs, |rs|))
  {
    hide Flat;
    FlatEmpty(rs, i);
    FlatTarget(rs, i, |rs|);
    FlatTarget(rs, j, |rs|);
    FlatTarget(rs, k, |rs|);
    FlatTarget(rs, j, k);
  }

  /** What the root handles denote, slot by slot. */
  ghost function Roots(c: Collector): (rs: seq<seq<Mem>>)
    reads c`roots, c.heap`cells, c.heap.cells.Values`color, c.heap.cells.Values`dummy, c`froms, c`scans
    ensures |rs| == |c.roots| && forall i :: 0 <= i < |rs| ==> |rs[i]| <= 1
  {
    c.RootTable(c.Stamped(), RedCells(c.Abs()), |c.roots|)
  }

  /** The root loop fails exactly when three root handles denote, in this order, the first
      object of the table, another one, and the first one again. */
  lemma FaultIff(c: Collector)
    ensures HeadRepeats(c.RootHits()) <==> exists i: nat, j: nat, k: nat :: ComesBack(Roots(c), i, j, k)
  {
    hide HeadRepeats, ComesBack;
    var rs := Roots(c);
    if HeadRepeats(Flat(rs, |rs|)) {
      RepeatComesBack(rs);
    }
    if exists i: nat, j: nat, k: nat :: ComesBack(rs, i, j, k) {
      var i: nat, j: nat, k: nat :| ComesBack(rs, i, j, k);
      ComingBackRepeats(rs, i, j, k);
    }
  }

  const LARGE: nat := 2048

  lemma LargeIsClass9(i: nat)
    ensures IsClassOf(LARGE, i) <==> i == 9
  {
    assert MEM_SIZES[8] < LARGE;
    assert IsClassOf(LARGE, 9) by {
      forall j: nat | j < 9
        ensures MEM_SIZES[j] < LARGE
      {
        Increasing(j, 9);
      }
    }
  }

  /** A large object without pointers at `a`, an address that the system returns. */
  method NewLarge(c: Collector, a: int) returns (mem: Mem, ghost added: set<Mem>)
    requires c.Valid() && c.WordsOk() && a > 0 && Available(c.heap.layout.blocks, a, Extent(9))
    modifies c.heap`cells, c.heap`layout, c.heap`freeList, c.heap`free, c.heap.owners, c.heap.areaHeap, c.heap.interval
    modifies c.heap`idle, c.heap.varHeap, c.heap.idle
    modifies c`counter, c`newList, c`news, Elements(c.news)`next, Elements(c.news)`prev
    ensures c.Valid() && c.WordsOk() && c.news == old(c.news) + [mem] && mem !in old(c.scans + c.news)
    ensures mem.color == BLACK && fresh(added) && mem in old(c.heap.idle) + added && c.heap.idle <= old(c.heap.idle) + added
    ensures c.heap.layout.blocks in {old(c.heap.layout.blocks), old(c.heap.layout.blocks) + [Block(a, Extent(9))]}
  {
    hide Collector.Valid, Collector.WordsOk, Took, Clean;
    LargeIsClass9(9);
    assert c.heap.Offered(LARGE, a) by {
      forall i: nat | IsClassOf(LARGE, i)
        ensures i == 9
      {
        LargeIsClass9(i);
      }
    }
    var r;
    r, added := NewObject(c, LARGE, POINTERLESS, 0, a);
    mem := r.mem;
    LargeIsClass9(mem.size);
    PointerlessIsClean(c, mem, added);
    TakenIdle(old(c.heap.cells), old(c.heap.idle), c.heap.cells, c.heap.idle, mem, added);
    ghost var blocks := old(c.heap.layout.blocks);
    assert blocks + [] == blocks;
  }

  lemma TakenIdle(cells: map<int, Mem>, idle: set<Mem>, cells': map<int, Mem>, idle': set<Mem>, mem: Mem, added: set<Mem>)
    requires Took(cells, idle, cells', idle', mem, added)
    ensures mem in idle + added && idle' <= idle + added
  {
  }

  /** `x` and `y` are two live objects. */
  ghost predicate TwoObjects(c: Collector, x: Mem, y: Mem)
    reads c`scans, c`news, x`color, y`color
  {
    x in c.scans + c.news && y in c.scans + c.news && x != y && x.color != RED && y.color != RED
  }

  /** No object lies at the bottom of the address space. */
  lemma AddressPositive(heap: Allocator, x: Mem)
    requires heap.Valid() && heap.Has(x)
    ensures x.addr > 0
  {
    hide Allocator.ListsOk, Allocator.HeapsOk;
    assert x.addr in heap.layout.classOf.Keys;
    assert InSomeBlock(x.addr, heap.layout.classOf[x.addr], heap.layout.blocks);
  }

  lemma HandleFacts(c: Collector, x: Mem)
    requires c.Valid() && x in c.scans + c.news
    ensures IsReference(c, x.addr + HEADER) && Good(c.heap.cells, c.heap.junk, c.Stamped(), c.Quiet(), x.addr + HEADER)
    ensures x.color != RED ==> c.Hit(c.Stamped(), x.addr + HEADER) == [x] && x !in RedCells(c.Abs())
  {
    hide Allocator.Valid;
    ValidOwned(c);
    ReferenceFacts(c, x.addr + HEADER);
    AddressPositive(c.heap, x);
    assert c.heap.cells[x.addr] in c.heap.cells.Values;
  }

  lemma RepeatsFor(c: Collector, x: Mem, y: Mem)
    requires c.Valid() && TwoObjects(c, x, y) && |c.roots| == MAX_ROOTS
    requires c.roots[..3] == [Some(x.addr + HEADER), Some(y.addr + HEADER), Some(x.addr + HEADER)]
    ensures HeadRepeats(c.RootHits())
  {
    hide Collector.Valid, Collector.Stamped, Collector.Hit, RedCells;
    HandleFacts(c, x);
    HandleFacts(c, y);
    FaultIff(c);
    assert c.roots[0] == c.roots[..3][0] && c.roots[1] == c.roots[..3][1] && c.roots[2] == c.roots[..3][2];
    assert ComesBack(Roots(c), 0, 1, 2);
  }

  /** Root handles for `x`, `y` and `x` again. */
  method RootTwice(c: Collector, x: Mem, y: Mem)
    requires c.Valid() && c.WordsOk() && TwoObjects(c, x, y) && forall i :: 0 <= i < |c.roots| ==> c.roots[i] == None
    modifies c`roots
    ensures c.Valid() && c.WordsOk() && HeadRepeats(c.RootHits())
  {
    hide Collector.Valid, Collector.WordsOk, Good, HeadRepeats, Collector.RootHits, IsReference, Collector.Stamped, Collector.Quiet;
    RootCount(c);
    HandleFacts(c, x);
    HandleFacts(c, y);
    assert c.roots[0] == None;
    var ok, i := AddHandle(c, x.addr + HEADER);
    assert c.roots[1] == None;
    ok, i := AddHandle(c, y.addr + HEADER);
    assert c.roots[2] == None;
    ok, i := AddHandle(c, x.addr + HEADER);
    RepeatsFor(c, x, y);
  }

  method Start(junk: int -> Header) returns (c: Collector)
    ensures c.Valid() && c.WordsOk() && c.scans == c.news == [] && forall i :: 0 <= i < |c.roots| ==> c.roots[i] == None
    ensures c.heap.idle == {} && c.heap.layout.blocks == []
    ensures fresh(c) && fresh(c.heap) && fresh(c.heap.owners) && fresh(c.heap.areaHeap) && fresh(c.heap.interval)
    ensures fresh(c.heap.varHeap)
  {
    hide Allocator.Valid, Collector.Valid, Collector.WordsOk;
    var heap := new Allocator(junk);
    c := new Collector(heap);
  }

  /** A collector with two live objects, in the blocks that the system returns at `a1` and `a2`. */
  method TwoLive(junk: int -> Header, a1: int, a2: int) returns (c: Collector, x: Mem, y: Mem)
    requires 0 < a1 && a1 + Extent(9) <= a2
    ensures c.Valid() && c.WordsOk() && TwoObjects(c, x, y) && forall i :: 0 <= i < |c.roots| ==> c.roots[i] == None
    ensures fresh(c) && fresh(c.heap) && fresh(c.heap.varHeap) && fresh(c.heap.idle) && fresh(c.scans) && fresh(c.news)
  {
    hide Collector.Valid, Collector.WordsOk, Extent;
    c := Start(junk);
    ghost var added;
    x, added := NewLarge(c, a1);
    assert x in c.scans + c.news;
    ValidOwned(c);
    y, added := NewLarge(c, a2);
  }

  /** A program that makes the cycle fail. */
  method RepeatedHandleFaults(junk: int -> Header, a1: int, a2: int) returns (ok: bool)
    requires 0 < a1 && a1 + Extent(9) <= a2
    ensures !ok
  {
    hide Collector.Valid, Collector.WordsOk, HeadRepeats, Extent;
    var c, x, y := TwoLive(junk, a1, a2);
    RootTwice(c, x, y);
    ok := c.Run();
  }
}
