/** What a cycle keeps, in terms of the bytes in memory alone: the flags, the words of the payloads
    and the root variables, and the validity test (src/sgc.c:572-662). */
module WordPaths {
  import opened Seqs
  import opened DList
  import opened MarkSpec
  import opened SizeClasses
  import opened Carving
  import opened CellHeap
  import opened SegregatedFit
  import opened PayloadWords
  import opened Sweeping
  import opened SequentialCollector
  import opened ObjectCalls

  /** The word `w` is the address of the payload of the cell at `a`, and it passes the test. */
  ghost predicate Names(c: Collector, w: int, a: int)
    requires c.heap.Valid()
    reads c.heap, c.heap.owners, c.heap.areaHeap, c.heap.interval, c.heap.varHeap, c.heap.idle`next, c.heap.idle`prev
    reads c.heap.cells.Values`color, c.heap.cells.Values`dummy
  {
    w != 0 && w == a + HEADER && a in c.heap.cells && c.heap.Accepts(a)
  }

  /** A word of the object at `a`, within the bytes of its class, names `b`; objects whose flags
      have bit 1 set are not read. */
  ghost predicate RefersTo(c: Collector, a: int, b: int)
    requires c.heap.Valid()
    reads c.heap, c.heap.owners, c.heap.areaHeap, c.heap.interval, c.heap.varHeap, c.heap.idle`next, c.heap.idle`prev
    reads c.heap.cells.Values`color, c.heap.cells.Values`dummy, c.heap.cells.Values`flags, c.heap.cells.Values`data
  {
    && a in c.heap.cells
    && var m := c.heap.cells[a];
      m in c.heap.cells.Values && (m.flags % 4 == 0 || m.flags % 4 == 1) && m.size < SIZE_COUNT &&
      exists k: nat :: k * WORD < MEM_SIZES[m.size] && (k + 1) * WORD <= |m.data| && Names(c, WordAt(m.data, k), b)
  }

  /** A root variable holds a word that names `a`. */
  ghost predicate IsRoot(c: Collector, a: int)
    requires c.heap.Valid()
    reads c`roots, c.heap, c.heap.owners, c.heap.areaHeap, c.heap.interval, c.heap.varHeap, c.heap.idle`next, c.heap.idle`prev
    reads c.heap.cells.Values`color, c.heap.cells.Values`dummy
  {
    exists i :: 0 <= i < |c.roots| && c.roots[i].Some? && Names(c, c.roots[i].value, a)
  }

  /** A chain of words from a root to the last address of `p` that avoids RED objects. */
  ghost predicate IsWordPath(c: Collector, p: seq<int>)
    requires c.heap.Valid()
    reads c`roots, c.heap, c.heap.owners, c.heap.areaHeap, c.heap.interval, c.heap.varHeap, c.heap.idle`next, c.heap.idle`prev
    reads c.heap.cells.Values`color, c.heap.cells.Values`dummy, c.heap.cells.Values`flags, c.heap.cells.Values`data
  {
    && p != [] && IsRoot(c, p[0])
    && (forall i :: 0 <= i < |p| - 1 ==> RefersTo(c, p[i], p[i + 1]))
    && (forall i :: 0 <= i < |p| ==>
         p[i] in c.heap.cells && c.heap.cells[p[i]] in c.heap.cells.Values && c.heap.cells[p[i]].color != RED)
  }

  function Addresses(q: seq<Mem>): (p: seq<int>)
    ensures |p| == |q| && forall i :: 0 <= i < |q| ==> p[i] == q[i].addr
  {
    seq(|q|, i requires 0 <= i < |q| => q[i].addr)
  }

  /** The objects at the addresses `p`. */
  function CellsAt(cells: map<int, Mem>, p: seq<int>): (s: seq<Mem>)
    requires forall i :: 0 <= i < |p| ==> p[i] in cells
    ensures |s| == |p| && forall i :: 0 <= i < |p| ==> s[i] == cells[p[i]]
  {
    seq(|p|, i requires 0 <= i < |p| => cells[p[i]])
  }

  lemma NamesIff(c: Collector, w: int, a: int)
    requires c.heap.Valid() && c.NotForged(w)
    ensures Names(c, w, a) <==> a in c.heap.cells && c.heap.cells[a] in c.Hit(c.Stamped(), w)
  {
    hide Allocator.HeapsOk, Allocator.PoolOk, Allocator.ListsOk;
    if w != 0 { c.ValidIsHit(w); }
    if a in c.heap.cells {
      assert c.heap.cells[a].addr == a;
    }
  }

  /** One step from a registered object. */
  lemma RefersIff(c: Collector, m: Mem, b: int)
    requires c.Valid() && c.WordsOk() && m in c.scans + c.news
    ensures RefersTo(c, m.addr, b) <==> b in c.heap.cells && c.heap.cells[b] in RefsOf(c.References(c.Stamped()), m)
  {
    hide Collector.Valid, Names, Collector.Stamped;
    RegisteredSized(c, m);
    ValidHeap(c);
    var st, n := c.Stamped(), WordCount(m.size);
    assert c.heap.cells[m.addr] == m && m in c.heap.cells.Values by { assert c.heap.cells[m.addr] in c.heap.cells.Values; }
    c.ReferencesAt(m, st);
    FlagsIff(m.flags);
    RoomForWords(m.size);
    NotForgedWords(c, m);
    if RefersTo(c, m.addr, b) {
      var k: nat :| k * WORD < MEM_SIZES[m.size] && (k + 1) * WORD <= |m.data| && Names(c, WordAt(m.data, k), b);
      NamesIff(c, WordAt(m.data, k), b);
      WordRefsPrefix(c.heap.cells, st, m.data, k, n);
    }
    if b in c.heap.cells && c.heap.cells[b] in RefsOf(c.References(st), m) {
      var k := WordRefsSource(c.heap.cells, st, m.data, n, c.heap.cells[b]);
      NamesIff(c, WordAt(m.data, k), b);
    }
  }

  lemma FlagsIff(flags: nat)
    ensures IsPointerless(flags) <==> !(flags % 4 == 0 || flags % 4 == 1)
  {
  }

  lemma ValidHeap(c: Collector)
    requires c.Valid()
    ensures c.heap.Valid()
  {
  }

  lemma NotForgedWords(c: Collector, m: Mem)
    requires c.Valid() && c.WordsOk() && m in c.scans + c.news && Sized(m)
    ensures WordCount(m.size) * WORD <= |m.data|
    ensures !IsPointerless(m.flags) ==> forall j :: 0 <= j < WordCount(m.size) ==> c.NotForged(WordAt(m.data, j))
  {
    hide Allocator.Valid;
    assert m in Elements(c.scans + c.news);
    RoomForWords(m.size);
  }

  // ----- Roots -----

  lemma {:induction false} FlatMember<T>(rs: seq<seq<T>>, n: nat, x: T) returns (i: nat)
    requires n <= |rs| && x in Flat(rs, n)
    ensures i < n && x in rs[i]
  {
    if x in rs[n - 1] {
      i := n - 1;
    } else {
      i := FlatMember(rs, n - 1, x);
    }
  }

  lemma RootsUnforged(c: Collector)
    requires c.Valid() && c.WordsOk()
    ensures forall i :: 0 <= i < |c.roots| && c.roots[i].Some? ==> c.NotForged(c.roots[i].value)
    ensures c.RootsKnown(c.Stamped(), c.Quiet())
  {
  }

  /** The objects that the root loop adds. */
  lemma RootIff(c: Collector, a: int)
    requires c.Valid() && c.WordsOk() && a in c.heap.cells
    ensures c.heap.cells[a] in c.RootHits() <==> IsRoot(c, a) && c.heap.cells[a] !in RedCells(c.Abs())
  {
    hide Collector.Valid, Collector.WordsOk, Names, Collector.Stamped, RedCells, Collector.NotForged, Collector.RootsKnown;
    ValidHeap(c);
    RootsUnforged(c);
    var st, red, x := c.Stamped(), RedCells(c.Abs()), c.heap.cells[a];
    var rs := c.RootTable(st, red, |c.roots|);
    if x in c.RootHits() {
      var i := FlatMember(rs, |rs|, x);
      NamesIff(c, c.roots[i].value, a);
    }
    if IsRoot(c, a) && x !in red {
      var i :| 0 <= i < |c.roots| && c.roots[i].Some? && Names(c, c.roots[i].value, a);
      NamesIff(c, c.roots[i].value, a);
      assert x in rs[i];
      FlatPrefix(rs, i, |rs|);
    }
  }

  // ----- Paths -----

  /** What a chain reaches is registered. */
  lemma {:induction false} PathRegistered(c: Collector, q: seq<Mem>)
    requires c.Valid() && c.WordsOk() && IsPath(q, c.RootHits(), c.References(c.Stamped()), RedCells(c.Quiet()))
    ensures forall i :: 0 <= i < |q| ==> q[i] in c.scans + c.news && q[i] in c.Quiet().color
    decreases |q|
  {
    hide Collector.Valid, Collector.Stamped, Collector.References, Collector.RootHits, RedCells, Collector.NotForged, Collector.Colors;
    var n, g := |q| - 1, c.References(c.Stamped());
    if n == 0 {
      RootsLive(c);
      assert q[0] in c.RootHits();
    } else {
      var p := q[..n];
      assert IsPath(p, c.RootHits(), g, RedCells(c.Quiet()));
      PathRegistered(c, p);
      assert q[n - 1] == p[n - 1];
      RefsKnown(c, q[n - 1]);
      assert q[n - 1 + 1] in RefsOf(g, q[n - 1]);
      NotRed(c, q[n]);
    }
  }

  lemma NotRed(c: Collector, x: Mem)
    ensures x in c.Quiet().color && x !in RedCells(c.Quiet()) ==> c.Quiet().color[x] != RED
  {
  }

  lemma RootsLive(c: Collector)
    requires c.Valid() && c.WordsOk()
    ensures forall x | x in c.RootHits() :: x in c.scans + c.news && x in c.Quiet().color
  {
    hide Collector.NotForged, Collector.Stamped, Collector.References;
    var q := c.Quiet();
    c.RootHitsLive(c.Stamped(), q, c.RootTable(c.Stamped(), RedCells(q), |c.roots|), |c.roots|);
  }

  lemma RefsKnown(c: Collector, m: Mem)
    requires c.WordsOk() && m in c.scans + c.news
    ensures Known(c.Quiet(), RefsOf(c.References(c.Stamped()), m))
  {
  }

  /** The specification's chains of objects and the chains of words are the same. */
  lemma ToWords(c: Collector, q: seq<Mem>)
    requires c.Valid() && c.WordsOk() && IsPath(q, c.RootHits(), c.References(c.Stamped()), RedCells(c.Quiet()))
    ensures IsWordPath(c, Addresses(q)) && c.heap.Has(q[|q| - 1])
  {
    hide Collector.Valid, Collector.WordsOk, Collector.Stamped, Collector.References, Collector.RootHits, IsRoot, RefersTo, Names;
    ValidHeap(c);
    ValidOwned(c);
    PathRegistered(c, q);
    var p := Addresses(q);
    forall i | 0 <= i < |q|
      ensures p[i] in c.heap.cells && c.heap.cells[p[i]] == q[i] && q[i] in c.heap.cells.Values && q[i].color != RED
    {
      RegisteredColor(c, q[i]);
    }
    RootIff(c, p[0]);
    forall i | 0 <= i < |p| - 1
      ensures RefersTo(c, p[i], p[i + 1])
    {
      RefersIff(c, q[i], p[i + 1]);
    }
  }

  lemma WordPathFacts(c: Collector, p: seq<int>)
    requires c.heap.Valid() && IsWordPath(c, p)
    ensures p != [] && IsRoot(c, p[0]) && forall i :: 0 <= i < |p| ==> p[i] in c.heap.cells
    ensures forall i :: 0 <= i < |p| ==> c.heap.cells[p[i]] !in RedCells(c.Quiet())
    ensures |p| > 1 ==> IsWordPath(c, p[..|p| - 1]) && RefersTo(c, p[|p| - 2], p[|p| - 1])
  {
    hide IsRoot, RefersTo, Allocator.Valid;
    if |p| > 1 {
      assert RefersTo(c, p[|p| - 2], p[|p| - 2 + 1]);
    }
  }

  lemma PathSnoc(q: seq<Mem>, x: Mem, hits: seq<Mem>, g: Graph<Mem>, red: set<Mem>)
    requires IsPath(q, hits, g, red) && x in RefsOf(g, q[|q| - 1]) && x !in red
    ensures IsPath(q + [x], hits, g, red)
  {
  }

  lemma {:induction false} FromWords(c: Collector, p: seq<int>)
    requires c.Valid() && c.WordsOk() && IsWordPath(c, p)
    ensures p != [] && forall i :: 0 <= i < |p| ==> p[i] in c.heap.cells
    ensures IsPath(CellsAt(c.heap.cells, p), c.RootHits(), c.References(c.Stamped()), RedCells(c.Quiet()))
    decreases |p|
  {
    hide Collector.Valid, Collector.WordsOk, Collector.Stamped, Collector.References, Collector.RootHits, IsRoot, RefersTo, IsWordPath, RedCells;
    ValidHeap(c);
    WordPathFacts(c, p);
    var n, q := |p| - 1, CellsAt(c.heap.cells, p);
    RootIff(c, p[0]);
    SameRed(c);
    if n > 0 {
      FromWords(c, p[..n]);
      var t := CellsAt(c.heap.cells, p[..n]);
      PathRegistered(c, t);
      CellAddress(c, p[n - 1]);
      RefersIff(c, t[n - 1], p[n]);
      PathSnoc(t, q[n], c.RootHits(), c.References(c.Stamped()), RedCells(c.Quiet()));
      assert q == t + [q[n]];
    }
  }

  lemma SameRed(c: Collector)
    ensures RedCells(c.Abs()) == RedCells(c.Quiet())
  {
  }

  lemma CellAddress(c: Collector, a: int)
    requires c.heap.Valid() && a in c.heap.cells
    ensures c.heap.cells[a].addr == a
  {
  }

  ghost predicate LeadsTo(c: Collector, p: seq<int>, a: int)
    requires c.heap.Valid()
    reads c`roots, c.heap, c.heap.owners, c.heap.areaHeap, c.heap.interval, c.heap.varHeap, c.heap.idle`next, c.heap.idle`prev
    reads c.heap.cells.Values`color, c.heap.cells.Values`dummy, c.heap.cells.Values`flags, c.heap.cells.Values`data
  {
    IsWordPath(c, p) && p[|p| - 1] == a
  }

  ghost predicate ReachedByWords(c: Collector, a: int)
    requires c.heap.Valid()
    reads c`roots, c.heap, c.heap.owners, c.heap.areaHeap, c.heap.interval, c.heap.varHeap, c.heap.idle`next, c.heap.idle`prev
    reads c.heap.cells.Values`color, c.heap.cells.Values`dummy, c.heap.cells.Values`flags, c.heap.cells.Values`data
  {
    exists p: seq<int> :: LeadsTo(c, p, a)
  }

  ghost predicate EndsAt(q: seq<Mem>, x: Mem, hits: seq<Mem>, g: Graph<Mem>, red: set<Mem>) {
    IsPath(q, hits, g, red) && q[|q| - 1] == x
  }

  /** Both kinds of chain lead to the same objects. */
  lemma ReachIff(c: Collector, a: int, hits: seq<Mem>, g: Graph<Mem>, red: set<Mem>)
    requires c.Valid() && c.WordsOk() && c.heap.Valid()
    requires hits == c.RootHits() && g == c.References(c.Stamped()) && red == RedCells(c.Quiet())
    ensures ReachedByWords(c, a) <==> a in c.heap.cells && exists q: seq<Mem> :: EndsAt(q, c.heap.cells[a], hits, g, red)
  {
    hide Collector.Valid, Collector.WordsOk, IsWordPath, IsPath, Collector.References, Collector.RootHits, Collector.Stamped, RedCells;
    hide Allocator.Valid;
    if p: seq<int> :| LeadsTo(c, p, a) {
      WordPathFacts(c, p);
      FromWords(c, p);
      assert EndsAt(CellsAt(c.heap.cells, p), c.heap.cells[a], hits, g, red);
    }
    if a in c.heap.cells {
      CellAddress(c, a);
      if q: seq<Mem> :| EndsAt(q, c.heap.cells[a], hits, g, red) {
        PathNotEmpty(q, hits, g, red);
        ToWords(c, q);
        assert LeadsTo(c, Addresses(q), a);
      }
    }
  }

  /** `sgc_run`, in terms of the bytes: the survivors are exactly the objects to which a chain of
      words leads from a root variable through objects that are not RED. */
  method Collect(c: Collector) returns (ok: bool)
    requires c.Valid() && c.WordsOk()
    modifies c`fromList, c`scanList, c`newList, c`froms, c`scans, c`news, c`lost
    modifies c.heap`freeList, c.heap`free, c.heap`idle, c.heap.varHeap, c.heap.idle`next, c.heap.idle`prev
    modifies Elements(c.scans + c.news)`next, Elements(c.scans + c.news)`prev, Elements(c.scans + c.news)`color
    ensures ok <==> !HeadRepeats(old(c.RootHits()))
    ensures ok ==> c.Valid() && c.WordsOk() && c.news == []
    ensures ok ==> forall a: int :: a in c.heap.cells && c.heap.cells[a] in c.scans <==> old(c.heap.Valid() && ReachedByWords(c, a))
  {
    hide Collector.Valid, Collector.WordsOk, ReachedByWords, Collector.References, Collector.RootHits, Collector.Stamped, RedCells;
    hide Allocator.Valid, Freed, Filter, Collector.SpareBlocks, HeadRepeats, IsPath, CanCycle, CycleOf, Collector.Quiet;
    ValidHeap(c);
    ghost var q, hits, g := c.Quiet(), c.RootHits(), c.References(c.Stamped());
    forall a: int | CanCycle(q, hits, g)
      ensures ReachedByWords(c, a) <==> a in c.heap.cells && c.heap.cells[a] in CycleOf(q, hits, g).scan
    {
      SurvivesIff(c, a, q, hits, g);
    }
    ok := c.Run();
  }

  /** The specification's survivors. */
  lemma SurvivesIff(c: Collector, a: int, q: Marking<Mem>, hits: seq<Mem>, g: Graph<Mem>)
    requires c.Valid() && c.WordsOk() && c.heap.Valid() && CanCycle(q, hits, g)
    requires hits == c.RootHits() && g == c.References(c.Stamped()) && q == c.Quiet()
    ensures ReachedByWords(c, a) <==> a in c.heap.cells && c.heap.cells[a] in CycleOf(q, hits, g).scan
  {
    hide Collector.Valid, Collector.WordsOk, ReachedByWords, Collector.References, Collector.RootHits, Collector.Stamped, RedCells;
    hide Allocator.Valid, CanCycle, CycleOf, Collector.Quiet;
    var red := RedCells(q);
    ReachIff(c, a, hits, g, red);
    CycleIsExact(q, hits, g);
    if a in c.heap.cells {
      var x := c.heap.cells[a];
      if x in CycleOf(q, hits, g).scan {
        var p: seq<Mem> :| IsPath(p, hits, g, red) && p[|p| - 1] == x;
        assert EndsAt(p, x, hits, g, red);
      }
      if p: seq<Mem> :| EndsAt(p, x, hits, g, red) {
        assert IsPath(p, hits, g, red) && p[|p| - 1] == x;
      }
    }
  }

  lemma PathNotEmpty(q: seq<Mem>, hits: seq<Mem>, g: Graph<Mem>, red: set<Mem>)
    requires IsPath(q, hits, g, red)
    ensures q != []
  {
  }

  /** Between cycles, and so after each cycle: what a registered object refers to by its words is
      registered or RED. */
  lemma WordsStayInside(c: Collector, m: Mem, b: int)
    requires c.Valid() && c.WordsOk() && m in c.scans + c.news && RefersTo(c, m.addr, b)
    ensures b in c.heap.cells && (c.heap.cells[b] in c.scans + c.news || c.heap.cells[b].color == RED)
  {
    hide Collector.Valid, RefersTo, Collector.Stamped, Collector.References;
    RefersIff(c, m, b);
    RefsKnown(c, m);
  }
}
