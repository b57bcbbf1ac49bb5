/** The calls that a program makes between cycles (src/sgc.c:186-335, src/sgc.h:138-156), in
    the build in which a message is handled as soon as it is sent (src/sgc_mess.c:146-173). */
module ObjectCalls {
  import opened Seqs
  import opened DList
  import opened MarkSpec
  import opened SizeClasses
  import opened Carving
  import opened HeapLayout
  import opened CellHeap
  import opened SegregatedFit
  import opened PayloadWords
  import opened SequentialCollector

  /** What the program gets back; Undefined stands for the overflow in the size search. */
  datatype Handle = Undefined | Null | Pointer(mem: Mem)

  predicate WantsZero(flags: int) {
    flags % 2 == 1
  }

  /** `mem` is out of the free lists and not yet on a list of the collector. */
  ghost predicate Pending(c: Collector, mem: Mem)
    reads c, c.heap, c.heap.owners, c.heap.areaHeap, c.heap.interval, c.heap.varHeap, c.heap.idle`next, c.heap.idle`prev
    reads c.news`next, c.news`prev, c.news`color, c.news`dummy, c.scans`next, c.scans`prev, c.scans`color, c.scans`dummy
    reads c.heap.cells.Values`data, Elements(c.scans + c.news)`bytesize
  {
    && |c.roots| == MAX_ROOTS && c.ListsOk() && c.HeadersOk() && c.CellsSized()
    && c.Partition(Elements(c.scans + c.news) + {mem}) && c.heap.Has(mem) && mem !in c.heap.idle
    && mem !in c.scans && mem !in c.news && AllFit(Elements(c.scans + c.news))
  }

  /** Every cell of `cells` is in exactly one place, as before an allocation. */
  ghost predicate Accounted(c: Collector, cells: map<int, Mem>, idle: set<Mem>)
    reads c
  {
    && (forall m | m in c.scans :: m.addr in cells && cells[m.addr] == m && m !in idle)
    && (forall m | m in c.news :: m.addr in cells && cells[m.addr] == m && m !in idle)
    && (forall m | m in c.lost :: m.addr in cells && cells[m.addr] == m && m !in idle && m !in c.scans && m !in c.news)
    && (forall m | m in idle :: m.addr in cells && cells[m.addr] == m)
    && (forall a | a in cells :: var m := cells[a]; m in idle || m in c.scans || m in c.news || m in c.lost)
  }

  lemma ValidAccounted(c: Collector)
    requires c.Valid()
    ensures Accounted(c, c.heap.cells, c.heap.idle)
  {
    hide Allocator.HeapsOk, Allocator.PoolOk, Allocator.CellsKnown, Allocator.ListsOk, Ring, Disjoint;
  }

  /** A block taken from the allocator is in none of the places where the others are. */
  lemma TookAccounted(c: Collector, cells: map<int, Mem>, idle: set<Mem>, mem: Mem, added: set<Mem>)
    requires Accounted(c, cells, idle) && Took(cells, idle, c.heap.cells, c.heap.idle, mem, added)
    requires c.heap.Valid() && forall m | m in added :: m !in c.scans && m !in c.news && m !in c.lost
    ensures c.Owned(c.news) && c.Owned(c.scans) && c.heap.Has(mem) && mem !in c.heap.idle
    ensures c.Partition(Elements(c.scans + c.news) + {mem}) && mem !in c.scans && mem !in c.news
  {
    hide Allocator.Valid, Ring;
  }

  lemma KeyOf(cells: map<int, Mem>, m: Mem) returns (a: int)
    requires m in cells.Values
    ensures a in cells && cells[a] == m
  {
    if forall a | a in cells :: cells[a] != m {
      assert false;
    }
    a :| a in cells && cells[a] == m;
  }

  lemma TookSized(c: Collector, cells: map<int, Mem>, idle: set<Mem>, mem: Mem, added: set<Mem>)
    requires Took(cells, idle, c.heap.cells, c.heap.idle, mem, added)
    requires (forall m | m in cells.Values :: Sized(m)) && forall m | m in added :: Sized(m)
    ensures c.CellsSized()
  {
    hide Sized;
    forall m | m in c.heap.cells.Values
      ensures Sized(m)
    {
      var a := KeyOf(c.heap.cells, m);
      assert a in cells ==> cells[a] in cells.Values;
    }
  }

  /** What an allocation leaves alone. */
  method AllocUnder(c: Collector, nbytes: int, block: int) returns (r: AllocResult, ghost added: set<Mem>)
    requires c.Valid() && c.heap.Offered(nbytes, block)
    modifies c.heap`cells, c.heap`layout, c.heap`freeList, c.heap`free, c.heap.owners, c.heap.areaHeap, c.heap.interval
    modifies c.heap`idle, c.heap.varHeap, c.heap.idle`next, c.heap.idle`prev
    ensures fresh(added) && (r == Overflow <==> nbytes > LARGEST) && (forall m | m in added :: Sized(m))
    ensures !r.Allocated? ==> c.heap.cells == old(c.heap.cells) && c.heap.idle == old(c.heap.idle)
    ensures r == OutOfMemory ==> block == 0
    ensures r.Allocated? && r.mem.size >= SMALL_COUNT ==>
      LargeGrowth(old(c.heap.layout.blocks), c.heap.layout.blocks, r.mem, added, block)
    ensures r.Allocated? && r.mem in old(c.heap.idle) ==> added == {}
    ensures r.Allocated? ==> IsClassOf(nbytes, r.mem.size)
    ensures r.Allocated? ==> Took(old(c.heap.cells), old(c.heap.idle), c.heap.cells, c.heap.idle, r.mem, added)
    ensures c.heap.Valid() && IsList(c.newList, c.news) && IsList(c.scanList, c.scans) && c.HeadersOk()
    ensures AllFit(Elements(c.scans + c.news))
    ensures forall m | m in old(c.heap.cells).Values :: Sized(m)
  {
    hide Allocator.Valid, Ring, Disjoint, Took, LargeGrowth, Collector.HeadersOk, Collector.Partition, AllFit;
    assert Elements(c.scans) !! c.heap.idle && Elements(c.news) !! c.heap.idle;
    r, added := c.heap.Alloc(nbytes, block);
  }

  method Obtain(c: Collector, nbytes: int, block: int) returns (r: AllocResult, ghost added: set<Mem>)
    requires c.Valid() && c.heap.Offered(nbytes, block)
    modifies c.heap`cells, c.heap`layout, c.heap`freeList, c.heap`free, c.heap.owners, c.heap.areaHeap, c.heap.interval
    modifies c.heap`idle, c.heap.varHeap, c.heap.idle`next, c.heap.idle`prev
    ensures fresh(added) && (r == Overflow <==> nbytes > LARGEST)
    ensures r == OutOfMemory ==> block == 0
    ensures r.Allocated? && r.mem.size >= SMALL_COUNT ==>
      LargeGrowth(old(c.heap.layout.blocks), c.heap.layout.blocks, r.mem, added, block)
    ensures r.Allocated? && r.mem in old(c.heap.idle) ==> added == {}
    ensures !r.Allocated? ==> c.Valid() && c.heap.cells == old(c.heap.cells) && c.heap.idle == old(c.heap.idle)
    ensures r.Allocated? ==> Pending(c, r.mem) && IsClassOf(nbytes, r.mem.size)
    ensures r.Allocated? ==> Took(old(c.heap.cells), old(c.heap.idle), c.heap.cells, c.heap.idle, r.mem, added)
  {
    hide Allocator.Valid, Ring, Disjoint, Took, LargeGrowth, Collector.HeadersOk, Sized, Grew, AllFit;
    ghost var cells, idle := c.heap.cells, c.heap.idle;
    ValidAccounted(c);
    r, added := AllocUnder(c, nbytes, block);
    if r.Allocated? {
      TookAccounted(c, cells, idle, r.mem, added);
      TookSized(c, cells, idle, r.mem, added);
    }
  }

  method StampHeader(c: Collector, mem: Mem, nbytes: int, flags: int, typ: int)
    requires Pending(c, mem)
    modifies mem`next, mem`prev, mem`color, mem`flags, mem`dummy, mem`typ, mem`counter, mem`bytesize
    ensures Pending(c, mem) && mem.color == BLACK && mem.dummy == DUMMY_VALUE && mem.next == mem.prev == null
    ensures mem.flags == flags % 256 && mem.typ == typ && mem.bytesize == nbytes && mem.counter == c.counter
  {
    hide Collector.ListsOk, Collector.HeadersOk, Collector.CellsSized, Collector.Partition, AllFit;
    mem.next := null;
    mem.prev := null;
    mem.color := BLACK;
    mem.flags := flags % 256;
    mem.dummy := DUMMY_VALUE;
    mem.typ := typ;
    mem.counter := c.counter;
    mem.bytesize := nbytes;
  }

  method Count(c: Collector, mem: Mem)
    requires Pending(c, mem)
    modifies c`counter
    ensures Pending(c, mem) && c.counter == old(c.counter) + 1
  {
    hide Allocator.Valid, Ring, Disjoint, Collector.HeadersOk, Collector.CellsSized, Collector.Partition, AllFit;
    c.counter := c.counter + 1;
  }

  /** Linking `mem` in, before `sgc_new_list` is assigned. */
  method LinkNew(c: Collector, mem: Mem) returns (head: Mem?)
    requires Pending(c, mem)
    modifies Elements(c.news)`next, Elements(c.news)`prev, mem`next, mem`prev
    ensures c.heap.Valid() && IsList(c.scanList, c.scans) && IsList(head, c.news + [mem])
  {
    hide Allocator.Valid, Ring;
    assert Elements(c.news) !! c.heap.idle;
    head := Append(c.newList, mem, c.news);
  }

  /** What `Register` establishes, apart from the list itself. */
  lemma Registers(c: Collector, s: seq<Mem>, mem: Mem)
    requires Pending(c, mem) && mem.color == BLACK && mem.dummy == DUMMY_VALUE && Fits(mem) && s == c.news + [mem]
    ensures AllFit(Elements(c.scans + s))
    ensures Disjoint(c.scans, s) && c.Owned(s) && c.Owned(c.scans) && c.froms == [] && c.Partition(Elements(c.scans + s))
    ensures forall m | m in s :: WHITE < m.color < COLOR_MAX && m.dummy == DUMMY_VALUE
  {
    hide Allocator.Valid, Ring, Fits;
    assert c.scans + s == c.scans + c.news + [mem];
    ElementsSnoc(c.scans + c.news, mem);
  }

  method Enter(c: Collector, head: Mem?, ghost s: seq<Mem>)
    requires |c.roots| == MAX_ROOTS && c.heap.Valid() && IsList(c.scanList, c.scans) && IsList(head, s)
    requires c.HeadersOk() && c.CellsSized() && c.Owned(c.scans) && c.Owned(s) && c.froms == [] && AllFit(Elements(c.scans + s))
    requires Disjoint(c.scans, s) && c.Partition(Elements(c.scans + s))
    requires forall m | m in s :: WHITE < m.color < COLOR_MAX && m.dummy == DUMMY_VALUE
    modifies c`newList, c`news
    ensures c.Valid() && c.news == s
  {
    hide Allocator.Valid, Ring, Disjoint, Collector.CellsSized, Collector.Owned, AllFit;
    c.newList, c.news := head, s;
  }

  /** The message SGC_NEW_MESSAGE, sent and handled. */
  method Register(c: Collector, mem: Mem)
    requires Pending(c, mem) && mem.color == BLACK && mem.dummy == DUMMY_VALUE && Fits(mem)
    modifies c`newList, c`news, Elements(c.news)`next, Elements(c.news)`prev, mem`next, mem`prev
    ensures c.Valid() && c.news == old(c.news) + [mem]
  {
    hide Allocator.Valid, Ring, Disjoint, Collector.Owned, Collector.Partition, Collector.CellsSized, Collector.HeadersOk, AllFit;
    ghost var s := c.news + [mem];
    Registers(c, s, mem);
    var head := LinkNew(c, mem);
    Enter(c, head, s);
  }

  /** `sgc_memset` on the payload. */
  method Zero(c: Collector, mem: Mem, n: nat)
    requires c.Valid() && c.heap.Has(mem) && n <= |mem.data|
    modifies mem`data
    ensures c.Valid() && mem.data == Zeroed(old(mem.data), n)
  {
    hide Allocator.Valid, Ring, Disjoint;
    mem.data := Zeroed(mem.data, n);
  }

  // ----- What the collector assumes of words, word by word -----

  /** `w` is not a forged address, and a cell that it denotes is registered or RED. */
  ghost predicate Good(cells: map<int, Mem>, junk: int -> Header, stamped: set<Mem>, q: Marking<Mem>, w: int) {
    && (w == 0 || w - HEADER in cells || !HeaderOk(junk(w - HEADER)) || junk(w - HEADER).size < SMALL_COUNT)
    && Known(q, Denoted(cells, stamped, w))
  }

  ghost predicate GoodObject(cells: map<int, Mem>, junk: int -> Header, stamped: set<Mem>, q: Marking<Mem>, m: Mem)
    reads m`data, m`flags
  {
    && Sized(m) && WordCount(m.size) * WORD <= |m.data|
    && (!IsPointerless(m.flags) ==>
         forall j :: 0 <= j < WordCount(m.size) ==> Good(cells, junk, stamped, q, WordAt(m.data, j)))
  }

  ghost predicate GoodObjects(s: seq<Mem>, cells: map<int, Mem>, junk: int -> Header, stamped: set<Mem>, q: Marking<Mem>)
    reads s`data, s`flags
  {
    forall m | m in s :: GoodObject(cells, junk, stamped, q, m)
  }

  ghost predicate GoodRoots(roots: seq<Option<int>>, cells: map<int, Mem>, junk: int -> Header, stamped: set<Mem>, q: Marking<Mem>) {
    forall i :: 0 <= i < |roots| && roots[i].Some? ==> Good(cells, junk, stamped, q, roots[i].value)
  }

  /** The words that scanning `m` reads denote nothing unknown exactly if no single one does. */
  lemma GoodObjectIff(c: Collector, stamped: set<Mem>, q: Marking<Mem>, m: Mem)
    requires c.heap.Has(m)
    ensures GoodObject(c.heap.cells, c.heap.junk, stamped, q, m) <==>
      && Sized(m) && (!IsPointerless(m.flags) ==> c.NoForgedWords(m))
      && Known(q, RefsOf(c.References(stamped), m))
  {
    assert c.heap.cells[m.addr] in c.heap.cells.Values;
    if Sized(m) && !IsPointerless(m.flags) {
      RoomForWords(m.size);
      var n, cells := WordCount(m.size), c.heap.cells;
      c.ReferencesAt(m, stamped);
      if Known(q, c.RefsIn(stamped, m)) {
        forall j | 0 <= j < n
          ensures Known(q, Denoted(cells, stamped, WordAt(m.data, j)))
        {
          WordRefsPrefix(cells, stamped, m.data, j, n);
        }
      }
      if forall j :: 0 <= j < n ==> Known(q, Denoted(cells, stamped, WordAt(m.data, j))) {
        forall x | x in c.RefsIn(stamped, m)
          ensures x in q.color && (q.color[x] == RED || Registered(q, x))
        {
          var j := WordRefsSource(cells, stamped, m.data, n, x);
        }
      }
    } else if Sized(m) {
      RoomForWords(m.size);
    }
  }

  /** All words that a cycle would read are good. */
  ghost predicate AllGood(c: Collector)
    reads c, c.heap`cells, c.heap.cells.Values`color, c.heap.cells.Values`dummy
    reads (c.scans + c.news)`data, (c.scans + c.news)`flags
  {
    && GoodObjects(c.scans + c.news, c.heap.cells, c.heap.junk, c.Stamped(), c.Quiet())
    && GoodRoots(c.roots, c.heap.cells, c.heap.junk, c.Stamped(), c.Quiet())
  }

  lemma AllGoodIff(c: Collector)
    requires c.Owned(c.scans) && c.Owned(c.news)
    ensures AllGood(c) <==> c.WordsOk()
  {
    hide GoodObject, Known, Collector.NoForgedWords, Collector.References;
    var s, st, q := c.scans + c.news, c.Stamped(), c.Quiet();
    forall m | m in s
      ensures GoodObject(c.heap.cells, c.heap.junk, st, q, m) <==>
        && Sized(m) && (!IsPointerless(m.flags) ==> c.NoForgedWords(m))
        && Known(q, RefsOf(c.References(st), m))
    {
      GoodObjectIff(c, st, q, m);
    }
    forall m | m in s
      ensures m in Elements(s)
    {
    }
    RootsGoodIff(c, st, q);
  }

  lemma RootsGoodIff(c: Collector, st: set<Mem>, q: Marking<Mem>)
    ensures GoodRoots(c.roots, c.heap.cells, c.heap.junk, st, q) <==> c.RootsNotForged() && c.RootsKnown(st, q)
  {
    hide Known;
    if c.RootsNotForged() && c.RootsKnown(st, q) {
      forall i | 0 <= i < |c.roots| && c.roots[i].Some?
        ensures Good(c.heap.cells, c.heap.junk, st, q, c.roots[i].value)
      {
        assert c.NotForged(c.roots[i].value);
      }
    }
    if GoodRoots(c.roots, c.heap.cells, c.heap.junk, st, q) {
      forall i | 0 <= i < |c.roots| && c.roots[i].Some?
        ensures c.NotForged(c.roots[i].value) && Known(q, c.Hit(st, c.roots[i].value))
      {
        assert Good(c.heap.cells, c.heap.junk, st, q, c.roots[i].value);
      }
    }
  }

  /** What is good stays good when memory grows by `mem`, which is registered, and colours
      change at most to RED. */
  lemma GoodGrows(cells: map<int, Mem>, stamped: set<Mem>, q: Marking<Mem>, cells': map<int, Mem>, stamped': set<Mem>, q': Marking<Mem>,
                  mem: Mem, junk: int -> Header, w: int)
    requires Good(cells, junk, stamped, q, w) && GrewBy(cells, stamped, cells', stamped', mem) && cells.Keys <= cells'.Keys
    requires mem in q'.color && (q'.color[mem] == RED || Registered(q', mem))
    requires forall x | x in q.color && (q.color[x] == RED || Registered(q, x)) && x != mem ::
      x in q'.color && (q'.color[x] == RED || Registered(q', x))
    ensures Good(cells', junk, stamped', q', w)
  {
    forall x | x in Denoted(cells', stamped', w)
      ensures x in q'.color && (q'.color[x] == RED || Registered(q', x))
    {
      if x != mem {
        assert x in Denoted(cells, stamped, w);
      }
    }
  }

  /** What was good before a step that changes no payload is good after it. */
  lemma StepKeepsGood(c: Collector, s: seq<Mem>, cells: map<int, Mem>, stamped: set<Mem>, q: Marking<Mem>, mem: Mem)
    requires GoodObjects(s, cells, c.heap.junk, stamped, q) && GoodRoots(c.roots, cells, c.heap.junk, stamped, q)
    requires GrewBy(cells, stamped, c.heap.cells, c.Stamped(), mem) && cells.Keys <= c.heap.cells.Keys
    requires mem in c.Quiet().color && (mem.color == RED || Registered(c.Quiet(), mem))
    requires forall x | x in q.color && (q.color[x] == RED || Registered(q, x)) && x != mem ::
      x in c.Quiet().color && (x.color == RED || Registered(c.Quiet(), x))
    requires forall m | m in c.scans + c.news :: m in s || (m == mem && GoodObject(c.heap.cells, c.heap.junk, c.Stamped(), c.Quiet(), m))
    ensures AllGood(c)
  {
    hide Good, GrewBy, Registered, Collector.Stamped;
    var cells', stamped', q', junk := c.heap.cells, c.Stamped(), c.Quiet(), c.heap.junk;
    forall m | m in c.scans + c.news
      ensures GoodObject(cells', junk, stamped', q', m)
    {
      if m in s {
        assert GoodObject(cells, junk, stamped, q, m);
        forall j | 0 <= j < WordCount(m.size) && !IsPointerless(m.flags)
          ensures Good(cells', junk, stamped', q', WordAt(m.data, j))
        {
          GoodGrows(cells, stamped, q, cells', stamped', q', mem, junk, WordAt(m.data, j));
        }
      }
    }
    forall i | 0 <= i < |c.roots| && c.roots[i].Some?
      ensures Good(cells', junk, stamped', q', c.roots[i].value)
    {
      GoodGrows(cells, stamped, q, cells', stamped', q', mem, junk, c.roots[i].value);
    }
  }

  // ----- Freeing -----

  /** The message SGC_FREE_MESSAGE, sent and handled. */
  method Redden(c: Collector, mem: Mem)
    requires c.Valid() && mem in c.scans + c.news
    modifies mem`color
    ensures c.Valid() && mem.color == RED && c.Stamped() == old(c.Stamped())
    ensures c.Quiet() == old(c.Quiet()).(color := old(c.Quiet()).color[mem := RED])
    ensures old(c.WordsOk()) ==> c.WordsOk()
  {
    hide Allocator.Valid, Ring, Disjoint, Collector.WordsOk, Collector.Partition, Collector.CellsSized;
    ghost var s, cells, st, q := c.scans + c.news, c.heap.cells, c.Stamped(), c.Quiet();
    ghost var good := AllGood(c);
    AllGoodIff(c);
    assert c.heap.Has(mem);
    assert cells[mem.addr] in cells.Values;
    mem.color := RED;
    AllGoodIff(c);
    if good {
      StepKeepsGood(c, s, cells, st, q, mem);
    }
  }

  /** `sgc_free_object` */
  method FreeObject(c: Collector, mem: Mem?)
    requires c.Valid() && (mem != null ==> mem in c.scans + c.news)
    modifies (if mem == null then {} else {mem})`color
    ensures c.Valid() && c.Stamped() == old(c.Stamped()) && (mem != null ==> mem.color == RED)
    ensures mem != null ==> c.Quiet() == old(c.Quiet()).(color := old(c.Quiet()).color[mem := RED])
    ensures old(c.WordsOk()) ==> c.WordsOk()
  {
    hide Collector.Valid, Collector.WordsOk, Collector.Stamped, Collector.Quiet;
    if mem == null {
      return;
    }
    Redden(c, mem);
  }

  // ----- Allocating -----

  /** Lines 216-237 of src/sgc.c. */
  method MakeObject(c: Collector, mem: Mem, nbytes: nat, flags: int, typ: Byte)
    requires Pending(c, mem) && IsClassOf(nbytes, mem.size) && nbytes <= |mem.data|
    modifies mem, c`counter, c`newList, c`news, Elements(c.news)`next, Elements(c.news)`prev
    ensures c.Valid() && c.news == old(c.news) + [mem] && c.counter == old(c.counter) + 1
    ensures mem.color == BLACK && mem.dummy == DUMMY_VALUE && mem.flags == flags % 256
    ensures mem.typ == typ && mem.bytesize == nbytes && mem.counter == old(c.counter)
    ensures mem.data == if flags % 2 == 1 then Zeroed(old(mem.data), nbytes) else old(mem.data)
  {
    hide Allocator.Valid, Ring, Disjoint, Pending, Zeroed, Collector.Valid;
    PendingFacts(c, mem);
    RoomForClass(nbytes, mem.size);
    StampHeader(c, mem, nbytes, flags, typ);
    Count(c, mem);
    Register(c, mem);
    if WantsZero(flags) {
      RegisteredHas(c, mem);
      Zero(c, mem, nbytes);
    }
  }

  lemma PendingFacts(c: Collector, mem: Mem)
    requires Pending(c, mem)
    ensures mem !in Elements(c.news)
  {
  }

  lemma RegisteredHas(c: Collector, mem: Mem)
    requires c.Valid() && mem in c.news
    ensures c.heap.Has(mem)
  {
  }

  lemma TakenFrom(cells: map<int, Mem>, idle: set<Mem>, cells': map<int, Mem>, idle': set<Mem>, mem: Mem, added: set<Mem>)
    requires Took(cells, idle, cells', idle', mem, added)
    ensures mem in idle + added
  {
  }

  lemma RoomForClass(nbytes: int, i: nat)
    requires IsClassOf(nbytes, i)
    ensures nbytes <= MEM_SIZES[i] <= Room(i)
  {
  }

  /** The new object `mem` is the only thing that words may newly denote: no other cell of
      `added`, memory fresh from the system, looks like an object by accident. */
  ghost predicate OnlyNew(c: Collector, mem: Mem, added: set<Mem>)
    reads c.heap`cells, c.heap.cells.Values`color, c.heap.cells.Values`dummy
  {
    forall m | m in added :: m != mem ==> m !in c.Stamped()
  }

  /** What the collector must assume of an allocation: see `OnlyNew`, and no word of the
      new object, cleared or not, is a stale address. */
  ghost predicate Clean(c: Collector, mem: Mem, added: set<Mem>)
    reads c`scans, c`news, c.heap`cells, c.heap.cells.Values`color, c.heap.cells.Values`dummy, mem`data, mem`flags
  {
    OnlyNew(c, mem, added) && GoodObject(c.heap.cells, c.heap.junk, c.Stamped(), c.Quiet(), mem)
  }

  lemma NewGrewBy(c: Collector, cells: map<int, Mem>, st: set<Mem>, idle: set<Mem>, mem: Mem, added: set<Mem>)
    requires Took(cells, idle, c.heap.cells, c.heap.idle, mem, added) && OnlyNew(c, mem, added)
    requires forall m | m in c.Stamped() && m in cells.Values && m != mem :: m in st
    ensures GrewBy(cells, st, c.heap.cells, c.Stamped(), mem)
  {
    forall a | a in c.heap.cells && c.heap.cells[a] in c.Stamped() && c.heap.cells[a] != mem
      ensures a in cells && cells[a] == c.heap.cells[a] && cells[a] in st
    {
      assert a in cells;
      assert cells[a] in cells.Values;
    }
  }

  /** Memory grew by `mem`; `s`, `cells`, `st` and `q` are the registered objects, the memory,
      the stamped cells and the colours before that. */
  lemma NewKeepsWords(c: Collector, s: seq<Mem>, cells: map<int, Mem>, st: set<Mem>, q: Marking<Mem>, idle: set<Mem>,
                      mem: Mem, added: set<Mem>)
    requires GoodObjects(s, cells, c.heap.junk, st, q) && GoodRoots(c.roots, cells, c.heap.junk, st, q)
    requires Took(cells, idle, c.heap.cells, c.heap.idle, mem, added) && Clean(c, mem, added)
    requires forall m | m in c.Stamped() && m in cells.Values && m != mem :: m in st
    requires q.from == s && q.scan == [] && c.scans + c.news == s + [mem] && c.heap.Has(mem)
    requires forall x | x in q.color && x != mem :: x in cells.Values && (x.color == q.color[x] || x.color == RED)
    ensures AllGood(c)
  {
    hide GrewBy, Good, Collector.Stamped, OnlyNew, GoodObjects, GoodRoots, AllGood, Took;
    NewGrewBy(c, cells, st, idle, mem, added);
    TookCells(cells, idle, c.heap.cells, c.heap.idle, mem, added);
    assert c.heap.cells[mem.addr] in c.heap.cells.Values;
    assert mem in s + [mem];
    forall x | x in q.color && (q.color[x] == RED || Registered(q, x)) && x != mem
      ensures x in c.Quiet().color && (x.color == RED || Registered(c.Quiet(), x))
    {
      var a := KeyOf(cells, x);
      assert c.heap.cells[a] in c.heap.cells.Values;
    }
    StepKeepsGood(c, s, cells, st, q, mem);
  }

  lemma TookCells(cells: map<int, Mem>, idle: set<Mem>, cells': map<int, Mem>, idle': set<Mem>, mem: Mem, added: set<Mem>)
    requires Took(cells, idle, cells', idle', mem, added)
    ensures cells.Keys <= cells'.Keys && forall a | a in cells :: a in cells' && cells'[a] == cells[a]
  {
    forall a | a in cells.Keys
      ensures a in cells'.Keys
    {
      assert a in cells;
    }
  }

  /** Lines 212-237 of src/sgc.c. */
  method AllocateObject(c: Collector, nbytes: nat, flags: int, typ: Byte, block: int) returns (r: Handle, ghost added: set<Mem>)
    requires c.Valid() && c.heap.Offered(nbytes, block)
    modifies c.heap`cells, c.heap`layout, c.heap`freeList, c.heap`free, c.heap.owners, c.heap.areaHeap, c.heap.interval
    modifies c.heap`idle, c.heap.varHeap, c.heap.idle
    modifies c`counter, c`newList, c`news, Elements(c.news)`next, Elements(c.news)`prev
    ensures c.Valid() && fresh(added) && (r == Undefined <==> nbytes > LARGEST)
    ensures !r.Pointer? ==> c.news == old(c.news) && c.heap.cells == old(c.heap.cells) && c.heap.idle == old(c.heap.idle)
    ensures r == Null ==> block == 0
    ensures r.Pointer? && r.mem.size >= SMALL_COUNT ==>
      LargeGrowth(old(c.heap.layout.blocks), c.heap.layout.blocks, r.mem, added, block)
    ensures r.Pointer? && r.mem in old(c.heap.idle) ==> added == {}
    ensures r.Pointer? ==> c.news == old(c.news) + [r.mem] && IsClassOf(nbytes, r.mem.size)
    ensures r.Pointer? ==> Took(old(c.heap.cells), old(c.heap.idle), c.heap.cells, c.heap.idle, r.mem, added)
    ensures r.Pointer? ==> r.mem.color == BLACK && r.mem.flags == flags % 256 && r.mem.typ == typ && r.mem.bytesize == nbytes
    ensures c.counter == old(c.counter) + (if r.Pointer? then 1 else 0) && (r.Pointer? ==> r.mem.counter == old(c.counter))
    ensures r.Pointer? && r.mem in old(c.heap.idle) && nbytes <= |old(r.mem.data)| ==>
      r.mem.data == if flags % 2 == 1 then Zeroed(old(r.mem.data), nbytes) else old(r.mem.data)
    ensures r.Pointer? && flags % 2 == 1 ==> nbytes <= |r.mem.data| && forall i :: 0 <= i < nbytes ==> r.mem.data[i] == 0
    ensures forall m | m in old(c.heap.idle) && !(r.Pointer? && m == r.mem) ::
      m.data == old(m.data) && m.flags == old(m.flags) && m.color == old(m.color) && m.dummy == old(m.dummy)
  {
    hide Allocator.Valid, Ring, Disjoint, Pending, IsClassOf, Took, LargeGrowth, Collector.Valid;
    var got;
    got, added := Obtain(c, nbytes, block);
    if got.Overflow? {
      return Undefined, added;
    }
    if got.OutOfMemory? {
      return Null, added;
    }
    var mem := got.mem;
    TakenFrom(old(c.heap.cells), old(c.heap.idle), c.heap.cells, c.heap.idle, mem, added);
    RoomForClass(nbytes, mem.size);
    PendingSized(c, mem);
    MakeObject(c, mem, nbytes, flags, typ);
    r := Pointer(mem);
  }

  /** `sgc_new_object`; the ghost parameters name the state before it. */
  method NewFrom(c: Collector, nbytes: int, flags: int, typ: Byte, block: int, ghost s: seq<Mem>, ghost cells: map<int, Mem>,
                 ghost st: set<Mem>, ghost q: Marking<Mem>) returns (r: Handle, ghost added: set<Mem>)
    requires c.Valid() && c.heap.Offered(nbytes, block)
    requires s == c.scans + c.news && cells == c.heap.cells && st == c.Stamped() && q == c.Quiet()
    modifies c.heap`cells, c.heap`layout, c.heap`freeList, c.heap`free, c.heap.owners, c.heap.areaHeap, c.heap.interval
    modifies c.heap`idle, c.heap.varHeap, c.heap.idle
    modifies c`counter, c`newList, c`news, Elements(c.news)`next, Elements(c.news)`prev
    ensures c.Valid() && fresh(added) && (r == Undefined <==> nbytes > LARGEST) && (nbytes <= 0 ==> r == Null)
    ensures !r.Pointer? ==> c.news == old(c.news) && c.heap.cells == old(c.heap.cells) && c.heap.idle == old(c.heap.idle)
    ensures r == Null && nbytes > 0 ==> block == 0
    ensures r.Pointer? && r.mem.size >= SMALL_COUNT ==>
      LargeGrowth(old(c.heap.layout.blocks), c.heap.layout.blocks, r.mem, added, block)
    ensures r.Pointer? && r.mem in old(c.heap.idle) ==> added == {}
    ensures r.Pointer? ==> c.news == old(c.news) + [r.mem] && IsClassOf(nbytes, r.mem.size)
    ensures r.Pointer? ==> Took(old(c.heap.cells), old(c.heap.idle), c.heap.cells, c.heap.idle, r.mem, added)
    ensures r.Pointer? ==> r.mem.color == BLACK && r.mem.flags == flags % 256 && r.mem.typ == typ && r.mem.bytesize == nbytes
    ensures c.counter == old(c.counter) + (if r.Pointer? then 1 else 0) && (r.Pointer? ==> r.mem.counter == old(c.counter))
    ensures r.Pointer? && r.mem in old(c.heap.idle) && nbytes <= |old(r.mem.data)| ==>
      r.mem.data == if flags % 2 == 1 then Zeroed(old(r.mem.data), nbytes) else old(r.mem.data)
    ensures r.Pointer? && flags % 2 == 1 ==> nbytes <= |r.mem.data| && forall i :: 0 <= i < nbytes ==> r.mem.data[i] == 0
    ensures forall m | m in old(c.heap.idle) && !(r.Pointer? && m == r.mem) ::
      m.data == old(m.data) && m.flags == old(m.flags) && m.color == old(m.color) && m.dummy == old(m.dummy)
    ensures old(c.WordsOk()) ==> if r.Pointer? then Grown(c, s, cells, st, q, old(c.heap.idle), r.mem, added) else c.WordsOk()
  {
    hide Allocator.Valid, Ring, Disjoint, IsClassOf, Took, LargeGrowth, Collector.Valid, Zeroed, Clean;
    hide Collector.WordsOk, Collector.Stamped, Collector.Quiet, AllGood, GoodObject, GoodObjects, GoodRoots;
    added := {};
    if nbytes <= 0 {
      return Null, added;
    }
    BeforeNew(c, s, cells, st, q);
    r, added := AllocateObject(c, nbytes, flags, typ, block);
    if r.Pointer? {
      NewIsNew(c, s, r.mem);
    } else if old(c.WordsOk()) {
      AfterNone(c, s, cells, st, q);
    }
  }

  lemma NewIsNew(c: Collector, s: seq<Mem>, mem: Mem)
    requires c.Valid() && c.scans + c.news == s + [mem]
    ensures mem !in s
  {
    hide Allocator.Valid;
    NoDupConcat(c.scans, c.news);
    assert (s + [mem])[|s|] == mem && forall i :: 0 <= i < |s| ==> (s + [mem])[i] == s[i];
  }

  /** The request for `nbytes` bytes of class `c` with these flags leaves no stale word behind
      that a scan would read: there is nothing to read, or all of it was cleared. */
  predicate LeavesNoStaleWord(nbytes: int, flags: int, c: nat) {
    c < SIZE_COUNT && (flags % 4 >= 2 || (flags % 2 == 1 && WordCount(c) * WORD <= nbytes))
  }

  /** An object without pointers is clean whatever its bytes. */
  lemma PointerlessIsClean(c: Collector, mem: Mem, added: set<Mem>)
    requires c.Valid() && mem in c.news && OnlyNew(c, mem, added) && IsPointerless(mem.flags)
    ensures Clean(c, mem, added)
  {
    hide Collector.Valid, OnlyNew;
    assert mem in c.scans + c.news;
    RegisteredSized(c, mem);
    RoomForWords(mem.size);
  }

  /** So is one for which SGC_ZERO was asked, if the request filled its words. */
  lemma ClearedIsClean(c: Collector, mem: Mem, nbytes: nat, added: set<Mem>)
    requires c.Valid() && mem in c.news && OnlyNew(c, mem, added) && nbytes <= |mem.data|
    requires mem.size < SIZE_COUNT && WordCount(mem.size) * WORD <= nbytes && forall i :: 0 <= i < nbytes ==> mem.data[i] == 0
    ensures Clean(c, mem, added)
  {
    hide Collector.Valid, OnlyNew;
    assert mem in c.scans + c.news;
    RegisteredSized(c, mem);
    ZeroedIsGood(c.heap.cells, c.heap.junk, c.Stamped(), c.Quiet(), mem);
  }

  /** Bit 1 of the flags, whatever the other bits are. */
  lemma PointerlessIff(flags: int)
    ensures IsPointerless(flags % 256) <==> flags % 4 >= 2
  {
    assert flags % 256 % 4 == flags % 4;
  }

  lemma NoStaleWordIsClean(c: Collector, mem: Mem, nbytes: int, flags: int, added: set<Mem>)
    requires c.Valid() && mem in c.news && mem.flags == flags % 256 && nbytes > 0
    requires flags % 2 == 1 ==> nbytes <= |mem.data| && forall i :: 0 <= i < nbytes ==> mem.data[i] == 0
    ensures OnlyNew(c, mem, added) && LeavesNoStaleWord(nbytes, flags, mem.size) ==> Clean(c, mem, added)
  {
    hide Collector.Valid, OnlyNew, Clean, IsPointerless;
    PointerlessIff(flags);
    if OnlyNew(c, mem, added) && LeavesNoStaleWord(nbytes, flags, mem.size) {
      if IsPointerless(mem.flags) {
        PointerlessIsClean(c, mem, added);
      } else {
        ClearedIsClean(c, mem, nbytes, added);
      }
    }
  }

  /** `sgc_new_object` */
  method NewObject(c: Collector, nbytes: int, flags: int, typ: Byte, block: int) returns (r: Handle, ghost added: set<Mem>)
    requires c.Valid() && c.heap.Offered(nbytes, block)
    modifies c.heap`cells, c.heap`layout, c.heap`freeList, c.heap`free, c.heap.owners, c.heap.areaHeap, c.heap.interval
    modifies c.heap`idle, c.heap.varHeap, c.heap.idle
    modifies c`counter, c`newList, c`news, Elements(c.news)`next, Elements(c.news)`prev
    ensures c.Valid() && fresh(added) && (r == Undefined <==> nbytes > LARGEST) && (nbytes <= 0 ==> r == Null)
    ensures !r.Pointer? ==> c.news == old(c.news) && c.heap.cells == old(c.heap.cells) && c.heap.idle == old(c.heap.idle)
    ensures r == Null && nbytes > 0 ==> block == 0
    ensures r.Pointer? && r.mem.size >= SMALL_COUNT ==>
      LargeGrowth(old(c.heap.layout.blocks), c.heap.layout.blocks, r.mem, added, block)
    ensures r.Pointer? && r.mem in old(c.heap.idle) ==> added == {}
    ensures r.Pointer? ==> c.news == old(c.news) + [r.mem] && r.mem !in old(c.scans + c.news) && IsClassOf(nbytes, r.mem.size)
    ensures r.Pointer? ==> Took(old(c.heap.cells), old(c.heap.idle), c.heap.cells, c.heap.idle, r.mem, added)
    ensures r.Pointer? ==> r.mem.color == BLACK && r.mem.flags == flags % 256 && r.mem.typ == typ && r.mem.bytesize == nbytes
    ensures c.counter == old(c.counter) + (if r.Pointer? then 1 else 0) && (r.Pointer? ==> r.mem.counter == old(c.counter))
    ensures r.Pointer? && r.mem in old(c.heap.idle) && nbytes <= |old(r.mem.data)| ==>
      r.mem.data == if flags % 2 == 1 then Zeroed(old(r.mem.data), nbytes) else old(r.mem.data)
    ensures r.Pointer? && flags % 2 == 1 ==> nbytes <= |r.mem.data| && forall i :: 0 <= i < nbytes ==> r.mem.data[i] == 0
    ensures forall m | m in old(c.heap.idle) && !(r.Pointer? && m == r.mem) ::
      m.data == old(m.data) && m.flags == old(m.flags) && m.color == old(m.color) && m.dummy == old(m.dummy)
    ensures old(c.WordsOk()) && !r.Pointer? ==> c.WordsOk()
    ensures old(c.WordsOk()) && r.Pointer? && OnlyNew(c, r.mem, added) ==> (c.WordsOk() <==> Clean(c, r.mem, added))
    ensures old(c.WordsOk()) && r.Pointer? && OnlyNew(c, r.mem, added) && LeavesNoStaleWord(nbytes, flags, r.mem.size) ==> c.WordsOk()
  {
    hide IsClassOf, Took, LargeGrowth, Collector.Valid, Collector.WordsOk, Zeroed, Clean, Grown;
    ghost var s, cells, st, q, idle := c.scans + c.news, c.heap.cells, c.Stamped(), c.Quiet(), c.heap.idle;
    r, added := NewFrom(c, nbytes, flags, typ, block, s, cells, st, q);
    if r.Pointer? {
      NewIsNew(c, s, r.mem);
      if Clean(c, r.mem, added) && old(c.WordsOk()) {
        AfterNew(c, s, cells, st, q, idle, r.mem, added);
      }
      OnlyIfClean(c, r.mem, added);
      NoStaleWordIsClean(c, r.mem, nbytes, flags, added);
    }
  }

  /** The words of a registered object must be good: being clean is not only enough. */
  lemma OnlyIfClean(c: Collector, mem: Mem, added: set<Mem>)
    requires c.Valid() && mem in c.news
    ensures c.WordsOk() && OnlyNew(c, mem, added) ==> Clean(c, mem, added)
  {
    hide Collector.Valid, Collector.WordsOk, OnlyNew, GoodObject;
    ValidOwned(c);
    AllGoodIff(c);
    assert mem in c.scans + c.news;
  }

  lemma AfterNone(c: Collector, s: seq<Mem>, cells: map<int, Mem>, st: set<Mem>, q: Marking<Mem>)
    requires c.Valid() && c.scans + c.news == s && c.heap.cells == cells
    requires GoodObjects(s, cells, c.heap.junk, st, q) && GoodRoots(c.roots, cells, c.heap.junk, st, q)
    requires q.from == s && q.scan == [] && q.color.Keys == cells.Values && forall x | x in q.color :: x.color == q.color[x]
    requires forall m | m in cells.Values :: m in st <==> m.color < COLOR_MAX && m.dummy == DUMMY_VALUE
    requires st <= cells.Values
    ensures c.WordsOk()
  {
    assert st == c.Stamped() && q == c.Quiet();
    hide Collector.WordsOk, Collector.Valid, GoodObjects, GoodRoots;
    ValidOwned(c);
    AllGoodIff(c);
  }

  lemma BeforeNew(c: Collector, s: seq<Mem>, cells: map<int, Mem>, st: set<Mem>, q: Marking<Mem>)
    requires c.Valid() && s == c.scans + c.news && cells == c.heap.cells && st == c.Stamped() && q == c.Quiet()
    ensures c.WordsOk() ==> GoodObjects(s, cells, c.heap.junk, st, q) && GoodRoots(c.roots, cells, c.heap.junk, st, q)
    ensures forall m | m in s :: m !in c.heap.idle
    ensures q.from == s && q.scan == [] && q.color.Keys == cells.Values && forall x | x in q.color :: x.color == q.color[x]
    ensures st <= cells.Values
    ensures forall m | m in cells.Values :: m in st <==> m.color < COLOR_MAX && m.dummy == DUMMY_VALUE
  {
    hide Collector.WordsOk, Collector.Valid, GoodObjects, GoodRoots;
    ValidOwned(c);
    AllGoodIff(c);
  }

  /** The registered objects, the memory, the stamped cells and the colours were `s`, `cells`,
      `st` and `q`, with good words everywhere, and then `mem` was allocated. */
  ghost predicate Grown(c: Collector, s: seq<Mem>, cells: map<int, Mem>, st: set<Mem>, q: Marking<Mem>, idle: set<Mem>,
                        mem: Mem, added: set<Mem>)
    reads c`roots, c`scans, c`news, c.heap`cells, c.heap`idle, s`data, s`flags, q.color.Keys`color, cells.Values`color, cells.Values`dummy
  {
    && c.scans + c.news == s + [mem] && mem !in s
    && GoodObjects(s, cells, c.heap.junk, st, q) && GoodRoots(c.roots, cells, c.heap.junk, st, q)
    && Took(cells, idle, c.heap.cells, c.heap.idle, mem, added) && q.from == s && q.scan == []
    && (forall x | x in q.color && x != mem :: x in cells.Values && (x.color == q.color[x] || x.color == RED))
    && (forall m | m in cells.Values && m != mem && m.color < COLOR_MAX && m.dummy == DUMMY_VALUE :: m in st)
  }

  lemma AfterNew(c: Collector, s: seq<Mem>, cells: map<int, Mem>, st: set<Mem>, q: Marking<Mem>, idle: set<Mem>,
                 mem: Mem, added: set<Mem>)
    requires c.Valid() && Grown(c, s, cells, st, q, idle, mem, added) && Clean(c, mem, added)
    ensures c.WordsOk()
  {
    hide Collector.WordsOk, Collector.Valid, GoodObjects, GoodRoots, AllGood, Took, Clean;
    ValidOwned(c);
    assert c.heap.Has(mem) by { assert mem in c.scans + c.news; }
    NewKeepsWords(c, s, cells, st, q, idle, mem, added);
    AllGoodIff(c);
  }

  lemma ValidOwned(c: Collector)
    requires c.Valid()
    ensures c.Owned(c.scans) && c.Owned(c.news) && forall m | m in c.scans + c.news :: m !in c.heap.idle && c.heap.Has(m)
  {
    hide Allocator.Valid;
  }

  lemma PendingSized(c: Collector, mem: Mem)
    requires Pending(c, mem)
    ensures Sized(mem)
  {
    assert c.heap.cells[mem.addr] in c.heap.cells.Values;
  }

  /** An object is good when all its words were cleared.  SGC_ZERO alone is not enough: it
      clears the bytes asked for, and the scan reads the words of the whole class. */
  lemma ZeroedIsGood(cells: map<int, Mem>, junk: int -> Header, stamped: set<Mem>, q: Marking<Mem>, m: Mem)
    requires Sized(m) && forall i :: 0 <= i < WordCount(m.size) * WORD && i < |m.data| ==> m.data[i] == 0
    ensures GoodObject(cells, junk, stamped, q, m)
  {
    RoomForWords(m.size);
    forall j | 0 <= j < WordCount(m.size)
      ensures Good(cells, junk, stamped, q, WordAt(m.data, j))
    {
      assert m.data[j * WORD..(j + 1) * WORD] == seq(WORD, _ => 0 as Byte);
      ZeroBytes(WORD);
    }
  }

  // ----- Resizing -----

  function Min(a: int, b: int): int {
    if a < b then a else b
  }

  /** `sgc_memcpy` from the old payload to the new one. */
  method Copy(c: Collector, mem: Mem, src: Mem, n: nat)
    requires c.Valid() && c.heap.Has(mem) && n <= |mem.data| && n <= |src.data|
    modifies mem`data
    ensures c.Valid() && |mem.data| == |old(mem.data)| && mem.data[..n] == old(src.data)[..n] && mem.data[n..] == old(mem.data)[n..]
  {
    hide Allocator.Valid, Ring, Disjoint;
    mem.data := src.data[..n] + mem.data[n..];
  }

  lemma RegisteredSized(c: Collector, mem: Mem)
    requires c.Valid() && mem in c.scans + c.news
    ensures c.heap.Has(mem) && Sized(mem) && Fits(mem) && MEM_SIZES[mem.size] <= |mem.data|
  {
    ValidOwned(c);
    assert c.heap.cells[mem.addr] in c.heap.cells.Values;
    assert IsClassOf(MEM_SIZES[mem.size], mem.size) by {
      forall j | 0 <= j < mem.size ensures MEM_SIZES[j] < MEM_SIZES[mem.size] { Increasing(j, mem.size); }
    }
    RoomForClass(MEM_SIZES[mem.size], mem.size);
  }

  /** `mem` holds the first bytes of `data`, and the flags and the type that came with it. */
  ghost predicate IsCopy(mem: Mem, nbytes: int, flags: nat, typ: int, bytesize: int, data: seq<Byte>)
    reads mem
  {
    && mem.flags == flags % 256 && mem.typ == typ % 256 && mem.bytesize == nbytes
    && forall i :: 0 <= i < bytesize && i < nbytes ==> i < |mem.data| && i < |data| && mem.data[i] == data[i]
  }

  /** What the copy does not reach of the bytes asked for is 0 if the old object was one for which
      SGC_ZERO was asked. */
  ghost predicate IsCleared(data: seq<Byte>, bytesize: int, nbytes: int, flags: nat) {
    flags % 2 == 1 ==> nbytes <= |data| && forall i :: 0 <= i < nbytes && bytesize <= i ==> data[i] == 0
  }

  lemma ClearedFromStart(data: seq<Byte>, nbytes: int, flags: int)
    requires flags % 2 == 1 ==> nbytes <= |data| && forall i :: 0 <= i < nbytes ==> data[i] == 0
    ensures IsCleared(data, 0, nbytes, flags % 256)
  {
    assert flags % 256 % 2 == flags % 2;
  }

  /** And the rest of a block that is used again is what it held before, `was`. */
  ghost predicate KeepsRest(data: seq<Byte>, was: seq<Byte>, bytesize: int, nbytes: int, flags: nat) {
    |data| == |was| && forall i :: 0 <= i < |was| && (nbytes <= i || (bytesize <= i && flags % 2 == 0)) ==> data[i] == was[i]
  }

  /** The bytes behind a copy of `n` bytes, which turned `given` into `data`. */
  lemma CopyLeaves(data: seq<Byte>, given: seq<Byte>, n: nat, bytesize: nat, nbytes: nat, flags: nat)
    requires n == Min(bytesize, nbytes) <= |given| == |data| && data[n..] == given[n..] && nbytes <= |given|
    ensures flags % 2 == 1 && (forall i :: 0 <= i < nbytes ==> given[i] == 0) ==> IsCleared(data, bytesize, nbytes, flags)
    ensures flags % 2 == 0 ==> IsCleared(data, bytesize, nbytes, flags)
    ensures forall was: seq<Byte> | nbytes <= |was| && given == if flags % 2 == 1 then Zeroed(was, nbytes) else was ::
      KeepsRest(data, was, bytesize, nbytes, flags)
  {
    assert forall i :: n <= i < |data| ==> data[i] == data[n..][i - n] && given[i] == given[n..][i - n];
  }

  /** `sgc_memcpy` to the new object of a resize. */
  method CopyInto(c: Collector, mem: Mem, src: Mem, n: nat, ghost s: seq<Mem>, ghost cells: map<int, Mem>,
                  ghost st: set<Mem>, ghost q: Marking<Mem>, ghost idle: set<Mem>, ghost added: set<Mem>, ghost good: bool)
    requires c.Valid() && src in s && mem in c.scans + c.news && mem !in s && c.scans + c.news == s + [mem]
    requires n <= |mem.data| && n <= |src.data|
    requires good ==> Grown(c, s, cells, st, q, idle, mem, added)
    modifies mem`data
    ensures c.Valid() && |mem.data| == |old(mem.data)| && mem.data[..n] == src.data[..n] && mem.data[n..] == old(mem.data)[n..]
    ensures good && Clean(c, mem, added) ==> c.WordsOk()
  {
    hide Collector.Valid, Collector.WordsOk, Clean;
    hide Took, GoodObjects, GoodRoots;
    RegisteredSized(c, mem);
    Copy(c, mem, src, n);
    if good && Clean(c, mem, added) {
      AfterNew(c, s, cells, st, q, idle, mem, added);
    }
  }

  /** The bytes of a resize: those of the old object, and behind them what the allocation left. */
  method CopyBytes(c: Collector, mem: Mem, src: Mem, nbytes: nat, ghost s: seq<Mem>, ghost cells: map<int, Mem>,
                   ghost st: set<Mem>, ghost q: Marking<Mem>, ghost idle: set<Mem>, ghost added: set<Mem>, ghost good: bool)
    requires c.Valid() && src in s && mem in c.scans + c.news && mem !in s
    requires c.scans + c.news == s + [mem] && nbytes <= |mem.data| && 0 <= src.bytesize <= |src.data|
    requires mem.flags == src.flags % 256 && mem.typ == src.typ % 256 && mem.bytesize == nbytes
    requires src.flags % 2 == 1 ==> forall i :: 0 <= i < nbytes ==> mem.data[i] == 0
    requires good ==> Grown(c, s, cells, st, q, idle, mem, added)
    modifies mem`data
    ensures c.Valid() && IsCopy(mem, nbytes, src.flags, src.typ, src.bytesize, src.data)
    ensures IsCleared(mem.data, src.bytesize, nbytes, src.flags)
    ensures forall was: seq<Byte> | nbytes <= |was| && old(mem.data) == if src.flags % 2 == 1 then Zeroed(was, nbytes) else was ::
      KeepsRest(mem.data, was, src.bytesize, nbytes, src.flags)
    ensures good && Clean(c, mem, added) ==> c.WordsOk()
  {
    hide Collector.Valid, Collector.WordsOk, Clean, Grown, Zeroed, KeepsRest, IsCleared;
    ghost var given := mem.data;
    var n := Min(src.bytesize, nbytes);
    CopyInto(c, mem, src, n, s, cells, st, q, idle, added, good);
    CopyLeaves(mem.data, given, n, src.bytesize, nbytes, src.flags);
  }

  /** The new object of a resize, with the old bytes in it. */
  method NewCopy(c: Collector, mem: Mem, nbytes: nat, block: int) returns (r: Handle, ghost added: set<Mem>)
    requires c.Valid() && c.heap.Offered(nbytes, block) && mem in c.scans + c.news
    modifies c.heap`cells, c.heap`layout, c.heap`freeList, c.heap`free, c.heap.owners, c.heap.areaHeap, c.heap.interval
    modifies c.heap`idle, c.heap.varHeap, c.heap.idle
    modifies c`counter, c`newList, c`news, Elements(c.news)`next, Elements(c.news)`prev
    ensures c.Valid() && fresh(added) && (r == Undefined <==> nbytes > LARGEST) && (nbytes == 0 ==> r == Null)
    ensures !r.Pointer? ==> c.news == old(c.news) && c.heap.cells == old(c.heap.cells)
    ensures r.Pointer? ==> c.news == old(c.news) + [r.mem] && IsClassOf(nbytes, r.mem.size) && r.mem !in old(c.scans + c.news)
    ensures r.Pointer? ==> IsCopy(r.mem, nbytes, mem.flags, mem.typ, mem.bytesize, mem.data)
    ensures c.counter == old(c.counter) + (if r.Pointer? then 1 else 0) && (r.Pointer? ==> r.mem.counter == old(c.counter))
    ensures r.Pointer? ==> IsCleared(r.mem.data, mem.bytesize, nbytes, mem.flags)
    ensures r.Pointer? && r.mem in old(c.heap.idle) && nbytes <= |old(r.mem.data)| ==>
      KeepsRest(r.mem.data, old(r.mem.data), mem.bytesize, nbytes, mem.flags)
    ensures old(c.WordsOk()) && (r.Pointer? ==> Clean(c, r.mem, added)) ==> c.WordsOk()
  {
    hide IsClassOf, Took, LargeGrowth, Collector.Valid, Collector.WordsOk, Zeroed, Clean, Grown, IsCleared, KeepsRest, IsCopy;
    ghost var s, cells, st, q, idle := c.scans + c.news, c.heap.cells, c.Stamped(), c.Quiet(), c.heap.idle;
    RegisteredSized(c, mem);
    ValidOwned(c);
    r, added := NewFrom(c, nbytes, mem.flags, mem.typ % 256, block, s, cells, st, q);
    if r.Pointer? {
      NewIsNew(c, s, r.mem);
      TakenFrom(cells, idle, c.heap.cells, c.heap.idle, r.mem, added);
      RegisteredSized(c, r.mem);
      RoomForClass(nbytes, r.mem.size);
      CopyBytes(c, r.mem, mem, nbytes, s, cells, st, q, idle, added, old(c.WordsOk()));
    }
  }

  /** Turning a registered object RED makes no word better than it was. */
  lemma RedIsNoBetter(cells: map<int, Mem>, junk: int -> Header, st: set<Mem>, q: Marking<Mem>, gone: Mem, m: Mem)
    requires Registered(q, gone) && gone in q.color
    requires GoodObject(cells, junk, st, q.(color := q.color[gone := RED]), m)
    ensures GoodObject(cells, junk, st, q, m)
  {
    var q' := q.(color := q.color[gone := RED]);
    forall j | 0 <= j < WordCount(m.size) && !IsPointerless(m.flags)
      ensures Good(cells, junk, st, q, WordAt(m.data, j))
    {
      assert Good(cells, junk, st, q', WordAt(m.data, j));
    }
  }

  /** Giving up the old block of a resize; `r` is the new one. */
  method GiveUp(c: Collector, mem: Mem, r: Handle, ghost added: set<Mem>)
    requires c.Valid() && mem in c.scans + c.news && (r.Pointer? ==> r.mem != mem)
    modifies mem`color
    ensures c.Valid() && mem.color == RED
    ensures (r.Pointer? && old(Clean(c, r.mem, added)) ==> old(c.WordsOk())) && (!r.Pointer? ==> old(c.WordsOk())) ==>
      (r.Pointer? ==> Clean(c, r.mem, added)) ==> c.WordsOk()
  {
    hide Collector.Valid, Collector.WordsOk, Collector.Stamped, Collector.Quiet, GoodObject;
    ghost var q, st := c.Quiet(), c.Stamped();
    RegisteredColor(c, mem);
    FreeObject(c, mem);
    if r.Pointer? && Clean(c, r.mem, added) {
      RedIsNoBetter(c.heap.cells, c.heap.junk, st, q, mem, r.mem);
    }
  }

  lemma CleanIsOnlyNew(c: Collector, r: Handle, added: set<Mem>)
    ensures r.Pointer? && Clean(c, r.mem, added) ==> OnlyNew(c, r.mem, added)
  {
  }

  lemma RegisteredColor(c: Collector, mem: Mem)
    requires c.Valid() && mem in c.scans + c.news
    ensures mem in c.Quiet().color && Registered(c.Quiet(), mem)
  {
    hide Allocator.Valid;
    ValidOwned(c);
    assert c.heap.cells[mem.addr] in c.heap.cells.Values;
  }

  /** The block is kept and gets its new byte count. */
  method SetBytes(c: Collector, mem: Mem, nbytes: nat)
    requires c.Valid() && mem in c.scans + c.news && IsClassOf(nbytes, mem.size)
    modifies mem`bytesize
    ensures c.Valid() && mem.bytesize == nbytes && c.WordsOk() == old(c.WordsOk())
  {
    hide Allocator.Valid, Ring, Disjoint, Collector.Partition, Collector.HeadersOk, Collector.CellsSized, Collector.WordsOk;
    RoomForClass(nbytes, mem.size);
    mem.bytesize := nbytes;
  }

  /** `sgc_resize_object`.  The block is kept exactly when a request for `nbytes` bytes would
      get one of the same class; otherwise the old block is given up, also when there is no
      new one. */
  method ResizeObject(c: Collector, mem: Mem?, nbytes: int, flags: int, typ: Byte, block: int) returns (r: Handle, ghost added: set<Mem>)
    requires c.Valid() && c.heap.Offered(nbytes, block)
    requires mem != null ==> mem in c.scans + c.news
    modifies c.heap`cells, c.heap`layout, c.heap`freeList, c.heap`free, c.heap.owners, c.heap.areaHeap, c.heap.interval
    modifies c.heap`idle, c.heap.varHeap, c.heap.idle
    modifies (if mem == null then {} else {mem})`color, (if mem == null then {} else {mem})`bytesize
    modifies c`counter, c`newList, c`news, Elements(c.news)`next, Elements(c.news)`prev
    ensures c.Valid() && (nbytes < 0 ==> r == Null)
    ensures nbytes < 0 || !r.Pointer? || (mem != null && IsClassOf(nbytes, mem.size)) ==>
      c.news == old(c.news) && c.heap.cells == old(c.heap.cells)
    ensures nbytes >= 0 && mem == null && r.Pointer? ==>
      && c.news == old(c.news) + [r.mem] && IsClassOf(nbytes, r.mem.size) && r.mem !in old(c.scans + c.news)
      && r.mem.flags == flags % 256 && r.mem.typ == typ && r.mem.bytesize == nbytes
      && IsCleared(r.mem.data, 0, nbytes, r.mem.flags)
    ensures nbytes >= 0 && mem != null && IsClassOf(nbytes, mem.size) ==>
      r == Pointer(mem) && mem.bytesize == nbytes && mem.color == old(mem.color)
    ensures nbytes >= 0 && mem != null && !IsClassOf(nbytes, mem.size) ==>
      && (r == Undefined <==> nbytes > LARGEST) && mem.color == (if r == Undefined then old(mem.color) else RED)
      && (r.Pointer? ==> c.news == old(c.news) + [r.mem] && IsClassOf(nbytes, r.mem.size) && r.mem !in old(c.scans + c.news))
      && (r.Pointer? ==> IsCopy(r.mem, nbytes, mem.flags, mem.typ, old(mem.bytesize), mem.data))
      && (r.Pointer? ==> IsCleared(r.mem.data, old(mem.bytesize), nbytes, mem.flags))
      && (r.Pointer? && r.mem in old(c.heap.idle) && nbytes <= |old(r.mem.data)| ==>
           KeepsRest(r.mem.data, old(r.mem.data), old(mem.bytesize), nbytes, mem.flags))
    ensures if r.Pointer? && r.mem != mem then c.counter == old(c.counter) + 1 && r.mem.counter == old(c.counter) else c.counter == old(c.counter)
    ensures old(c.WordsOk()) && (r.Pointer? && r.mem != mem ==> Clean(c, r.mem, added)) ==> c.WordsOk()
  {
    hide IsClassOf, Took, LargeGrowth, IsCopy, IsCleared, KeepsRest;
    hide Collector.Valid, Collector.WordsOk, Zeroed, Clean, Grown;
    added := {};
    if nbytes < 0 {
      return Null, added;
    }
    if mem == null {
      r, added := NewObject(c, nbytes, flags, typ, block);
      CleanIsOnlyNew(c, r, added);
      if r.Pointer? {
        ClearedFromStart(r.mem.data, nbytes, flags);
      }
      return;
    }
    RegisteredSized(c, mem);
    ValidOwned(c);
    if KeepsBlock(nbytes, mem.size) {
      SetBytes(c, mem, nbytes);
      return Pointer(mem), added;
    }
    r, added := NewCopy(c, mem, nbytes, block);
    if r == Undefined {
      return;
    }
    GiveUp(c, mem, r, added);
  }

  // ----- Stores and barriers -----

  /** `w` is NULL or the address of a registered object. */
  ghost predicate IsReference(c: Collector, w: int)
    reads c`scans, c`news, c.heap`cells
  {
    w == 0 || (w - HEADER in c.heap.cells && c.heap.cells[w - HEADER] in c.scans + c.news)
  }

  /** Between cycles no object is WHITE, so neither barrier sends its message, and the stale
      `sgc_from_list` that the message would use is never touched. */
  lemma ReferenceFacts(c: Collector, w: int)
    requires c.Valid() && IsReference(c, w)
    ensures w != 0 ==> c.heap.HeaderAt(w - HEADER).color != WHITE
    ensures Good(c.heap.cells, c.heap.junk, c.Stamped(), c.Quiet(), w)
  {
    hide Allocator.Valid, Ring, Disjoint;
    if w != 0 {
      var m := c.heap.cells[w - HEADER];
      RegisteredColor(c, m);
    }
  }

  /** `sgc_wb2` up to the question whether it sends a message. */
  predicate Barrier2(c: Collector, obj: Mem, w: int)
    reads c.heap`cells, c.heap.cells.Values`color, c.heap.cells.Values`dummy, obj`color
  {
    w != 0 && obj.color == BLACK && c.heap.HeaderAt(w - HEADER).color == WHITE
  }

  predicate Barrier1(c: Collector, w: int)
    reads c.heap`cells, c.heap.cells.Values`color, c.heap.cells.Values`dummy
  {
    w != 0 && c.heap.HeaderAt(w - HEADER).color == WHITE
  }

  method Poke(c: Collector, obj: Mem, k: nat, w: nat)
    requires c.Valid() && (k + 1) * WORD <= |obj.data|
    modifies obj`data
    ensures c.Valid() && obj.data == Stored(old(obj.data), k, w)
  {
    hide Allocator.Valid, Ring, Disjoint;
    obj.data := Stored(obj.data, k, w);
  }

  /** The goodness of a payload, as a value. */
  ghost predicate GoodData(cells: map<int, Mem>, junk: int -> Header, st: set<Mem>, q: Marking<Mem>, data: seq<Byte>, n: nat) {
    n * WORD <= |data| && forall j :: 0 <= j < n ==> Good(cells, junk, st, q, WordAt(data, j))
  }

  lemma StoredIsGood(cells: map<int, Mem>, junk: int -> Header, st: set<Mem>, q: Marking<Mem>, data: seq<Byte>, n: nat, k: nat, w: nat)
    requires GoodData(cells, junk, st, q, data, n) && Good(cells, junk, st, q, w)
    requires (k + 1) * WORD <= |data| && w < Power256(WORD)
    ensures GoodData(cells, junk, st, q, Stored(data, k, w), n)
  {
    hide Good, Stored;
    forall j | 0 <= j < n
      ensures Good(cells, junk, st, q, WordAt(Stored(data, k, w), j))
    {
      StoredWord(data, k, w, j);
    }
  }

  /** A store of a good word, in any word of a registered object. */
  method Write(c: Collector, obj: Mem, k: nat, w: nat)
    requires c.Valid() && obj in c.scans + c.news && (k + 1) * WORD <= |obj.data| && w < Power256(WORD)
    modifies obj`data
    ensures c.Valid() && obj.data == Stored(old(obj.data), k, w)
    ensures old(c.WordsOk()) && Good(c.heap.cells, c.heap.junk, c.Stamped(), c.Quiet(), w) ==> c.WordsOk()
  {
    hide Collector.Valid, Collector.WordsOk, Good, Stored, GoodRoots, Collector.Stamped, Collector.Quiet;
    ghost var data, st, q := obj.data, c.Stamped(), c.Quiet();
    ghost var good := AllGood(c);
    ValidOwned(c);
    AllGoodIff(c);
    RegisteredSized(c, obj);
    assert good ==> GoodObject(c.heap.cells, c.heap.junk, st, q, obj);
    assert good && !IsPointerless(obj.flags) ==> GoodData(c.heap.cells, c.heap.junk, st, q, data, WordCount(obj.size));
    Poke(c, obj, k, w);
    if good && Good(c.heap.cells, c.heap.junk, st, q, w) {
      if !IsPointerless(obj.flags) {
        StoredIsGood(c.heap.cells, c.heap.junk, st, q, data, WordCount(obj.size), k, w);
      }
      RegisteredSized(c, obj);
      RoomForWords(obj.size);
      assert GoodObject(c.heap.cells, c.heap.junk, st, q, obj);
      assert AllGood(c);
    }
    ValidOwned(c);
    AllGoodIff(c);
  }

  /** `_stf`; what the words are afterwards is `StoredWord`. */
  method StoreField(c: Collector, obj: Mem, k: nat, w: nat) returns (sent: bool)
    requires c.Valid() && obj in c.scans + c.news && (k + 1) * WORD <= |obj.data|
    requires w < Power256(WORD) && IsReference(c, w)
    modifies obj`data
    ensures c.Valid() && obj.data == Stored(old(obj.data), k, w) && !sent
    ensures sent <==> w != 0 && obj.color == BLACK && c.heap.HeaderAt(w - HEADER).color == WHITE
    ensures old(c.WordsOk()) ==> c.WordsOk()
  {
    hide Collector.Valid, Collector.WordsOk, Good, Stored, Collector.Stamped, Collector.Quiet;
    Write(c, obj, k, w);
    ReferenceFacts(c, w);
    sent := Barrier2(c, obj, w);
  }

  /** `_str`: the local variable gets `w`. */
  method LoadLocal(c: Collector, w: int) returns (local: int, sent: bool)
    requires c.Valid() && IsReference(c, w)
    ensures local == w && !sent && (sent <==> w != 0 && c.heap.HeaderAt(w - HEADER).color == WHITE)
  {
    hide Collector.Valid;
    local := w;
    ReferenceFacts(c, w);
    sent := Barrier1(c, w);
  }

  // ----- Roots -----

  method SetRoots(c: Collector, rs: seq<Option<int>>)
    requires c.Valid() && |rs| == MAX_ROOTS
    modifies c`roots
    ensures c.Valid() && c.roots == rs
    ensures old(c.WordsOk()) && GoodRoots(rs, c.heap.cells, c.heap.junk, c.Stamped(), c.Quiet()) ==> c.WordsOk()
  {
    hide Allocator.Valid, Ring, Disjoint, Collector.WordsOk, Good;
    AllGoodIff(c);
    c.roots := rs;
    AllGoodIff(c);
  }

  /** `sgc_root` for a variable that holds `w`.  The result is false when the
      table is full. */
  method AddHandle(c: Collector, w: int) returns (ok: bool, i: nat)
    requires c.Valid()
    modifies c`roots
    ensures c.Valid() && (ok <==> None in old(c.roots))
    ensures ok ==> i < MAX_ROOTS && old(c.roots)[i] == None && c.roots == old(c.roots)[i := Some(w)]
    ensures ok ==> forall k | 0 <= k < i :: old(c.roots)[k].Some?
    ensures !ok ==> c.roots == old(c.roots)
    ensures old(c.WordsOk()) && (ok ==> Good(c.heap.cells, c.heap.junk, c.Stamped(), c.Quiet(), w)) ==> c.WordsOk()
  {
    hide Collector.Valid, Collector.WordsOk, Good;
    RootCount(c);
    i := 0;
    while i < MAX_ROOTS
      invariant i <= MAX_ROOTS && c.roots == old(c.roots) && c.Valid()
      invariant forall k | 0 <= k < i :: c.roots[k].Some?
      invariant c.WordsOk() == old(c.WordsOk())
    {
      if c.roots[i] == None {
        AllGoodRoots(c);
        SetRoots(c, c.roots[i := Some(w)]);
        return true, i;
      }
      i := i + 1;
    }
    ok := false;
  }

  /** `sgc_unroot` for the variable with the handle in slot `i`. */
  method RemoveHandle(c: Collector, i: nat)
    requires c.Valid() && i < MAX_ROOTS
    modifies c`roots
    ensures c.Valid() && c.roots == old(c.roots)[i := None]
    ensures old(c.WordsOk()) ==> c.WordsOk()
  {
    hide Collector.Valid, Collector.WordsOk, Good;
    RootCount(c);
    AllGoodRoots(c);
    SetRoots(c, c.roots[i := None]);
  }

  lemma RootCount(c: Collector)
    requires c.Valid()
    ensures |c.roots| == MAX_ROOTS
  {
  }

  lemma AllGoodRoots(c: Collector)
    requires c.Valid()
    ensures c.WordsOk() ==> GoodRoots(c.roots, c.heap.cells, c.heap.junk, c.Stamped(), c.Quiet())
  {
    hide Collector.Valid, Collector.WordsOk, Good;
    ValidOwned(c);
    AllGoodIff(c);
  }
}
