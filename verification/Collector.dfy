/** The sequential collector of src/sgc.c, working in place on the intrusive lists. */
module SequentialCollector {
  import opened Seqs
  import opened DList
  import opened MarkSpec
  import opened SizeClasses
  import opened Carving
  import opened HeapLayout
  import opened CellHeap
  import opened SegregatedFit
  import opened PayloadWords
  import opened Sweeping

  const MAX_ROOTS: nat := 128
  const POINTERLESS: nat := 2

  predicate IsPointerless(flags: nat) {
    (flags / POINTERLESS) % 2 == 1
  }

  /** The words that scanning reads are all there. */
  lemma RoomForWords(c: nat)
    requires c < SIZE_COUNT
    ensures WordCount(c) * WORD <= Room(c)
  {
    if c > 0 { Increasing(0, c); }
    ScanStaysInside(MEM_SIZES[c], HEADER, WORD, WordCount(c) - 1);
  }

  /** The number of words that scanning an object of class `c` reads. */
  function WordCount(c: nat): (n: nat)
    requires c < SIZE_COUNT
    ensures (n - 1) * WORD < MEM_SIZES[c] <= n * WORD
  {
    (MEM_SIZES[c] + WORD - 1) / WORD
  }

  /** The size that the program asked for fits the block. */
  ghost predicate Fits(m: Mem)
    reads m`bytesize
  {
    m.size < SIZE_COUNT && 0 <= m.bytesize <= MEM_SIZES[m.size]
  }

  ghost predicate AllFit(s: set<Mem>)
    reads s`bytesize
  {
    forall m | m in s :: Fits(m)
  }

  class Collector {
    const heap: Allocator
    var roots: seq<Option<int>>   // the variables that the root handles point to
    var newList: Mem?
    var scanList: Mem?
    var fromList: Mem?
    var counter: int
    ghost var news: seq<Mem>
    ghost var scans: seq<Mem>
    ghost var froms: seq<Mem>   // empty between cycles, when `fromList` is stale
    ghost var lost: set<Mem>    // objects that a leak search took off the lists

    constructor (heap: Allocator)
      requires heap.Valid() && heap.cells == map[] && heap.idle == {}
      ensures this.heap == heap && Valid() && WordsOk() && news == scans == [] && lost == {}
      ensures roots == seq(MAX_ROOTS, _ => None) && counter == 0
    {
      this.heap := heap;
      roots := seq(MAX_ROOTS, _ => None);
      newList, scanList, fromList, counter := null, null, null, 0;
      news, scans, froms, lost := [], [], [], {};
      new;
      hide Allocator.Valid;
    }

    /** `s` consists of cells that are not free. */
    ghost predicate Owned(s: seq<Mem>)
      reads heap`cells, heap`idle
    {
      forall m | m in s :: heap.Has(m) && m !in heap.idle
    }

    ghost function Nodes(): set<Mem>
      reads `froms, `scans
    {
      Elements(froms) + Elements(scans)
    }

    /** The two lists of a cycle, and the heap around them. */
    ghost predicate Walking()
      reads this, heap, heap.owners, heap.areaHeap, heap.interval, heap.varHeap, heap.idle`next, heap.idle`prev
      reads froms`next, froms`prev, scans`next, scans`prev
    {
      && heap.Valid() && Owned(froms) && Owned(scans) && Disjoint(froms, scans)
      && IsList(fromList, froms) && IsList(scanList, scans)
    }

    /** Taking the head off the from list, before `sgc_from_list` is assigned. */
    method DropHead(mem: Mem) returns (head: Mem?)
      requires Walking() && fromList == mem
      modifies Elements(froms)`next, Elements(froms)`prev
      ensures heap.Valid() && IsList(scanList, scans) && IsList(head, Without(froms, mem))
    {
      hide Allocator.Valid, Ring;
      assert Elements(froms) !! heap.idle;
      head := RemoveHead(mem, froms);
    }

    method RemoveFirst(mem: Mem)
      requires Walking() && fromList == mem
      modifies `fromList, `froms, Elements(froms)`next, Elements(froms)`prev
      ensures Walking() && froms == Without(old(froms), mem)
    {
      hide Allocator.Valid, Ring;
      var head := DropHead(mem);
      fromList, froms := head, Without(froms, mem);
    }

    method DropInner(mem: Mem)
      requires Walking() && mem != fromList && (mem in froms || mem in scans)
      requires mem == scanList ==> scans == [mem]
      modifies Nodes()`next, Nodes()`prev
      ensures heap.Valid() && IsList(fromList, Without(froms, mem))
      ensures IsList(scanList, if scans == [mem] then scans else Without(scans, mem))
    {
      hide Allocator.Valid, Ring;
      assert Nodes() !! heap.idle && Elements(froms + scans) == Nodes();
      RemoveFromEither(mem, fromList, froms, scanList, scans);
    }

    method RemoveOther(mem: Mem)
      requires Walking() && mem != fromList && (mem in froms || mem in scans)
      requires mem == scanList ==> scans == [mem]
      modifies `froms, `scans, Nodes()`next, Nodes()`prev
      ensures Walking() && froms == Without(old(froms), mem)
      ensures scans == if old(scans) == [mem] then [mem] else Without(old(scans), mem)
    {
      hide Allocator.Valid, Ring;
      DropInner(mem);
      froms, scans := Without(froms, mem), if scans == [mem] then scans else Without(scans, mem);
    }

    /** `sgc_from_list_remove`, applied to a node of either list. */
    method FromListRemove(mem: Mem)
      requires Walking() && (mem in froms || mem in scans)
      requires mem == scanList ==> scans == [mem]
      modifies `fromList, `froms, `scans, Nodes()`next, Nodes()`prev
      ensures Walking() && froms == Without(old(froms), mem)
      ensures scans == if old(scans) == [mem] then [mem] else Without(old(scans), mem)
    {
      hide Allocator.Valid, Ring;
      if mem == fromList {
        WithoutAbsent(scans, mem);
        RemoveFirst(mem);
      } else {
        RemoveOther(mem);
      }
    }

    /** Linking `mem` in at the tail, before `sgc_scan_list` is assigned. */
    method LinkLast(mem: Mem) returns (head: Mem?)
      requires Walking() && mem !in froms && (mem !in scans || scans == [mem]) && mem !in heap.idle
      modifies Elements(scans)`next, Elements(scans)`prev, mem`next, mem`prev
      ensures heap.Valid() && IsList(fromList, froms)
      ensures IsList(head, if scans == [mem] then scans else scans + [mem])
    {
      hide Allocator.Valid, Ring;
      assert Elements(scans) !! heap.idle;
      head := Append(scanList, mem, scans);
    }

    /** `sgc_scan_list_append` */
    method ScanListAppend(mem: Mem)
      requires Walking() && mem !in froms && (mem !in scans || scans == [mem])
      requires heap.Has(mem) && mem !in heap.idle
      modifies `scanList, `scans, Elements(scans)`next, Elements(scans)`prev, mem`next, mem`prev
      ensures Walking() && scans == if old(scans) == [mem] then [mem] else old(scans) + [mem]
    {
      hide Allocator.Valid, Ring;
      var head := LinkLast(mem);
      scanList, scans := head, if scans == [mem] then scans else scans + [mem];
    }

    /** The two calls that move an object to the tail of the scan list. */
    method Move(mem: Mem)
      requires Walking() && (mem in froms || mem in scans)
      requires mem == scanList ==> scans == [mem]
      modifies `fromList, `froms, `scanList, `scans, Nodes()`next, Nodes()`prev
      ensures Walking() && froms == Without(old(froms), mem) && scans == Without(old(scans), mem) + [mem]
      ensures Nodes() == old(Nodes())
    {
      hide Allocator.Valid, Ring;
      FromListRemove(mem);
      ScanListAppend(mem);
    }

    // ----- The abstract value of the lists and of the payloads -----

    ghost function Colors(): map<Mem, nat>
      reads heap`cells, heap.cells.Values`color
    {
      map m | m in heap.cells.Values :: m.color
    }

    ghost function Abs(): Marking<Mem>
      reads `froms, `scans, heap`cells, heap.cells.Values`color
    {
      Marking(froms, scans, Colors())
    }

    /** The cells whose headers look like those of an object. */
    ghost function Stamped(): set<Mem>
      reads heap`cells, heap.cells.Values`color, heap.cells.Values`dummy
    {
      set m | m in heap.cells.Values && m.color < COLOR_MAX && m.dummy == DUMMY_VALUE
    }

    ghost function Hit(stamped: set<Mem>, w: int): seq<Mem>
      reads heap`cells
    {
      Denoted(heap.cells, stamped, w)
    }

    /** `w` is not an address at which the bytes happen to look like the header of a large
        block that does not exist; for the small classes the address test excludes this. */
    ghost predicate NotForged(w: int)
      reads heap`cells
    {
      w == 0 || w - HEADER in heap.cells || !HeaderOk(heap.junk(w - HEADER)) || heap.junk(w - HEADER).size < SMALL_COUNT
    }

    lemma ValidIsHit(w: int)
      requires heap.Valid() && NotForged(w) && w != 0
      ensures heap.Accepts(w - HEADER) <==> Hit(Stamped(), w) != []
    {
      ValidityIsExact(heap.layout, w - HEADER);
      if w - HEADER in heap.cells {
        assert heap.cells[w - HEADER] in heap.cells.Values;
      }
    }

    /** `mem.color := c`, seen from above. */
    method Paint(mem: Mem, c: nat)
      requires Walking() && heap.Has(mem) && c < COLOR_MAX && mem.color < COLOR_MAX
      modifies mem`color
      ensures Walking() && mem.color == c && Colors() == old(Colors())[mem := c] && Stamped() == old(Stamped())
    {
      hide Allocator.Valid, Ring;
      assert heap.cells[mem.addr] in heap.cells.Values;
      mem.color := c;
    }

    /** The WHITE object `referee`, met while scanning `mem`, the k-th of the scan list. */
    method Reach(mem: Mem, referee: Mem, ghost k: nat)
      requires Walking() && Inv(Abs(), k + 1) && scans[k] == mem
      requires Registered(Abs(), referee) && referee.color == WHITE
      modifies `fromList, `froms, `scanList, `scans, mem`color
      modifies Nodes()`next, Nodes()`prev
      ensures Walking() && Stamped() == old(Stamped())
      ensures Abs() == ScanRef(old(Abs()), mem, referee) && Nodes() == old(Nodes())
    {
      hide Allocator.Valid, Ring, Owned, Inv, Stamped, Colors, Disjoint, Registered;
      ReachFacts(mem, referee, k);
      Paint(mem, GRAY);
      Move(referee);
    }

    lemma ReachFacts(mem: Mem, referee: Mem, k: nat)
      requires Walking() && Inv(Abs(), k + 1) && scans[k] == mem
      requires Registered(Abs(), referee) && referee.color == WHITE
      ensures heap.Has(mem) && mem.color < COLOR_MAX && (referee in froms || referee in scans) && mem in Nodes()
      ensures referee != scanList && referee != mem && referee in Abs().color && Abs().color[referee] == WHITE
    {
      hide Allocator.Valid, Ring;
      assert heap.Has(mem) && heap.Has(referee);
      assert heap.cells[referee.addr] in heap.cells.Values && heap.cells[mem.addr] in heap.cells.Values;
      assert scanList == scans[0];
      assert mem.color != WHITE && scanList.color != WHITE;
    }

    /** The cell that a valid word denotes is registered or RED. */
    lemma ValidTarget(mem: Mem, w: int, k: nat)
      requires Walking() && NotForged(w) && w != 0 && heap.Accepts(w - HEADER)
      requires Known(Abs(), Hit(Stamped(), w))
      ensures w - HEADER in heap.cells
      ensures var x := heap.cells[w - HEADER]; var m := Abs();
        && Hit(Stamped(), w) == [x] && (x.color == RED || Registered(m, x))
        && ScanRefs(m, mem, [x]) == ScanRef(m, mem, x) && x in m.color && m.color[x] == x.color
    {
      hide Allocator.Valid, Ring, Owned, Disjoint;
      ValidIsHit(w);
      var x := heap.cells[w - HEADER];
      assert x in heap.cells.Values && x in Hit(Stamped(), w);
      ScanRefsSnoc(Abs(), mem, [], x);
      assert [] + [x] == [x];
    }

    lemma InvalidTarget(mem: Mem, w: int)
      requires Walking() && NotForged(w) && (w == 0 || !heap.Accepts(w - HEADER))
      ensures ScanRefs(Abs(), mem, Hit(Stamped(), w)) == Abs()
    {
      hide Allocator.Valid, Ring, Owned, Disjoint;
      if w != 0 { ValidIsHit(w); }
    }

    /** One word of the object `mem`, the k-th of the scan list (src/sgc.c:643-662). */
    method ScanWord(mem: Mem, w: int, ghost k: nat)
      requires Walking() && Inv(Abs(), k + 1) && scans[k] == mem && NotForged(w)
      requires Known(Abs(), Hit(Stamped(), w))
      modifies `fromList, `froms, `scanList, `scans, mem`color, Nodes()`next, Nodes()`prev
      ensures Walking() && Stamped() == old(Stamped())
      ensures Abs() == ScanRefs(old(Abs()), mem, old(Hit(Stamped(), w))) && Nodes() == old(Nodes())
    {
      hide Allocator.Valid, Ring, Owned, Disjoint, Hit, Stamped, Colors, ScanRefs, NotForged, Inv, Known;
      if w != 0 {
        var valid := heap.IsValid(w - HEADER);
        if valid {
          ValidTarget(mem, w, k);
          var referee := heap.cells[w - HEADER];
          if referee.color == RED {
          } else if referee.color == WHITE {
            Reach(mem, referee, k);
          }
        } else {
          InvalidTarget(mem, w);
        }
      } else {
        InvalidTarget(mem, w);
      }
    }

    ghost function Refs(stamped: set<Mem>, data: seq<Byte>, n: nat): seq<Mem>
      requires n * WORD <= |data|
      reads heap`cells
    {
      WordRefs(heap.cells, stamped, data, n)
    }

    /** What the words of `mem` denote that scanning reads. */
    ghost function RefsIn(stamped: set<Mem>, mem: Mem): seq<Mem>
      requires Sized(mem)
      reads heap`cells, mem`data
    {
      RoomForWords(mem.size);
      Refs(stamped, mem.data, WordCount(mem.size))
    }

    ghost predicate NoForgedWords(mem: Mem)
      requires Sized(mem)
      reads heap`cells, mem`data
    {
      RoomForWords(mem.size);
      forall j :: 0 <= j < WordCount(mem.size) ==> NotForged(WordAt(mem.data, j))
    }

    lemma ScanRefsConcat(m: Marking<Mem>, cur: Mem, xs: seq<Mem>, w: int, stamped: set<Mem>)
      ensures ScanRefs(m, cur, xs + Hit(stamped, w)) == ScanRefs(ScanRefs(m, cur, xs), cur, Hit(stamped, w))
    {
      var h := Hit(stamped, w);
      if h == [] {
        assert xs + h == xs;
      } else {
        ScanRefsSnoc(m, cur, xs, h[0]);
        ScanRefsSnoc(ScanRefs(m, cur, xs), cur, [], h[0]);
        assert h == [h[0]] == [] + [h[0]];
      }
    }

    lemma NextWord(mem: Mem, index: nat, k: nat, m: Marking<Mem>, st: set<Mem>)
      requires Sized(mem) && index < WordCount(mem.size) && (index + 1) * WORD <= |mem.data|
      requires Inv(m, k + 1) && m.scan[k] == mem && Known(m, RefsIn(st, mem))
      ensures var a, h := ScanRefs(m, mem, Refs(st, mem.data, index)), Hit(st, WordAt(mem.data, index));
        && Inv(a, k + 1) && a.scan[k] == mem && Known(a, h)
        && ScanRefs(m, mem, Refs(st, mem.data, index + 1)) == ScanRefs(a, mem, h)
    {
      hide ScanRefs, Inv, FromBytes;
      RoomForWords(mem.size);
      var xs, w := Refs(st, mem.data, index), WordAt(mem.data, index);
      WordRefsPrefix(heap.cells, st, mem.data, index, WordCount(mem.size));
      assert Known(m, xs) && Known(m, Hit(st, w));
      PrefixKeeps(m, k, mem, xs);
      EvolvesKnown(m, ScanRefs(m, mem, xs), k + 1, Hit(st, w));
      ScanRefsConcat(m, mem, xs, w, st);
    }

    /** The state of `sgc_scan_mem` before the word at `index`; `m` is the state at its start. */
    ghost predicate ScanLoop(mem: Mem, index: nat, k: nat, m: Marking<Mem>, st: set<Mem>)
      reads this, heap, heap.owners, heap.areaHeap, heap.interval, heap.varHeap, heap.idle`next, heap.idle`prev
      reads froms`next, froms`prev, scans`next, scans`prev, mem`data
      reads heap.cells.Values`color, heap.cells.Values`dummy
    {
      && Walking() && Stamped() == st && Sized(mem) && NoForgedWords(mem) && index <= WordCount(mem.size)
      && Inv(m, k + 1) && m.scan[k] == mem && Known(m, RefsIn(st, mem)) && index * WORD <= |mem.data|
      && Abs() == ScanRefs(m, mem, Refs(st, mem.data, index))
    }

    lemma ScanStart(mem: Mem, k: nat)
      requires Walking() && Inv(Abs(), k + 1) && scans[k] == mem
      requires Sized(mem) && NoForgedWords(mem) && Known(Abs(), RefsIn(Stamped(), mem))
      ensures ScanLoop(mem, 0, k, Abs(), Stamped())
    {
      hide Allocator.Valid, Ring, Inv, Known, RefsIn;
    }

    lemma ScanEnd(mem: Mem, k: nat, m: Marking<Mem>, st: set<Mem>)
      requires Sized(mem) && ScanLoop(mem, WordCount(mem.size), k, m, st)
      ensures Walking() && Stamped() == st && Abs() == ScanRefs(m, mem, RefsIn(st, mem))
    {
      hide Allocator.Valid, Ring, Inv, Known;
    }

    /** The word at `index` of `mem`. */
    method ScanNext(mem: Mem, index: nat, ghost k: nat, ghost m: Marking<Mem>, ghost st: set<Mem>)
      requires Sized(mem) && index < WordCount(mem.size) && ScanLoop(mem, index, k, m, st)
      modifies `fromList, `froms, `scanList, `scans, mem`color, Nodes()`next, Nodes()`prev
      ensures ScanLoop(mem, index + 1, k, m, st) && Nodes() == old(Nodes())
    {
      hide Allocator.Valid, Ring, NoDup, ScanRefs, Inv, WordAt, Known, Refs, RefsIn, NotForged, Walking;
      RoomForWords(mem.size);
      NextWord(mem, index, k, m, st);
      ScanWord(mem, WordAt(mem.data, index), k);
    }

    /** `sgc_scan_mem`, for the k-th object of the scan list. */
    method ScanMem(mem: Mem, ghost k: nat)
      requires Walking() && Inv(Abs(), k + 1) && scans[k] == mem
      requires Sized(mem) && NoForgedWords(mem) && Known(Abs(), RefsIn(Stamped(), mem))
      modifies `fromList, `froms, `scanList, `scans, mem`color, Nodes()`next, Nodes()`prev
      ensures Walking() && Stamped() == old(Stamped()) && Nodes() == old(Nodes())
      ensures Abs() == ScanRefs(old(Abs()), mem, old(RefsIn(Stamped(), mem)))
    {
      hide Walking, ScanLoop, NoForgedWords, Known, RefsIn, Inv, ScanRefs, Refs, Stamped, Colors, Room;
      ScanStart(mem, k);
      ghost var m, st := Abs(), Stamped();
      var size := MEM_SIZES[mem.size];
      var index, bytes := 0, 0;
      while bytes < size
        invariant bytes == index * WORD && index <= WordCount(mem.size)
        invariant ScanLoop(mem, index, k, m, st) && Nodes() == old(Nodes())
        decreases WordCount(mem.size) - index
      {
        ScanNext(mem, index, k, m, st);
        index := index + 1;
        bytes := bytes + WORD;
      }
      ScanEnd(mem, k, m, st);
    }

    /** The references of every cell, as the scanner finds them. */
    ghost function References(stamped: set<Mem>): Graph<Mem>
      reads heap`cells, heap.cells.Values`data, heap.cells.Values`flags
    {
      map m | m in heap.cells.Values && Sized(m) :: if IsPointerless(m.flags) then [] else RefsIn(stamped, m)
    }

    /** The payloads of the objects in `s` can be read and hold no forged words. */
    ghost predicate Readable(s: set<Mem>)
      reads heap`cells, s`data, s`flags
    {
      forall m | m in s :: Sized(m) && (!IsPointerless(m.flags) ==> NoForgedWords(m))
    }

    /** One iteration of the mark loop (src/sgc.c:609-621), at the k-th object. */
    method MarkObject(mem: Mem, ghost k: nat, ghost g: Graph<Mem>)
      requires Walking() && Inv(Abs(), k) && k < |scans| && scans[k] == mem
      requires g == References(Stamped()) && Closed(Abs(), g) && Readable(Nodes())
      modifies `fromList, `froms, `scanList, `scans, mem`color, Nodes()`next, Nodes()`prev
      ensures Walking() && Stamped() == old(Stamped()) && Nodes() == old(Nodes())
      ensures Abs() == ScanObject(old(Abs()), mem, g)
    {
      hide Allocator.Valid, Ring, NoDup, RefsIn, NotForged, Inv, Known, Evolves, Closed, References, IsPointerless;
      assert mem in Nodes();
      ghost var m := Abs();
      BlackenKnown(m, k, g);
      ReferencesAt(mem, Stamped());
      CanPaint(mem, k);
      Paint(mem, BLACK);
      if !IsPointerless(mem.flags) {
        ScanMem(mem, k);
      }
    }

    /** One iteration of the mark loop and the step to the next node. */
    method MarkNext(mem: Mem, ghost k: nat, ghost g: Graph<Mem>) returns (next: Mem?)
      requires Walking() && Inv(Abs(), k) && k < |scans| && scans[k] == mem
      requires g == References(Stamped()) && Closed(Abs(), g) && Readable(Nodes())
      modifies `fromList, `froms, `scanList, `scans, mem`color, Nodes()`next, Nodes()`prev
      ensures Walking() && Stamped() == old(Stamped()) && Nodes() == old(Nodes())
      ensures g == References(Stamped()) && Readable(Nodes())
      ensures Inv(Abs(), k + 1) && Closed(Abs(), g) && |froms| + |scans| == old(|froms| + |scans|)
      ensures MarkFrom(Abs(), k + 1, g) == old(MarkFrom(Abs(), k, g))
      ensures if next == scanList then k + 1 == |scans| && Abs() == MarkFrom(Abs(), k + 1, g)
              else k + 1 < |scans| && next == scans[k + 1]
    {
      hide Allocator.Valid, Ring, Inv, Known, Closed, References, ScanObject, Evolves, NotForged, Readable, MarkFrom;
      hide Owned, Disjoint, Stamped, Colors;
      MarkStep(Abs(), k, g);
      MarkObject(mem, k, g);
      NextInRing(scans, k);
      next := mem.next;
    }

    /** The mark loop (src/sgc.c:606-628); in this build `sgc_handle_messages` finds nothing. */
    method MarkLoop()
      requires Walking() && Inv(Abs(), 0)
      requires Closed(Abs(), References(Stamped())) && Readable(Nodes())
      modifies `fromList, `froms, `scanList, `scans, Nodes()`color, Nodes()`next, Nodes()`prev
      ensures Walking() && Stamped() == old(Stamped()) && Nodes() == old(Nodes())
      ensures Abs() == MarkFrom(old(Abs()), 0, old(References(Stamped())))
    {
      hide Allocator.Valid, Ring, Inv, Known, Closed, References, ScanObject, Evolves, NotForged, Readable, Stamped, Owned, Disjoint;
      ghost var m, g := Abs(), References(Stamped());
      var scanPtr := scanList;
      ghost var k := 0;
      while scanPtr != null
        invariant Walking() && Stamped() == old(Stamped()) && Nodes() == old(Nodes())
        invariant g == References(Stamped()) && Readable(Nodes())
        invariant if scanPtr == null then scans == [] && k == 0 else k < |scans| && scanPtr == scans[k]
        invariant Inv(Abs(), k) && Closed(Abs(), g) && MarkFrom(Abs(), k, g) == MarkFrom(m, 0, g)
        decreases |froms| + |scans| - k
      {
        scanPtr := MarkNext(scanPtr, k, g);
        k := k + 1;
        if scanPtr == scanList {
          break;
        }
      }
    }

    // ----- Roots -----

    /** The object that the i-th root handle denotes, unless it is RED. */
    ghost function RootHit(st: set<Mem>, red: set<Mem>, i: nat): seq<Mem>
      requires i < |roots|
      reads `roots, heap`cells
    {
      if roots[i].None? then [] else
      var h := Hit(st, roots[i].value);
      if h != [] && h[0] in red then [] else h
    }

    ghost predicate IsRootTable(st: set<Mem>, red: set<Mem>, rs: seq<seq<Mem>>)
      reads `roots, heap`cells
    {
      |rs| == |roots| && forall i :: 0 <= i < |rs| ==> rs[i] == RootHit(st, red, i)
    }

    ghost function RootTable(st: set<Mem>, red: set<Mem>, n: nat): (rs: seq<seq<Mem>>)
      requires n <= |roots|
      reads `roots, heap`cells
      ensures |rs| == n && forall i :: 0 <= i < n ==> rs[i] == RootHit(st, red, i)
    {
      if n == 0 then [] else RootTable(st, red, n - 1) + [RootHit(st, red, n - 1)]
    }

    /** The objects that the root handles denote and that are not RED, in table order. */
    ghost function RootHits(): seq<Mem>
      reads `roots, heap`cells, heap.cells.Values`color, heap.cells.Values`dummy, `froms, `scans
    {
      Flat(RootTable(Stamped(), RedCells(Abs()), |roots|), |roots|)
    }

    ghost predicate RootsNotForged()
      reads `roots, heap`cells
    {
      forall i :: 0 <= i < |roots| && roots[i].Some? ==> NotForged(roots[i].value)
    }

    /** What a root denotes is registered or RED. */
    ghost predicate RootsKnown(st: set<Mem>, m: Marking<Mem>)
      reads `roots, heap`cells
    {
      forall i :: 0 <= i < |roots| && roots[i].Some? ==> Known(m, Hit(st, roots[i].value))
    }

    lemma {:induction false} RootHitsLive(st: set<Mem>, m: Marking<Mem>, rs: seq<seq<Mem>>, n: nat)
      requires n <= |rs| && IsRootTable(st, RedCells(m), rs) && RootsKnown(st, m)
      ensures Live(m, Flat(rs, n))
    {
      if n > 0 {
        RootHitsLive(st, m, rs, n - 1);
      }
    }

    /** The body of the root loop (src/sgc.c:586-595) for the object `mem`.  The result is
        false when the program dereferences NULL. */
    method AddRootObject(mem: Mem) returns (ok: bool)
      requires Walking() && Inv(Abs(), 0) && Live(Abs(), [mem])
      modifies `fromList, `froms, `scanList, `scans, mem`color, Nodes()`next, Nodes()`prev
      ensures ok <==> !(old(scans) != [] && old(scans)[0] == mem && old(scans) != [mem])
      ensures ok ==> Walking() && Stamped() == old(Stamped()) && Nodes() == old(Nodes())
      ensures ok ==> Abs() == AddRoot(old(Abs()), mem)
    {
      hide Allocator.Valid, Ring, Inv, Live;
      LiveCell(mem);
      if scans != [] { NextInRing(scans, 0); }
      Paint(mem, GRAY);
      if mem == scanList && mem.next != mem {
        RemoveFault(mem);
        assert scanList.prev == null;  // and src/sgc_dlist.c:42 dereferences it
        return false;
      }
      Move(mem);
      return true;
    }

    method RemoveFault(mem: Mem)
      requires Walking() && mem == scanList && |scans| > 1
      modifies Elements(scans)`next, Elements(scans)`prev
      ensures mem.prev == null
    {
      var _ := RemoveNode(mem, scans, 0);
    }

    lemma LiveCell(mem: Mem)
      requires Walking() && Inv(Abs(), 0) && Live(Abs(), [mem])
      ensures heap.Has(mem) && mem.color < COLOR_MAX && (mem in froms || mem in scans)
    {
      hide Allocator.Valid, Ring;
      assert mem in [mem] && mem in Nodes();
    }

    /** The i-th iteration of the root loop, after the objects `xs`. */
    method MarkRoot(i: nat, ghost m: Marking<Mem>, ghost xs: seq<Mem>, ghost x: seq<Mem>) returns (ok: bool)
      requires Walking() && i < |roots| && x == RootHit(Stamped(), RedCells(m), i)
      requires Inv(m, 0) && m.scan == [] && Live(m, xs) && Live(m, x) && !HeadRepeats(xs) && Abs() == AddRoots(m, xs)
      requires roots[i].Some? ==> NotForged(roots[i].value)
      modifies `fromList, `froms, `scanList, `scans, Nodes()`color, Nodes()`next, Nodes()`prev
      ensures ok <==> !HeadRepeats(xs + x)
      ensures ok ==> Walking() && Stamped() == old(Stamped()) && Nodes() == old(Nodes())
      ensures ok ==> Abs() == AddRoots(m, xs + x)
    {
      hide Allocator.Valid, Ring, Inv, HeadRepeats, AddRoot, AddRoots, HeaderOk, NotForged, Live;
      assert xs + [] == xs;
      if roots[i].None? {
        return true;
      }
      var ptr := roots[i].value;
      if ptr != 0 {
        ValidIsHit(ptr);
        RootTest(ptr, m, xs);
        var valid := heap.IsValid(ptr - HEADER);
        if heap.HeaderAt(ptr - HEADER).color != RED && valid {
          var mem := heap.cells[ptr - HEADER];
          NextRoot(m, xs, mem);
          LiveCell(mem);
          ok := AddRootObject(mem);
          return;
        }
      }
      return true;
    }

    lemma RootTest(w: int, m: Marking<Mem>, xs: seq<Mem>)
      requires heap.Valid() && Inv(m, 0) && m.scan == [] && Live(m, xs) && !HeadRepeats(xs) && Abs() == AddRoots(m, xs)
      ensures var h := Hit(Stamped(), w);
        h != [] ==> h == [heap.cells[w - HEADER]] && (heap.HeaderAt(w - HEADER).color == RED <==> h[0] in RedCells(m))
    {
      hide Allocator.Valid, AddRoots;
      AddRootsKeep(m, xs);
      EvolvesRed(m, Abs(), 0);
      if w - HEADER in heap.cells {
        var c := heap.cells[w - HEADER];
        assert c in heap.cells.Values;
        assert c in RedCells(Abs()) <==> c.color == RED;
      }
    }

    /** The state of the root loop before the i-th handle; `m` is the state at its start. */
    ghost predicate RootLoop(i: nat, m: Marking<Mem>, st: set<Mem>, rs: seq<seq<Mem>>)
      reads this, heap, heap.owners, heap.areaHeap, heap.interval, heap.varHeap, heap.idle`next, heap.idle`prev
      reads froms`next, froms`prev, scans`next, scans`prev
      reads heap.cells.Values`color, heap.cells.Values`dummy
    {
      && Walking() && Stamped() == st && RootsNotForged() && IsRootTable(st, RedCells(m), rs) && i <= |rs|
      && Inv(m, 0) && m.scan == [] && Live(m, Flat(rs, |rs|))
      && !HeadRepeats(Flat(rs, i)) && Abs() == AddRoots(m, Flat(rs, i))
    }

    method MarkRootNext(i: nat, ghost m: Marking<Mem>, ghost st: set<Mem>, ghost rs: seq<seq<Mem>>) returns (ok: bool)
      requires i < |rs| && RootLoop(i, m, st, rs)
      modifies `fromList, `froms, `scanList, `scans, Nodes()`color, Nodes()`next, Nodes()`prev
      ensures ok ==> RootLoop(i + 1, m, st, rs) && Nodes() == old(Nodes())
      ensures !ok ==> HeadRepeats(Flat(rs, |rs|))
    {
      hide Allocator.Valid, Ring, Inv, HeadRepeats, AddRoots, Hit, NotForged, Owned, Disjoint;
      FlatPrefix(rs, i, |rs|);
      FlatPrefix(rs, i + 1, |rs|);
      ok := MarkRoot(i, m, Flat(rs, i), rs[i]);
    }

    lemma RootLoopStart(rs: seq<seq<Mem>>)
      requires Walking() && Inv(Abs(), 0) && scans == [] && RootsNotForged() && RootsKnown(Stamped(), Abs())
      requires IsRootTable(Stamped(), RedCells(Abs()), rs)
      ensures RootLoop(0, Abs(), Stamped(), rs)
    {
      hide Allocator.Valid, Ring, Inv, Hit, NotForged, Owned, Disjoint, Known;
      RootHitsLive(Stamped(), Abs(), rs, |rs|);
      NoRepeatYet(Flat(rs, 0));
    }

    /** The root loop (src/sgc.c:572-597).  It has no test for WHITE, and it fails exactly
        when the first root object comes back after a different one. */
    method MarkRoots() returns (ok: bool)
      requires Walking() && Inv(Abs(), 0) && scans == [] && RootsNotForged() && RootsKnown(Stamped(), Abs())
      modifies `fromList, `froms, `scanList, `scans, Nodes()`color, Nodes()`next, Nodes()`prev
      ensures ok <==> !HeadRepeats(old(RootHits()))
      ensures ok ==> Walking() && Stamped() == old(Stamped()) && Nodes() == old(Nodes())
      ensures ok ==> Abs() == AddRoots(old(Abs()), old(RootHits()))
    {
      hide Allocator.Valid, Ring, Inv, HeadRepeats, AddRoots, Hit, NotForged, Owned, Disjoint, RootHit, Live;
      ghost var m, st, rs := Abs(), Stamped(), RootTable(Stamped(), RedCells(Abs()), |roots|);
      RootLoopStart(rs);
      for i := 0 to |roots|
        invariant RootLoop(i, m, st, rs) && Nodes() == old(Nodes())
      {
        ok := MarkRootNext(i, m, st, rs);
        if !ok {
          return false;
        }
      }
      ok := true;
    }

    /** `sgc_mark` without stack scanning. */
    method MarkAll() returns (ok: bool)
      requires Walking() && Inv(Abs(), 0) && scans == [] && RootsNotForged() && RootsKnown(Stamped(), Abs())
      requires Closed(Abs(), References(Stamped())) && Readable(Nodes()) && Live(Abs(), RootHits())
      modifies `fromList, `froms, `scanList, `scans, Nodes()`color, Nodes()`next, Nodes()`prev
      ensures ok <==> !HeadRepeats(old(RootHits()))
      ensures ok ==> Walking() && Stamped() == old(Stamped()) && Nodes() == old(Nodes())
      ensures ok ==> Abs() == Mark(old(Abs()), old(RootHits()), old(References(Stamped())))
    {
      hide Allocator.Valid, Ring, Inv, Known, Closed, References, Evolves, NotForged, Stamped, Owned, Disjoint;
      hide RootHits, HeadRepeats, AddRoots, Live, MarkFrom;
      ghost var m, hits := Abs(), RootHits();
      AddRootsKeep(m, hits);
      EvolvesClosed(m, AddRoots(m, hits), 0, References(Stamped()));
      ok := MarkRoots();
      if ok {
        MarkLoop();
      }
    }

    // ----- Clearing -----

    ghost predicate Colored(s: seq<Mem>)
      reads s`color
    {
      forall m | m in s :: m.color < COLOR_MAX
    }

    /** One iteration of `sgc_clear`, at the i-th node. */
    method ClearNext(node: Mem, ghost i: nat, ghost m: Marking<Mem>) returns (next: Mem?)
      requires Walking() && i < |froms| && froms[i] == node && Colored(froms)
      requires m.from == froms && node in m.color && Abs() == Cleared(m, i)
      modifies node`color
      ensures Walking() && Stamped() == old(Stamped()) && Colored(froms) && Abs() == Cleared(m, i + 1)
      ensures if next == fromList then i + 1 == |froms| else i + 1 < |froms| && next == froms[i + 1]
    {
      hide Allocator.Valid, Linked, Disjoint, Stamped;
      ClearedNext(m, i);
      NextInRing(froms, i);
      assert heap.Has(node);
      if node.color != RED {
        Paint(node, WHITE);
      }
      next := node.next;
    }

    /** `sgc_clear` */
    method Clear()
      requires Walking() && Colored(froms)
      modifies Elements(froms)`color
      ensures Walking() && Stamped() == old(Stamped())
      ensures Abs() == Cleared(old(Abs()), |froms|)
    {
      hide Allocator.Valid, Ring, Disjoint, Stamped, Cleared;
      ghost var m := Abs();
      var node := fromList;
      ghost var i := 0;
      ClearedNone(m);
      assert forall x | x in froms :: heap.Has(x);
      while node != null
        invariant Walking() && Stamped() == old(Stamped()) && Colored(froms) && m.from == froms
        invariant if node == null then froms == [] && i == 0 else i < |froms| && froms[i] == node
        invariant Abs() == Cleared(m, i)
        decreases |froms| - i
      {
        node := ClearNext(node, i, m);
        i := i + 1;
        if node == fromList {
          break;
        }
      }
    }

    // ----- Sweeping -----

    ghost function SpareBlocks(): Spare
      reads heap`free, heap`idle, heap.varHeap
    {
      Spare(heap.free, heap.varHeap.blocks, heap.idle)
    }

    /** The state of the sweep before its i-th node.  The links of the nodes that are still
        to come have not been touched; those of freed nodes belong to the free lists. */
    ghost predicate SweepLoop(i: nat)
      reads this, heap, heap.owners, heap.areaHeap, heap.interval, heap.varHeap, heap.idle`next, heap.idle`prev
      reads froms`next, scans`next, scans`prev
    {
      && heap.Valid() && Owned(scans) && Disjoint(froms, scans) && IsList(scanList, scans)
      && NoDup(froms) && i <= |froms| && (froms != [] ==> fromList == froms[0])
      && (forall j {:trigger froms[j]} :: i <= j < |froms| ==> heap.Has(froms[j]) && froms[j] !in heap.idle)
      && (forall j {:trigger froms[j].next} :: i <= j < |froms| ==> froms[j].next == froms[NextIndex(froms, j)])
    }

    /** One iteration of `sgc_sweep`, at the i-th node; `doomed` are the nodes to be freed. */
    method SweepNext(node: Mem, findLeaks: bool, ghost i: nat, ghost doomed: set<Mem>) returns (next: Mem?)
      requires SweepLoop(i) && i < |froms| && froms[i] == node
      requires node in doomed <==> !findLeaks || node.color == RED
      modifies heap`freeList, heap`free, heap`idle, heap.varHeap, heap.idle`next, heap.idle`prev, node`next, node`prev
      ensures SweepLoop(i + 1)
      ensures SpareBlocks() == Freed(old(SpareBlocks()), if node in doomed then [node] else [])
      ensures next == froms[NextIndex(froms, i)]
    {
      hide Allocator.Valid, Ring, Owned, Disjoint, Freed;
      FreedNone(SpareBlocks());
      next := node.next;
      if findLeaks {
        if node.color == WHITE {
        } else if node.color == RED {
          FreeNode(node, i);
        }
      } else {
        FreeNode(node, i);
      }
    }

    method FreeNode(node: Mem, ghost i: nat)
      requires SweepLoop(i) && i < |froms| && froms[i] == node
      modifies heap`freeList, heap`free, heap`idle, heap.varHeap, heap.idle`next, heap.idle`prev, node`next, node`prev
      ensures SweepLoop(i + 1) && SpareBlocks() == Freed(old(SpareBlocks()), [node])
    {
      hide Ring, Allocator.Consistent, Freed;
      assert node in froms && node !in scans;
      ghost var sp := SpareBlocks();
      heap.Free(node);
      FreedOne(sp, node);
      assert Owned(scans) && IsList(scanList, scans);
    }

    method SweepOne(node: Mem, findLeaks: bool, ghost i: nat, ghost doomed: set<Mem>, ghost sp: Spare) returns (next: Mem?)
      requires SweepLoop(i) && i < |froms| && froms[i] == node
      requires node in doomed <==> !findLeaks || node.color == RED
      requires SpareBlocks() == Freed(sp, Filter(froms[..i], doomed))
      modifies heap`freeList, heap`free, heap`idle, heap.varHeap, heap.idle`next, heap.idle`prev, node`next, node`prev
      ensures SweepLoop(i + 1) && SpareBlocks() == Freed(sp, Filter(froms[..i + 1], doomed))
      ensures if next == fromList then i + 1 == |froms| else i + 1 < |froms| && next == froms[i + 1]
    {
      hide Allocator.Valid, Ring, Owned, Disjoint, Freed;
      SweepStep(sp, froms, doomed, i);
      next := SweepNext(node, findLeaks, i, doomed);
    }

    /** The nodes that `sgc_sweep` frees. */
    ghost function Doomed(findLeaks: bool): set<Mem>
      reads `froms, Elements(froms)`color
    {
      set m | m in froms && (!findLeaks || m.color == RED)
    }

    /** `sgc_sweep` */
    method Sweep(findLeaks: bool)
      requires Walking()
      modifies heap`freeList, heap`free, heap`idle, heap.varHeap
      modifies heap.idle`next, heap.idle`prev, Elements(froms)`next, Elements(froms)`prev
      ensures heap.Valid() && Owned(scans) && IsList(scanList, scans)
      ensures SpareBlocks() == Freed(old(SpareBlocks()), Filter(froms, Doomed(findLeaks)))
    {
      hide Allocator.Valid, Ring, Owned, Disjoint, Freed, SweepLoop, Walking, Filter;
      ghost var sp, doomed := SpareBlocks(), Doomed(findLeaks);
      var node := fromList;
      ghost var i := 0;
      SweepStart(doomed);
      while node != null
        invariant i <= |froms| && SweepLoop(i) && SpareBlocks() == Freed(sp, Filter(froms[..i], doomed))
        invariant if node == null then froms == [] && i == 0 else i < |froms| && froms[i] == node
        decreases |froms| - i
      {
        FreedWithin(sp, froms, i, doomed);
        node := SweepOne(node, findLeaks, i, doomed, sp);
        i := i + 1;
        if node == fromList {
          break;
        }
      }
      assert froms[..|froms|] == froms;
      SweepEnd();
    }

    lemma SweepEnd()
      requires SweepLoop(|froms|)
      ensures heap.Valid() && Owned(scans) && IsList(scanList, scans)
    {
      hide Allocator.Valid, Ring, Owned;
    }

    lemma SweepStart(doomed: set<Mem>)
      requires Walking()
      ensures fromList == if froms == [] then null else froms[0]
      ensures SweepLoop(0) && SpareBlocks() == Freed(SpareBlocks(), Filter(froms[..0], doomed))
    {
      hide Allocator.Valid;
      FreedNone(SpareBlocks());
    }

    // ----- Between cycles -----

    /** The registered objects, as a cycle will find them. */
    ghost function Quiet(): Marking<Mem>
      reads `scans, `news, heap`cells, heap.cells.Values`color
    {
      Marking(scans + news, [], Colors())
    }

    ghost predicate ListsOk()
      reads this, heap, heap.owners, heap.areaHeap, heap.interval, heap.varHeap, heap.idle`next, heap.idle`prev
      reads news`next, news`prev, scans`next, scans`prev
    {
      && heap.Valid() && Owned(news) && Owned(scans) && Disjoint(scans, news)
      && IsList(newList, news) && IsList(scanList, scans) && froms == []
    }

    /** `sgc_new_object` stamped the header of every registered object, and no registered
        object is WHITE. */
    ghost predicate HeadersOk()
      reads `news, `scans, news`color, news`dummy, scans`color, scans`dummy
    {
      && (forall m | m in scans :: WHITE < m.color < COLOR_MAX && m.dummy == DUMMY_VALUE)
      && (forall m | m in news :: WHITE < m.color < COLOR_MAX && m.dummy == DUMMY_VALUE)
    }

    /** Every cell is in exactly one place: free, registered, or lost. */
    ghost predicate Partition(registered: set<Mem>)
      reads `lost, heap`cells, heap`idle
    {
      && (forall a | a in heap.cells :: var m := heap.cells[a]; m in heap.idle || m in registered || m in lost)
      && (forall m | m in lost :: heap.Has(m) && m !in heap.idle && m !in registered)
    }

    ghost predicate CellsSized()
      reads heap`cells, heap.cells.Values`data
    {
      forall m | m in heap.cells.Values :: Sized(m)
    }

    ghost predicate Valid()
      reads this, heap, heap.owners, heap.areaHeap, heap.interval, heap.varHeap, heap.idle`next, heap.idle`prev
      reads news`next, news`prev, news`color, news`dummy, scans`next, scans`prev, scans`color, scans`dummy
      reads heap.cells.Values`data, Elements(scans + news)`bytesize
    {
      && |roots| == MAX_ROOTS && ListsOk() && HeadersOk() && Partition(Elements(scans + news)) && CellsSized()
      && AllFit(Elements(scans + news))
    }

    /** What the collector must assume of the words it reads: one that passes the validity
        test denotes a registered object or a RED cell. */
    ghost predicate WordsOk()
      reads `roots, `news, `scans, heap`cells
      reads heap.cells.Values`data, heap.cells.Values`flags, heap.cells.Values`color, heap.cells.Values`dummy
      reads Elements(scans + news)`data, Elements(scans + news)`flags
    {
      && Closed(Quiet(), References(Stamped())) && Readable(Elements(scans + news))
      && RootsNotForged() && RootsKnown(Stamped(), Quiet())
    }

    method JoinLists() returns (joined: Mem?)
      requires ListsOk()
      modifies Elements(scans)`next, Elements(scans)`prev, Elements(news)`next, Elements(news)`prev
      ensures heap.Valid() && IsList(joined, scans + news) && Owned(scans + news)
    {
      hide Allocator.Valid, Ring;
      assert Elements(scans) !! heap.idle && Elements(news) !! heap.idle;
      joined := Join(scanList, newList, scans, news);
    }

    /** Lines 364-369 of src/sgc.c. */
    method Gather()
      requires ListsOk()
      modifies `fromList, `scanList, `newList, `froms, `scans, `news
      modifies Elements(scans)`next, Elements(scans)`prev, Elements(news)`next, Elements(news)`prev
      ensures Walking() && froms == old(scans) + old(news) && scans == [] && news == []
      ensures newList == null
    {
      hide Allocator.Valid, Ring;
      var joined := JoinLists();
      fromList, newList, scanList, froms, scans, news := joined, null, null, scans + news, [], [];
      EmptyList();
    }

    /** The state of a cycle that is ready to mark. */
    ghost predicate Ready(st: set<Mem>)
      reads this, heap, heap.owners, heap.areaHeap, heap.interval, heap.varHeap, heap.idle`next, heap.idle`prev
      reads froms`next, froms`prev, scans`next, scans`prev
      reads heap.cells.Values`data, heap.cells.Values`flags, heap.cells.Values`color, heap.cells.Values`dummy
      reads Nodes()`data, Nodes()`flags
    {
      && Walking() && Stamped() == st && Inv(Abs(), 0) && scans == [] && news == [] && newList == null
      && Closed(Abs(), References(st)) && Readable(Nodes())
      && RootsNotForged() && RootsKnown(Stamped(), Abs()) && Live(Abs(), RootHits())
    }

    lemma ClearedIsReady(q: Marking<Mem>, st: set<Mem>)
      requires Walking() && Stamped() == st && scans == [] && news == [] && newList == null
      requires q.from == froms && q.scan == [] && (forall m | m in froms :: m in q.color)
      requires Abs() == Cleared(q, |q.from|)
      requires Closed(q, References(st)) && Readable(Nodes()) && RootsNotForged() && RootsKnown(st, q)
      ensures Ready(st) && RedCells(Abs()) == RedCells(q)
    {
      hide Allocator.Valid, Linked, Owned, Disjoint, Cleared, Closed, Known, Inv, Live, References, RootHit, NotForged, Readable;
      ClearedInv(q, References(st), []);
      forall i | 0 <= i < |roots| && roots[i].Some?
        ensures Known(Abs(), Hit(st, roots[i].value))
      {
        ClearedKnown(q, Hit(st, roots[i].value));
      }
      RootHitsLive(st, Abs(), RootTable(st, RedCells(Abs()), |roots|), |roots|);
    }

    lemma QuietFacts()
      requires Valid()
      ensures ListsOk() && Colored(scans + news) && forall m | m in scans + news :: m in Colors()
    {
      hide Allocator.Valid, Ring;
      forall m | m in scans + news
        ensures m.color < COLOR_MAX && m in Colors()
      {
        assert heap.Has(m);
        assert heap.cells[m.addr] in heap.cells.Values;
      }
    }

    lemma SameTable(st: set<Mem>, red: set<Mem>, rs: seq<seq<Mem>>)
      requires IsRootTable(st, red, rs)
      ensures RootTable(st, red, |roots|) == rs
    {
    }

    lemma RootTableOf(st: set<Mem>, red: set<Mem>)
      ensures IsRootTable(st, red, RootTable(st, red, |roots|))
    {
    }

    /** The beginning of `sgc_run` up to and including `sgc_clear`. */
    method Begin()
      requires Valid() && WordsOk()
      modifies `fromList, `scanList, `newList, `froms, `scans, `news
      modifies Elements(scans)`next, Elements(scans)`prev, Elements(news)`next, Elements(news)`prev, Elements(scans + news)`color
      ensures Ready(old(Stamped())) && Abs() == Cleared(old(Quiet()), |old(Quiet()).from|)
      ensures RootHits() == old(RootHits())
    {
      hide Allocator.Valid, Ring, Owned, Disjoint, Cleared, Closed, Known, Inv, Live, References, NotForged, IsRootTable;
      hide Readable, Stamped, HeadersOk, Partition, CellsSized, AllFit, Walking, RootTable, RootHit;
      ghost var q, st := Quiet(), Stamped();
      ghost var rs := RootTable(st, RedCells(q), |roots|);
      RootTableOf(st, RedCells(q));
      QuietFacts();
      Gather();
      Clear();
      assert Nodes() == Elements(q.from);
      ClearedIsReady(q, st);
      SameTable(st, RedCells(q), rs);
    }

    // ----- The end of a cycle -----

    /** The scan list after marking. */
    ghost function Survivors(): Marking<Mem>
      reads `scans, heap`cells, heap.cells.Values`color
    {
      Marking(scans, [], Colors())
    }

    /** Every word of a survivor denotes a survivor or a RED cell. */
    ghost predicate Settled()
      reads `roots, `scans, heap`cells
      reads heap.cells.Values`data, heap.cells.Values`flags, heap.cells.Values`color, heap.cells.Values`dummy
      reads Elements(scans)`data, Elements(scans)`flags
    {
      && Closed(Survivors(), References(Stamped())) && Readable(Elements(scans))
      && RootsNotForged() && RootsKnown(Stamped(), Survivors())
    }

    lemma {:induction false} RootInTable(st: set<Mem>, red: set<Mem>, i: nat, rs: seq<seq<Mem>>)
      requires IsRootTable(st, red, rs) && i < |rs|
      ensures forall x | x in RootHit(st, red, i) :: x in Flat(rs, |rs|)
    {
      FlatPrefix(rs, i, |rs|);
    }

    lemma ScannedSettles(r: Marking<Mem>, g: Graph<Mem>)
      requires Scanned(r, |r.scan|, g)
      ensures Closed(Marking(r.scan, [], r.color), g)
    {
      var s := Marking(r.scan, [], r.color);
      forall x | x in r.scan
        ensures Known(s, RefsOf(g, x))
      {
        var i :| 0 <= i < |r.scan| && r.scan[i] == x;
        assert AllIn(r, RefsOf(g, r.scan[i]));
      }
    }

    lemma RootSurvives(m: Marking<Mem>, st: set<Mem>, rs: seq<seq<Mem>>, i: nat)
      requires IsRootTable(st, RedCells(m), rs) && i < |rs| && roots[i].Some? && Known(m, Hit(st, roots[i].value))
      requires Elements(Flat(rs, |rs|)) <= Elements(scans) && RedCells(m) == RedCells(Abs())
      ensures Known(Survivors(), Hit(st, roots[i].value))
    {
      RootInTable(st, RedCells(m), i, rs);
      var h := Hit(st, roots[i].value);
      if h != [] {
        assert h[0] in h;
        if h[0] in RedCells(m) {
          assert h[0] in RedCells(Abs());
        } else {
          assert h[0] in RootHit(st, RedCells(m), i);
          assert h[0] in Elements(Flat(rs, |rs|)) && h[0] in Elements(scans);
          assert h[0] in m.color;
        }
      }
    }

    /** What marking leaves; `m` is the state before it and `rs` what the roots denoted. */
    lemma MarkSettles(m: Marking<Mem>, st: set<Mem>, rs: seq<seq<Mem>>)
      requires Inv(m, 0) && m.scan == [] && Closed(m, References(st)) && Live(m, Flat(rs, |rs|))
      requires Stamped() == st && IsRootTable(st, RedCells(m), rs) && RootsKnown(st, m) && RootsNotForged()
      requires Abs() == Mark(m, Flat(rs, |rs|), References(st)) && Readable(Nodes())
      ensures Inv(Abs(), |scans|) && Settled() && Evolves(m, Abs(), 0)
    {
      hide Closed, Inv, Evolves, Scanned, References, NotForged, Live, Mark, Known, Flat, Hit, RedCells, RootTable;
      MarkKeeps(m, Flat(rs, |rs|), References(st));
      EvolvesRed(m, Abs(), 0);
      ScannedSettles(Abs(), References(st));
      forall i | 0 <= i < |roots| && roots[i].Some?
        ensures Known(Survivors(), Hit(st, roots[i].value))
      {
        RootSurvives(m, st, rs, i);
      }
    }

    /** The state of a cycle that is ready to be swept. */
    ghost predicate Marked()
      reads this, heap, heap.owners, heap.areaHeap, heap.interval, heap.varHeap, heap.idle`next, heap.idle`prev
      reads froms`next, froms`prev, scans`next, scans`prev, scans`color, scans`dummy
      reads heap.cells.Values`data, Elements(scans)`bytesize
    {
      && Walking() && news == [] && newList == null && |roots| == MAX_ROOTS && CellsSized() && AllFit(Elements(scans))
      && (forall m | m in scans :: WHITE < m.color < COLOR_MAX && m.dummy == DUMMY_VALUE)
      && Partition(Nodes())
    }

    /** After the sweep the from list is gone; what it kept is on no list any more. */
    ghost method Retire(doomed: set<Mem>, idle0: set<Mem>)
      requires heap.Valid() && Owned(scans) && IsList(scanList, scans)
      requires news == [] && newList == null && |roots| == MAX_ROOTS && CellsSized() && AllFit(Elements(scans))
      requires forall m | m in scans :: WHITE < m.color < COLOR_MAX && m.dummy == DUMMY_VALUE
      requires forall a | a in heap.cells :: var m := heap.cells[a]; m in idle0 || m in Nodes() || m in lost
      requires forall m | m in lost :: heap.Has(m) && m !in idle0 && m !in Nodes()
      requires forall m | m in froms :: heap.Has(m) && m !in idle0 && m !in scans
      requires doomed <= Elements(froms) && heap.idle == idle0 + doomed
      modifies `froms, `lost
      ensures Valid() && lost == old(lost) + (Elements(old(froms)) - doomed)
    {
      hide Allocator.Valid, Ring, CellsSized, AllFit;
      assert scans + news == scans;
      lost, froms := lost + (Elements(froms) - doomed), [];
      EmptyList();
    }

    /** The sweep and what holds when the program runs again. */
    method Finish(findLeaks: bool)
      requires Marked()
      modifies `froms, `lost, heap`freeList, heap`free, heap`idle, heap.varHeap
      modifies heap.idle`next, heap.idle`prev, Elements(froms)`next, Elements(froms)`prev
      ensures Valid()
      ensures SpareBlocks() == Freed(old(SpareBlocks()), Filter(old(froms), old(Doomed(findLeaks))))
      ensures lost == old(lost) + (old(Elements(froms) - Doomed(findLeaks)))
    {
      hide Allocator.Valid, Ring, CellsSized, AllFit, Pushed, Large;
      ghost var doomed, idle0 := Doomed(findLeaks), heap.idle;
      FilterElements(froms, doomed);
      Sweep(findLeaks);
      Retire(doomed, idle0);
    }

    /** The state of a cycle about to mark or about to sweep, apart from the lists. */
    ghost predicate Housed(st: set<Mem>)
      reads this, heap`cells, heap`idle, heap.cells.Values`color, heap.cells.Values`dummy, heap.cells.Values`data
      reads Nodes()`bytesize
    {
      && news == [] && newList == null && |roots| == MAX_ROOTS && CellsSized() && AllFit(Nodes())
      && Stamped() == st && Nodes() <= st && Partition(Nodes())
    }

    lemma HousedIsMarked(st: set<Mem>)
      requires Walking() && Housed(st) && Inv(Abs(), |scans|)
      ensures Marked()
    {
      hide Allocator.Valid, Ring, Owned, Disjoint, Partition, CellsSized, Fits;
      forall m | m in scans
        ensures WHITE < m.color < COLOR_MAX && m.dummy == DUMMY_VALUE
      {
        var i :| 0 <= i < |scans| && scans[i] == m;
        assert m in Nodes() && m in Stamped();
        assert m in Colors();
      }
    }

    /** Marking, from a state that is ready for it, and what it leaves. */
    method MarkReady(ghost c: Marking<Mem>, ghost st: set<Mem>) returns (ok: bool)
      requires Ready(st) && Housed(st) && c == Abs()
      modifies `fromList, `froms, `scanList, `scans, Nodes()`color, Nodes()`next, Nodes()`prev
      ensures ok <==> !HeadRepeats(old(RootHits()))
      ensures ok ==> Marked() && Nodes() == old(Nodes())
      ensures ok ==> Inv(c, 0) && c.scan == [] && Closed(c, old(References(st))) && Live(c, old(RootHits()))
      ensures ok ==> Abs() == Mark(c, old(RootHits()), old(References(st))) && Inv(Abs(), |scans|) && Settled()
    {
      hide Allocator.Valid, Ring, Owned, Disjoint, Cleared, Closed, Known, Inv, Live, References, NotForged, IsRootTable;
      hide Readable, Stamped, RootTable, RootHit, RootsKnown, RootsNotForged, Flat, Settled, Mark, HeadRepeats, Walking;
      hide Partition, CellsSized, AllFit, Marked;
      ghost var rs := RootTable(st, RedCells(c), |roots|);
      RootTableOf(st, RedCells(c));
      ok := MarkAll();
      if ok {
        MarkSettles(c, st, rs);
        HousedIsMarked(st);
      }
    }

    method BeginCycle(ghost q: Marking<Mem>, ghost hits: seq<Mem>, ghost g: Graph<Mem>, ghost st: set<Mem>)
      requires Valid() && WordsOk() && q == Quiet() && hits == RootHits() && g == References(st) && st == Stamped()
      modifies `fromList, `scanList, `newList, `froms, `scans, `news
      modifies Elements(scans)`next, Elements(scans)`prev, Elements(news)`next, Elements(news)`prev, Elements(scans + news)`color
      ensures Ready(st) && Housed(st) && Nodes() == Elements(q.from)
      ensures Abs() == Cleared(q, |q.from|) && RootHits() == hits && References(st) == g
    {
      hide Allocator.Valid, Ring, Owned, Disjoint, Cleared, Closed, Known, Inv, Live, References, NotForged, IsRootTable;
      hide Readable, Stamped, HeadersOk, Partition, CellsSized, AllFit, RootTable, RootHit, RootsKnown, RootsNotForged;
      QuietSpec(q, hits, g, st);
      Begin();
      ClearedLists(q, |q.from|);
      assert Nodes() == Elements(q.from);
    }

    /** What `sgc_run` and the leak search have in common: everything before the sweep.
        The state on entry is `q`; its roots and references are `hits` and `g`. */
    method MarkCycle(ghost q: Marking<Mem>, ghost hits: seq<Mem>, ghost g: Graph<Mem>) returns (ok: bool)
      requires Valid() && WordsOk() && q == Quiet() && hits == RootHits() && g == References(Stamped())
      modifies `fromList, `scanList, `newList, `froms, `scans, `news
      modifies Elements(scans)`next, Elements(scans)`prev, Elements(news)`next, Elements(news)`prev, Elements(scans + news)`color
      ensures CanCycle(q, hits, g) && (ok <==> !HeadRepeats(hits))
      ensures ok ==> Marked() && Settled() && Abs() == CycleOf(q, hits, g)
    {
      hide Allocator.Valid, Ring, Owned, Disjoint, Cleared, Closed, Known, Inv, Live, References, NotForged, IsRootTable;
      hide Readable, Stamped, HeadersOk, Partition, CellsSized, AllFit, RootHits, Settled, Mark, Marked, HeadRepeats, Walking;
      hide Ready, Housed, Valid, WordsOk;
      ghost var st := Stamped();
      QuietSpec(q, hits, g, st);
      BeginCycle(q, hits, g, st);
      ok := MarkReady(Abs(), st);
    }

    lemma QuietSpec(q: Marking<Mem>, hits: seq<Mem>, g: Graph<Mem>, st: set<Mem>)
      requires Valid() && WordsOk() && q == Quiet() && hits == RootHits() && g == References(Stamped()) && st == Stamped()
      ensures CanCycle(q, hits, g) && forall m | m in q.from :: m in st
    {
      hide Allocator.Valid, Linked, Owned, Closed, Live, References, NotForged, Partition, RootHit;
      NoDupConcat(scans, news);
      QuietFacts();
      RootTableOf(st, RedCells(q));
      RootHitsLive(st, q, RootTable(st, RedCells(q), |roots|), |roots|);
    }

    lemma SettledIsWordsOk()
      requires Settled() && news == []
      ensures WordsOk()
    {
      hide Closed, References, Known, NotForged, RootsNotForged;
      assert scans + news == scans;
    }

    /** The last part of both kinds of cycle. */
    method Conclude(findLeaks: bool)
      requires Marked() && Settled()
      modifies `froms, `lost, heap`freeList, heap`free, heap`idle, heap.varHeap
      modifies heap.idle`next, heap.idle`prev, Elements(froms)`next, Elements(froms)`prev
      ensures Valid() && WordsOk() && news == []
      ensures SpareBlocks() == Freed(old(SpareBlocks()), Filter(old(froms), old(Doomed(findLeaks))))
      ensures lost == old(lost) + (old(Elements(froms) - Doomed(findLeaks)))
    {
      hide Valid, Settled, WordsOk, Freed;
      Finish(findLeaks);
      SettledIsWordsOk();
    }

    /** `sgc_run`.  The result is false when the root loop dereferences NULL. */
    method Run() returns (ok: bool)
      requires Valid() && WordsOk()
      modifies `fromList, `scanList, `newList, `froms, `scans, `news, `lost
      modifies heap`freeList, heap`free, heap`idle, heap.varHeap, heap.idle`next, heap.idle`prev
      modifies Elements(scans + news)`next, Elements(scans + news)`prev, Elements(scans + news)`color
      ensures ok <==> !HeadRepeats(old(RootHits()))
      ensures ok ==> Valid() && WordsOk() && news == [] && lost == old(lost)
      ensures ok ==> CanCycle(old(Quiet()), old(RootHits()), old(References(Stamped())))
      ensures ok ==> scans == CycleOf(old(Quiet()), old(RootHits()), old(References(Stamped()))).scan
      ensures ok ==> forall x: Mem :: x in scans <==>
        exists p: seq<Mem> :: IsPath(p, old(RootHits()), old(References(Stamped())), old(RedCells(Quiet()))) && p[|p| - 1] == x
      ensures ok ==>
        SpareBlocks() == Freed(old(SpareBlocks()), Filter(old(scans + news), old(Elements(scans + news)) - Elements(scans)))
    {
      hide Allocator.Valid, Ring, Owned, Disjoint, Cleared, Closed, Known, Inv, Live, References, NotForged, IsRootTable;
      hide Readable, Stamped, HeadersOk, Partition, CellsSized, AllFit, RootHits, Mark, HeadRepeats, Walking, Ready, Housed;
      hide Freed, CycleOf, CanCycle, IsPath, Evolves, RedCells, Valid, WordsOk, Settled, Marked;
      ghost var q, hits, g := Quiet(), RootHits(), References(Stamped());
      ok := MarkCycle(q, hits, g);
      if ok {
        ghost var r := CycleOf(q, hits, g);
        assert scans == r.scan && froms == r.from;
        CycleNodes(q, hits, g);
        AllDoomed();
        Conclude(false);
        CycleIsExact(q, hits, g);
      }
    }

    lemma CycleNodes(q: Marking<Mem>, hits: seq<Mem>, g: Graph<Mem>)
      requires CanCycle(q, hits, g)
      ensures Elements(CycleOf(q, hits, g).from) <= Elements(q.from)
    {
      CycleIsExact(q, hits, g);
    }

    lemma AllDoomed()
      ensures Doomed(false) == Elements(froms) && Filter(froms, Doomed(false)) == froms
    {
      FilterAll(froms, Doomed(false));
    }

    // ----- Leak search -----

    /** One of the counting loops of the leak search. */
    method CountNodes(head: Mem?, ghost s: seq<Mem>) returns (count: nat)
      requires IsList(head, s)
      ensures count == |s|
    {
      hide Linked;
      count := 0;
      var node := head;
      while node != null
        invariant node == null ==> s == [] && count == 0
        invariant node != null ==> count < |s| && node == s[count]
        decreases |s| - count
      {
        NextInRing(s, count);
        count := count + 1;
        node := node.next;
        if node == head {
          break;
        }
      }
    }

    ghost function WithColor(s: seq<Mem>, c: nat): set<Mem>
      reads s`color
    {
      set m | m in s && m.color == c
    }

    lemma CountOne(s: seq<Mem>, i: nat, c: nat)
      requires i < |s|
      ensures |Filter(s[..i + 1], WithColor(s, c))| == |Filter(s[..i], WithColor(s, c))| + if s[i].color == c then 1 else 0
    {
      assert s[..i + 1] == s[..i] + [s[i]];
      FilterSnoc(s[..i], s[i], WithColor(s, c));
      assert s[i] in WithColor(s, c) <==> s[i].color == c;
    }

    /** The loop of src/sgc.c:448-521 over what marking left in the from list. */
    method CountGarbage(head: Mem?, ghost s: seq<Mem>) returns (freed: nat, leaked: nat, invalid: nat)
      requires IsList(head, s)
      ensures freed == |Filter(s, WithColor(s, RED))|
      ensures leaked == |Filter(s, WithColor(s, WHITE))|
      ensures freed + leaked + invalid == |s|
    {
      hide Linked;
      ghost var reds, whites := WithColor(s, RED), WithColor(s, WHITE);
      freed, leaked, invalid := 0, 0, 0;
      var node := head;
      ghost var i := 0;
      while node != null
        invariant node == null ==> s == [] && i == 0
        invariant node != null ==> i < |s| && node == s[i]
        invariant i <= |s| && freed == |Filter(s[..i], reds)| && leaked == |Filter(s[..i], whites)|
        invariant freed + leaked + invalid == i
        decreases |s| - i
      {
        NextInRing(s, i);
        CountOne(s, i, RED);
        CountOne(s, i, WHITE);
        if node.color == RED {
          freed := freed + 1;
        } else if node.color == WHITE {
          leaked := leaked + 1;
        } else {
          invalid := invalid + 1;
        }
        i := i + 1;
        node := node.next;
        if node == head {
          break;
        }
      }
      assert s[..|s|] == s;
    }

    lemma GarbageNow(q: Marking<Mem>, hits: seq<Mem>, g: Graph<Mem>)
      requires CanCycle(q, hits, g) && Abs() == CycleOf(q, hits, g)
      ensures forall m | m in froms :: m in q.from && m !in scans
      ensures forall m | m in froms :: m.color == if m in RedCells(q) then RED else WHITE
      ensures Elements(froms) == Elements(q.from) - Elements(scans)
    {
      hide CycleOf, Closed, Live;
      CycleIsExact(q, hits, g);
      forall m | m in froms
        ensures m in q.from && m !in scans && m.color == if m in RedCells(q) then RED else WHITE
      {
        assert m in Elements(froms) && m in Elements(q.from) && m in q.color && Abs().color[m] == m.color;
      }
    }

    /** Cleaning up after a leak search frees the RED objects and nothing else. */
    lemma DoomedRed(q: Marking<Mem>, hits: seq<Mem>, g: Graph<Mem>)
      requires CanCycle(q, hits, g) && Abs() == CycleOf(q, hits, g)
      ensures Filter(froms, Doomed(true)) == Filter(q.from, RedCells(q))
      ensures Elements(froms) - Doomed(true) == Elements(q.from) - Elements(scans) - RedCells(q)
    {
      hide CycleOf, CanCycle, RedCells;
      GarbageNow(q, hits, g);
      GarbageColors(q, hits, g);
      FilterSame(froms, Doomed(true), RedCells(q));
    }

    lemma CountsAre(q: Marking<Mem>, hits: seq<Mem>, g: Graph<Mem>)
      requires CanCycle(q, hits, g) && Abs() == CycleOf(q, hits, g)
      ensures Filter(froms, WithColor(froms, RED)) == Filter(q.from, RedCells(q))
      ensures Filter(froms, WithColor(froms, WHITE)) == Filter(q.from, Elements(q.from) - Elements(scans) - RedCells(q))
      ensures |Filter(froms, WithColor(froms, RED))| + |Filter(froms, WithColor(froms, WHITE))| == |froms|
      ensures |froms| + |scans| == |q.from| && forall m | m in scans :: m !in RedCells(q)
    {
      hide CycleOf, CanCycle, RedCells;
      GarbageNow(q, hits, g);
      GarbageColors(q, hits, g);
      FilterSame(froms, WithColor(froms, RED), RedCells(q));
      FilterSame(froms, WithColor(froms, WHITE), Elements(q.from) - Elements(scans) - RedCells(q));
    }

    /** The counts of a leak search; `q` is the state on entry to it.  The branch for
        invalid colours is never taken. */
    method CountAll(ghost q: Marking<Mem>, ghost hits: seq<Mem>, ghost g: Graph<Mem>)
      returns (nScanned: nat, nFreed: nat, nLeaked: nat, nInvalid: nat)
      requires Marked() && CanCycle(q, hits, g) && Abs() == CycleOf(q, hits, g)
      ensures nScanned == |scans| && nInvalid == 0 && |q.from| == nScanned + nFreed + nLeaked
      ensures nFreed == |Filter(q.from, RedCells(q))| && forall m | m in scans :: m !in RedCells(q)
      ensures nLeaked == |Filter(q.from, Elements(q.from) - Elements(scans) - RedCells(q))|
    {
      hide CycleOf, CanCycle, Marked, Ring, Filter;
      MarkedLists();
      nScanned := CountNodes(scanList, scans);
      nFreed, nLeaked, nInvalid := CountGarbage(fromList, froms);
      CountsAre(q, hits, g);
    }

    lemma ReadyLists(st: set<Mem>)
      requires Ready(st)
      ensures IsList(fromList, froms)
    {
    }

    lemma MarkedLists()
      requires Marked()
      ensures IsList(fromList, froms) && IsList(scanList, scans)
    {
    }

    /** The leak search up to the end of marking. */
    method LeakCycle(ghost q: Marking<Mem>, ghost hits: seq<Mem>, ghost g: Graph<Mem>) returns (ok: bool, nAllocated: nat)
      requires Valid() && WordsOk() && q == Quiet() && hits == RootHits() && g == References(Stamped())
      modifies `fromList, `scanList, `newList, `froms, `scans, `news
      modifies Elements(scans)`next, Elements(scans)`prev, Elements(news)`next, Elements(news)`prev, Elements(scans + news)`color
      ensures CanCycle(q, hits, g) && (ok <==> !HeadRepeats(hits)) && nAllocated == |q.from|
      ensures ok ==> Marked() && Settled() && Abs() == CycleOf(q, hits, g)
    {
      hide Allocator.Valid, Ring, Owned, Disjoint, Cleared, Closed, Known, Inv, Live, References, NotForged, IsRootTable;
      hide Readable, Stamped, HeadersOk, Partition, CellsSized, AllFit, RootHits, Settled, Mark, Marked, HeadRepeats, Walking;
      hide Ready, Housed, Valid, WordsOk;
      ghost var st := Stamped();
      QuietSpec(q, hits, g, st);
      BeginCycle(q, hits, g, st);
      ReadyLists(st);
      ClearedLists(q, |q.from|);
      nAllocated := CountNodes(fromList, froms);
      ok := MarkReady(Abs(), st);
    }

    /** `sgc_search_memory_leaks`, with callbacks that change nothing. */
    method SearchMemoryLeaks()
      returns (ok: bool, nAllocated: nat, nScanned: nat, nFreed: nat, nLeaked: nat, nInvalid: nat)
      requires Valid() && WordsOk()
      modifies `fromList, `scanList, `newList, `froms, `scans, `news, `lost
      modifies heap`freeList, heap`free, heap`idle, heap.varHeap, heap.idle`next, heap.idle`prev
      modifies Elements(scans + news)`next, Elements(scans + news)`prev, Elements(scans + news)`color
      ensures ok <==> !HeadRepeats(old(RootHits()))
      ensures ok ==> Valid() && WordsOk() && news == []
      ensures ok ==> nAllocated == |old(scans + news)| && nScanned == |scans| && nInvalid == 0
      ensures ok ==> nFreed == |Filter(old(scans + news), old(RedCells(Quiet())))|
      ensures ok ==> nLeaked == |Filter(old(scans + news), old(Elements(scans + news)) - Elements(scans) - old(RedCells(Quiet())))|
      ensures ok ==> nAllocated == nScanned + nFreed + nLeaked
      ensures ok ==> forall m | m in scans :: m !in old(RedCells(Quiet()))
      ensures ok ==> forall x: Mem :: x in scans <==>
        exists p: seq<Mem> :: IsPath(p, old(RootHits()), old(References(Stamped())), old(RedCells(Quiet()))) && p[|p| - 1] == x
      ensures ok ==> SpareBlocks() == Freed(old(SpareBlocks()), Filter(old(scans + news), old(RedCells(Quiet()))))
      ensures ok ==> lost == old(lost) + (old(Elements(scans + news)) - Elements(scans) - old(RedCells(Quiet())))
    {
      hide Allocator.Valid, Ring, Owned, Disjoint, Cleared, Closed, Known, Inv, Live, References, NotForged, IsRootTable;
      hide Readable, Stamped, HeadersOk, Partition, CellsSized, AllFit, RootHits, Mark, HeadRepeats, Walking, Ready, Housed;
      hide Freed, CycleOf, CanCycle, IsPath, Evolves, RedCells, Valid, WordsOk, Settled, Marked;
      ghost var q, hits, g := Quiet(), RootHits(), References(Stamped());
      ok, nAllocated := LeakCycle(q, hits, g);
      nScanned, nFreed, nLeaked, nInvalid := 0, 0, 0, 0;
      if ok {
        ghost var r := CycleOf(q, hits, g);
        assert scans == r.scan && froms == r.from;
        nScanned, nFreed, nLeaked, nInvalid := CountAll(q, hits, g);
        DoomedRed(q, hits, g);
        CycleNodes(q, hits, g);
        Conclude(true);
        CycleIsExact(q, hits, g);
      }
    }

    lemma EmptyList()
      ensures IsList(null, [])
    {
    }

    lemma CanPaint(mem: Mem, k: nat)
      requires Walking() && Inv(Abs(), k) && k < |scans| && scans[k] == mem
      ensures heap.Has(mem) && mem.color < COLOR_MAX
    {
      hide Allocator.Valid, Ring;
      assert mem in scans && heap.Has(mem);
    }

    lemma ReferencesAt(mem: Mem, st: set<Mem>)
      requires heap.Has(mem) && Sized(mem)
      ensures RefsOf(References(st), mem) == if IsPointerless(mem.flags) then [] else RefsIn(st, mem)
    {
      assert heap.cells[mem.addr] in heap.cells.Values;
    }
  }

  /** Following `next` from the k-th node leads to the next one or back to the head. */
  lemma NextInRing(s: seq<Mem>, k: nat)
    requires Ring(s) && k < |s|
    ensures s[k].next == if k + 1 == |s| then s[0] else s[k + 1]
    ensures k + 1 < |s| ==> s[k + 1] != s[0]
  {
  }

  lemma MarkStep<T>(m: Marking<T>, k: nat, g: Graph<T>)
    requires Inv(m, k) && k < |m.scan| && Closed(m, g)
    ensures var m' := ScanObject(m, m.scan[k], g);
      && Inv(m', k + 1) && Closed(m', g) && |m'.from| + |m'.scan| == |m.from| + |m.scan|
      && k < |m'.scan| && m'.scan[k] == m.scan[k]
      && MarkFrom(m, k, g) == MarkFrom(m', k + 1, g)
      && (k + 1 == |m'.scan| ==> MarkFrom(m', k + 1, g) == m')
  {
    ScanObjectKeeps(m, k, g);
    var m' := ScanObject(m, m.scan[k], g);
    assert m'.scan[..k + 1][k] == m.scan[..k + 1][k];
  }

  /** Turning the k-th object BLACK keeps its references known. */
  lemma BlackenKnown<T>(m: Marking<T>, k: nat, g: Graph<T>)
    requires Inv(m, k) && k < |m.scan| && Closed(m, g)
    ensures var n := m.(color := m.color[m.scan[k] := BLACK]); Inv(n, k + 1) && Known(n, RefsOf(g, m.scan[k]))
  {
    BlackenKeeps(m, k);
    assert Known(m, RefsOf(g, m.scan[k]));
    EvolvesKnown(m, m.(color := m.color[m.scan[k] := BLACK]), k + 1, RefsOf(g, m.scan[k]));
  }

  lemma FreedWithin(sp: Spare, s: seq<Mem>, i: nat, doomed: set<Mem>)
    requires i <= |s|
    ensures Freed(sp, Filter(s[..i], doomed)).idle <= sp.idle + Elements(s)
  {
    forall m | m in Filter(s[..i], doomed)
      ensures m in s
    {
      assert m in s[..i];
    }
  }

  lemma {:induction false} FlatPrefix<T>(rs: seq<seq<T>>, i: nat, n: nat)
    requires i <= n <= |rs|
    ensures forall x | x in Flat(rs, i) :: x in Flat(rs, n)
    ensures i < n ==> forall x | x in rs[i] :: x in Flat(rs, n)
    ensures HeadRepeats(Flat(rs, i)) ==> HeadRepeats(Flat(rs, n))
    decreases n - i
  {
    if i < n {
      FlatPrefix(rs, i + 1, n);
      assert Flat(rs, i + 1) == Flat(rs, i) + rs[i];
      if HeadRepeats(Flat(rs, i)) {
        HeadRepeatsMore(Flat(rs, i), rs[i]);
      }
    }
  }

  /** Scanning references of the k-th object leaves it where it is. */
  lemma PrefixKeeps<T>(m: Marking<T>, k: nat, cur: T, xs: seq<T>)
    requires Inv(m, k + 1) && m.scan[k] == cur && Known(m, xs)
    ensures var m' := ScanRefs(m, cur, xs); Inv(m', k + 1) && m'.scan[k] == cur && Evolves(m, m', k + 1)
  {
    assert m.scan[k] == m.scan[..k + 1][k];
    ScanRefsKeep(m, k + 1, cur, xs);
    assert ScanRefs(m, cur, xs).scan[..k + 1][k] == m.scan[k];
  }
}
