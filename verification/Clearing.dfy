/** What SGC_ZERO promises of a block that is used again.  `sgc_new_object` clears the bytes
    asked for (src/sgc.c:235-236), and the scan reads the words of the whole class
    (src/sgc.c:643-662), so the tail of the last words keeps what the block held before. */
module ClearedWords {
  import opened SizeClasses
  import opened Carving
  import opened DList
  import opened MarkSpec
  import opened CellHeap
  import opened SegregatedFit
  import opened PayloadWords
  import opened SequentialCollector
  import opened ObjectCalls

  /** How many bytes of the k-th word are cleared when the first `n` bytes are. */
  function Cleared(n: nat, k: nat): (m: nat)
    ensures m <= WORD
  {
    if n <= k * WORD then 0 else if n >= (k + 1) * WORD then WORD else n - k * WORD
  }

  lemma ScaledApart(d: int, p: int)
    requires p > 0
    ensures (d > 0 ==> d * p >= p) && (d < 0 ==> d * p <= -p)
  {
  }

  lemma TimesMod(q: nat, p: nat)
    requires p > 0
    ensures (q * p) % p == 0
  {
    var x := q * p;
    var d := q - x / p;
    assert x % p == d * p;
    ScaledApart(d, p);
  }

  lemma Exact(w: nat, p: nat)
    requires p > 0 && w % p == 0
    ensures w == (w / p) * p
  {
  }

  lemma Regroup(q: nat, p: nat)
    ensures q * (256 * p) == 256 * (q * p)
  {
  }

  /** Divisible by a power of 256 is: divisible by 256, and the rest by one power less. */
  lemma PowerSplit(w: nat, m: nat)
    requires m > 0
    ensures w % Power256(m) == 0 <==> w % 256 == 0 && (w / 256) % Power256(m - 1) == 0
  {
    var p, p' := Power256(m - 1), Power256(m);
    assert p' == 256 * p;
    hide Power256;
    if w % p' == 0 {
      var q := w / p';
      Exact(w, p');
      Regroup(q, p);
      TimesMod(q, p);
      assert w / 256 == q * p;
    }
    if w % 256 == 0 && (w / 256) % p == 0 {
      var q := w / 256 / p;
      Exact(w / 256, p);
      Regroup(q, p);
      TimesMod(q, p');
    }
  }

  lemma {:induction false} FromBytesLow(bytes: seq<Byte>, m: nat)
    requires m <= |bytes|
    ensures FromBytes(bytes) % Power256(m) == 0 <==> forall i :: 0 <= i < m ==> bytes[i] == 0
  {
    hide Power256;
    if m > 0 {
      var rest, w := bytes[1..], FromBytes(bytes);
      FromBytesLow(rest, m - 1);
      PowerSplit(w, m);
      assert w % 256 == bytes[0] && w / 256 == FromBytes(rest);
      assert forall i :: 0 <= i < m - 1 ==> rest[i] == bytes[i + 1];
      if w % Power256(m) == 0 {
        assert forall i :: 0 <= i < m ==> bytes[i] == if i == 0 then bytes[0] else rest[i - 1];
      }
    } else {
      assert Power256(0) == 1 by { PowerZero(); }
    }
  }

  lemma PowerZero()
    ensures Power256(0) == 1
  {
  }

  lemma {:induction false} FromBytesBound(bytes: seq<Byte>)
    ensures FromBytes(bytes) < Power256(|bytes|)
  {
    if bytes != [] {
      FromBytesBound(bytes[1..]);
    }
  }

  lemma {:induction false} LowerPower(w: nat, a: nat, b: nat)
    requires a <= b && w % Power256(b) == 0
    ensures w % Power256(a) == 0
  {
    if a > 0 {
      PowerSplit(w, b);
      LowerPower(w / 256, a - 1, b - 1);
      PowerSplit(w, a);
    }
  }

  /** What the k-th word can be after the clearing: a word whose cleared bytes are 0 ... */
  lemma ClearedWord(data: seq<Byte>, n: nat, k: nat)
    requires n <= |data| && (k + 1) * WORD <= |data|
    ensures var w := WordAt(Zeroed(data, n), k); w < Power256(WORD) && w % Power256(Cleared(n, k)) == 0
  {
    var bytes := Zeroed(data, n)[k * WORD..(k + 1) * WORD];
    FromBytesBound(bytes);
    FromBytesLow(bytes, Cleared(n, k));
  }

  /** ... and each such word is possible: a store before the block was given back. */
  lemma ClearedKeeps(data: seq<Byte>, n: nat, k: nat, w: nat)
    requires n <= |data| && (k + 1) * WORD <= |data| && w < Power256(WORD) && w % Power256(Cleared(n, k)) == 0
    ensures WordAt(Zeroed(Stored(data, k, w), n), k) == w
  {
    var bytes, r := ToBytes(w, WORD), Zeroed(Stored(data, k, w), n);
    BytesRoundTrip(w, WORD);
    FromBytesLow(bytes, Cleared(n, k));
    assert r[k * WORD..(k + 1) * WORD] == bytes by {
      hide ToBytes;
      forall i | 0 <= i < WORD
        ensures r[k * WORD + i] == bytes[i]
      {
      }
    }
  }

  /** The later a word, the fewer of its bytes are cleared. */
  lemma LastIsLeast(n: nat, j: nat, k: nat)
    requires j <= k
    ensures Cleared(n, k) <= Cleared(n, j)
  {
  }

  function LastWord(c: nat): nat
    requires c < SIZE_COUNT
  {
    DoublingEnds(c);
    WordCount(c) - 1
  }

  /** The requests that fill the words of their block are those of a class size of at least
      one word. */
  lemma FillsWordsIff(nbytes: nat, c: nat)
    requires IsClassOf(nbytes, c)
    ensures WordCount(c) * WORD <= nbytes <==> c > 0 && nbytes == MEM_SIZES[c]
  {
  }

  /** So these are the allocations that leave no stale word behind: without pointers, or cleared
      and of a class size. */
  lemma LeavesNoStaleWordIff(nbytes: nat, flags: nat, c: nat)
    requires IsClassOf(nbytes, c)
    ensures LeavesNoStaleWord(nbytes, flags, c) <==>
      flags % 4 == 2 || flags % 4 == 3 || (flags % 4 == 1 && c > 0 && nbytes == MEM_SIZES[c])
  {
    FillsWordsIff(nbytes, c);
  }

  /** Every word is good that the last word of a block of class `c` can be once the first
      `n` bytes are cleared. */
  ghost predicate TailsGood(cells: map<int, Mem>, junk: int -> Header, st: set<Mem>, q: Marking<Mem>, n: nat, c: nat)
    requires c < SIZE_COUNT
  {
    forall w: nat | w < Power256(WORD) && w % Power256(Cleared(n, LastWord(c))) == 0 :: Good(cells, junk, st, q, w)
  }

  /** Clearing `n` bytes is enough for a block of class `c` whatever it held exactly if
      every word is good whose bytes are 0 as far as the last word was cleared. */
  lemma ClearingSufficesIff(cells: map<int, Mem>, junk: int -> Header, st: set<Mem>, q: Marking<Mem>, n: nat, c: nat)
    requires c < SIZE_COUNT && n <= MEM_SIZES[c]
    ensures TailsGood(cells, junk, st, q, n, c) <==>
      forall data: seq<Byte> | |data| == Room(c) :: GoodData(cells, junk, st, q, Zeroed(data, n), WordCount(c))
  {
    hide Good, Zeroed, Stored, FromBytes, Power256, Cleared, Room;
    RoomForWords(c);
    var last := LastWord(c);
    if TailsGood(cells, junk, st, q, n, c) {
      forall data: seq<Byte> | |data| == Room(c)
        ensures GoodData(cells, junk, st, q, Zeroed(data, n), WordCount(c))
      {
        forall j | 0 <= j < WordCount(c)
          ensures Good(cells, junk, st, q, WordAt(Zeroed(data, n), j))
        {
          ClearedWord(data, n, j);
          LastIsLeast(n, j, last);
          LowerPower(WordAt(Zeroed(data, n), j), Cleared(n, last), Cleared(n, j));
        }
      }
    }
    if forall data: seq<Byte> | |data| == Room(c) :: GoodData(cells, junk, st, q, Zeroed(data, n), WordCount(c)) {
      forall w: nat | w < Power256(WORD) && w % Power256(Cleared(n, last)) == 0
        ensures Good(cells, junk, st, q, w)
      {
        var data := Stored(seq(Room(c), _ => 0 as Byte), last, w);
        ClearedKeeps(seq(Room(c), _ => 0 as Byte), n, last, w);
        assert GoodData(cells, junk, st, q, Zeroed(data, n), WordCount(c));
      }
    }
  }

  /** A block that held `data`, for which SGC_ZERO was asked, is clean exactly if the words
      are good that the clearing leaves. */
  lemma ReusedIsCleanIff(c: Collector, mem: Mem, data: seq<Byte>, n: nat, added: set<Mem>)
    requires c.Valid() && mem in c.news && OnlyNew(c, mem, added) && !IsPointerless(mem.flags)
    requires n <= |data| && mem.data == Zeroed(data, n) && mem.size < SIZE_COUNT
    ensures Clean(c, mem, added) <==>
      GoodData(c.heap.cells, c.heap.junk, c.Stamped(), c.Quiet(), Zeroed(data, n), WordCount(mem.size))
  {
    hide Collector.Valid, OnlyNew, Good, Zeroed;
    assert mem in c.scans + c.news;
    RegisteredSized(c, mem);
    RoomForWords(mem.size);
  }

  /** The address of a free cell whose header still looks like that of an object. */
  ghost predicate IsStale(c: Collector, w: nat)
    reads c.heap`cells, c.heap`idle, c.heap.cells.Values`color, c.heap.cells.Values`dummy
  {
    && 0 < w < Power256(WORD) && w - HEADER in c.heap.cells
    && var m := c.heap.cells[w - HEADER]; m in c.heap.idle && m in c.Stamped() && m.color != RED
  }

  lemma StaleIsBad(c: Collector, w: nat)
    requires c.Valid() && IsStale(c, w)
    ensures !Good(c.heap.cells, c.heap.junk, c.Stamped(), c.Quiet(), w)
  {
    hide Allocator.Valid;
    ValidOwned(c);
    var m := c.heap.cells[w - HEADER];
    assert m in Denoted(c.heap.cells, c.Stamped(), w);
    assert m !in c.scans + c.news;
  }

  /** The failing case: the last word was not cleared at all, and some free cell still has
      the header of the object that it was.  A block that held its address is not clean. */
  lemma ZeroIsNotEnough(c: Collector, n: nat, k: nat, w: nat) returns (data: seq<Byte>)
    requires c.Valid() && k < SIZE_COUNT && n <= LastWord(k) * WORD && IsStale(c, w)
    ensures |data| == Room(k) && n <= |data|
    ensures !GoodData(c.heap.cells, c.heap.junk, c.Stamped(), c.Quiet(), Zeroed(data, n), WordCount(k))
  {
    hide Good, Zeroed, Stored, Power256, Room, Collector.Stamped, Collector.Quiet, Collector.Valid;
    RoomForWords(k);
    var last := LastWord(k);
    var zeros := seq(Room(k), _ => 0 as Byte);
    PowerZero();
    data := Stored(zeros, last, w);
    ClearedKeeps(zeros, n, last, w);
    StaleIsBad(c, w);
    assert WordAt(Zeroed(data, n), last) == w;
  }
}
