/** What happens to an object in a block that the system returns below the first one, as `malloc`
    may (src/sgc_sys.h:44).  The lower end of the hull is set once (src/sgc_interval.c:37-44). */
module LowBlocks {
  import opened Seqs
  import opened MarkSpec
  import opened SizeClasses
  import opened Carving
  import opened IntervalHull
  import opened HeapLayout

  /** No address below the first block passes the address test, for any class. */
  lemma LowIsRejected(l: Layout, p: int, c: nat)
    requires |l.areas| == SMALL_COUNT && ProperBlocks(l.blocks) && l.blocks != [] && p < l.blocks[0].start
    ensures !Located(l, p, c)
  {
    HullBounds(l.blocks);
  }

  /** The objects that the words name, as far as the address test lets them pass; `classAt` is
      the class in the header that is found at an address. */
  function Tested(l: Layout, classAt: int -> nat, words: seq<int>): seq<int>
    requires |l.areas| == SMALL_COUNT
  {
    if words == [] then [] else
    var p := words[|words| - 1] - HEADER;
    Tested(l, classAt, words[..|words| - 1]) + if Located(l, p, classAt(p)) then [p] else []
  }

  function TestedGraph(l: Layout, classAt: int -> nat, words: map<int, seq<int>>): Graph<int>
    requires |l.areas| == SMALL_COUNT
  {
    map y | y in words :: Tested(l, classAt, words[y])
  }

  lemma {:induction false} TestedIff(l: Layout, classAt: int -> nat, words: seq<int>, x: int)
    requires |l.areas| == SMALL_COUNT
    ensures x in Tested(l, classAt, words) <==> x + HEADER in words && Located(l, x, classAt(x))
  {
    if words != [] {
      TestedIff(l, classAt, words[..|words| - 1], x);
    }
  }

  /** Such an object is left to the sweep by every cycle, whatever the roots and the words of the
      other objects name. */
  lemma LowIsSwept(l: Layout, classAt: int -> nat, rootWords: seq<int>, words: map<int, seq<int>>, q: Marking<int>, x: int)
    requires |l.areas| == SMALL_COUNT && ProperBlocks(l.blocks) && l.blocks != [] && x < l.blocks[0].start && x in q.from
    requires CanCycle(q, Tested(l, classAt, rootWords), TestedGraph(l, classAt, words))
    ensures x in CycleOf(q, Tested(l, classAt, rootWords), TestedGraph(l, classAt, words)).from
  {
    hide Inv, Closed, Live, CycleOf, Located;
    var hits, g := Tested(l, classAt, rootWords), TestedGraph(l, classAt, words);
    CycleIsExact(q, hits, g);
    var r := CycleOf(q, hits, g);
    LowIsRejected(l, x, classAt(x));
    if x in r.scan {
      var p: seq<int> :| IsPath(p, hits, g, RedCells(q)) && p[|p| - 1] == x;
      if |p| == 1 {
        TestedIff(l, classAt, rootWords, x);
      } else {
        assert p[|p| - 2 + 1] in RefsOf(g, p[|p| - 2]);
        TestedIff(l, classAt, words[p[|p| - 2]], x);
      }
    }
    assert x in Elements(q.from);
  }
}
