/** What a sweep leaves on the free lists (src/sgc.c:669-703, src/sgc_allocator.c:113-121). */
module Sweeping {
  import opened Seqs
  import opened DList
  import opened SizeClasses

  /** The free lists of the small classes after the cells of `s` were freed in order. */
  function Pushed(free: seq<seq<Mem>>, s: seq<Mem>): (r: seq<seq<Mem>>)
    ensures |r| == |free|
  {
    if s == [] then free else
    var f, m := Pushed(free, s[..|s| - 1]), s[|s| - 1];
    if m.size < |free| then f[m.size := [m] + f[m.size]] else f
  }

  /** The large blocks among `s`, in order. */
  function Large(s: seq<Mem>): seq<Mem> {
    if s == [] then [] else
    var m := s[|s| - 1];
    Large(s[..|s| - 1]) + if m.size < SMALL_COUNT then [] else [m]
  }

  /** The cells of class `c` among `s`, last one first. */
  function OfClass(s: seq<Mem>, c: nat): seq<Mem> {
    if s == [] then [] else
    var m := s[|s| - 1];
    (if m.size == c then [m] else []) + OfClass(s[..|s| - 1], c)
  }

  lemma PushedSnoc(free: seq<seq<Mem>>, s: seq<Mem>, m: Mem)
    ensures Pushed(free, s + [m]) ==
      if m.size < |free| then Pushed(free, s)[m.size := [m] + Pushed(free, s)[m.size]] else Pushed(free, s)
    ensures Large(s + [m]) == Large(s) + if m.size < SMALL_COUNT then [] else [m]
  {
    assert (s + [m])[..|s + [m]| - 1] == s;
  }

  /** Every freed cell goes once in front of the free list of its own class; the cells that
      were free before stay behind them, in their old order. */
  lemma {:induction false} PushedExactly(free: seq<seq<Mem>>, s: seq<Mem>, c: nat)
    requires c < |free|
    ensures Pushed(free, s)[c] == OfClass(s, c) + free[c]
  {
    if s == [] {
      assert OfClass(s, c) + free[c] == free[c];
    } else {
      PushedExactly(free, s[..|s| - 1], c);
      var m := s[|s| - 1];
      if m.size == c {
        assert [m] + (OfClass(s[..|s| - 1], c) + free[c]) == OfClass(s, c) + free[c];
      } else {
        assert OfClass(s, c) == OfClass(s[..|s| - 1], c);
      }
    }
  }

  /** The cells of `s` are split among their classes and the large blocks, each once. */
  lemma {:induction false} SplitIsExact(s: seq<Mem>, c: nat)
    requires NoDup(s)
    ensures NoDup(OfClass(s, c)) && (forall m | m in OfClass(s, c) :: m in s && m.size == c)
    ensures forall m | m in s && m.size == c :: m in OfClass(s, c)
    ensures NoDup(Large(s)) && (forall m | m in Large(s) :: m in s && m.size >= SMALL_COUNT)
    ensures forall m | m in s && m.size >= SMALL_COUNT :: m in Large(s)
  {
    if s != [] {
      SplitIsExact(s[..|s| - 1], c);
      assert s == s[..|s| - 1] + [s[|s| - 1]];
    }
  }

  /** The free lists of the small classes, the ring of large blocks, and all of both. */
  datatype Spare = Spare(free: seq<seq<Mem>>, blocks: seq<Mem>, idle: set<Mem>)

  /** The free blocks after those of `s` were freed in order. */
  function Freed(sp: Spare, s: seq<Mem>): Spare {
    Spare(Pushed(sp.free, s), sp.blocks + Large(s), sp.idle + Elements(s))
  }

  /** What sweeping one more node of `s` adds, where `doomed` are the nodes to be freed. */
  lemma SweepStep(sp: Spare, s: seq<Mem>, doomed: set<Mem>, i: nat)
    requires i < |s|
    ensures Freed(sp, Filter(s[..i + 1], doomed)) ==
      Freed(Freed(sp, Filter(s[..i], doomed)), if s[i] in doomed then [s[i]] else [])
  {
    var gone := Filter(s[..i], doomed);
    assert s[..i + 1] == s[..i] + [s[i]];
    FilterSnoc(s[..i], s[i], doomed);
    if s[i] in doomed {
      PushedSnoc(sp.free, gone, s[i]);
      PushedSnoc(Pushed(sp.free, gone), [], s[i]);
      assert [] + [s[i]] == [s[i]];
      assert sp.blocks + Large(gone) + Large([s[i]]) == sp.blocks + (Large(gone) + Large([s[i]]));
    } else {
      assert gone + [] == gone;
    }
  }

  lemma FreedOne(sp: Spare, m: Mem)
    requires |sp.free| == SMALL_COUNT
    ensures Freed(sp, [m]) == Spare(
      if m.size < SMALL_COUNT then sp.free[m.size := [m] + sp.free[m.size]] else sp.free,
      sp.blocks + if m.size < SMALL_COUNT then [] else [m],
      sp.idle + {m})
  {
    PushedSnoc(sp.free, [], m);
    assert [] + [m] == [m];
  }

  lemma FreedNone(sp: Spare)
    ensures Freed(sp, []) == sp
  {
  }
}
