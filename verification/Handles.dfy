/** The table of root handles of src/sgc.c:305-335: the collector knows the addresses of
    variables, and reads the variables when a cycle begins. */
module RootHandles {
  import opened Seqs
  import opened DList
  import opened MarkSpec
  import opened SizeClasses
  import opened PayloadWords
  import opened SegregatedFit
  import opened SequentialCollector
  import opened ObjectCalls
  import opened WordPaths

  /** The place of the first `x`. */
  function First<T(==)>(s: seq<T>, x: T): (i: nat)
    ensures i <= |s| && (i == |s| <==> x !in s) && x !in s[..i] && (i < |s| ==> s[i] == x)
  {
    if s == [] || s[0] == x then 0 else 1 + First(s[1..], x)
  }

  lemma {:induction false} FirstIs<T>(s: seq<T>, x: T, i: nat)
    requires i < |s| && s[i] == x && forall k :: 0 <= k < i ==> s[k] != x
    ensures First(s, x) == i
  {
    if i > 0 {
      assert s[0] != x;
      FirstIs(s[1..], x, i - 1);
    }
  }

  /** The table after `sgc_root`. */
  function Rooted(slots: seq<Option<int>>, h: int): (r: seq<Option<int>>)
    ensures |r| == |slots|
  {
    var i := First(slots, None);
    if i == |slots| then slots else slots[i := Some(h)]
  }

  /** The table after `sgc_unroot`. */
  function Unrooted(slots: seq<Option<int>>, h: int): (r: seq<Option<int>>)
    ensures |r| == |slots|
  {
    var i := First(slots, Some(h));
    if i == |slots| then slots else slots[i := None]
  }

  lemma MultisetUpdate<T>(s: seq<T>, i: nat, x: T)
    requires i < |s|
    ensures multiset(s[i := x]) == multiset(s) - multiset{s[i]} + multiset{x}
  {
  }

  /** Each removal undoes one registration: a variable that was registered n times stays a
      root until it was removed n times, and the other variables are not touched. */
  lemma UnrootUndoesRoot(slots: seq<Option<int>>, h: int)
    requires None in slots
    ensures multiset(Unrooted(Rooted(slots, h), h)) == multiset(slots)
    ensures Some(h) !in slots ==> Unrooted(Rooted(slots, h), h) == slots
  {
    var i, r := First(slots, None), Rooted(slots, h);
    var j := First(r, Some(h));
    assert r[i] == Some(h);
    MultisetUpdate(slots, i, Some(h));
    MultisetUpdate(r, j, None);
    if Some(h) !in slots {
      FirstIs(r, Some(h), i);
    }
  }

  /** The values that the collector finds in the variables. */
  function Values(slots: seq<Option<int>>, vars: map<int, int>): (roots: seq<Option<int>>)
    requires forall i :: 0 <= i < |slots| && slots[i].Some? ==> slots[i].value in vars
    ensures |roots| == |slots|
  {
    seq(|slots|, i requires 0 <= i < |slots| => if slots[i].None? then None else Some(vars[slots[i].value]))
  }

  lemma FreeSlots(slots: seq<Option<int>>, vars: map<int, int>)
    requires forall i :: 0 <= i < |slots| && slots[i].Some? ==> slots[i].value in vars
    ensures None in Values(slots, vars) <==> None in slots
  {
    var roots := Values(slots, vars);
    assert forall i :: 0 <= i < |slots| ==> (roots[i] == None <==> slots[i] == None);
  }

  class RootTable {
    const c: Collector
    var slots: seq<Option<int>>   // `sgc_roots`
    var vars: map<int, int>       // the variables of the program, by address

    ghost predicate Registered()
      reads this
    {
      |slots| == MAX_ROOTS && forall i :: 0 <= i < |slots| && slots[i].Some? ==> slots[i].value in vars
    }

    /** The roots of the collector are the values of the registered variables. */
    ghost predicate Current()
      reads this, c`roots
    {
      Registered() && c.roots == Values(slots, vars)
    }

    constructor (c: Collector, vars: map<int, int>)
      requires c.Valid() && forall i :: 0 <= i < |c.roots| ==> c.roots[i] == None
      ensures Current() && this.c == c && this.vars == vars && forall i :: 0 <= i < |slots| ==> slots[i] == None
    {
      RootCount(c);
      this.c, this.vars := c, vars;
      slots := seq(MAX_ROOTS, _ => None);
    }

    /** `sgc_root`.  The result is false when the table is full; the variable is then no root. */
    method Root(h: int) returns (ok: bool)
      requires c.Valid() && Current() && h in vars
      modifies `slots, c`roots
      ensures c.Valid() && Current() && (ok <==> None in old(slots)) && slots == Rooted(old(slots), h)
      ensures old(c.WordsOk()) && Good(c.heap.cells, c.heap.junk, c.Stamped(), c.Quiet(), vars[h]) ==> c.WordsOk()
    {
      hide Collector.Valid, Collector.WordsOk, Good;
      FreeSlots(slots, vars);
      var i;
      ok, i := AddHandle(c, vars[h]);
      if ok {
        forall k | 0 <= k < i
          ensures slots[k] != None
        {
          assert old(c.roots)[k].Some?;
        }
        FirstIs(slots, None, i);
        slots := slots[i := Some(h)];
      }
    }

    /** `sgc_unroot` */
    method Unroot(h: int)
      requires c.Valid() && Current()
      modifies `slots, c`roots
      ensures c.Valid() && Current() && slots == Unrooted(old(slots), h)
      ensures old(c.WordsOk()) ==> c.WordsOk()
    {
      hide Collector.Valid, Collector.WordsOk;
      var i := 0;
      while i < MAX_ROOTS
        invariant i <= MAX_ROOTS && Some(h) !in slots[..i]
        invariant c.Valid() && Current() && slots == old(slots) && c.WordsOk() == old(c.WordsOk())
      {
        if slots[i] == Some(h) {
          FirstIs(slots, Some(h), i);
          RemoveHandle(c, i);
          slots := slots[i := None];
          return;
        }
        i := i + 1;
      }
    }

    /** The program assigns `w` to the variable at `h`: every root on it changes. */
    method Assign(h: int, w: int)
      requires c.Valid() && Current()
      modifies `vars, c`roots
      ensures c.Valid() && Current() && vars == old(vars)[h := w]
      ensures old(c.WordsOk()) && Good(c.heap.cells, c.heap.junk, c.Stamped(), c.Quiet(), w) ==> c.WordsOk()
    {
      hide Collector.Valid, Collector.WordsOk, Good;
      AllGoodRoots(c);
      ghost var was := c.roots;
      vars := vars[h := w];
      var roots := Values(slots, vars);
      assert forall i :: 0 <= i < MAX_ROOTS ==> roots[i] == was[i] || roots[i] == Some(w);
      SetRoots(c, roots);
    }
  }

  /** The roots are what the registered variables name. */
  lemma RootedIff(rt: RootTable, a: int)
    requires rt.c.heap.Valid() && rt.Current()
    ensures IsRoot(rt.c, a) <==> exists h | h in rt.vars :: Some(h) in rt.slots && Names(rt.c, rt.vars[h], a)
  {
    hide Allocator.Valid, Names;
    var c := rt.c;
    if i :| 0 <= i < |c.roots| && c.roots[i].Some? && Names(c, c.roots[i].value, a) {
      var h := rt.slots[i].value;
      assert rt.slots[i] == Some(h) && h in rt.vars && Names(c, rt.vars[h], a);
    }
    if h :| h in rt.vars && Some(h) in rt.slots && Names(c, rt.vars[h], a) {
      var i :| 0 <= i < |rt.slots| && rt.slots[i] == Some(h);
      assert c.roots[i] == Some(rt.vars[h]) && Names(c, c.roots[i].value, a);
    }
  }

  /** The object that a registered variable holds is one that the next cycle keeps. */
  lemma RootedIsReached(rt: RootTable, h: int, a: int)
    requires rt.c.Valid() && rt.c.heap.Valid() && rt.Current() && Some(h) in rt.slots && Names(rt.c, rt.vars[h], a)
    requires rt.c.heap.cells[a].color != RED
    ensures ReachedByWords(rt.c, a)
  {
    hide Allocator.Valid, Names, Collector.Valid;
    var c := rt.c;
    var i :| 0 <= i < |rt.slots| && rt.slots[i] == Some(h);
    assert c.roots[i] == Some(rt.vars[h]);
    NamedCell(c, rt.vars[h], a);
    assert LeadsTo(c, [a], a);
  }

  lemma NamedCell(c: Collector, w: int, a: int)
    requires c.heap.Valid() && Names(c, w, a)
    ensures a in c.heap.cells && c.heap.cells[a] in c.heap.cells.Values
  {
  }
}
