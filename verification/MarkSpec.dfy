/**
 What one marking phase computes, as functions on the abstract value of the
 collector's lists (src/sgc.c:561-667), and why the result is exactly the set of
 reachable objects.  T is the type of object identities: nodes for the sequential
 collector, numbers for the concurrent one.
 */
module MarkSpec {
  import opened Seqs

  const WHITE: nat := 0
  const GRAY: nat := 1
  const BLACK: nat := 2
  const RED: nat := 3

  /** The two lists of a running cycle and the colour of every cell. */
  datatype Marking<T> = Marking(from: seq<T>, scan: seq<T>, color: map<T, nat>)

  /** The effect of `sgc_from_list_remove` followed by `sgc_scan_list_append`: whichever
      list holds `x`, it ends up last in the scan list. */
  function MoveToScan<T(==)>(m: Marking<T>, x: T): Marking<T> {
    m.(from := Without(m.from, x), scan := Without(m.scan, x) + [x])
  }

  /** The effect of one valid word of the object `cur` that denotes `x`.
      It is the scanning object that turns GRAY; `x` stays WHITE in the scan list. */
  function ScanRef<T(==)>(m: Marking<T>, cur: T, x: T): Marking<T> {
    if x in m.color && m.color[x] == WHITE
    then MoveToScan(m.(color := m.color[cur := GRAY]), x)
    else m
  }

  function ScanRefs<T(==)>(m: Marking<T>, cur: T, xs: seq<T>): Marking<T> {
    if xs == [] then m
    else ScanRef(ScanRefs(m, cur, xs[..|xs| - 1]), cur, xs[|xs| - 1])
  }

  lemma ScanRefsSnoc<T>(m: Marking<T>, cur: T, xs: seq<T>, x: T)
    ensures ScanRefs(m, cur, xs + [x]) == ScanRef(ScanRefs(m, cur, xs), cur, x)
  {
    assert (xs + [x])[..|xs + [x]| - 1] == xs;
  }

  /** The objects that the words of `x` denote; pointerless objects have none. */
  type Graph<T> = map<T, seq<T>>

  function RefsOf<T(==)>(refs: Graph<T>, x: T): seq<T> {
    if x in refs then refs[x] else []
  }

  /** One iteration of the mark loop, at the object `cur`. */
  function ScanObject<T(==)>(m: Marking<T>, cur: T, refs: Graph<T>): Marking<T> {
    ScanRefs(m.(color := m.color[cur := BLACK]), cur, RefsOf(refs, cur))
  }

  /** One iteration of the root loop, for a root that is valid and not RED. */
  function AddRoot<T(==)>(m: Marking<T>, x: T): Marking<T> {
    MoveToScan(m.(color := m.color[x := GRAY]), x)
  }

  function AddRoots<T(==)>(m: Marking<T>, xs: seq<T>): Marking<T> {
    if xs == [] then m
    else AddRoot(AddRoots(m, xs[..|xs| - 1]), xs[|xs| - 1])
  }

  /** The effect of `sgc_clear` on the first `n` objects of the from list. */
  function Cleared<T(==)>(m: Marking<T>, n: nat): Marking<T>
    requires n <= |m.from|
  {
    m.(color := Bleach(m.color, Elements(m.from[..n])))
  }

  function Bleach<T(==)>(color: map<T, nat>, done: set<T>): map<T, nat> {
    map x | x in color :: if x in done && color[x] != RED then WHITE else color[x]
  }

  /** The lists are duplicate-free and disjoint, a from-list object is WHITE or RED, a
      scan-list object is not RED, and the first `k` objects of the scan list, those
      already scanned, are not WHITE. */
  ghost predicate Inv<T>(m: Marking<T>, k: nat) {
    && NoDup(m.from) && NoDup(m.scan) && k <= |m.scan|
    && (forall x | x in m.from :: x !in m.scan && x in m.color && (m.color[x] == WHITE || m.color[x] == RED))
    && (forall x | x in m.scan :: x in m.color && m.color[x] <= BLACK)
    && (forall i :: 0 <= i < k ==> m.color[m.scan[i]] != WHITE)
  }

  ghost predicate Registered<T>(m: Marking<T>, x: T) {
    x in m.from || x in m.scan
  }

  /** Every reference of a registered object is a RED cell or a registered object. */
  ghost predicate Closed<T>(m: Marking<T>, refs: Graph<T>) {
    && (forall x | x in m.from :: Known(m, RefsOf(refs, x)))
    && (forall x | x in m.scan :: Known(m, RefsOf(refs, x)))
  }

  ghost predicate Known<T>(m: Marking<T>, xs: seq<T>) {
    forall x | x in xs :: x in m.color && (m.color[x] == RED || Registered(m, x))
  }

  /** What marking changes and what it keeps: the scanned prefix, the union of the two
      lists, the relative order of the from list, and which cells are RED. */
  ghost predicate Evolves<T>(m: Marking<T>, m': Marking<T>, k: nat) {
    && k <= |m.scan| && k <= |m'.scan| && m'.scan[..k] == m.scan[..k]
    && Elements(m.scan) <= Elements(m'.scan)
    && Elements(m.from) + Elements(m.scan) == Elements(m'.from) + Elements(m'.scan)
    && |m.from| + |m.scan| == |m'.from| + |m'.scan|
    && m'.from == Filter(m.from, Elements(m'.from))
    && m'.color.Keys == m.color.Keys
    && (forall x | x in m.color :: m'.color[x] == RED <==> m.color[x] == RED)
    && (forall x | x in m'.from :: x in m.color && m'.color[x] == m.color[x])
  }

  /** The mark loop from position `k` of the scan list onwards. */
  function MarkFrom<T>(m: Marking<T>, k: nat, refs: Graph<T>): (r: Marking<T>)
    requires Inv(m, k) && Closed(m, refs)
    decreases |m.from| + |m.scan| - k
  {
    if k == |m.scan| then m
    else
      ScanObjectKeeps(m, k, refs);
      MarkFrom(ScanObject(m, m.scan[k], refs), k + 1, refs)
  }

  lemma EvolvesRefl<T>(m: Marking<T>, k: nat)
    requires k <= |m.scan| && forall x | x in m.from :: x in m.color
    ensures Evolves(m, m, k)
  {
    FilterAll(m.from, Elements(m.from));
  }

  lemma EvolvesTrans<T>(a: Marking<T>, b: Marking<T>, c: Marking<T>, j: nat, k: nat)
    requires Evolves(a, b, j) && Evolves(b, c, k) && j <= k
    ensures Evolves(a, c, j)
  {
    assert c.scan[..k][..j] == c.scan[..j];
    assert b.scan[..k][..j] == b.scan[..j];
    FilterFilter(a.from, Elements(b.from), Elements(c.from));
    assert Elements(b.from) * Elements(c.from) == Elements(c.from) by {
      assert forall x :: x in Elements(c.from) ==> x in c.from && x in b.from;
    }
  }

  lemma MovePrefix<T>(m: Marking<T>, k: nat, x: T)
    requires k <= |m.scan| && x !in m.scan[..k]
    ensures var s := MoveToScan(m, x).scan; k < |s| && s[..k] == m.scan[..k]
  {
    assert m.scan == m.scan[..k] + m.scan[k..];
    WithoutAppend(m.scan[..k], m.scan[k..], x);
    WithoutAbsent(m.scan[..k], x);
  }

  lemma MoveInv<T>(m: Marking<T>, k: nat, x: T)
    requires Inv(m, k) && Registered(m, x) && m.color[x] != RED
    requires x !in m.scan[..k]
    ensures Inv(MoveToScan(m, x), k)
  {
    var m' := MoveToScan(m, x);
    WithoutNoDup(m.from, x);
    WithoutNoDup(m.scan, x);
    MovePrefix(m, k, x);
    forall i | 0 <= i < k
      ensures m'.color[m'.scan[i]] != WHITE
    {
      assert m'.scan[i] == m'.scan[..k][i] == m.scan[..k][i] == m.scan[i];
    }
  }

  /** Moving an object that is not in the first `k` places of the scan list. */
  lemma MoveEvolves<T>(m: Marking<T>, k: nat, x: T)
    requires Inv(m, k) && Registered(m, x)
    requires x !in m.scan[..k]
    ensures Evolves(m, MoveToScan(m, x), k)
  {
    var m' := MoveToScan(m, x);
    MovePrefix(m, k, x);
    WithoutNoDup(m.from, x);
    WithoutNoDup(m.scan, x);
    WithoutIsFilter(m.from, x, Elements(m'.from));
  }

  lemma ColorKeeps<T>(m: Marking<T>, k: nat, x: T, c: nat)
    requires Inv(m, k) && x in m.scan && (c == GRAY || c == BLACK)
    ensures var m' := m.(color := m.color[x := c]);
      Inv(m', k) && Evolves(m, m', k)
  {
    EvolvesRefl(m, k);
  }

  lemma ScanRefKeeps<T>(m: Marking<T>, k: nat, cur: T, x: T)
    requires Inv(m, k) && cur in m.scan[..k] && Known(m, [x])
    ensures var m' := ScanRef(m, cur, x);
      Inv(m', k) && Evolves(m, m', k) && (m.color[x] == RED || x in m'.scan)
  {
    assert x in [x];
    if m.color[x] == WHITE {
      var n := m.(color := m.color[cur := GRAY]);
      ColorKeeps(m, k, cur, GRAY);
      MoveInv(n, k, x);
      MoveEvolves(n, k, x);
      EvolvesTrans(m, n, MoveToScan(n, x), k, k);
    } else {
      EvolvesRefl(m, k);
    }
  }

  /** Why references must be `Known`: a word that denotes a WHITE cell of neither list, a stale
      address say, puts that cell on the scan list. */
  lemma StaleEnters<T>(m: Marking<T>, cur: T, x: T)
    requires x in m.color && !Registered(m, x)
    ensures var m' := ScanRef(m, cur, x);
      Elements(m'.from) + Elements(m'.scan) == Elements(m.from) + Elements(m.scan) <==> m.color[x] != WHITE
  {
    if m.color[x] == WHITE {
      WithoutAbsent(m.scan, x);
      assert x in Elements(ScanRef(m, cur, x).scan) && x !in Elements(m.from) + Elements(m.scan);
    }
  }

  lemma EvolvesKnown<T>(m: Marking<T>, m': Marking<T>, k: nat, xs: seq<T>)
    requires Evolves(m, m', k) && Known(m, xs)
    ensures Known(m', xs)
  {
    forall x | x in xs
      ensures x in m'.color && (m'.color[x] == RED || Registered(m', x))
    {
      if m.color[x] != RED {
        assert x in Elements(m.from) + Elements(m.scan);
        assert x in Elements(m'.from) + Elements(m'.scan);
      }
    }
  }

  lemma EvolvesClosed<T>(m: Marking<T>, m': Marking<T>, k: nat, refs: Graph<T>)
    requires Evolves(m, m', k) && Closed(m, refs)
    ensures Closed(m', refs)
  {
    forall x | x in m'.from || x in m'.scan
      ensures Known(m', RefsOf(refs, x))
    {
      assert x in Elements(m'.from) + Elements(m'.scan);
      assert x in Elements(m.from) + Elements(m.scan);
      EvolvesKnown(m, m', k, RefsOf(refs, x));
    }
  }

  lemma {:induction false} ScanRefsKeep<T>(m: Marking<T>, k: nat, cur: T, xs: seq<T>)
    requires Inv(m, k) && cur in m.scan[..k] && Known(m, xs)
    ensures var m' := ScanRefs(m, cur, xs);
      Inv(m', k) && Evolves(m, m', k) && (forall x | x in xs :: m.color[x] == RED || x in m'.scan)
  {
    if xs == [] {
      EvolvesRefl(m, k);
    } else {
      var x, n := xs[|xs| - 1], ScanRefs(m, cur, xs[..|xs| - 1]);
      ScanRefsKeep(m, k, cur, xs[..|xs| - 1]);
      EvolvesKnown(m, n, k, [x]);
      ScanRefKeeps(n, k, cur, x);
      EvolvesTrans(m, n, ScanRef(n, cur, x), k, k);
      forall y | y in xs
        ensures m.color[y] == RED || y in ScanRef(n, cur, x).scan
      {
        if y in xs[..|xs| - 1] && m.color[y] != RED {
          assert y in Elements(n.scan);
        }
      }
    }
  }

  lemma BlackenKeeps<T>(m: Marking<T>, k: nat)
    requires Inv(m, k) && k < |m.scan|
    ensures var n := m.(color := m.color[m.scan[k] := BLACK]);
      Inv(n, k + 1) && Evolves(m, n, k + 1) && m.scan[k] in n.scan[..k + 1]
  {
    ColorKeeps(m, k, m.scan[k], BLACK);
    assert m.scan[k] == m.scan[..k + 1][k];
  }

  /** One iteration of the mark loop advances the scanned prefix by one, keeps it as it
      was, and leaves no reference of the scanned object outside the scan list. */
  lemma ScanObjectKeeps<T>(m: Marking<T>, k: nat, refs: Graph<T>)
    requires Inv(m, k) && k < |m.scan| && Closed(m, refs)
    ensures var m' := ScanObject(m, m.scan[k], refs);
      && Inv(m', k + 1) && Evolves(m, m', k + 1) && Closed(m', refs)
      && (forall x | x in RefsOf(refs, m.scan[k]) :: x in m.color && (m.color[x] == RED || x in m'.scan))
  {
    var cur := m.scan[k];
    var n := m.(color := m.color[cur := BLACK]);
    var xs := RefsOf(refs, cur);
    BlackenKeeps(m, k);
    assert Known(m, xs);
    EvolvesKnown(m, n, k + 1, xs);
    ScanRefsKeep(n, k + 1, cur, xs);
    EvolvesTrans(m, n, ScanRefs(n, cur, xs), k + 1, k + 1);
    EvolvesClosed(m, ScanRefs(n, cur, xs), k + 1, refs);
  }

  /** The references of the first `k` objects of the scan list are in the scan list too. */
  ghost predicate Scanned<T>(m: Marking<T>, k: nat, refs: Graph<T>)
    requires k <= |m.scan|
  {
    forall i :: 0 <= i < k ==> AllIn(m, RefsOf(refs, m.scan[i]))
  }

  ghost predicate AllIn<T>(m: Marking<T>, xs: seq<T>) {
    forall x | x in xs :: x in m.color && (m.color[x] == RED || x in m.scan)
  }

  lemma EvolvesScanned<T>(m: Marking<T>, m': Marking<T>, k: nat, refs: Graph<T>)
    requires k < |m.scan| && Scanned(m, k, refs) && Evolves(m, m', k + 1)
    requires AllIn(m', RefsOf(refs, m.scan[k]))
    ensures Scanned(m', k + 1, refs)
  {
    forall i | 0 <= i < k + 1
      ensures AllIn(m', RefsOf(refs, m'.scan[i]))
    {
      assert m'.scan[i] == m'.scan[..k + 1][i] == m.scan[..k + 1][i] == m.scan[i];
      if i < k {
        assert AllIn(m, RefsOf(refs, m.scan[i]));
        forall x | x in RefsOf(refs, m.scan[i])
          ensures x in m'.color && (m'.color[x] == RED || x in m'.scan)
        {
          assert x in m.scan ==> x in Elements(m.scan);
        }
      }
    }
  }

  /** The whole loop: it keeps what every iteration keeps, and at the end no object of
      the scan list refers to anything outside it except RED cells. */
  lemma {:induction false} MarkFromKeeps<T>(m: Marking<T>, k: nat, refs: Graph<T>)
    requires Inv(m, k) && Closed(m, refs) && Scanned(m, k, refs)
    ensures var r := MarkFrom(m, k, refs);
      && Inv(r, |r.scan|) && Evolves(m, r, k) && Closed(r, refs) && Scanned(r, |r.scan|, refs)
    decreases |m.from| + |m.scan| - k
  {
    if k == |m.scan| {
      EvolvesRefl(m, k);
    } else {
      var n := ScanObject(m, m.scan[k], refs);
      ScanObjectKeeps(m, k, refs);
      EvolvesScanned(m, n, k, refs);
      MarkFromKeeps(n, k + 1, refs);
      EvolvesTrans(m, n, MarkFrom(n, k + 1, refs), k + 1, k + 1);
      EvolvesShorter(m, MarkFrom(n, k + 1, refs), k);
    }
  }

  lemma EvolvesShorter<T>(m: Marking<T>, m': Marking<T>, k: nat)
    requires Evolves(m, m', k + 1)
    ensures Evolves(m, m', k)
  {
    assert m.scan[..k + 1][..k] == m.scan[..k];
    assert m'.scan[..k + 1][..k] == m'.scan[..k];
  }

  /** The objects that the mark loop visits, in the order of its iterations. */
  ghost function Visited<T>(m: Marking<T>, k: nat, refs: Graph<T>): seq<T>
    requires Inv(m, k) && Closed(m, refs)
    decreases |m.from| + |m.scan| - k
  {
    if k == |m.scan| then []
    else
      ScanObjectKeeps(m, k, refs);
      [m.scan[k]] + Visited(ScanObject(m, m.scan[k], refs), k + 1, refs)
  }

  lemma VisitedStep<T>(k: nat, s: seq<T>, s': seq<T>, visited: seq<T>, r: seq<T>)
    requires k < |s| && k < |s'| && s'[..k + 1] == s[..k + 1] && r == s'[..k + 1] + visited
    ensures r == s[..k] + ([s[k]] + visited)
  {
    assert s[..k + 1] == s[..k] + [s[k]];
  }

  /** However often nodes are unlinked and appended again, the loop visits every object
      of the final scan list exactly once and in the order of that list. */
  lemma {:induction false} VisitedOnce<T>(m: Marking<T>, k: nat, refs: Graph<T>)
    requires Inv(m, k) && Closed(m, refs)
    ensures var r := MarkFrom(m, k, refs);
      NoDup(r.scan) && k <= |r.scan| && r.scan == m.scan[..k] + Visited(m, k, refs)
    decreases |m.from| + |m.scan| - k
  {
    if k == |m.scan| {
      assert m.scan[..k] == m.scan;
    } else {
      hide ScanObject, Closed, NoDup;
      var n := ScanObject(m, m.scan[k], refs);
      ScanObjectKeeps(m, k, refs);
      VisitedOnce(n, k + 1, refs);
      VisitedStep(k, m.scan, n.scan, Visited(n, k + 1, refs), MarkFrom(m, k, refs).scan);
    }
  }

  // ----- Soundness: nothing but reachable objects enters the scan list -----

  /** `S` contains every reference of its members that is not a RED cell. */
  ghost predicate ClosedSet<T>(S: set<T>, refs: Graph<T>, red: set<T>) {
    forall x | x in S :: forall y | y in RefsOf(refs, x) :: y in red || y in S
  }

  ghost function RedCells<T>(m: Marking<T>): set<T> {
    set x | x in m.color && m.color[x] == RED
  }

  lemma {:induction false} ScanRefsSound<T>(m: Marking<T>, cur: T, xs: seq<T>, S: set<T>)
    requires cur in S && cur in m.color && m.color[cur] != RED
    requires forall x | x in m.scan :: x in S
    requires forall x | x in xs :: x in RedCells(m) || x in S
    ensures var m' := ScanRefs(m, cur, xs);
      && (forall x | x in m'.scan :: x in S)
      && m'.color.Keys == m.color.Keys && m'.color[cur] != RED && RedCells(m') == RedCells(m)
  {
    if xs != [] {
      ScanRefsSound(m, cur, xs[..|xs| - 1], S);
    }
  }

  lemma {:induction false} MarkFromSound<T>(m: Marking<T>, k: nat, refs: Graph<T>, S: set<T>)
    requires Inv(m, k) && Closed(m, refs)
    requires ClosedSet(S, refs, RedCells(m)) && forall x | x in m.scan :: x in S
    ensures forall x | x in MarkFrom(m, k, refs).scan :: x in S
    decreases |m.from| + |m.scan| - k
  {
    if k < |m.scan| {
      var cur := m.scan[k];
      var n := m.(color := m.color[cur := BLACK]);
      assert RedCells(n) == RedCells(m);
      ScanObjectKeeps(m, k, refs);
      ScanRefsSound(n, cur, RefsOf(refs, cur), S);
      MarkFromSound(ScanObject(m, cur, refs), k + 1, refs, S);
    }
  }

  // ----- Clearing -----

  lemma ClearedLists<T>(m: Marking<T>, n: nat)
    requires n <= |m.from|
    ensures Cleared(m, n).from == m.from && Cleared(m, n).scan == m.scan
  {
  }

  lemma ClearedNone<T>(m: Marking<T>)
    ensures Cleared(m, 0) == m
  {
  }

  lemma ClearedNext<T>(m: Marking<T>, n: nat)
    requires n < |m.from| && m.from[n] in m.color && NoDup(m.from)
    ensures var c := Cleared(m, n); var x := m.from[n];
      && c.color[x] == m.color[x]
      && Cleared(m, n + 1) == if m.color[x] == RED then c else c.(color := c.color[x := WHITE])
  {
    var x := m.from[n];
    assert m.from[..n + 1] == m.from[..n] + [x];
    assert x !in m.from[..n];
    ElementsSnoc(m.from[..n], x);
    BleachMore(m.color, Elements(m.from[..n]), x);
  }

  lemma BleachMore<T>(color: map<T, nat>, done: set<T>, x: T)
    requires x in color && x !in done
    ensures var c := Bleach(color, done);
      Bleach(color, done + {x}) == (if color[x] == RED then c else c[x := WHITE]) && c[x] == color[x]
  {
  }

  lemma ClearedKnown<T>(m: Marking<T>, xs: seq<T>)
    requires Known(m, xs)
    ensures Known(Cleared(m, |m.from|), xs)
  {
  }

  /** Clearing all of the from list prepares a marking phase. */
  lemma ClearedInv<T>(m: Marking<T>, refs: Graph<T>, roots: seq<T>)
    requires NoDup(m.from) && m.scan == [] && forall x | x in m.from :: x in m.color
    ensures var c := Cleared(m, |m.from|);
      && Inv(c, 0) && RedCells(c) == RedCells(m) && c.color.Keys == m.color.Keys
      && (Closed(m, refs) ==> Closed(c, refs)) && (Live(m, roots) ==> Live(c, roots))
  {
    var c := Cleared(m, |m.from|);
    assert m.from[..|m.from|] == m.from;
    assert forall x | x in m.from :: x in Elements(m.from);
    if Closed(m, refs) {
      forall x | x in m.from
        ensures Known(c, RefsOf(refs, x))
      {
        assert Known(m, RefsOf(refs, x));
      }
    }
  }

  // ----- Roots -----

  lemma AddRootKeeps<T>(m: Marking<T>, x: T)
    requires Inv(m, 0) && Registered(m, x) && m.color[x] != RED
    ensures var m' := AddRoot(m, x);
      Inv(m', 0) && Evolves(m, m', 0) && Elements(m'.scan) == Elements(m.scan) + {x}
  {
    var n := MoveToScan(m, x);
    MoveInv(m, 0, x);
    MoveEvolves(m, 0, x);
    ColorKeeps(n, 0, x, GRAY);
    assert AddRoot(m, x) == n.(color := n.color[x := GRAY]);
    EvolvesTrans(m, n, AddRoot(m, x), 0, 0);
  }

  ghost predicate Live<T>(m: Marking<T>, xs: seq<T>) {
    forall x | x in xs :: Registered(m, x) && x in m.color && m.color[x] != RED
  }

  lemma EvolvesLive<T>(m: Marking<T>, m': Marking<T>, x: T)
    requires Evolves(m, m', 0) && Live(m, [x])
    ensures Live(m', [x])
  {
    assert x in [x];
    EvolvesKnown(m, m', 0, [x]);
  }

  lemma LiveSnoc<T>(m: Marking<T>, xs: seq<T>, x: T)
    requires Live(m, xs + [x])
    ensures Live(m, xs) && Live(m, [x]) && Registered(m, x) && x in m.color && m.color[x] != RED
  {
    var ys := xs + [x];
    assert ys[|xs|] == x && forall i :: 0 <= i < |xs| ==> ys[i] == xs[i];
  }

  lemma AddRootKeepsLive<T>(m: Marking<T>, n: Marking<T>, x: T)
    requires Evolves(m, n, 0) && Inv(n, 0) && Live(m, [x])
    ensures var m' := AddRoot(n, x);
      Inv(m', 0) && Evolves(m, m', 0) && Elements(m'.scan) == Elements(n.scan) + {x}
  {
    hide Inv, Evolves;
    EvolvesLive(m, n, x);
    assert [] + [x] == [x];
    LiveSnoc(n, [], x);
    AddRootKeeps(n, x);
    EvolvesTrans(m, n, AddRoot(n, x), 0, 0);
  }

  lemma {:induction false} AddRootsKeep<T>(m: Marking<T>, xs: seq<T>)
    requires Inv(m, 0) && Live(m, xs)
    ensures var m' := AddRoots(m, xs);
      Inv(m', 0) && Evolves(m, m', 0) && Elements(m'.scan) == Elements(m.scan) + Elements(xs)
  {
    if xs == [] {
      EvolvesRefl(m, 0);
    } else {
      hide Inv, Evolves, Live;
      var x, ys := xs[|xs| - 1], xs[..|xs| - 1];
      assert xs == ys + [x];
      LiveSnoc(m, ys, x);
      AddRootsKeep(m, ys);
      AddRootKeepsLive(m, AddRoots(m, ys), x);
      ElementsSnoc(ys, x);
    }
  }

  /** The first root object comes back after a different one.  The root loop, which does
      not test for WHITE, then unlinks the head of the scan list without moving
      `sgc_scan_list`, and the append that follows dereferences NULL. */
  predicate HeadRepeats<T(==)>(xs: seq<T>) {
    exists i, j :: 0 <= i < j < |xs| && xs[i] != xs[0] && xs[j] == xs[0]
  }

  lemma HeadRepeatsSnoc<T>(xs: seq<T>, x: T)
    ensures HeadRepeats(xs + [x]) <==> HeadRepeats(xs) || (xs != [] && x == xs[0] && exists y | y in xs :: y != xs[0])
  {
    var zs := xs + [x];
    assert forall i :: 0 <= i < |xs| ==> zs[i] == xs[i];
    if HeadRepeats(xs) {
      HeadRepeatsMore(xs, [x]);
    }
    if xs != [] && x == xs[0] && exists y | y in xs :: y != xs[0] {
      var i :| 0 <= i < |xs| && xs[i] != xs[0];
      assert zs[i] != zs[0] && zs[|xs|] == zs[0];
    }
    if HeadRepeats(zs) {
      var i, j :| 0 <= i < j < |zs| && zs[i] != zs[0] && zs[j] == zs[0];
      assert xs[i] in xs && xs[i] != xs[0];
    }
  }

  lemma NoRepeatYet<T>(xs: seq<T>)
    requires xs == []
    ensures !HeadRepeats(xs)
  {
  }

  lemma HeadRepeatsMore<T>(xs: seq<T>, ys: seq<T>)
    requires HeadRepeats(xs)
    ensures HeadRepeats(xs + ys)
  {
    var i, j :| 0 <= i < j < |xs| && xs[i] != xs[0] && xs[j] == xs[0];
    assert (xs + ys)[i] != (xs + ys)[0] && (xs + ys)[j] == (xs + ys)[0];
  }

  /** As long as that does not happen, the first root object stays at the head. */
  lemma {:induction false} RootHead<T>(m: Marking<T>, xs: seq<T>)
    requires m.scan == [] && xs != [] && !HeadRepeats(xs)
    ensures var s := AddRoots(m, xs).scan;
      && s != [] && s[0] == xs[0]
      && (|s| == 1 <==> forall x | x in xs :: x == xs[0])
  {
    var x, ys := xs[|xs| - 1], xs[..|xs| - 1];
    var s := AddRoots(m, ys).scan;
    if ys == [] {
      assert s == [];
    } else {
      RootHead(m, ys);
      if x == xs[0] {
        assert forall y | y in ys :: y == xs[0];
        assert s == [x];
      } else {
        assert Without(s, x)[0] == s[0];
        assert x in xs;
      }
    }
  }

  /** What the root loop finds when it comes to the object `x` after the objects `xs`:
      `x` heads a scan list of several nodes exactly if the first root object repeats. */
  lemma NextRoot<T>(m: Marking<T>, xs: seq<T>, x: T)
    requires Inv(m, 0) && m.scan == [] && Live(m, xs) && !HeadRepeats(xs)
    ensures var n := AddRoots(m, xs);
      && Inv(n, 0) && RedCells(n) == RedCells(m) && (Live(m, [x]) ==> Live(n, [x]))
      && AddRoots(m, xs + [x]) == AddRoot(n, x)
      && (HeadRepeats(xs + [x]) <==> n.scan != [] && n.scan[0] == x && n.scan != [x])
  {
    var n := AddRoots(m, xs);
    AddRootsKeep(m, xs);
    EvolvesRed(m, n, 0);
    if Live(m, [x]) { EvolvesLive(m, n, x); }
    assert (xs + [x])[..|xs + [x]| - 1] == xs;
    HeadRepeatsSnoc(xs, x);
    if xs != [] {
      RootHead(m, xs);
      assert n.scan == [x] <==> |n.scan| == 1 && n.scan[0] == x;
    }
  }

  // ----- Reachability -----

  /** A chain of references from a root that avoids RED cells. */
  ghost predicate IsPath<T>(p: seq<T>, roots: seq<T>, refs: Graph<T>, red: set<T>) {
    && p != [] && p[0] in roots
    && (forall i :: 0 <= i < |p| - 1 ==> p[i + 1] in RefsOf(refs, p[i]))
    && (forall i :: 0 <= i < |p| ==> p[i] !in red)
  }

  lemma {:induction false} PathInside<T>(p: seq<T>, roots: seq<T>, refs: Graph<T>, red: set<T>, S: set<T>)
    requires IsPath(p, roots, refs, red)
    requires ClosedSet(S, refs, red) && Elements(roots) <= S
    ensures p[|p| - 1] in S
  {
    if |p| > 1 {
      var q := p[..|p| - 1];
      PathInside(q, roots, refs, red, S);
      assert p[|p| - 2 + 1] in RefsOf(refs, p[|p| - 2]);
    }
  }

  /** A marking phase: the roots, then the loop. */
  function Mark<T>(m: Marking<T>, roots: seq<T>, refs: Graph<T>): Marking<T>
    requires Inv(m, 0) && m.scan == [] && Closed(m, refs) && Live(m, roots)
  {
    AddRootsKeep(m, roots);
    EvolvesClosed(m, AddRoots(m, roots), 0, refs);
    MarkFrom(AddRoots(m, roots), 0, refs)
  }

  lemma MarkKeeps<T>(m: Marking<T>, roots: seq<T>, refs: Graph<T>)
    requires Inv(m, 0) && m.scan == [] && Closed(m, refs) && Live(m, roots)
    ensures var r := Mark(m, roots, refs);
      && Inv(r, |r.scan|) && Evolves(m, r, 0) && Closed(r, refs) && Scanned(r, |r.scan|, refs)
      && Elements(roots) <= Elements(r.scan)
  {
    var n := AddRoots(m, roots);
    AddRootsKeep(m, roots);
    EvolvesClosed(m, n, 0, refs);
    MarkFromKeeps(n, 0, refs);
    EvolvesTrans(m, n, Mark(m, roots, refs), 0, 0);
  }

  lemma EvolvesRed<T>(m: Marking<T>, m': Marking<T>, k: nat)
    requires Evolves(m, m', k)
    ensures RedCells(m') == RedCells(m)
  {
  }

  lemma ScannedIsClosed<T>(r: Marking<T>, refs: Graph<T>)
    requires Scanned(r, |r.scan|, refs)
    ensures ClosedSet(Elements(r.scan), refs, RedCells(r))
  {
    forall x | x in Elements(r.scan)
      ensures forall y | y in RefsOf(refs, x) :: y in RedCells(r) || y in Elements(r.scan)
    {
      var i :| 0 <= i < |r.scan| && r.scan[i] == x;
      assert AllIn(r, RefsOf(refs, r.scan[i]));
    }
  }

  /** The scan list ends up as the least set that contains the roots and the references,
      RED cells aside, of its members. */
  lemma MarkIsLeast<T>(m: Marking<T>, roots: seq<T>, refs: Graph<T>, S: set<T>)
    requires Inv(m, 0) && m.scan == [] && Closed(m, refs) && Live(m, roots)
    ensures var r := Mark(m, roots, refs);
      && Elements(roots) <= Elements(r.scan) && ClosedSet(Elements(r.scan), refs, RedCells(m))
      && (Elements(roots) <= S && ClosedSet(S, refs, RedCells(m)) ==> Elements(r.scan) <= S)
  {
    var n, r := AddRoots(m, roots), Mark(m, roots, refs);
    MarkKeeps(m, roots, refs);
    ScannedIsClosed(r, refs);
    EvolvesRed(m, r, 0);
    AddRootsKeep(m, roots);
    EvolvesRed(m, n, 0);
    EvolvesClosed(m, n, 0, refs);
    if Elements(roots) <= S && ClosedSet(S, refs, RedCells(m)) {
      assert forall x | x in n.scan :: x in Elements(n.scan);
      MarkFromSound(n, 0, refs, S);
    }
  }

  lemma PathSnoc<T>(p: seq<T>, x: T, roots: seq<T>, refs: Graph<T>, red: set<T>)
    requires IsPath(p, roots, refs, red) && x in RefsOf(refs, p[|p| - 1]) && x !in red
    ensures IsPath(p + [x], roots, refs, red)
  {
  }

  /** In a closed set that contains the roots, the end points of the paths from the roots
      form a closed set that contains the roots. */
  lemma PathEnds<T>(U: set<T>, roots: seq<T>, refs: Graph<T>, red: set<T>) returns (ends: set<T>)
    requires Elements(roots) <= U - red && ClosedSet(U, refs, red)
    ensures forall x :: x in ends <==> exists p: seq<T> :: IsPath(p, roots, refs, red) && p[|p| - 1] == x
    ensures Elements(roots) <= ends && ClosedSet(ends, refs, red)
  {
    ends := set x | x in U && exists p: seq<T> :: IsPath(p, roots, refs, red) && p[|p| - 1] == x;
    forall p: seq<T> | IsPath(p, roots, refs, red)
      ensures p[|p| - 1] in ends
    {
      PathInside(p, roots, refs, red, U);
    }
    forall x | x in Elements(roots)
      ensures x in ends
    {
      assert IsPath([x], roots, refs, red);
    }
    forall x | x in ends
      ensures forall y | y in RefsOf(refs, x) :: y in red || y in ends
    {
      var p: seq<T> :| IsPath(p, roots, refs, red) && p[|p| - 1] == x;
      forall y | y in RefsOf(refs, x)
        ensures y in red || y in ends
      {
        if y !in red {
          PathSnoc(p, y, roots, refs, red);
          assert (p + [y])[|p + [y]| - 1] == y;
        }
      }
    }
  }

  /** Exactness: after marking, the scan list holds exactly the objects that a chain of
      references from the roots reaches through objects that are not RED. */
  lemma MarkIsExact<T>(m: Marking<T>, roots: seq<T>, refs: Graph<T>)
    requires Inv(m, 0) && m.scan == [] && Closed(m, refs) && Live(m, roots)
    ensures forall x :: x in Mark(m, roots, refs).scan <==>
      exists p: seq<T> :: IsPath(p, roots, refs, RedCells(m)) && p[|p| - 1] == x
  {
    var r := Mark(m, roots, refs);
    MarkIsLeast(m, roots, refs, {});
    var ends := PathEnds(Elements(r.scan), roots, refs, RedCells(m));
    MarkIsLeast(m, roots, refs, ends);
    forall x
      ensures x in r.scan <==> x in ends
    {
      if x in ends {
        var p: seq<T> :| IsPath(p, roots, refs, RedCells(m)) && p[|p| - 1] == x;
        PathInside(p, roots, refs, RedCells(m), Elements(r.scan));
      }
      assert x in r.scan <==> x in Elements(r.scan);
    }
  }

  /** `q` is a state, with all registered objects in the from list, that a cycle can start
      from when the roots denote `roots`. */
  ghost predicate CanCycle<T>(q: Marking<T>, roots: seq<T>, refs: Graph<T>) {
    && NoDup(q.from) && q.scan == [] && (forall x | x in q.from :: x in q.color)
    && Closed(q, refs) && Live(q, roots)
  }

  /** The state after clearing and marking. */
  function CycleOf<T>(q: Marking<T>, roots: seq<T>, refs: Graph<T>): Marking<T>
    requires CanCycle(q, roots, refs)
  {
    ClearedInv(q, refs, roots);
    Mark(Cleared(q, |q.from|), roots, refs)
  }

  /** A whole cycle up to the sweep: what is left for the sweep is, in its old order, every
      registered object that the roots do not reach through objects that are not RED. */
  lemma CycleIsExact<T>(q: Marking<T>, roots: seq<T>, refs: Graph<T>)
    requires CanCycle(q, roots, refs)
    ensures var r := CycleOf(q, roots, refs);
      && (forall x :: x in r.scan <==> exists p: seq<T> :: IsPath(p, roots, refs, RedCells(q)) && p[|p| - 1] == x)
      && r.from == Filter(q.from, Elements(q.from) - Elements(r.scan))
      && Elements(r.from) + Elements(r.scan) == Elements(q.from) && Inv(r, |r.scan|)
      && (forall x | x in r.from :: x in r.color && r.color[x] == if q.color[x] == RED then RED else WHITE)
  {
    var c := Cleared(q, |q.from|);
    ClearedInv(q, refs, roots);
    MarkIsExact(c, roots, refs);
    MarkKeeps(c, roots, refs);
    FromIsRest(c, Mark(c, roots, refs));
    assert q.from[..|q.from|] == q.from;
    assert forall x | x in q.from :: x in Elements(q.from);
  }

  lemma FromIsRest<T>(m: Marking<T>, r: Marking<T>)
    requires m.scan == [] && Evolves(m, r, 0) && Inv(r, |r.scan|)
    ensures r.from == Filter(m.from, Elements(m.from) - Elements(r.scan))
    ensures Elements(r.from) + Elements(r.scan) == Elements(m.from)
    ensures forall x | x in r.from :: x in m.from && x in r.color && x in m.color && r.color[x] == m.color[x]
  {
    assert Elements(m.scan) == {};
    assert Elements(r.from) == Elements(m.from) - Elements(r.scan);
  }

  /** What a leak search can tell from the colours that marking leaves in the from list:
      the RED objects there are all RED objects that were registered, and the others,
      WHITE now, are exactly those that are neither reached nor RED. */
  lemma GarbageColors<T>(q: Marking<T>, roots: seq<T>, refs: Graph<T>)
    requires CanCycle(q, roots, refs)
    ensures var r := CycleOf(q, roots, refs);
      var rest := Elements(q.from) - Elements(r.scan);
      && (forall x | x in r.scan :: x !in RedCells(q) && x in r.color && r.color[x] != RED)
      && Filter(r.from, RedCells(q)) == Filter(q.from, RedCells(q))
      && Filter(r.from, rest - RedCells(q)) == Filter(q.from, rest - RedCells(q))
      && |r.from| + |r.scan| == |q.from|
      && |Filter(r.from, RedCells(q))| + |Filter(r.from, rest - RedCells(q))| == |r.from|
  {
    var r := CycleOf(q, roots, refs);
    var rest := Elements(q.from) - Elements(r.scan);
    var c := Cleared(q, |q.from|);
    CycleIsExact(q, roots, refs);
    ClearedInv(q, refs, roots);
    MarkKeeps(c, roots, refs);
    EvolvesRed(c, r, 0);
    forall x | x in r.scan
      ensures x !in RedCells(q)
    {
      assert r.color[x] != RED && x !in RedCells(r);
    }
    FilterFilter(q.from, rest, RedCells(q));
    FilterSame(q.from, rest * RedCells(q), RedCells(q));
    FilterFilter(q.from, rest, rest - RedCells(q));
    FilterSame(q.from, rest * (rest - RedCells(q)), rest - RedCells(q));
    assert forall x | x in r.from :: x in Elements(r.from);
    FilterSplit(r.from, RedCells(q), rest - RedCells(q));
  }
}
