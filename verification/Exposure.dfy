/** When a missing message, the copy of a resize or a late free loses an object: for each of them,
    whether some continuation does, and a continuation that does. */
module ConcurrentAccess {
  import opened Seqs
  import opened MarkSpec
  import opened IncrementalCollector
  import opened ConcurrentRuns
  import opened ConcurrentGarbage

  // ----- What the collector does not look at -----

  /** `r` is `n`, except for what the collector will not read: stacks that it has scanned, the
      words of objects that are on no list, and what the program freed. */
  ghost predicate Alike(n: State, r: State) {
    && r == n.(locals := r.locals, fields := r.fields, dead := r.dead)
    && r.locals.Keys == n.locals.Keys && r.fields.Keys == n.fields.Keys
    && (forall y | OnLists(n, y) && y in n.fields :: r.fields[y] == n.fields[y])
    && (forall t | t in n.locals && t !in n.scanned && n.phase == Roots :: r.locals[t] == n.locals[t])
  }

  predicate IsCollecting(e: Event) {
    e.ScanStack? || e == EnterLoop || IsMarking(e)
  }

  lemma CollectingLists(n: State, e: Event)
    requires Invariant(n) && Enabled(n, e) && IsCollecting(e)
    ensures forall y | OnLists(Apply(n, e), y) :: OnLists(n, y)
  {
    hide Invariant, NewIds, ScanRoots;
    if e.ScanStack? {
      ScanStackLists(n, e.t);
    } else if e != EnterLoop {
      MarkingLists(n, e);
    }
  }

  /** The state `n` with what the collector does not look at taken from `r`. */
  function Mixed(n: State, r: State): State {
    n.(locals := r.locals, fields := r.fields, dead := r.dead)
  }

  lemma SameEnabled(n: State, r: State, e: Event)
    requires Alike(n, r) && Enabled(n, e) && IsCollecting(e)
    ensures Enabled(r, e) && (Sound(n, e) ==> Sound(r, e))
  {
    hide NewIds;
  }

  lemma SameWord(n: State, r: State)
    requires Alike(n, r) && Enabled(n, ScanWord) && Enabled(r, ScanWord)
    ensures WordScanned(r) == Mixed(WordScanned(n), r)
  {
    hide ScanRef;
    assert OnLists(n, n.m.scan[n.phase.k]);
  }

  lemma SameStep(n: State, r: State, e: Event)
    requires Alike(n, r) && Enabled(n, e) && Enabled(r, e) && IsCollecting(e)
    ensures Apply(r, e) == Mixed(Apply(n, e), r) && KeepsThreads(n, Apply(n, e))
  {
    hide NewIds, ScanRoots, WordScanned, HandleOne, BeginCycle, Alike;
    match e
    case ScanStack(t) => SameStack(n, r, t);
    case ScanWord =>
      SameWord(n, r);
      WordScannedFrame(n);
    case HandleNext => SameHandled(n, r);
    case EnterLoop => AlikeIsMixed(n, r);
    case BlackenNext => AlikeIsMixed(n, r);
    case Drained => AlikeIsMixed(n, r);
    case SweepNext => AlikeIsMixed(n, r);
    case Finish => AlikeIsMixed(n, r);
  }

  /** From `n` to `q` no thread did anything. */
  ghost predicate KeepsThreads(n: State, q: State) {
    && q.fields == n.fields && q.locals == n.locals && q.dead == n.dead && n.scanned <= q.scanned
    && (q.phase == Roots ==> n.phase == Roots)
  }

  lemma AlikeIsMixed(n: State, r: State)
    requires Alike(n, r)
    ensures r == Mixed(n, r)
  {
  }

  lemma SameStack(n: State, r: State, t: nat)
    requires Alike(n, r) && Enabled(n, ScanStack(t))
    ensures r.locals.Keys == n.locals.Keys && r.locals[t] == n.locals[t] && r == Mixed(n, r)
  {
  }

  lemma SameHandled(n: State, r: State)
    requires Alike(n, r) && n.queue != [] && n.phase.Drain?
    ensures HandleOne(r) == Mixed(HandleOne(n), r) && KeepsThreads(n, HandleOne(n))
  {
    hide NewIds, MoveToScan;
  }

  lemma WordScannedFrame(n: State)
    requires Enabled(n, ScanWord)
    ensures KeepsThreads(n, WordScanned(n))
  {
  }

  /** The collector's steps are the same from `n` and from `r`, and keep them alike. */
  lemma CollectorIgnores(n: State, r: State, e: Event)
    requires Invariant(n) && Alike(n, r) && Enabled(n, e) && IsCollecting(e)
    ensures Enabled(r, e) && Alike(Apply(n, e), Apply(r, e)) && (Sound(n, e) ==> Sound(r, e))
    ensures var q := Apply(r, e); q.locals == r.locals && q.fields == r.fields && q.dead == r.dead
  {
    hide Invariant, Apply, Enabled, Sound, NewIds;
    AlikeIsMixed(n, r);
    SameEnabled(n, r, e);
    SameStep(n, r, e);
    CollectingLists(n, e);
  }

  lemma MarkingUnplaces(n: State, e: Event, x: nat)
    requires Invariant(n) && Enabled(n, e) && IsMarking(e)
    ensures !Placed(n, x) ==> !Placed(Apply(n, e), x)
    ensures e == SweepNext && n.m.from[0] == x ==> !Placed(Apply(n, e), x)
  {
    hide NewIds, Position, Colors, Messages, Holds, Covers, Apply;
    MarkingLists(n, e);
    assert OnLists(Apply(n, e), x) ==> OnLists(n, x);
  }

  /** Left alone, the collector finishes its cycle and sweeps what is hidden from it, whatever the
      stacks and the unlisted objects hold by now. */
  lemma {:induction false} CollectorSweeps(n: State, r: State, g: set<nat>, x: nat) returns (es: seq<Event>)
    requires Invariant(n) && Alike(n, r) && (InLoop(n) || n.phase == Sweep) && Hidden(n, g) && (x in g || !Placed(n, x))
    ensures IsRun(r, es) && SoundRun(r, es) && forall e | e in es :: IsMarking(e)
    ensures var q := After(r, es);
      && !Placed(q, x) && q.locals == r.locals && q.fields == r.fields && q.dead == r.dead && q.phase == Idle
      && (n.queue == [] ==> q.queue == [])
    decreases InLoop(n), ObjectsLeft(n), StepsLeft(n), PartsLeft(n)
  {
    hide Invariant, Hidden, NewIds, Apply, Enabled, Sound, IsRun, SoundRun, After, Placed, Alike;
    var e := NextMarking(n);
    MarkingDecreases(n);
    CollectorIgnores(n, r, e);
    MarkingUnplaces(n, e, x);
    MarkingQueue(n);
    StepKeeps(n, e);
    if e == Finish {
      FinishOnly(n, r, g, x);
      es := [Finish];
    } else {
      MarkingHides(n, e, g);
      var fs := CollectorSweeps(Apply(n, e), Apply(r, e), Rest(n, e, g), x);
      OneThenRun(r, e, fs);
      es := [e] + fs;
    }
  }

  lemma MarkingQueue(n: State)
    requires InLoop(n) || n.phase == Sweep
    requires Enabled(n, NextMarking(n))
    ensures n.queue == [] ==> Apply(n, NextMarking(n)).queue == []
  {
    hide NewIds;
    if n.phase.Words? { ScanWordQueue(n); }
  }

  lemma FinishOnly(n: State, r: State, g: set<nat>, x: nat)
    requires Enabled(n, Finish) && Alike(n, r) && Hidden(n, g) && (x in g || !Placed(n, x))
    ensures IsRun(r, [Finish]) && SoundRun(r, [Finish]) && After(r, [Finish]) == r.(phase := Idle) && !Placed(r.(phase := Idle), x)
    ensures r.queue == n.queue
  {
    hide HasCti;
    assert [Finish][1..] == [];
    assert IsRun(Apply(r, Finish), []);
    SameYoung(n, r.(phase := Idle));
  }

  // ----- The rest of a cycle whose stacks are not all scanned -----

  /** Thread `t`, which the collector has not scanned, forgets all but `ws`, none of them WHITE, and
      its stack is scanned. */
  lemma ForgetAndScan(n: State, r: State, t: nat, ws: seq<nat>)
    requires Invariant(n) && Alike(n, r) && n.phase == Roots && t in n.locals && t !in n.scanned
    requires forall w | w in ws :: (w == 0 || w in n.locals[t]) && !IsWhite(n, w)
    ensures var es := [SetLocals(t, ws), ScanStack(t)];
      var m, q := n.(locals := n.locals[t := ws], scanned := n.scanned + {t}), r.(locals := r.locals[t := ws], scanned := r.scanned + {t});
      IsRun(r, es) && SoundRun(r, es) && After(r, es) == q && Invariant(m) && Alike(m, q)
  {
    hide Invariant, NewIds, ScanRoots;
    var es, a, b := [SetLocals(t, ws), ScanStack(t)], Apply(n, SetLocals(t, ws)), Apply(r, SetLocals(t, ws));
    StepKeeps(n, SetLocals(t, ws));
    StepKeeps(a, ScanStack(t));
    NothingWhite(n.m, ws);
    NothingYet(Apply(b, ScanStack(t)));
    var fs: seq<Event> := [ScanStack(t)];
    assert fs[1..] == [] && es[1..] == fs && IsRun(b, fs) && After(b, fs) == Apply(b, ScanStack(t));
  }

  lemma {:induction false} NothingWhite(m: Marking<nat>, ws: seq<nat>)
    requires forall w | w in ws :: !(w in m.color && m.color[w] == WHITE)
    ensures ScanRoots(m, ws) == m
  {
    if ws != [] {
      NothingWhite(m, ws[..|ws| - 1]);
    }
  }

  /** The loop will be entered, or may be skipped. */
  predicate MayEnter(s: State) {
    s.m.scan != [] || NothingPending(s)
  }

  /** What `t` holds at the end: `y`, unless its stack was scanned before. */
  function Kept(n: State, r: State, t: nat, y: nat): seq<nat>
    requires t in r.locals
  {
    if t in n.scanned then r.locals[t] else [y]
  }

  /** The threads forget what they hold, `t` all but `y`, and leave the collector alone. */
  lemma {:induction false} StacksThenSweep(n: State, r: State, g: set<nat>, x: nat, t: nat, y: nat) returns (es: seq<Event>)
    requires Invariant(n) && Alike(n, r) && n.phase == Roots && Hidden(n, g) && x in g && MayEnter(n) && t in n.locals
    requires t in n.scanned || (y in n.locals[t] && !IsWhite(n, y))
    ensures IsRun(r, es) && SoundRun(r, es) && Begin !in es
    ensures var q := After(r, es);
      && !Placed(q, x) && q.fields == r.fields && q.dead == r.dead && q.phase == Idle && t in q.locals && q.locals[t] == Kept(n, r, t, y)
      && (n.queue == [] ==> q.queue == [])
    decreases |n.locals.Keys - n.scanned|
  {
    hide Invariant, Hidden, IsRun, SoundRun, After, Placed, Apply;
    ScannedThreads(n);
    if forall u | u in n.locals.Keys :: u in n.scanned {
      assert n.scanned == n.locals.Keys;
      es := EnterThenSweep(n, r, g, x);
    } else {
      var u :| u in n.locals.Keys && u !in n.scanned;
      var ws := if u == t then [y] else [];
      ForgetAndScan(n, r, u, ws);
      var m, q := n.(locals := n.locals[u := ws], scanned := n.scanned + {u}), r.(locals := r.locals[u := ws], scanned := r.scanned + {u});
      assert Hidden(m, g) by { HiddenFrom(n, m, g); }
      SetsShrink(m.locals.Keys - m.scanned, n.locals.Keys - n.scanned);
      var fs := StacksThenSweep(m, q, g, x, t, y);
      es := [SetLocals(u, ws), ScanStack(u)] + fs;
      RunConcat(r, [SetLocals(u, ws), ScanStack(u)], fs);
    }
  }

  lemma EnterThenSweep(n: State, r: State, g: set<nat>, x: nat) returns (es: seq<Event>)
    requires Invariant(n) && Alike(n, r) && n.phase == Roots && Hidden(n, g) && x in g && MayEnter(n) && n.scanned == n.locals.Keys
    ensures IsRun(r, es) && SoundRun(r, es) && Begin !in es
    ensures var q := After(r, es);
      && !Placed(q, x) && q.fields == r.fields && q.dead == r.dead && q.phase == Idle && q.locals == r.locals
      && (n.queue == [] ==> q.queue == [])
  {
    hide Invariant, Hidden, IsRun, SoundRun, After, Placed, Alike, NoneIn;
    StepKeeps(n, EnterLoop);
    CollectorIgnores(n, r, EnterLoop);
    HiddenFrom(n, Apply(n, EnterLoop), g);
    var fs := CollectorSweeps(Apply(n, EnterLoop), Apply(r, EnterLoop), g, x);
    OneThenRun(r, EnterLoop, fs);
    es := [EnterLoop] + fs;
  }

  // ----- Safety of a state, in terms of what can happen -----

  /** In no sound continuation does a thread reach, through objects it has not freed, an object
      that was swept. */
  ghost predicate AlwaysSafe(r: State) {
    forall fs: seq<Event>, u: nat, p: seq<nat> | IsRun(r, fs) && SoundRun(r, fs) && IsLivePath(After(r, fs), u, p) ::
      Placed(After(r, fs), p[|p| - 1])
  }

  lemma InvariantIsSafe(r: State)
    requires Invariant(r)
    ensures AlwaysSafe(r)
  {
    hide Invariant, IsLivePath, Placed, IsRun, SoundRun, After;
    forall fs: seq<Event>, u: nat, p: seq<nat> | IsRun(r, fs) && SoundRun(r, fs) && IsLivePath(After(r, fs), u, p)
      ensures p != [] && Placed(After(r, fs), p[|p| - 1])
    {
      RunKeeps(r, fs);
      PathNotEmpty(After(r, fs), u, p);
      LivePlaced(After(r, fs), u, p);
    }
  }

  lemma PathNotEmpty(s: State, t: nat, p: seq<nat>)
    requires IsLivePath(s, t, p)
    ensures p != []
  {
  }

  /** Nothing on the lists but the objects of `g` themselves holds one of `g`, the i-th word of
      `obj` aside. */
  ghost predicate NoOtherWord(s: State, obj: nat, i: nat, g: set<nat>) {
    forall y, j | OnLists(s, y) && y !in g && y in s.fields && 0 <= j < |s.fields[y]| && s.fields[y][j] in g :: y == obj && j == i
  }

  // ----- A load without its message -----

  lemma ClearWord(s: State, t: nat, obj: nat, i: nat)
    requires Invariant(s) && CanLoad(s, t, obj, i)
    ensures var e, r, n := Store(t, obj, i, 0), Loaded(s, t, obj, i), Written(s, obj, i, 0);
      Invariant(n) && Enabled(r, e) && Sound(r, e) && Apply(r, e) == n.(locals := r.locals)
  {
    hide Holds, Covers, Position, Colors, Messages, NewIds, Inherited;
    NullCovered(s);
    PlainStoreKeepsIff(s, t, obj, i, 0);
  }

  lemma ClearedIsHidden(s: State, t: nat, obj: nat, i: nat)
    requires Invariant(s) && CanLoad(s, t, obj, i)
    requires var w := s.fields[obj][i]; !CoveredWord(s, w) && NoOtherWord(s, obj, i, {w})
    ensures Hidden(Written(s, obj, i, 0), {s.fields[obj][i]}) && s.fields[obj][i] != 0
    ensures s.fields[obj][i] in s.fields && s.fields[obj][i] in Loaded(s, t, obj, i).locals[t]
  {
    hide NoDup, NewIds, Position, Colors, Messages, Covers, Holds, Young;
    var w, n := s.fields[obj][i], Written(s, obj, i, 0);
    assert Placed(s, w) && 0 != w;
    assert Loaded(s, t, obj, i).locals[t][|s.locals[t]|] == w;
    CtiPends(s.queue, w);
    forall y | OnLists(n, y) && y != w
      ensures y in n.fields && NoneIn(n, n.fields[y], {w})
    {
      assert OnLists(s, y) && Placed(s, y);
    }
  }

  lemma CtiPends(queue: seq<Message>, w: nat)
    ensures HasCti(queue, w) ==> Pending(queue, w)
  {
  }

  lemma HeldIsLive(q: State, t: nat, w: nat)
    requires t in q.locals && w in q.locals[t] && w != 0 && w !in q.dead && w in q.fields
    ensures IsLivePath(q, t, [w])
  {
  }

  /** With a plain load a thread whose stack the collector is done with can take over the only
      reference to an object that waits unannounced.  When it then clears the word, the
      collector sweeps the object. */
  lemma PlainLoadLoses(s: State, t: nat, obj: nat, i: nat) returns (fs: seq<Event>)
    requires Invariant(s) && CanLoad(s, t, obj, i) && StackDone(s, t) && (InLoop(s) || MayEnter(s))
    requires var w := s.fields[obj][i]; w !in s.dead && !CoveredWord(s, w) && NoOtherWord(s, obj, i, {w})
    ensures var r := Loaded(s, t, obj, i);
      && IsRun(r, fs) && SoundRun(r, fs) && fs != [] && fs[0] == Store(t, obj, i, 0) && After(r, fs).phase == Idle
      && IsLivePath(After(r, fs), t, [s.fields[obj][i]]) && !Placed(After(r, fs), s.fields[obj][i])
  {
    hide Invariant, NewIds, Apply, Enabled, Sound, IsLivePath, Hidden, NoOtherWord, IsRun, SoundRun, After, Young;
    var w, r, n, e := s.fields[obj][i], Loaded(s, t, obj, i), Written(s, obj, i, 0), Store(t, obj, i, 0);
    var q := n.(locals := r.locals);
    ClearWord(s, t, obj, i);
    ClearedIsHidden(s, t, obj, i);
    var es;
    if InLoop(s) {
      es := CollectorSweeps(n, q, {w}, w);
    } else {
      es := StacksThenSweep(n, q, {w}, w, t, 0);
    }
    OneThenRun(r, e, es);
    fs := [e] + es;
    HeldIsLive(After(r, fs), t, w);
  }

  /** When the thread's word is the only one that holds the object, a plain load is safe, in
      every continuation, exactly when the object does not wait unannounced. */
  lemma PlainLoadIsSafeIff(s: State, t: nat, obj: nat, i: nat)
    requires Invariant(s) && CanLoad(s, t, obj, i) && StackDone(s, t) && (InLoop(s) || MayEnter(s))
    requires s.fields[obj][i] !in s.dead && NoOtherWord(s, obj, i, {s.fields[obj][i]})
    ensures AlwaysSafe(Loaded(s, t, obj, i)) <==> CoveredWord(s, s.fields[obj][i])
  {
    hide Invariant, IsLivePath, Placed, IsRun, SoundRun, After, CoveredWord, StackDone, MayEnter, NoOtherWord;
    var r := Loaded(s, t, obj, i);
    if CoveredWord(s, s.fields[obj][i]) {
      PlainLoadKeepsIff(s, t, obj, i);
      InvariantIsSafe(r);
    } else {
      var fs := PlainLoadLoses(s, t, obj, i);
      var p := [s.fields[obj][i]];
      assert IsLivePath(After(r, fs), t, p) && !Placed(After(r, fs), p[|p| - 1]);
    }
  }

  // ----- A store without its message -----

  lemma PairIsLive(q: State, t: nat, x: nat, w: nat)
    requires t in q.locals && x in q.locals[t] && x != 0 && x !in q.dead && x in q.fields && w in q.fields[x]
    requires w != 0 && w !in q.dead && w in q.fields
    ensures IsLivePath(q, t, [x, w])
  {
  }

  lemma WaitingIsHidden(s: State, g: set<nat>)
    requires Invariant(s) && (forall w | w in g :: w in s.m.from && !HasCti(s.queue, w)) && NoOtherWord(s, 0, 0, g)
    ensures Hidden(s, g)
  {
    hide NoDup, NewIds, Position, Colors, Messages, Covers, Holds, Young, HasCti;
    assert 0 !in s.m.color;
    forall y | OnLists(s, y) && y !in g
      ensures y in s.fields && NoneIn(s, s.fields[y], g)
    {
      assert Placed(s, y) && y != 0;
    }
  }

  /** A thread that may use a young object, and what it holds. */
  lemma YoungFacts(s: State, t: nat, obj: nat)
    requires Invariant(s) && CanUse(s, t, obj) && obj in Young(s)
    ensures !OnLists(s, obj) && !IsWhite(s, obj) && obj != 0
  {
    hide NewIds;
  }

  lemma HeldIsCovered(s: State, t: nat, w: nat)
    requires Invariant(s) && t in s.locals && StackDone(s, t) && w in s.locals[t]
    ensures CoveredWord(s, w)
  {
    hide NewIds, Young;
    LocalsFacts(s, t);
    var i :| 0 <= i < |s.locals[t]| && s.locals[t][i] == w;
  }

  /** A thread puts an object that waits unexpected into a young one, without the message, and
      keeps only the young one.  The collector sweeps the object. */
  lemma PlainStoreLoses(s: State, t: nat, obj: nat, i: nat, w: nat) returns (es: seq<Event>)
    requires Invariant(s) && CanStore(s, t, obj, i, w) && s.phase == Roots && obj in Young(s) && MayEnter(s)
    requires w !in s.dead && !ExpectedWord(s, w) && NoOtherWord(s, 0, 0, {w})
    ensures var r := Written(s, obj, i, w);
      IsRun(r, es) && SoundRun(r, es) && IsLivePath(After(r, es), t, [obj, w]) && !Placed(After(r, es), w)
  {
    hide Invariant, NewIds, IsLivePath, Hidden, NoOtherWord, IsRun, SoundRun, After, Young, Inherited, Pending, HasCti;
    var r := Written(s, obj, i, w);
    NullCovered(s);
    YoungFacts(s, t, obj);
    CtiPends(s.queue, w);
    WaitingIsHidden(s, {w});
    if t in s.scanned { HeldIsCovered(s, t, w); }
    FromInFields(s, w);
    es := StacksThenSweep(s, r, {w}, w, t, obj);
    assert r.fields[obj][i] == w;
    PairIsLive(After(r, es), t, obj, w);
  }

  lemma FromInFields(s: State, w: nat)
    requires Invariant(s) && w in s.m.from
    ensures w in s.fields && w != 0
  {
  }

  /** When no other word holds the object, such a store is safe, in every continuation, exactly
      when the object does not wait unexpected. */
  lemma PlainStoreIsSafeIff(s: State, t: nat, obj: nat, i: nat, w: nat)
    requires Invariant(s) && CanStore(s, t, obj, i, w) && s.phase == Roots && obj in Young(s) && MayEnter(s)
    requires w !in s.dead && NoOtherWord(s, 0, 0, {w})
    ensures AlwaysSafe(Written(s, obj, i, w)) <==> ExpectedWord(s, w)
  {
    hide Invariant, IsLivePath, Placed, IsRun, SoundRun, After, ExpectedWord, MayEnter, NoOtherWord, Young;
    var r := Written(s, obj, i, w);
    if ExpectedWord(s, w) {
      PlainStoreKeepsIff(s, t, obj, i, w);
      InvariantIsSafe(r);
    } else {
      var fs := PlainStoreLoses(s, t, obj, i, w);
      var p := [obj, w];
      assert IsLivePath(After(r, fs), t, p) && !Placed(After(r, fs), p[|p| - 1]);
    }
  }

  // ----- The copy of a resize -----

  /** The old object waits unannounced, and so does an object that only it holds.  The program
      keeps the new object, and the collector sweeps what the new object holds. */
  lemma ResizeLoses(s: State, t: nat, obj: nat, x: nat, i: nat) returns (es: seq<Event>)
    requires Invariant(s) && CanResize(s, t, obj, x) && s.phase == Roots && x in Young(s) && s.m.scan != []
    requires !CoveredWord(s, obj) && i < |s.fields[obj]| && i < |s.fields[x]|
    requires var w := s.fields[obj][i]; w != obj && w !in s.dead && !ExpectedWord(s, w) && NoOtherWord(s, 0, 0, {obj, w})
    ensures var r := Freeing(Copy(s, obj, x), obj);
      IsRun(r, es) && SoundRun(r, es) && IsLivePath(After(r, es), t, [x, s.fields[obj][i]]) && !Placed(After(r, es), s.fields[obj][i])
  {
    hide Invariant, NewIds, IsLivePath, Hidden, NoOtherWord, IsRun, SoundRun, After, Young, Inherited, Pending, HasCti, Extends;
    var r, n, w := Freeing(Copy(s, obj, x), obj), Freeing(s, obj), s.fields[obj][i];
    FreeKeeps(s, t, obj);
    YoungFacts(s, t, x);
    if t in s.scanned { HeldIsCovered(s, t, obj); }
    FromInFields(s, w);
    NotNamed(s, obj, w);
    SameWords(s, n, {obj, w});
    WaitingIsHidden(n, {obj, w});
    es := StacksThenSweep(n, r, {obj, w}, w, t, x);
    assert r.fields[x][i] == w;
    PairIsLive(After(r, es), t, x, w);
  }

  lemma NotNamed(s: State, obj: nat, w: nat)
    requires !Pending(s.queue, obj) && !Pending(s.queue, w)
    ensures !HasCti(Freeing(s, obj).queue, obj) && !HasCti(Freeing(s, obj).queue, w)
  {
    HasCtiMore(s.queue, Freed(obj), obj);
    HasCtiMore(s.queue, Freed(obj), w);
  }

  lemma SameWords(s: State, n: State, g: set<nat>)
    requires NoOtherWord(s, 0, 0, g) && n.m == s.m && n.fields == s.fields
    ensures NoOtherWord(n, 0, 0, g)
  {
  }

  /** When nothing else holds the old object or the object in its i-th word, and its other words
      are harmless, the copy is safe, in every continuation, exactly when it may be made. */
  lemma ResizeIsSafeIff(s: State, t: nat, obj: nat, x: nat, i: nat)
    requires Invariant(s) && CanResize(s, t, obj, x) && s.phase == Roots && x in Young(s) && s.m.scan != []
    requires i < |s.fields[obj]| && i < |s.fields[x]|
    requires forall j :: 0 <= j < |s.fields[obj]| && j < |s.fields[x]| && j != i ==>
      s.fields[obj][j] == obj || ExpectedWord(s, s.fields[obj][j])
    requires s.fields[obj][i] !in s.dead && NoOtherWord(s, 0, 0, {obj, s.fields[obj][i]})
    ensures AlwaysSafe(Freeing(Copy(s, obj, x), obj)) <==> MayResize(s, obj, x)
  {
    hide Invariant, IsLivePath, Placed, IsRun, SoundRun, After, ExpectedWord, CoveredWord, NoOtherWord, Young;
    var r := Freeing(Copy(s, obj, x), obj);
    if MayResize(s, obj, x) {
      ResizeKeepsIff(s, t, obj, x);
      InvariantIsSafe(r);
    } else {
      var fs := ResizeLoses(s, t, obj, x, i);
      var p := [x, s.fields[obj][i]];
      assert IsLivePath(After(r, fs), t, p) && !Placed(After(r, fs), p[|p| - 1]);
    }
  }

  // ----- A free that comes too late -----

  /** A cycle that begins after `x` was allocated and then freed. */
  function FreshFreed(s: State, t: nat, x: nat, n: nat): State
    requires s.phase == Idle && CanAllocate(s, t, x)
  {
    Apply(Freeing(Apply(s, Alloc(t, x, n)), x), Begin)
  }

  lemma FreshFreedFacts(s: State, t: nat, x: nat, n: nat)
    requires Invariant(s) && s.phase == Idle && s.queue == [] && CanAllocate(s, t, x)
    ensures var q := FreshFreed(s, t, x, n);
      && Invariant(q) && q.phase == Roots && q.queue == [] && Hidden(q, {x}) && !IsWhite(q, x) && x in q.fields && q.scanned == {}
      && q.locals == s.locals[t := s.locals[t] + [x]] && q.fields == s.fields[x := Nulls(n)] && q.dead == s.dead + {x}
  {
    hide Invariant, NewIds, HandleAll, Joined, Hidden;
    var a := Apply(s, Alloc(t, x, n));
    var b := Apply(a, Free(t, x));
    StepKeeps(s, Alloc(t, x, n));
    assert a.locals[t][|s.locals[t]|] == x;
    StepKeeps(a, Free(t, x));
    StepKeeps(b, Begin);
    assert b.queue == [New(x), Freed(x)] && b.queue[1] == Freed(x);
    assert Placed(b, x) by { NewIdsMembers(b.queue, x); assert b.queue[0] == New(x); }
    BeginPlaces(b);
    RedIsHidden(Apply(b, Begin), x);
  }

  lemma FreshFreedSteps(s: State, t: nat, x: nat, n: nat)
    requires s.phase == Idle && CanAllocate(s, t, x)
    ensures Enabled(s, Alloc(t, x, n)) && Sound(s, Alloc(t, x, n))
    ensures var a := Apply(s, Alloc(t, x, n));
      && Enabled(a, Free(t, x)) && Sound(a, Free(t, x)) && Apply(a, Free(t, x)) == Freeing(a, x)
      && Enabled(Freeing(a, x), Begin) && Sound(Freeing(a, x), Begin)
  {
    hide NewIds, BeginCycle;
    assert Apply(s, Alloc(t, x, n)).locals[t][|s.locals[t]|] == x;
  }

  lemma FreshFreedRun(s: State, t: nat, x: nat, n: nat)
    requires s.phase == Idle && CanAllocate(s, t, x)
    ensures var es := [Alloc(t, x, n), Free(t, x), Begin]; IsRun(s, es) && SoundRun(s, es) && After(s, es) == FreshFreed(s, t, x, n)
  {
    hide Apply, Enabled, Sound, IsRun, SoundRun, After;
    FreshFreedSteps(s, t, x, n);
    var a := Apply(s, Alloc(t, x, n));
    var b := Apply(a, Free(t, x));
    NothingYet(Apply(b, Begin));
    OneThenRun(b, Begin, []);
    OneThenRun(a, Free(t, x), [Begin] + []);
    OneThenRun(s, Alloc(t, x, n), [Free(t, x)] + ([Begin] + []));
    assert [Alloc(t, x, n)] + ([Free(t, x)] + ([Begin] + [])) == [Alloc(t, x, n), Free(t, x), Begin];
  }

  lemma RedIsHidden(s: State, x: nat)
    requires Invariant(s) && x in s.m.from && IsRed(s, x)
    ensures Hidden(s, {x})
  {
    hide NewIds, NoDup, Messages, Holds, Covers, Position;
  }

  /** An object that was freed is swept, and its thread may hold it for as long as it likes. */
  lemma FreedIsGone(s: State, t: nat, x: nat, n: nat) returns (es: seq<Event>)
    requires Invariant(s) && s.phase == Idle && s.queue == [] && CanAllocate(s, t, x)
    ensures IsRun(s, es) && SoundRun(s, es)
    ensures var q := After(s, es);
      Invariant(q) && q.phase == Idle && q.queue == [] && !Placed(q, x) && t in q.locals && q.locals[t] == [x] && x in q.fields && x in q.dead
  {
    hide Invariant, Hidden, IsRun, SoundRun, After, Placed, Apply;
    var q := FreshFreed(s, t, x, n);
    FreshFreedFacts(s, t, x, n);
    FreshFreedRun(s, t, x, n);
    SelfAlike(q);
    var fs := StacksThenSweep(q, q, {x}, x, t, x);
    RunConcat(s, [Alloc(t, x, n), Free(t, x), Begin], fs);
    es := [Alloc(t, x, n), Free(t, x), Begin] + fs;
    RunKeeps(s, es);
  }

  lemma SelfAlike(s: State)
    ensures Alike(s, s)
  {
  }

  /** After a free of `x`, which is gone, and an allocation at the same address. */
  function FreedAgain(s: State, t: nat, x: nat, n: nat): State
    requires CanAllocate(s, t, x)
  {
    Allocated(s.(dead := s.dead + {x}), t, x, n).(queue := [Freed(x), New(x)])
  }

  /** A late free also breaks the order of messages: the FREE message comes first. */
  lemma LateFree(s: State, t: nat, x: nat, n: nat)
    requires s.queue == [] && Enabled(s, Free(t, x)) && CanAllocate(s, t, x)
    ensures var es := [Free(t, x), Alloc(t, x, n)]; IsRun(s, es) && After(s, es) == FreedAgain(s, t, x, n)
    ensures !NewFirst(FreedAgain(s, t, x, n).queue)
  {
    var a := Apply(s, Free(t, x));
    assert NewIds(a.queue) == [] by { NewIdsAppend([], Freed(x)); }
    var b := Apply(a, Alloc(t, x, n));
    assert b.queue == [Freed(x), New(x)] && b == FreedAgain(s, t, x, n);
    var fs: seq<Event> := [Alloc(t, x, n)];
    assert fs[1..] == [] && IsRun(b, []) && IsRun(a, fs) && After(a, fs) == b;
    assert [Free(t, x), Alloc(t, x, n)][1..] == fs;
    assert b.queue[0] == Freed(x) && b.queue[1] == New(x);
  }

  /** The order of the two messages makes no difference to the cycle. */
  lemma SameBegin(s: State, t: nat, x: nat, n: nat)
    requires s.phase == Idle && s.queue == [] && CanAllocate(s, t, x)
    ensures var r, q := Apply(FreedAgain(s, t, x, n), Begin), FreshFreed(s, t, x, n); r == q.(dead := r.dead) && x !in r.dead
  {
    hide NewIds, Joined;
    var f, b := FreedAgain(s, t, x, n), Freeing(Apply(s, Alloc(t, x, n)), x);
    assert b.queue == [New(x), Freed(x)] && b.queue[1..] == [Freed(x)] && f.queue[1..] == [New(x)];
    var f1, b1 := HandleOne(f), HandleOne(b);
    assert f1.queue == [New(x)] && b1.queue == [Freed(x)] && f1.queue[1..] == [] && b1.queue[1..] == [];
    assert HandleAll(f) == HandleAll(f1) == HandleOne(f1);
    assert HandleAll(b) == HandleAll(b1) == HandleOne(b1);
    JoinedDead(HandleOne(b1), HandleOne(f1));
  }

  lemma JoinedDead(h: State, k: State)
    requires k == h.(dead := k.dead)
    ensures Joined(k) == Joined(h).(dead := k.dead)
  {
  }

  /** Why a second free must come in time: it reaches the new object at the same address, and the
      next cycle can sweep that object although a thread holds it to the end. */
  lemma LateFreeLoses(s: State, t: nat, x: nat, n: nat) returns (es: seq<Event>)
    requires Invariant(s) && s.phase == Idle && s.queue == [] && Enabled(s, Free(t, x)) && CanAllocate(s, t, x)
    ensures var r := FreedAgain(s, t, x, n);
      && IsRun(r, es) && SoundRun(r, es) && After(r, es).phase == Idle
      && IsLivePath(After(r, es), t, [x]) && !Placed(After(r, es), x)
  {
    hide Invariant, Hidden, IsRun, SoundRun, After, Placed, Apply, IsLivePath;
    var f, q := FreedAgain(s, t, x, n), FreshFreed(s, t, x, n);
    var r := Apply(f, Begin);
    FreshFreedFacts(s, t, x, n);
    SameBegin(s, t, x, n);
    var fs := StacksThenSweep(q, r, {x}, x, t, x);
    OneThenRun(f, Begin, fs);
    es := [Begin] + fs;
    HeldIsLive(After(f, es), t, x);
  }
}
