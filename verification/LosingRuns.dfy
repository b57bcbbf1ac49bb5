/** Runs, from the first state of the program, that lose an object because one assumption does
    not hold, and one that keeps an object which the program freed. */
module LosingRuns {
  import opened Seqs
  import opened MarkSpec
  import opened IncrementalCollector
  import opened ConcurrentRuns
  import opened ConcurrentGarbage
  import opened ConcurrentAccess

  // ----- A skipped mark loop, and a store without its barrier -----

  /** A thread allocates object 1, a cycle begins, it allocates object 2, stores 1 in it, with
      or without the barrier, and forgets 1. */
  function Skipping(sent: bool): seq<Event> {
    [Alloc(0, 1, 1), Begin, Alloc(0, 2, 1), if sent then Store(0, 2, 0, 1) else PlainStore(0, 2, 0, 1),
     SetLocals(0, [2]), ScanStack(0), EnterLoop, SweepNext]
  }

  function SkippingState(sent: bool, i: nat): State {
    var white, both := map[1 := WHITE], map[1 := WHITE, 2 := BLACK];
    var queue: seq<Message> := if sent then [New(2), Cti(1)] else [New(2)];
    var old1, new1, words := map[1 := [0]], map[1 := [0], 2 := [0]], map[1 := [0], 2 := [1]];
    if i == 0 then Initial({0})
    else if i == 1 then State(Marking([], [], map[1 := BLACK]), [], [New(1)], old1, map[0 := [1]], {}, {}, Idle)
    else if i == 2 then State(Marking([1], [], white), [], [], old1, map[0 := [1]], {}, {}, Roots)
    else if i == 3 then State(Marking([1], [], both), [], [New(2)], new1, map[0 := [1, 2]], {}, {}, Roots)
    else if i == 4 then State(Marking([1], [], both), [], queue, words, map[0 := [1, 2]], {}, {}, Roots)
    else if i == 5 then State(Marking([1], [], both), [], queue, words, map[0 := [2]], {}, {}, Roots)
    else if i == 6 then State(Marking([1], [], both), [], queue, words, map[0 := [2]], {0}, {}, Roots)
    else if i == 7 then State(Marking([1], [], both), [], queue, words, map[0 := [2]], {0}, {}, Sweep)
    else State(Marking([], [], both), [], queue, words, map[0 := [2]], {0}, {}, Sweep)
  }

  ghost predicate SkippingStep(sent: bool, i: nat)
    requires i < 8
  {
    Enabled(SkippingState(sent, i), Skipping(sent)[i]) &&
    Apply(SkippingState(sent, i), Skipping(sent)[i]) == SkippingState(sent, i + 1)
  }

  lemma SkippingFirst(sent: bool)
    ensures SkippingStep(sent, 0)
  {
    hide BeginCycle, HandleOne, ScanRoots, WordScanned;
    assert Nulls(1) == [0];
    var s := SkippingState(sent, 0);
    assert s.locals[0] + [1] == [1] && s.queue + [New(1)] == [New(1)];
  }

  lemma SkippingSecond(sent: bool)
    ensures SkippingStep(sent, 2)
  {
    hide BeginCycle, HandleOne, ScanRoots, WordScanned;
    assert Nulls(1) == [0];
    var r := SkippingState(sent, 2);
    assert r.locals[0] + [2] == [1, 2] && r.queue + [New(2)] == [New(2)];
  }

  lemma SkippingBegin(sent: bool)
    ensures SkippingStep(sent, 1)
  {
    var s := SkippingState(sent, 1);
    var h := s.(news := [1], queue := []);
    assert HandleOne(s) == h;
    assert HandleAll(h) == h;
    var m := Marking(h.m.scan + h.news, [], h.m.color);
    assert m.from == [1] && m.from[..1] == [1];
    assert Cleared(m, 1).color == map[1 := WHITE];
  }

  lemma SkippingMutator(sent: bool)
    ensures SkippingStep(sent, 3) && SkippingStep(sent, 4)
  {
    hide BeginCycle, HandleOne, ScanRoots, WordScanned;
    assert With([0], 0, 1) == [1];
  }

  lemma SkippingCollector(sent: bool)
    ensures SkippingStep(sent, 5) && SkippingStep(sent, 6) && SkippingStep(sent, 7)
  {
    hide BeginCycle, HandleOne, WordScanned, AddRoot;
    var m := SkippingState(sent, 5).m;
    assert [2][..0] == [] && ScanRoots(m, []) == m;
    assert ScanRoots(m, [2]) == m;
  }

  lemma {:induction false} SkippingRun(sent: bool, i: nat)
    requires i <= 8
    ensures var es := Skipping(sent)[i..];
      IsRun(SkippingState(sent, i), es) && After(SkippingState(sent, i), es) == SkippingState(sent, 8)
    decreases 8 - i
  {
    hide Enabled, Apply, SkippingState, Skipping;
    SkippingLength(sent);
    if i < 8 {
      SkippingFirst(sent);
      SkippingSecond(sent);
      SkippingBegin(sent);
      SkippingMutator(sent);
      SkippingCollector(sent);
      assert SkippingStep(sent, i);
      SkippingRun(sent, i + 1);
      assert Skipping(sent)[i..][0] == Skipping(sent)[i] && Skipping(sent)[i..][1..] == Skipping(sent)[i + 1..];
    }
  }

  lemma SkippingLength(sent: bool)
    ensures |Skipping(sent)| == 8
  {
  }

  lemma SkippingEnd(sent: bool)
    ensures SkippingState(sent, 0) == Initial({0})
    ensures IsLivePath(SkippingState(sent, 8), 0, [2, 1]) && !Placed(SkippingState(sent, 8), 1)
  {
    assert NewIds([New(2), Cti(1)]) == [2] + NewIds([Cti(1)]);
  }

  /** With the message it is the skip that is not sound; without, it is the store. */
  lemma SkippingBlame()
    ensures !Sound(SkippingState(true, 6), EnterLoop) && Sound(SkippingState(false, 6), EnterLoop)
    ensures !Sound(SkippingState(false, 3), PlainStore(0, 2, 0, 1))
  {
    assert SkippingState(true, 6).queue[1].x == 1;
    assert NewIds([New(2)]) == [2] + NewIds([]);
    assert !Pending([New(2)], 1);
  }

  /** With the barrier, the young object 2 is BLACK and no stack holds a WHITE one, so the scan
      list stays empty, the CTI message for 1 is not handled, and 1 is swept although the
      program reaches it through 2. */
  lemma SkippedLoopLosesObject()
    ensures IsRun(Initial({0}), Skipping(true))
    ensures var s := After(Initial({0}), Skipping(true)); IsLivePath(s, 0, [2, 1]) && !Placed(s, 1)
  {
    hide Enabled, Apply, IsRun, After;
    SkippingRun(true, 0);
    SkippingEnd(true);
    assert Skipping(true)[0..] == Skipping(true);
  }

  /** Without the message the loop may be skipped, and the same object is lost. */
  lemma PlainStoreLosesObject()
    ensures IsRun(Initial({0}), Skipping(false))
    ensures var s := After(Initial({0}), Skipping(false)); IsLivePath(s, 0, [2, 1]) && !Placed(s, 1)
  {
    hide Enabled, Apply, IsRun, After;
    SkippingRun(false, 0);
    SkippingEnd(false);
    assert Skipping(false)[0..] == Skipping(false);
  }

  // ----- A load without its barrier -----

  /** A thread allocates 1 and 2, stores 2 in 1 and forgets it; a cycle begins, and the collector
      comes to the word of 1. */
  const LOADING: seq<Event> := [
    Alloc(0, 1, 1), Alloc(0, 2, 0), Store(0, 1, 0, 2), SetLocals(0, [1]), Begin, ScanStack(0), EnterLoop, BlackenNext
  ]

  function LoadingState(i: nat): State {
    var black, white := map[1 := BLACK, 2 := BLACK], map[1 := WHITE, 2 := WHITE];
    var empty, words: map<nat, seq<nat>> := map[1 := [0], 2 := []], map[1 := [2], 2 := []];
    if i == 0 then Initial({0})
    else if i == 1 then State(Marking([], [], map[1 := BLACK]), [], [New(1)], map[1 := [0]], map[0 := [1]], {}, {}, Idle)
    else if i == 2 then State(Marking([], [], black), [], [New(1), New(2)], empty, map[0 := [1, 2]], {}, {}, Idle)
    else if i == 3 then State(Marking([], [], black), [], [New(1), New(2)], words, map[0 := [1, 2]], {}, {}, Idle)
    else if i == 4 then State(Marking([], [], black), [], [New(1), New(2)], words, map[0 := [1]], {}, {}, Idle)
    else if i == 5 then State(Marking([1, 2], [], white), [], [], words, map[0 := [1]], {}, {}, Roots)
    else if i == 6 then State(Marking([2], [1], white[1 := GRAY]), [], [], words, map[0 := [1]], {0}, {}, Roots)
    else if i == 7 then State(Marking([2], [1], white[1 := GRAY]), [], [], words, map[0 := [1]], {0}, {}, Blacken(0))
    else State(Marking([2], [1], white[1 := BLACK]), [], [], words, map[0 := [1]], {0}, {}, Words(0, 0))
  }

  ghost predicate LoadingStep(i: nat)
    requires i < 8
  {
    && Enabled(LoadingState(i), LOADING[i]) && Sound(LoadingState(i), LOADING[i])
    && Apply(LoadingState(i), LOADING[i]) == LoadingState(i + 1)
  }

  lemma LoadingFirst()
    ensures LoadingStep(0)
  {
    hide BeginCycle, HandleOne, ScanRoots, WordScanned;
    assert Nulls(1) == [0];
    var s := LoadingState(0);
    assert s.locals[0] + [1] == [1] && s.queue + [New(1)] == [New(1)];
  }

  lemma LoadingSecond()
    ensures LoadingStep(1)
  {
    hide BeginCycle, HandleOne, ScanRoots, WordScanned;
    assert Nulls(0) == [];
    var r := LoadingState(1);
    assert r.locals[0] + [2] == [1, 2] && r.queue + [New(2)] == [New(1), New(2)];
    assert NewIds([New(1)]) == [1] + NewIds([]);
  }

  lemma LoadingMutator()
    ensures LoadingStep(2) && LoadingStep(3)
  {
    hide BeginCycle, HandleOne, ScanRoots, WordScanned;
    assert With([0], 0, 2) == [2];
  }

  lemma LoadingHandled()
    ensures var s := LoadingState(4); HandleAll(s) == s.(news := [1, 2], queue := [])
  {
    var s := LoadingState(4);
    var n, h := s.(news := [1], queue := [New(2)]), s.(news := [1, 2], queue := []);
    assert HandleOne(s) == n;
    assert HandleOne(n) == h;
    assert HandleAll(h) == h && HandleAll(n) == h;
  }

  lemma BothBleached(color: map<nat, nat>, from: seq<nat>)
    requires color == map[1 := BLACK, 2 := BLACK] && from == [1, 2]
    ensures Bleach(color, Elements(from)) == map[1 := WHITE, 2 := WHITE]
  {
  }

  lemma LoadingJoined()
    ensures Joined(LoadingState(4).(news := [1, 2], queue := [])) == LoadingState(5)
  {
    hide Bleach, Elements;
    var h := LoadingState(4).(news := [1, 2], queue := []);
    var from := h.m.scan + h.news;
    assert from == [1, 2] && from[..|from|] == from;
    BothBleached(h.m.color, from);
  }

  lemma LoadingBegin()
    ensures LoadingStep(4)
  {
    hide HandleAll, Joined;
    LoadingHandled();
    LoadingJoined();
  }

  lemma RootAdded(m: Marking<nat>)
    requires m == Marking([1, 2], [], map[1 := WHITE, 2 := WHITE])
    ensures AddRoot(m, 1) == Marking([2], [1], map[1 := GRAY, 2 := WHITE])
  {
    assert Without([1, 2], 1) == Without([2], 1) == [2] + Without([], 1);
    assert Without<nat>([], 1) == [];
  }

  lemma LoadingStack()
    ensures LoadingStep(5)
  {
    hide BeginCycle, HandleOne, WordScanned, AddRoot;
    var m, ws: seq<nat> := LoadingState(5).m, [1];
    RootAdded(m);
    assert ws[..0] == [] && ScanRoots(m, []) == m;
    assert ScanRoots(m, ws) == AddRoot(m, 1);
  }

  lemma LoadingCollector()
    ensures LoadingStep(6) && LoadingStep(7)
  {
  }

  lemma {:induction false} LoadingRun(i: nat)
    requires i <= 8
    ensures var es := LOADING[i..];
      IsRun(LoadingState(i), es) && SoundRun(LoadingState(i), es) && After(LoadingState(i), es) == LoadingState(8)
    decreases 8 - i
  {
    hide Enabled, Apply, Sound, LoadingState;
    if i < 8 {
      LoadingFirst();
      LoadingSecond();
      LoadingMutator();
      LoadingBegin();
      LoadingStack();
      LoadingCollector();
      assert LoadingStep(i);
      LoadingRun(i + 1);
      assert LOADING[i..][0] == LOADING[i] && LOADING[i..][1..] == LOADING[i + 1..];
    }
  }

  lemma LoadingEnd()
    ensures var s := LoadingState(8);
      && InLoop(s) && CanLoad(s, 0, 1, 0) && s.fields[1][0] == 2 && s.dead == {}
      && !CoveredWord(s, 2) && NoOtherWord(s, 1, 0, {2}) && LoadingState(0) == Initial({0})
  {
  }

  lemma LoadingIsGood()
    ensures Invariant(LoadingState(8))
  {
    hide Enabled, Apply, Sound, LoadingState, Invariant, CoveredWord, NoOtherWord;
    LoadingRun(0);
    LoadingEnd();
    assert LOADING[0..] == LOADING;
    InitialIsGood({0});
    RunKeeps(Initial({0}), LOADING);
  }

  /** Why loads need their barrier: the thread loads 2 from 1 without one and clears the word
      before the collector reads it.  The collector finishes its cycle and sweeps 2, which the
      thread holds. */
  lemma PlainLoadLosesObject() returns (es: seq<Event>)
    ensures es != [] && es[0] == Store(0, 1, 0, 0)
    ensures var fs := LOADING + [PlainLoad(0, 1, 0)] + es;
      IsRun(Initial({0}), fs) && IsLivePath(After(Initial({0}), fs), 0, [2]) && !Placed(After(Initial({0}), fs), 2)
  {
    hide Enabled, Apply, Sound, LoadingState, Invariant, IsLivePath, Placed, NoOtherWord, CoveredWord, SoundRun, IsRun, After;
    var s := LoadingState(8);
    LoadingRun(0);
    LoadingEnd();
    assert LOADING[0..] == LOADING;
    LoadingIsGood();
    es := PlainLoadLoses(s, 0, 1, 0);
    PlainLoadIs(s, 0, 1, 0);
    OneThenRun(s, PlainLoad(0, 1, 0), es);
    RunConcat(Initial({0}), LOADING, [PlainLoad(0, 1, 0)] + es);
    assert LOADING + ([PlainLoad(0, 1, 0)] + es) == LOADING + [PlainLoad(0, 1, 0)] + es;
  }

  lemma PlainLoadIs(s: State, t: nat, obj: nat, i: nat)
    requires CanLoad(s, t, obj, i)
    ensures Enabled(s, PlainLoad(t, obj, i)) && Apply(s, PlainLoad(t, obj, i)) == Loaded(s, t, obj, i)
  {
  }

  // ----- A free that is forgotten -----

  /** The thread loads 2 and frees it, while 2 waits to be scanned.  The collector handles the FREE
      message before it comes to 2, and blackens 2 again. */
  const FORGETTING: seq<Event> := [
    Load(0, 1, 0), Free(0, 2), ScanWord, ScanWord, HandleNext, HandleNext, Drained, BlackenNext, ScanWord, Drained, Finish
  ]

  function ForgettingState(i: nat): State {
    var words: map<nat, seq<nat>>, both: map<nat, seq<nat>> := map[1 := [2], 2 := []], map[0 := [1, 2]];
    var waiting, moved := Marking([2], [1], map[1 := BLACK, 2 := WHITE]), Marking([], [1, 2], map[1 := GRAY, 2 := WHITE]);
    var red, black := moved.(color := map[1 := GRAY, 2 := RED]), moved.(color := map[1 := GRAY, 2 := BLACK]);
    if i == 0 then LoadingState(8)
    else if i == 1 then State(waiting, [], [Cti(2)], words, both, {0}, {}, Words(0, 0))
    else if i == 2 then State(waiting, [], [Cti(2), Freed(2)], words, both, {0}, {2}, Words(0, 0))
    else if i == 3 then State(moved, [], [Cti(2), Freed(2)], words, both, {0}, {2}, Words(0, 1))
    else if i == 4 then State(moved, [], [Cti(2), Freed(2)], words, both, {0}, {2}, Drain(0))
    else if i == 5 then State(moved, [], [Freed(2)], words, both, {0}, {2}, Drain(0))
    else if i == 6 then State(red, [], [], words, both, {0}, {2}, Drain(0))
    else if i == 7 then State(red, [], [], words, both, {0}, {2}, Blacken(1))
    else if i == 8 then State(black, [], [], words, both, {0}, {2}, Words(1, 0))
    else if i == 9 then State(black, [], [], words, both, {0}, {2}, Drain(1))
    else if i == 10 then State(black, [], [], words, both, {0}, {2}, Sweep)
    else State(black, [], [], words, both, {0}, {2}, Idle)
  }

  ghost predicate ForgettingStep(i: nat)
    requires i < 11
  {
    && Enabled(ForgettingState(i), FORGETTING[i]) && Sound(ForgettingState(i), FORGETTING[i])
    && Apply(ForgettingState(i), FORGETTING[i]) == ForgettingState(i + 1)
  }

  lemma ForgettingLoads()
    ensures ForgettingStep(0)
  {
    hide BeginCycle, HandleOne, ScanRoots, WordScanned, NewIds, Copied;
    var s := ForgettingState(0);
    assert s.locals[0] + [2] == [1, 2] && s.queue + [Cti(2)] == [Cti(2)];
  }

  lemma ForgettingFrees()
    ensures ForgettingStep(1)
  {
    hide BeginCycle, HandleOne, ScanRoots, WordScanned, NewIds, Copied;
    var s := ForgettingState(1);
    assert s.queue + [Freed(2)] == [Cti(2), Freed(2)] && s.dead + {2} == {2};
  }

  lemma MovedTwo(m: Marking<nat>)
    requires (m.from == [2] && m.scan == [1]) || (m.from == [] && m.scan == [1, 2])
    ensures MoveToScan(m, 2).from == [] && MoveToScan(m, 2).scan == [1, 2]
  {
    assert Without<nat>([], 2) == [];
    assert Without([2], 2) == Without([], 2);
    assert Without([1], 2) == [1] + Without([], 2);
    assert Without([1, 2], 2) == [1] + Without([2], 2);
  }

  lemma ForgettingMoves()
    ensures ForgettingStep(2) && ForgettingStep(4)
  {
    hide BeginCycle, ScanRoots, NewIds, MoveToScan;
    MovedTwo(ForgettingState(2).m.(color := ForgettingState(2).m.color[1 := GRAY]));
    MovedTwo(ForgettingState(4).m);
    MovedColor(ForgettingState(2).m.(color := ForgettingState(2).m.color[1 := GRAY]), 2);
    MovedColor(ForgettingState(4).m, 2);
  }

  lemma ForgettingReddens()
    ensures ForgettingStep(3) && ForgettingStep(5) && ForgettingStep(6)
  {
    hide BeginCycle, ScanRoots, NewIds, MoveToScan;
  }

  lemma ForgettingBlackens()
    ensures ForgettingStep(7) && ForgettingStep(8)
  {
    hide BeginCycle, HandleOne, ScanRoots, NewIds, MoveToScan;
  }

  lemma ForgettingFinishes()
    ensures ForgettingStep(9) && ForgettingStep(10)
  {
    hide BeginCycle, HandleOne, ScanRoots, NewIds, MoveToScan, WordScanned;
  }

  lemma {:induction false} ForgettingRun(i: nat)
    requires i <= 11
    ensures var es := FORGETTING[i..];
      IsRun(ForgettingState(i), es) && SoundRun(ForgettingState(i), es) && After(ForgettingState(i), es) == ForgettingState(11)
    decreases 11 - i
  {
    hide Enabled, Apply, Sound, ForgettingState;
    if i < 11 {
      ForgettingLoads();
      ForgettingFrees();
      ForgettingMoves();
      ForgettingReddens();
      ForgettingBlackens();
      ForgettingFinishes();
      assert ForgettingStep(i);
      ForgettingRun(i + 1);
      assert FORGETTING[i..][0] == FORGETTING[i] && FORGETTING[i..][1..] == FORGETTING[i + 1..];
    }
  }

  lemma ForgettingEnd()
    ensures var s := ForgettingState(11);
      s.phase == Idle && 2 in s.dead && Placed(s, 2) && !Doomed(s, 2) && Reached(s, 2) && ForgettingState(0) == LoadingState(8)
  {
    ReachedByLocal(ForgettingState(11), 0, 2);
  }

  /** A freed object may survive any number of cycles, while a thread holds it. */
  lemma FreedObjectSurvives(n: nat) returns (es: seq<Event>)
    ensures var fs := LOADING + FORGETTING + es; IsRun(Initial({0}), fs) && SoundRun(Initial({0}), fs)
    ensures Cycles(es) == n && forall e | e in es :: IsCollector(e)
    ensures var q := After(Initial({0}), LOADING + FORGETTING + es); q.phase == Idle && 2 in q.dead && Placed(q, 2)
  {
    hide Enabled, Apply, Sound, LoadingState, ForgettingState, Invariant, Placed, SoundRun, IsRun, After, Doomed, Reached;
    LoadingRun(0);
    ForgettingRun(0);
    LoadingEnd();
    ForgettingEnd();
    LoadingIsGood();
    assert LOADING[0..] == LOADING && FORGETTING[0..] == FORGETTING;
    RunKeeps(LoadingState(8), FORGETTING);
    es := ReachedSurvivesCycles(ForgettingState(11), 2, n);
    RunConcat(Initial({0}), LOADING, FORGETTING);
    RunConcat(Initial({0}), LOADING + FORGETTING, es);
  }

  // ----- The copy of a resize -----

  /** Thread 0 allocates 1 and 2, stores 2 in 1 and forgets it; thread 1 allocates 3.  A cycle
      begins and the stack of thread 1 is scanned.  Thread 0 resizes 1: it allocates 4 ... */
  const RESIZING: seq<Event> := [
    Alloc(0, 1, 1), Alloc(0, 2, 0), Store(0, 1, 0, 2), SetLocals(0, [1]), Alloc(1, 3, 0), Begin, ScanStack(1), Alloc(0, 4, 1)
  ]

  function ResizingState(i: nat): State {
    var two, three := map[1 := BLACK, 2 := BLACK], map[1 := BLACK, 2 := BLACK, 3 := BLACK];
    var white := map[1 := WHITE, 2 := WHITE, 3 := WHITE];
    var queue, all: seq<Message> := [New(1), New(2)], [New(1), New(2), New(3)];
    var empty, words: map<nat, seq<nat>> := map[1 := [0], 2 := []], map[1 := [2], 2 := []];
    var more: map<nat, seq<nat>>, full: map<nat, seq<nat>> := words[3 := []], words[3 := []][4 := [0]];
    var held: map<nat, seq<nat>> := map[0 := [1], 1 := [3]];
    if i == 0 then Initial({0, 1})
    else if i == 1 then State(Marking([], [], map[1 := BLACK]), [], [New(1)], map[1 := [0]], map[0 := [1], 1 := []], {}, {}, Idle)
    else if i == 2 then State(Marking([], [], two), [], queue, empty, map[0 := [1, 2], 1 := []], {}, {}, Idle)
    else if i == 3 then State(Marking([], [], two), [], queue, words, map[0 := [1, 2], 1 := []], {}, {}, Idle)
    else if i == 4 then State(Marking([], [], two), [], queue, words, map[0 := [1], 1 := []], {}, {}, Idle)
    else if i == 5 then State(Marking([], [], three), [], all, more, held, {}, {}, Idle)
    else if i == 6 then State(Marking([1, 2, 3], [], white), [], [], more, held, {}, {}, Roots)
    else if i == 7 then State(Marking([1, 2], [3], white[3 := GRAY]), [], [], more, held, {1}, {}, Roots)
    else State(Marking([1, 2], [3], white[3 := GRAY][4 := BLACK]), [], [New(4)], full, map[0 := [1, 4], 1 := [3]], {1}, {}, Roots)
  }

  ghost predicate ResizingStep(i: nat)
    requires i < 8
  {
    && Enabled(ResizingState(i), RESIZING[i]) && Sound(ResizingState(i), RESIZING[i])
    && Apply(ResizingState(i), RESIZING[i]) == ResizingState(i + 1)
  }

  lemma ResizingFirst()
    ensures ResizingStep(0)
  {
    hide BeginCycle, HandleOne, ScanRoots, WordScanned, Copied;
    assert Nulls(1) == [0];
    var s := ResizingState(0);
    assert s.locals[0] + [1] == [1] && s.queue + [New(1)] == [New(1)];
  }

  lemma ResizingSecond()
    ensures ResizingStep(1)
  {
    hide BeginCycle, HandleOne, ScanRoots, WordScanned, Copied;
    assert Nulls(0) == [];
    var s := ResizingState(1);
    assert s.locals[0] + [2] == [1, 2] && s.queue + [New(2)] == [New(1), New(2)];
    assert NewIds([New(1)]) == [1] + NewIds([]);
  }

  lemma ResizingThird()
    ensures ResizingStep(4)
  {
    hide BeginCycle, HandleOne, ScanRoots, WordScanned, Copied;
    assert Nulls(0) == [];
    var s := ResizingState(4);
    assert s.locals[1] + [3] == [3] && s.queue + [New(3)] == [New(1), New(2), New(3)];
    assert NewIds([New(1), New(2)]) == [1] + NewIds([New(2)]) && NewIds([New(2)]) == [2] + NewIds([]);
    assert [New(1), New(2)][1..] == [New(2)] && [New(2)][1..] == [];
  }

  lemma ResizingFourth()
    ensures ResizingStep(7)
  {
    hide BeginCycle, HandleOne, ScanRoots, WordScanned, Copied;
    assert Nulls(1) == [0];
    var s := ResizingState(7);
    assert s.locals[0] + [4] == [1, 4] && s.queue + [New(4)] == [New(4)];
  }

  lemma ResizingMutator()
    ensures ResizingStep(2) && ResizingStep(3)
  {
    hide BeginCycle, HandleOne, ScanRoots, WordScanned, NewIds;
    assert With([0], 0, 2) == [2];
  }

  lemma ResizingHandled()
    ensures var s := ResizingState(5); HandleAll(s) == s.(news := [1, 2, 3], queue := [])
  {
    var s := ResizingState(5);
    var a, b, c := s.(news := [1], queue := [New(2), New(3)]), s.(news := [1, 2], queue := [New(3)]), s.(news := [1, 2, 3], queue := []);
    assert HandleOne(s) == a;
    assert HandleOne(a) == b;
    assert HandleOne(b) == c;
    assert HandleAll(c) == c && HandleAll(b) == c && HandleAll(a) == c;
  }

  lemma ThreeBleached(color: map<nat, nat>, from: seq<nat>)
    requires color == map[1 := BLACK, 2 := BLACK, 3 := BLACK] && from == [1, 2, 3]
    ensures Bleach(color, Elements(from)) == map[1 := WHITE, 2 := WHITE, 3 := WHITE]
  {
  }

  lemma ResizingBegin()
    ensures ResizingStep(5)
  {
    hide HandleAll, Bleach, Elements, NewIds;
    ResizingHandled();
    var h := ResizingState(5).(news := [1, 2, 3], queue := []);
    var from := h.m.scan + h.news;
    assert from == [1, 2, 3] && from[..|from|] == from;
    ThreeBleached(h.m.color, from);
  }

  lemma ThreeAdded(m: Marking<nat>)
    requires m == Marking([1, 2, 3], [], map[1 := WHITE, 2 := WHITE, 3 := WHITE])
    ensures AddRoot(m, 3) == Marking([1, 2], [3], map[1 := WHITE, 2 := WHITE, 3 := GRAY])
  {
    assert Without<nat>([], 3) == [] && Without([3], 3) == Without([], 3);
    assert Without([2, 3], 3) == [2] + Without([3], 3) && Without([1, 2, 3], 3) == [1] + Without([2, 3], 3);
  }

  lemma ResizingStack()
    ensures ResizingStep(6)
  {
    hide BeginCycle, HandleOne, WordScanned, AddRoot, NewIds;
    var m, ws: seq<nat> := ResizingState(6).m, [3];
    ThreeAdded(m);
    assert ws[..0] == [] && ScanRoots(m, []) == m;
    assert ScanRoots(m, ws) == AddRoot(m, 3);
  }

  lemma {:induction false} ResizingRun(i: nat)
    requires i <= 8
    ensures var es := RESIZING[i..];
      IsRun(ResizingState(i), es) && SoundRun(ResizingState(i), es) && After(ResizingState(i), es) == ResizingState(8)
    decreases 8 - i
  {
    hide Enabled, Apply, Sound, ResizingState;
    if i < 8 {
      ResizingFirst();
      ResizingSecond();
      ResizingThird();
      ResizingFourth();
      ResizingMutator();
      ResizingBegin();
      ResizingStack();
      assert ResizingStep(i);
      ResizingRun(i + 1);
      assert RESIZING[i..][0] == RESIZING[i] && RESIZING[i..][1..] == RESIZING[i + 1..];
    }
  }

  lemma ResizingEnd()
    ensures var s := ResizingState(8);
      && CanResize(s, 0, 1, 4) && s.phase == Roots && 4 in Young(s) && s.m.scan != [] && s.fields[1] == [2] && |s.fields[4]| == 1
      && s.dead == {} && !CoveredWord(s, 1) && !ExpectedWord(s, 2) && NoOtherWord(s, 0, 0, {1, 2}) && ResizingState(0) == Initial({0, 1})
  {
    var s := ResizingState(8);
    assert NewIds([New(4)]) == [4] + NewIds([]);
    assert !Pending([New(4)], 1) && !Pending([New(4)], 2);
  }

  /** ... copies the word of 1 to it and frees 1.  The collector comes to neither 1 nor 4, and
      sweeps 2, which the thread reaches through 4. */
  lemma ResizeLosesObject() returns (es: seq<Event>)
    ensures var fs := RESIZING + [Resize(0, 1, 4)] + es;
      IsRun(Initial({0, 1}), fs) && IsLivePath(After(Initial({0, 1}), fs), 0, [4, 2]) && !Placed(After(Initial({0, 1}), fs), 2)
    ensures IsRun(Initial({0, 1}), RESIZING) && SoundRun(Initial({0, 1}), RESIZING)
  {
    hide Enabled, Apply, Sound, ResizingState, Invariant, IsLivePath, Placed, NoOtherWord, SoundRun, IsRun, After, Young;
    hide CoveredWord, ExpectedWord;
    var s, i := ResizingState(8), Initial({0, 1});
    ResizingRun(0);
    ResizingEnd();
    assert RESIZING[0..] == RESIZING;
    InitialIsGood({0, 1});
    RunKeeps(i, RESIZING);
    es := ResizeLoses(s, 0, 1, 4, 0);
    ResizeIs(s, 0, 1, 4);
    var e := Resize(0, 1, 4);
    OneThenRun(s, e, es);
    RunConcat(i, RESIZING, [e] + es);
    assert RESIZING + ([e] + es) == RESIZING + [e] + es;
  }

  lemma ResizeIs(s: State, t: nat, obj: nat, x: nat)
    requires CanResize(s, t, obj, x)
    ensures Enabled(s, Resize(t, obj, x)) && Apply(s, Resize(t, obj, x)) == Freeing(Copy(s, obj, x), obj)
  {
  }

  // ----- A late free -----

  /** The thread frees 1, which is swept, and once more, and allocates it anew: the object is lost. */
  lemma LateFreeLosesObject() returns (es: seq<Event>, fs: seq<Event>)
    ensures IsRun(Initial({0}), es) && SoundRun(Initial({0}), es)
    ensures var gs := es + [Free(0, 1), Alloc(0, 1, 0)] + fs;
      IsRun(Initial({0}), gs) && IsLivePath(After(Initial({0}), gs), 0, [1]) && !Placed(After(Initial({0}), gs), 1)
  {
    hide Apply, Sound, Invariant, IsLivePath, Placed, SoundRun, IsRun, After;
    var s := Initial({0});
    InitialIsGood({0});
    NothingPlaced({0}, 1);
    es := FreedIsGone(s, 0, 1, 0);
    var q := After(s, es);
    LateFree(q, 0, 1, 0);
    fs := LateFreeLoses(q, 0, 1, 0);
    RunConcat(s, es, [Free(0, 1), Alloc(0, 1, 0)]);
    RunConcat(s, es + [Free(0, 1), Alloc(0, 1, 0)], fs);
  }

  lemma NothingPlaced(threads: set<nat>, x: nat)
    ensures !Placed(Initial(threads), x)
  {
  }

  // ----- A lost NEW message -----

  /** Losing a NEW message is never harmless: the program holds an object that no list has. */
  lemma LostAllocLosesObject(s: State, t: nat, x: nat, n: nat)
    requires Invariant(s) && Enabled(s, LostAlloc(t, x, n))
    ensures var r := Apply(s, LostAlloc(t, x, n)); IsLivePath(r, t, [x]) && !Placed(r, x)
  {
    hide NewIds, Invariant;
    var r := Apply(s, LostAlloc(t, x, n));
    assert Young(r) == Young(s);
    assert r.locals[t][|s.locals[t]|] == x;
  }
}
