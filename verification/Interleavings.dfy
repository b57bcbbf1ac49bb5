/** What holds over whole runs of the threaded build: safety, the order of messages, and when
    skipping the mark loop or freeing an object again is safe. */
module ConcurrentRuns {
  import opened Seqs
  import opened Carving
  import opened MarkSpec
  import opened IncrementalCollector
  import Q = MessageQueue

  ghost predicate IsRun(s: State, es: seq<Event>)
    decreases |es|
  {
    es == [] || (Enabled(s, es[0]) && IsRun(Apply(s, es[0]), es[1..]))
  }

  function After(s: State, es: seq<Event>): State
    requires IsRun(s, es)
    decreases |es|
  {
    if es == [] then s else After(Apply(s, es[0]), es[1..])
  }

  ghost predicate SoundRun(s: State, es: seq<Event>)
    requires IsRun(s, es)
    decreases |es|
  {
    es == [] || (Sound(s, es[0]) && SoundRun(Apply(s, es[0]), es[1..]))
  }

  /** The program starts with empty stacks and no objects. */
  function Initial(threads: set<nat>): State {
    State(Marking([], [], map[]), [], [], map[], map t | t in threads :: [], {}, {}, Idle)
  }

  lemma InitialIsGood(threads: set<nat>)
    ensures Invariant(Initial(threads))
  {
  }

  lemma {:induction false} RunKeeps(s: State, es: seq<Event>)
    requires Invariant(s) && IsRun(s, es) && SoundRun(s, es)
    ensures Invariant(After(s, es))
    decreases |es|
  {
    hide Invariant, Apply, Enabled;
    if es != [] {
      StepKeeps(s, es[0]);
      RunKeeps(Apply(s, es[0]), es[1..]);
    }
  }

  /** One run after another. */
  lemma {:induction false} RunConcat(s: State, es: seq<Event>, fs: seq<Event>)
    requires IsRun(s, es) && IsRun(After(s, es), fs)
    ensures IsRun(s, es + fs) && After(s, es + fs) == After(After(s, es), fs)
    ensures SoundRun(s, es) && SoundRun(After(s, es), fs) ==> SoundRun(s, es + fs)
    decreases |es|
  {
    hide Apply, Enabled, Sound;
    if es == [] {
      assert es + fs == fs;
    } else {
      assert (es + fs)[0] == es[0] && (es + fs)[1..] == es[1..] + fs;
      RunConcat(Apply(s, es[0]), es[1..], fs);
    }
  }

  // ----- Safety -----

  /** A chain of words from a local variable that avoids the objects the program freed. */
  ghost predicate IsLivePath(s: State, t: nat, p: seq<nat>) {
    && p != [] && t in s.locals && p[0] in s.locals[t]
    && (forall i :: 0 <= i < |p| ==> p[i] != 0 && p[i] !in s.dead && p[i] in s.fields)
    && (forall i :: 0 <= i < |p| - 1 ==> p[i + 1] in s.fields[p[i]])
  }

  lemma {:induction false} LivePlaced(s: State, t: nat, p: seq<nat>)
    requires Invariant(s) && IsLivePath(s, t, p)
    ensures Placed(s, p[|p| - 1]) && (s.phase == Sweep ==> p[|p| - 1] !in s.m.from)
  {
    hide NoDup, NewIds, Messages, Covers, Position;
    var x := p[|p| - 1];
    assert x in s.fields && x !in s.dead;
    if |p| == 1 {
      assert KnownWords(s, s.locals[t]);
      var i :| 0 <= i < |s.locals[t]| && s.locals[t][i] == x;
    } else {
      var y := p[|p| - 2];
      LivePlaced(s, t, p[..|p| - 1]);
      assert p[|p| - 2 + 1] in s.fields[y];
      assert KnownWords(s, s.fields[y]);
      var i :| 0 <= i < |s.fields[y]| && s.fields[y][i] == x;
    }
  }

  /** At no moment of any run has an object been swept that the program can still reach
      through objects that it has not freed. */
  lemma RunIsSafe(threads: set<nat>, es: seq<Event>, t: nat, p: seq<nat>)
    requires IsRun(Initial(threads), es) && SoundRun(Initial(threads), es)
    requires IsLivePath(After(Initial(threads), es), t, p)
    ensures Placed(After(Initial(threads), es), p[|p| - 1])
  {
    hide Invariant, IsLivePath, Placed;
    InitialIsGood(threads);
    RunKeeps(Initial(threads), es);
    LivePlaced(After(Initial(threads), es), t, p);
  }

  /** What is swept next was freed by the program, or no stack and no surviving object holds
      it; and no message names it. */
  lemma SweptIsGarbage(s: State)
    requires Invariant(s) && Enabled(s, SweepNext)
    ensures var x := s.m.from[0];
      || (IsRed(s, x) && x in s.dead)
      || ((forall t | t in s.locals :: x !in s.locals[t]) &&
          (forall y | (y in s.m.scan || y in Young(s)) && y in s.fields :: x !in s.fields[y]))
    ensures forall i :: 0 <= i < |s.queue| ==> s.queue[i].x != s.m.from[0]
  {
    hide NoDup, Covers, Position;
    var x := s.m.from[0];
    assert x in s.m.from && (IsRed(s, x) || !KnownWord(s, x));
    if !IsRed(s, x) {
      forall ws: seq<nat> | KnownWords(s, ws)
        ensures x !in ws
      {
        assert forall i :: 0 <= i < |ws| ==> KnownWord(s, ws[i]);
      }
    }
  }

  /** Nothing leaves the scan list before the next cycle. */
  lemma {:induction false} ScanListGrows(s: State, es: seq<Event>, x: nat)
    requires IsRun(s, es) && Begin !in es && x in s.m.scan
    ensures x in After(s, es).m.scan
    decreases |es|
  {
    if es != [] {
      ScanStepGrows(s, es[0], x);
      hide Apply, Enabled;
      assert Begin !in es[1..];
      ScanListGrows(Apply(s, es[0]), es[1..], x);
    }
  }

  lemma ScanStepGrows(s: State, e: Event, x: nat)
    requires Enabled(s, e) && e != Begin && x in s.m.scan
    ensures x in Apply(s, e).m.scan
  {
    if e.ScanStack? {
      ScanRootsGrows(s.m, s.locals[e.t], x);
    }
  }

  lemma {:induction false} ScanRootsGrows(m: Marking<nat>, ws: seq<nat>, x: nat)
    requires x in m.scan
    ensures x in ScanRoots(m, ws).scan
  {
    if ws != [] {
      ScanRootsGrows(m, ws[..|ws| - 1], x);
    }
  }

  // ----- A skipped mark loop -----

  ghost predicate MessagesPlaced(s: State) {
    forall i :: 0 <= i < |s.queue| ==> Placed(s, s.queue[i].x)
  }

  /** The collector may sweep to the end without interruption. */
  lemma {:induction false} SweepAll(s: State)
    requires s.phase == Sweep
    ensures var es := seq(|s.m.from|, _ => SweepNext);
      IsRun(s, es) && SoundRun(s, es) && After(s, es) == s.(m := s.m.(from := []))
    decreases |s.m.from|
  {
    var es := seq(|s.m.from|, _ => SweepNext);
    if s.m.from != [] {
      SweepAll(Apply(s, SweepNext));
      assert es[1..] == seq(|s.m.from| - 1, _ => SweepNext);
    }
  }

  /** Skipping the loop is safe exactly when no message names an object of the from list: only
      then does every message, in every continuation, name an object that is still there. */
  lemma SkipIsSafeIff(s: State)
    requires Invariant(s) && Enabled(s, EnterLoop) && s.m.scan == []
    ensures NothingPending(s) <==>
      forall es: seq<Event> | IsRun(Apply(s, EnterLoop), es) && SoundRun(Apply(s, EnterLoop), es) ::
        MessagesPlaced(After(Apply(s, EnterLoop), es))
  {
    hide Invariant, Placed, IsRun, SoundRun, After, Sound;
    var r := Apply(s, EnterLoop);
    if NothingPending(s) {
      EnterLoopKeeps(s);
      forall es: seq<Event> | IsRun(r, es) && SoundRun(r, es)
        ensures MessagesPlaced(After(r, es))
      {
        RunKeeps(r, es);
        InvariantMessages(After(r, es));
      }
    } else {
      var i :| 0 <= i < |s.queue| && s.queue[i].x in s.m.from;
      SweepAll(r);
      var es := seq(|r.m.from|, _ => SweepNext);
      NotPlacedAgain(s, After(r, es), s.queue[i].x);
      assert !MessagesPlaced(After(r, es));
    }
  }

  /** A second free is safe exactly when the object is still there and not about to be swept:
      only then does every message, in every continuation, name an object that is still there. */
  lemma FreeIsSafeIff(s: State, t: nat, x: nat)
    requires Invariant(s) && Enabled(s, Free(t, x))
    ensures MayFree(s, x) <==>
      forall es: seq<Event> | IsRun(Freeing(s, x), es) && SoundRun(Freeing(s, x), es) ::
        MessagesPlaced(After(Freeing(s, x), es))
  {
    hide Invariant, Placed, IsRun, SoundRun, After, Sound;
    var r := Freeing(s, x);
    if MayFree(s, x) {
      FreeKeeps(s, t, x);
      forall es: seq<Event> | IsRun(r, es) && SoundRun(r, es)
        ensures MessagesPlaced(After(r, es))
      {
        RunKeeps(r, es);
        InvariantMessages(After(r, es));
      }
    } else {
      assert r.queue[|s.queue|] == Freed(x);
      NewIdsAppend(s.queue, Freed(x));
      NothingYet(r);
      if Placed(s, x) {
        SweepAll(r);
        var es := seq(|r.m.from|, _ => SweepNext);
        NotPlacedAgain(s, After(r, es), x);
        assert !MessagesPlaced(After(r, es));
      } else {
        NotPlacedYet(s, r, x);
        assert !MessagesPlaced(After(r, []));
      }
    }
  }

  lemma NothingYet(s: State)
    ensures IsRun(s, []) && SoundRun(s, []) && After(s, []) == s
  {
  }

  lemma NotPlacedYet(s: State, r: State, x: nat)
    requires !Placed(s, x) && r.m == s.m && Young(r) == Young(s)
    ensures !Placed(r, x)
  {
  }

  lemma InvariantMessages(s: State)
    requires Invariant(s)
    ensures MessagesPlaced(s)
  {
  }

  lemma NotPlacedAgain(s: State, r: State, x: nat)
    requires Invariant(s) && x in s.m.from && r.m.from == [] && r.m.scan == s.m.scan && Young(r) == Young(s)
    ensures !Placed(r, x)
  {
  }

  // ----- The order of messages -----

  /** No CTI or FREE message has the NEW message of its object behind it. */
  ghost predicate NewFirst(queue: seq<Message>) {
    forall i, j :: 0 <= i < j < |queue| && !queue[i].New? ==> queue[j] != New(queue[i].x)
  }

  lemma NewIdsMembers(queue: seq<Message>, x: nat)
    ensures x in NewIds(queue) <==> New(x) in queue
  {
    if queue != [] {
      NewIdsMembers(queue[1..], x);
      assert queue == [queue[0]] + queue[1..];
    }
  }

  lemma NewFirstAppend(queue: seq<Message>, msg: Message)
    requires NewFirst(queue) && (msg.New? ==> forall i :: 0 <= i < |queue| ==> queue[i].x != msg.x)
    ensures NewFirst(queue + [msg])
  {
  }

  /** The queue only loses its head or gets one message at its end, a NEW message only for an
      object that no queued message names. */
  lemma StepKeepsOrder(s: State, e: Event)
    requires Invariant(s) && Enabled(s, e) && NewFirst(s.queue)
    ensures NewFirst(Apply(s, e).queue)
  {
    hide Lists, Position, Colors, Holds, Covers, NewIds, Young;
    var r := Apply(s, e);
    if |r.queue| > |s.queue| {
      NewFirstAppend(s.queue, r.queue[|s.queue|]);
    }
  }

  lemma {:induction false} RunKeepsOrder(s: State, es: seq<Event>)
    requires Invariant(s) && NewFirst(s.queue) && IsRun(s, es) && SoundRun(s, es)
    ensures NewFirst(After(s, es).queue)
    decreases |es|
  {
    hide Invariant, Apply, Enabled, NewFirst;
    if es != [] {
      StepKeeps(s, es[0]);
      StepKeepsOrder(s, es[0]);
      RunKeepsOrder(Apply(s, es[0]), es[1..]);
    }
  }

  /** At every moment of every sound run, when the message at the head of the queue says anything of
      an object but that it is new, the NEW message of that object is not in the queue. */
  lemma NewIsHandledFirst(threads: set<nat>, es: seq<Event>)
    requires IsRun(Initial(threads), es) && SoundRun(Initial(threads), es)
    ensures var q := After(Initial(threads), es).queue;
      NewFirst(q) && (q != [] && !q[0].New? ==> q[0].x !in NewIds(q))
  {
    hide Invariant;
    InitialIsGood(threads);
    RunKeepsOrder(Initial(threads), es);
    var q := After(Initial(threads), es).queue;
    if q != [] {
      NewIdsMembers(q, q[0].x);
    }
  }

  /** The message that an event sends, with the arguments of the source. */
  function Sent(s: State, e: Event): seq<Q.Message>
    requires Enabled(s, e)
  {
    match e
    case Load(t, obj, i) =>
      var w := s.fields[obj][i];
      if IsWhite(s, w) then [Q.Message(Q.CTI_MESSAGE, 0, w + HEADER)] else []
    case Store(t, obj, i, w) =>
      if Barrier(s, obj, w) then [Q.Message(Q.CTI_MESSAGE, obj + HEADER, w + HEADER)] else []
    case Alloc(t, x, n) => [Q.Message(Q.NEW_MESSAGE, x, 0)]
    case Free(t, x) => [Q.Message(Q.FREE_MESSAGE, x, 0)]
    case Resize(t, obj, x) => [Q.Message(Q.FREE_MESSAGE, obj, 0)]
    case _ => []
  }

  /** Everything that the events of a run send. */
  function History(s: State, es: seq<Event>): seq<Q.Message>
    requires IsRun(s, es)
    decreases |es|
  {
    if es == [] then [] else Sent(s, es[0]) + History(Apply(s, es[0]), es[1..])
  }

  /** Every object there is was announced. */
  ghost predicate AllNew(h: seq<Q.Message>, xs: set<nat>) {
    forall x | x in xs :: Q.NewBefore(h, |h|, x)
  }

  lemma NewBeforeMore(h: seq<Q.Message>, g: seq<Q.Message>, x: int)
    requires Q.NewBefore(h, |h|, x)
    ensures Q.NewBefore(h + g, |h + g|, x)
  {
    var i :| 0 <= i < |h| && h[i].kind == Q.NEW_MESSAGE && h[i].arg1 == x;
    assert (h + g)[i] == h[i];
  }

  lemma SendKeepsOrder(s: State, e: Event, h: seq<Q.Message>)
    requires Invariant(s) && Enabled(s, e) && Sound(s, e) && Q.Announced(h) && AllNew(h, s.fields.Keys)
    ensures Q.Announced(h + Sent(s, e)) && AllNew(h + Sent(s, e), Apply(s, e).fields.Keys)
  {
    hide Q.Announced, Q.NewBefore;
    var g := Sent(s, e);
    SubjectsKnown(s, e);
    FieldsGrow(s, e);
    forall x | x in s.fields.Keys
      ensures Q.NewBefore(h + g, |h + g|, x)
    {
      NewBeforeMore(h, g, x);
    }
    if g == [] {
      assert h + g == h;
    } else {
      assert g == [g[0]];
      forall x | x in Q.Subjects(g[0])
        ensures Q.NewBefore(h, |h|, x)
      {
        assert x in s.fields.Keys;
      }
      Q.AnnouncedSnoc(h, g[0]);
    }
    if e.Alloc? {
      LastIsNew(h, e.x);
    }
  }

  lemma LastIsNew(h: seq<Q.Message>, x: nat)
    ensures var r := h + [Q.Message(Q.NEW_MESSAGE, x, 0)]; Q.NewBefore(r, |r|, x)
  {
    var r := h + [Q.Message(Q.NEW_MESSAGE, x, 0)];
    assert r[|h|].kind == Q.NEW_MESSAGE && r[|h|].arg1 == x;
  }

  /** A message is about objects that exist. */
  lemma SubjectsKnown(s: State, e: Event)
    requires Invariant(s) && Enabled(s, e)
    ensures |Sent(s, e)| <= 1
    ensures Sent(s, e) != [] ==> forall x | x in Q.Subjects(Sent(s, e)[0]) :: x >= 0 && x in s.fields.Keys
  {
    hide Position, Colors, Messages, Holds, Covers, NewIds, NoDup;
    assert s.fields.Keys == s.m.color.Keys;
  }

  lemma FieldsGrow(s: State, e: Event)
    requires Enabled(s, e) && Sound(s, e)
    ensures Apply(s, e).fields.Keys == s.fields.Keys + if e.Alloc? then {e.x} else {}
  {
    hide With, Nulls, Copied, ScanRoots, ScanRef, HandleOne, HandleAll, NewIds, Joined, Bleach;
    if e == Begin {
      HandleAllFields(s);
      JoinedFrame(HandleAll(s));
    } else if e == HandleNext {
      HandleOneFields(s);
    }
  }

  lemma HandleOneFields(s: State)
    requires s.queue != []
    ensures HandleOne(s).fields == s.fields
  {
  }

  lemma {:induction false} HandleAllFields(s: State)
    ensures HandleAll(s).fields == s.fields
    decreases |s.queue|
  {
    if s.queue != [] {
      HandleAllFields(HandleOne(s));
    }
  }

  lemma {:induction false} HistoryKeepsOrder(s: State, es: seq<Event>, h: seq<Q.Message>)
    requires Invariant(s) && IsRun(s, es) && SoundRun(s, es) && Q.Announced(h) && AllNew(h, s.fields.Keys)
    ensures Q.Announced(h + History(s, es))
    decreases |es|
  {
    hide Invariant, Apply, Enabled, Q.Announced, AllNew, Sent, Sound;
    if es == [] {
      assert h + History(s, es) == h;
    } else {
      StepKeeps(s, es[0]);
      SendKeepsOrder(s, es[0], h);
      HistoryKeepsOrder(Apply(s, es[0]), es[1..], h + Sent(s, es[0]));
      assert h + History(s, es) == h + Sent(s, es[0]) + History(Apply(s, es[0]), es[1..]);
    }
  }

  /** In every sound run, what the threads send announces every object before it says anything
      else about it: the queue of `MessageModule` then hands it over in that order. */
  lemma SendsAreAnnounced(threads: set<nat>, es: seq<Event>)
    requires IsRun(Initial(threads), es) && SoundRun(Initial(threads), es)
    ensures Q.Announced(History(Initial(threads), es))
  {
    InitialIsGood(threads);
    HistoryKeepsOrder(Initial(threads), es, []);
    assert [] + History(Initial(threads), es) == History(Initial(threads), es);
  }
}
