/** What one cycle of the threaded build sweeps: exactly what no thread reached through objects
    that the program had not freed, when the cycle began, and the freed objects themselves. */
module ConcurrentGarbage {
  import opened Seqs
  import opened MarkSpec
  import opened IncrementalCollector
  import opened ConcurrentRuns

  // ----- What is hidden from the collector -----

  /** No word is in `g`, except those that name RED objects. */
  ghost predicate NoneIn(s: State, ws: seq<nat>, g: set<nat>) {
    forall i {:trigger ws[i]} :: 0 <= i < |ws| ==> ws[i] in g ==> IsRed(s, ws[i])
  }

  /** The objects of `g` wait in the from list, and nothing on the lists leads the collector to
      those that are not RED: no message, and no word of an object outside `g`. */
  ghost predicate Hidden(s: State, g: set<nat>) {
    && (forall x | x in g :: x in s.m.from && (IsRed(s, x) || !HasCti(s.queue, x)))
    && (forall y | OnLists(s, y) && y !in g :: y in s.fields && NoneIn(s, s.fields[y], g))
  }

  /** Nor do the threads and the young objects hold one. */
  ghost predicate Unheld(s: State, g: set<nat>) {
    && (forall t | t in s.locals :: NoneIn(s, s.locals[t], g))
    && (forall y | y in Young(s) :: y in s.fields && NoneIn(s, s.fields[y], g))
  }

  /** The events of the collector from the mark loop to the end of the cycle. */
  predicate IsMarking(e: Event) {
    e == BlackenNext || e == ScanWord || e == HandleNext || e == Drained || e == SweepNext || e == Finish
  }

  /** What is left of `g` after an event. */
  function Rest(s: State, e: Event, g: set<nat>): set<nat> {
    if e == SweepNext && s.m.from != [] then g - {s.m.from[0]} else g
  }

  ghost predicate RedStays(s: State, r: State, g: set<nat>) {
    forall x | x in g && IsRed(s, x) :: IsRed(r, x)
  }

  lemma NoneCarries(s: State, r: State, ws: seq<nat>, g: set<nat>, h: set<nat>)
    requires NoneIn(s, ws, g) && RedStays(s, r, g) && h <= g
    ensures NoneIn(r, ws, h)
  {
  }

  /** Fewer messages, fewer objects on the lists and the same words hide no less. */
  lemma HiddenCarries(s: State, r: State, g: set<nat>, h: set<nat>)
    requires Hidden(s, g) && r.fields == s.fields && (forall x | OnLists(r, x) :: OnLists(s, x)) && RedStays(s, r, g) && h <= g
    requires forall x | x in h :: x in r.m.from
    requires forall x | x in g - h :: !OnLists(r, x)
    requires forall x | HasCti(r.queue, x) :: HasCti(s.queue, x)
    ensures Hidden(r, h)
  {
    hide HasCti, OnLists, NoneIn;
    forall y | OnLists(r, y) && y !in h
      ensures y in r.fields && NoneIn(r, r.fields[y], h)
    {
      NoneCarries(s, r, s.fields[y], g, h);
    }
  }

  lemma HiddenFrom(s: State, r: State, g: set<nat>)
    requires Hidden(s, g) && r.fields == s.fields && r.m.from == s.m.from && r.m.scan == s.m.scan && RedStays(s, r, g)
    requires forall x | HasCti(r.queue, x) :: HasCti(s.queue, x)
    ensures Hidden(r, g)
  {
    hide HasCti, NoneIn;
    HiddenCarries(s, r, g, g);
  }

  lemma UnheldCarries(s: State, r: State, g: set<nat>, h: set<nat>)
    requires Unheld(s, g) && r.fields == s.fields && r.locals == s.locals && Young(r) == Young(s) && RedStays(s, r, g) && h <= g
    ensures Unheld(r, h)
  {
    hide NoneIn, Young;
    forall t | t in r.locals
      ensures NoneIn(r, r.locals[t], h)
    {
      NoneCarries(s, r, s.locals[t], g, h);
    }
    forall y | y in Young(r)
      ensures y in r.fields && NoneIn(r, r.fields[y], h)
    {
      NoneCarries(s, r, s.fields[y], g, h);
    }
  }

  // ----- The collector's events -----

  /** The collector's events move objects between its lists, off them, and nothing onto them. */
  lemma MarkingLists(s: State, e: Event)
    requires Invariant(s) && Enabled(s, e) && IsMarking(e)
    ensures forall y | OnLists(Apply(s, e), y) :: OnLists(s, y)
    ensures e == SweepNext ==> !OnLists(Apply(s, e), s.m.from[0])
    ensures Young(Apply(s, e)) == Young(s)
  {
    hide NewIds, Lists, Position, Colors, Messages, Holds, Covers, MoveToScan, WordScanned;
    match e
    case HandleNext =>
      QueueTail(s.queue);
      HandledLists(s);
    case ScanWord =>
      ScannedLists(s);
      ScanWordQueue(s);
    case SweepNext => SweptLists(s);
    case BlackenNext =>
    case Drained =>
    case Finish =>
  }

  lemma ScanWordQueue(s: State)
    requires Enabled(s, ScanWord)
    ensures WordScanned(s).queue == s.queue && WordScanned(s).news == s.news
  {
  }

  lemma SweptLists(s: State)
    requires Lists(s) && Enabled(s, SweepNext)
    ensures forall y | OnLists(Apply(s, SweepNext), y) :: OnLists(s, y)
    ensures !OnLists(Apply(s, SweepNext), s.m.from[0])
  {
    hide NewIds, Young;
  }

  lemma HandledLists(s: State)
    requires Invariant(s) && s.queue != []
    ensures forall y | OnLists(HandleOne(s), y) :: OnLists(s, y)
  {
    hide NewIds, NoDup, Young, Position, Colors, Covers, Holds;
    if s.queue[0].Cti? && IsWhite(s, s.queue[0].x) {
      MovedLists(s.m, s.queue[0].x);
    }
  }

  lemma MovedLists(m: Marking<nat>, x: nat)
    ensures forall y | y in MoveToScan(m, x).from :: y in m.from
    ensures forall y | y in MoveToScan(m, x).scan :: y in m.scan || y == x
    ensures forall y | y in m.from && y != x :: y in MoveToScan(m, x).from
  {
  }

  /** The word at hand, if it is WHITE. */
  lemma WordAtHand(s: State)
    requires Invariant(s) && Enabled(s, ScanWord) && s.phase.j < |s.fields[s.m.scan[s.phase.k]]|
    requires IsWhite(s, s.fields[s.m.scan[s.phase.k]][s.phase.j])
    ensures OnLists(s, s.fields[s.m.scan[s.phase.k]][s.phase.j])
  {
    hide NewIds, NoDup, Position, Colors, Covers, Messages, Young;
    var cur := s.m.scan[s.phase.k];
    assert cur in s.m.scan && KnownWords(s, s.fields[cur]) && KnownWord(s, s.fields[cur][s.phase.j]);
    WhitePlaced(s, s.fields[cur][s.phase.j]);
  }

  lemma ScannedLists(s: State)
    requires Invariant(s) && Enabled(s, ScanWord)
    ensures forall y | OnLists(Apply(s, ScanWord), y) :: OnLists(s, y)
  {
    hide Invariant, NewIds, MoveToScan;
    var cur := s.m.scan[s.phase.k];
    if s.phase.j < |s.fields[cur]| && IsWhite(s, s.fields[cur][s.phase.j]) {
      WordAtHand(s);
      MovedLists(s.m.(color := s.m.color[cur := GRAY]), s.fields[cur][s.phase.j]);
    }
  }

  /** A WHITE object that the collector moves is not in `g`. */
  lemma MoveHides(s: State, r: State, g: set<nat>, m: Marking<nat>, cur: nat, w: nat)
    requires Hidden(s, g) && w !in g && m.from == s.m.from && m.scan == s.m.scan && OnLists(s, w)
    requires m.color == s.m.color || (cur !in g && m.color == s.m.color[cur := GRAY])
    requires r == s.(m := MoveToScan(m, w), queue := r.queue, phase := r.phase)
    requires forall x | HasCti(r.queue, x) :: HasCti(s.queue, x)
    ensures Hidden(r, g)
  {
    hide HasCti, NoneIn;
    MovedLists(m, w);
    HiddenCarries(s, r, g, g);
  }

  lemma ScanWordHides(s: State, g: set<nat>)
    requires Invariant(s) && Enabled(s, ScanWord) && Hidden(s, g)
    ensures Hidden(Apply(s, ScanWord), g)
  {
    hide NoDup, NewIds, Position, Colors, Messages, Covers, Holds, HasCti, MoveToScan, Hidden;
    var k, j, cur, r := s.phase.k, s.phase.j, s.m.scan[s.phase.k], Apply(s, ScanWord);
    assert cur in s.m.scan;
    ScannedNotHidden(s, cur, g);
    if j < |s.fields[cur]| && IsWhite(s, s.fields[cur][j]) {
      var w := s.fields[cur][j];
      WordNotIn(s, cur, j, g);
      WordAtHand(s);
      MoveHides(s, r, g, s.m.(color := s.m.color[cur := GRAY]), cur, w);
    } else {
      HiddenFrom(s, r, g);
    }
  }

  lemma WordNotIn(s: State, y: nat, j: nat, g: set<nat>)
    requires Hidden(s, g) && OnLists(s, y) && y !in g && y in s.fields && j < |s.fields[y]|
    ensures s.fields[y][j] in g ==> IsRed(s, s.fields[y][j])
  {
  }

  lemma ScannedNotHidden(s: State, y: nat, g: set<nat>)
    requires Invariant(s) && Hidden(s, g) && (y in s.m.scan || y in Young(s))
    ensures y !in g
  {
  }

  lemma HandleHides(s: State, g: set<nat>)
    requires Invariant(s) && s.queue != [] && Hidden(s, g)
    ensures Hidden(HandleOne(s), g)
  {
    hide NoDup, NewIds, Position, Colors, Holds, Covers, MoveToScan, Hidden, HasCti, Young;
    var msg, r := s.queue[0], HandleOne(s);
    QueueTail(s.queue);
    if msg.Cti? && IsWhite(s, msg.x) {
      CtiNotIn(s, msg.x, g);
      MoveHides(s, r, g, s.m, msg.x, msg.x);
    } else {
      HiddenFrom(s, r, g);
    }
  }

  lemma CtiNotIn(s: State, x: nat, g: set<nat>)
    requires Hidden(s, g) && HasCti(s.queue, x) && !IsRed(s, x)
    ensures x !in g
  {
  }

  lemma InTail(xs: seq<nat>)
    requires xs != []
    ensures forall x | x in xs && x != xs[0] :: x in xs[1..]
  {
    assert xs == [xs[0]] + xs[1..];
  }

  lemma SweepHides(s: State, g: set<nat>)
    requires Invariant(s) && Enabled(s, SweepNext) && Hidden(s, g)
    ensures Hidden(Apply(s, SweepNext), g - {s.m.from[0]})
  {
    hide NewIds, Position, Colors, Messages, Holds, Covers, HasCti, Young, NoneIn;
    var r, y := Apply(s, SweepNext), s.m.from[0];
    InTail(s.m.from);
    SweptLists(s);
    HiddenCarries(s, r, g, g - {y});
  }

  /** The collector's own events, of which none reads a stack or a young object. */
  lemma MarkingHides(s: State, e: Event, g: set<nat>)
    requires Invariant(s) && Enabled(s, e) && Hidden(s, g) && IsMarking(e)
    ensures Hidden(Apply(s, e), Rest(s, e, g))
  {
    hide NoDup, NewIds, Position, Colors, Messages, Covers, Holds, NoneIn, HasCti, Young;
    match e
    case BlackenNext =>
      ScannedNotHidden(s, s.m.scan[s.phase.k], g);
      HiddenCarries(s, Apply(s, e), g, g);
    case ScanWord => ScanWordHides(s, g);
    case HandleNext => HandleHides(s, g);
    case Drained => HiddenCarries(s, Apply(s, e), g, g);
    case SweepNext => SweepHides(s, g);
    case Finish => HiddenCarries(s, Apply(s, e), g, g);
  }

  lemma MarkingLocals(s: State, e: Event)
    requires Enabled(s, e) && IsMarking(e)
    ensures Apply(s, e).locals == s.locals && Apply(s, e).fields == s.fields && Apply(s, e).dead == s.dead
  {
  }

  lemma MarkingRed(s: State, e: Event, g: set<nat>)
    requires Invariant(s) && Enabled(s, e) && Hidden(s, g) && IsMarking(e)
    ensures RedStays(s, Apply(s, e), g)
  {
    hide NoDup, NewIds, Colors, Messages, Covers, Holds, HasCti, Young, NoneIn, MoveToScan, WordScanned;
    if e == BlackenNext {
      ScannedNotHidden(s, s.m.scan[s.phase.k], g);
    } else if e == ScanWord {
      ScannedNotHidden(s, s.m.scan[s.phase.k], g);
      ScanWordColor(s);
    } else if e == HandleNext {
      MovedColor(s.m, s.queue[0].x);
    }
  }

  lemma ScanWordColor(s: State)
    requires Enabled(s, ScanWord)
    ensures var r := WordScanned(s); r.m.color == s.m.color || r.m.color == s.m.color[s.m.scan[s.phase.k] := GRAY]
  {
  }

  // ----- The scan of the stacks -----

  lemma {:induction false} ScanRootsLeaves(m: Marking<nat>, ws: seq<nat>, x: nat)
    requires x in m.from && (x !in ws || (x in m.color && m.color[x] == RED))
    ensures var n := ScanRoots(m, ws);
      x in n.from && (x in m.color && m.color[x] == RED ==> x in n.color && n.color[x] == RED)
  {
    if ws != [] {
      ScanRootsLeaves(m, ws[..|ws| - 1], x);
    }
  }

  lemma {:induction false} ScanRootsWithin(s: State, ws: seq<nat>, x: nat)
    requires Invariant(s) && s.phase == Roots && KnownWords(s, ws)
    requires x in ScanRoots(s.m, ws).from || x in ScanRoots(s.m, ws).scan
    ensures OnLists(s, x)
  {
    hide NewIds, AddRoot;
    if ws != [] {
      var vs, w := ws[..|ws| - 1], ws[|ws| - 1];
      assert forall i :: 0 <= i < |vs| ==> vs[i] == ws[i];
      ScanRootsKeeps(s, vs);
      var n := ScanRoots(s.m, vs);
      if w in n.color && n.color[w] == WHITE {
        assert KnownWord(s, w);
        WhitePlaced(s.(m := n), w);
        AddRootWithin(n, w, x);
        if x == w { ScanRootsWithin(s, vs, w); } else { ScanRootsWithin(s, vs, x); }
      } else {
        ScanRootsWithin(s, vs, x);
      }
    }
  }

  lemma AddRootWithin(m: Marking<nat>, w: nat, x: nat)
    requires x in AddRoot(m, w).from || x in AddRoot(m, w).scan
    ensures x == w || x in m.from || x in m.scan
  {
  }

  lemma ScanStackLists(s: State, t: nat)
    requires Invariant(s) && Enabled(s, ScanStack(t))
    ensures forall y | OnLists(Apply(s, ScanStack(t)), y) :: OnLists(s, y)
  {
    hide Invariant, NewIds, ScanRoots;
    LocalsFacts(s, t);
    forall y | OnLists(Apply(s, ScanStack(t)), y)
      ensures OnLists(s, y)
    {
      ScanRootsWithin(s, s.locals[t], y);
    }
  }

  /** The scan of a stack that holds nothing of `g`. */
  lemma ScanStackHides(s: State, t: nat, g: set<nat>)
    requires Invariant(s) && Enabled(s, ScanStack(t)) && Hidden(s, g) && Unheld(s, g)
    ensures Hidden(Apply(s, ScanStack(t)), g) && RedStays(s, Apply(s, ScanStack(t)), g)
  {
    hide NewIds, ScanRoots, Position, Colors, Messages, Covers, Holds, HasCti, Lists, Young;
    var r := Apply(s, ScanStack(t));
    assert NoneIn(s, s.locals[t], g);
    forall x | x in g
      ensures x in r.m.from && (IsRed(s, x) ==> IsRed(r, x))
    {
      ScanRootsLeaves(s.m, s.locals[t], x);
    }
    ScanStackLists(s, t);
    HiddenCarries(s, r, g, g);
  }

  // ----- The threads' events -----

  /** What a thread reads is not in `g`, or RED, and so is not what it names. */
  lemma ReadNotIn(s: State, t: nat, obj: nat, g: set<nat>)
    requires Invariant(s) && CanUse(s, t, obj) && Hidden(s, g) && Unheld(s, g)
    ensures obj !in g && NoneIn(s, s.fields[obj], g)
  {
    hide NewIds, Invariant, HasCti, Young;
    UsablePlaced(s, t, obj);
    assert NoneIn(s, s.locals[t], g);
  }

  /** A message about something else, and a change of the locals, hide no less. */
  lemma SendHides(s: State, n: State, sent: bool, msg: Message, g: set<nat>)
    requires Hidden(s, g) && Unheld(s, g) && n == s.(locals := n.locals, dead := n.dead) && !msg.New? && (sent && msg.Cti? ==> msg.x !in g)
    requires forall t | t in n.locals :: NoneIn(s, n.locals[t], g)
    ensures Hidden(Send(n, sent, msg), g) && Unheld(Send(n, sent, msg), g)
  {
    hide HasCti, NewIds;
    var r := Send(n, sent, msg);
    NewIdsAppend(s.queue, msg);
    assert Young(r) == Young(s);
    forall x ensures sent ==> (HasCti(r.queue, x) <==> HasCti(s.queue, x) || msg == Cti(x)) {
      HasCtiMore(s.queue, msg, x);
    }
    hide Young;
  }

  lemma LoadHides(s: State, t: nat, obj: nat, i: nat, sent: bool, g: set<nat>)
    requires Invariant(s) && CanLoad(s, t, obj, i) && Hidden(s, g) && Unheld(s, g) && (sent ==> IsWhite(s, s.fields[obj][i]))
    ensures var r := Send(Loaded(s, t, obj, i), sent, Cti(s.fields[obj][i])); Hidden(r, g) && Unheld(r, g)
  {
    hide NewIds, Invariant, Hidden;
    ReadNotIn(s, t, obj, g);
    SendHides(s, Loaded(s, t, obj, i), sent, Cti(s.fields[obj][i]), g);
  }

  /** Writing words that are not in `g`, or RED. */
  lemma WrittenHides(s: State, obj: nat, ws: seq<nat>, g: set<nat>)
    requires Hidden(s, g) && Unheld(s, g) && obj in s.fields && (NoneIn(s, s.fields[obj], g) ==> NoneIn(s, ws, g))
    ensures Hidden(s.(fields := s.fields[obj := ws]), g) && Unheld(s.(fields := s.fields[obj := ws]), g)
  {
    hide NewIds, HasCti;
    var r := s.(fields := s.fields[obj := ws]);
    assert Young(r) == Young(s);
    hide Young;
    assert forall vs: seq<nat> | NoneIn(s, vs, g) :: NoneIn(r, vs, g);
    hide NoneIn;
  }

  lemma StoreHides(s: State, t: nat, obj: nat, i: nat, w: nat, sent: bool, g: set<nat>)
    requires Invariant(s) && CanStore(s, t, obj, i, w) && Hidden(s, g) && Unheld(s, g) && (sent ==> IsWhite(s, w))
    ensures var r := Send(Written(s, obj, i, w), sent, Cti(w)); Hidden(r, g) && Unheld(r, g)
  {
    hide NewIds, Position, Colors, Messages, Covers, Holds, Young;
    assert NoneIn(s, s.locals[t], g) && 0 !in g;
    var n := Written(s, obj, i, w);
    WrittenHides(s, obj, With(s.fields[obj], i, w), g);
    hide Hidden;
    assert forall t | t in n.locals :: NoneIn(n, n.locals[t], g);
    SendHides(n, n, sent, Cti(w), g);
  }

  lemma ResizeHides(s: State, t: nat, obj: nat, x: nat, g: set<nat>)
    requires Invariant(s) && CanResize(s, t, obj, x) && Hidden(s, g) && Unheld(s, g)
    ensures var r := Freeing(Copy(s, obj, x), obj); Hidden(r, g) && Unheld(r, g)
  {
    hide Invariant, Young, Hidden, NewIds;
    ReadNotIn(s, t, obj, g);
    ReadNotIn(s, t, x, g);
    var n := Copy(s, obj, x);
    WrittenHides(s, x, Copied(s.fields[obj], s.fields[x]), g);
    SendHides(n, n.(dead := n.dead + {obj}), true, Freed(obj), g);
  }

  lemma AllocHides(s: State, t: nat, x: nat, n: nat, g: set<nat>)
    requires Invariant(s) && CanAllocate(s, t, x) && Hidden(s, g) && Unheld(s, g)
    ensures var r := Send(Allocated(s, t, x, n), true, New(x)); Hidden(r, g) && Unheld(r, g)
  {
    hide NewIds, Position, Colors, Messages, Covers, Holds, HasCti;
    var r := Send(Allocated(s, t, x, n), true, New(x));
    NewIdsAppend(s.queue, New(x));
    assert Young(r) == Young(s) + [x];
    forall y ensures HasCti(r.queue, y) <==> HasCti(s.queue, y) { HasCtiMore(s.queue, New(x), y); }
    hide NoDup;
    assert x !in g && 0 !in g;
    hide Young;
    assert NoneIn(r, r.fields[x], g);
    assert forall vs: seq<nat> | NoneIn(s, vs, g) :: NoneIn(r, vs, g);
    assert forall u | u in r.locals :: NoneIn(r, r.locals[u], g) by {
      assert NoneIn(s, s.locals[t], g);
    }
    hide NoneIn;
    assert forall y | OnLists(r, y) && y !in g :: y in r.fields && NoneIn(r, r.fields[y], g);
  }

  lemma SetLocalsHides(s: State, t: nat, ws: seq<nat>, g: set<nat>)
    requires Invariant(s) && Enabled(s, SetLocals(t, ws)) && Hidden(s, g) && Unheld(s, g)
    ensures Hidden(Apply(s, SetLocals(t, ws)), g) && Unheld(Apply(s, SetLocals(t, ws)), g)
  {
    hide NewIds, Position, Colors, Messages, Covers, Holds, HasCti, Young;
    forall i {:trigger ws[i]} | 0 <= i < |ws|
      ensures ws[i] in g ==> IsRed(s, ws[i])
    {
      assert ws[i] in ws && NoneIn(s, s.locals[t], g) && 0 !in g;
    }
    SendHides(s, s.(locals := s.locals[t := ws]), false, Freed(0), g);
  }

  /** Between the beginnings of two cycles, what is hidden and not held stays so, or is swept. */
  lemma StepHides(s: State, e: Event, g: set<nat>)
    requires Invariant(s) && Enabled(s, e) && Sound(s, e) && e != Begin && Hidden(s, g) && Unheld(s, g)
    ensures Hidden(Apply(s, e), Rest(s, e, g)) && Unheld(Apply(s, e), Rest(s, e, g))
  {
    hide Invariant, Hidden, Unheld, NewIds, HasCti, ScanRoots, Young;
    var r := Apply(s, e);
    if IsMarking(e) {
      MarkingHides(s, e, g);
      MarkingLocals(s, e);
      MarkingRed(s, e, g);
      MarkingLists(s, e);
      UnheldCarries(s, r, g, Rest(s, e, g));
    } else {
      match e
      case ScanStack(t) => ScanStackHides(s, t, g); SameYoung(s, r); UnheldCarries(s, r, g, g);
      case EnterLoop => HiddenFrom(s, r, g); SameYoung(s, r); UnheldCarries(s, r, g, g);
      case Load(t, obj, i) => LoadHides(s, t, obj, i, IsWhite(s, s.fields[obj][i]), g);
      case PlainLoad(t, obj, i) => LoadHides(s, t, obj, i, false, g);
      case Store(t, obj, i, w) => StoreHides(s, t, obj, i, w, Barrier(s, obj, w), g);
      case PlainStore(t, obj, i, w) => StoreHides(s, t, obj, i, w, false, g);
      case Alloc(t, x, n) => AllocHides(s, t, x, n, g);
      case Free(t, x) => FreeHides(s, s.(dead := s.dead + {x}), true, x, g);
      case LostFree(t, x) => FreeHides(s, s.(dead := s.dead + {x}), false, x, g);
      case Resize(t, obj, x) => ResizeHides(s, t, obj, x, g);
      case SetLocals(t, ws) => SetLocalsHides(s, t, ws, g);
    }
  }

  lemma FreeHides(s: State, n: State, sent: bool, x: nat, g: set<nat>)
    requires Hidden(s, g) && Unheld(s, g) && n == s.(dead := s.dead + {x})
    ensures Hidden(Send(n, sent, Freed(x)), g) && Unheld(Send(n, sent, Freed(x)), g)
  {
    hide Hidden, NoneIn;
    SendHides(s, n, sent, Freed(x), g);
  }

  lemma SameYoung(s: State, r: State)
    requires r.news == s.news && r.queue == s.queue
    ensures Young(r) == Young(s)
  {
  }

  // ----- A whole cycle -----

  /** Some event of the run sweeps `x`. */
  ghost predicate Sweeps(s: State, es: seq<Event>, x: nat)
    requires IsRun(s, es)
    decreases |es|
  {
    es != [] && ((es[0] == SweepNext && s.m.from[0] == x) || Sweeps(Apply(s, es[0]), es[1..], x))
  }

  lemma HiddenInCycle(s: State, g: set<nat>, x: nat)
    requires Invariant(s) && Hidden(s, g) && x in g
    ensures s.phase != Idle
  {
  }

  lemma {:induction false} HiddenIsSwept(s: State, es: seq<Event>, g: set<nat>, x: nat)
    requires Invariant(s) && IsRun(s, es) && SoundRun(s, es) && Begin !in es && After(s, es).phase == Idle
    requires Hidden(s, g) && Unheld(s, g) && x in g
    ensures Sweeps(s, es, x)
    decreases |es|
  {
    hide Invariant, Hidden, Unheld, Sound, Apply;
    if es == [] {
      HiddenInCycle(s, g, x);
      assert false;
    } else {
      StepHides(s, es[0], g);
      StepKeeps(s, es[0]);
      assert Begin !in es[1..];
      if x in Rest(s, es[0], g) {
        HiddenIsSwept(Apply(s, es[0]), es[1..], Rest(s, es[0], g), x);
      }
    }
  }

  /** The program freed `x`, and the collector knows it when the next cycle begins. */
  ghost predicate Doomed(s: State, x: nat) {
    IsRed(s, x) || Freed(x) in s.queue
  }

  /** A chain of words from a local variable that avoids doomed objects before its end. */
  ghost predicate IsChain(s: State, t: nat, p: seq<nat>) {
    && p != [] && t in s.locals && p[0] in s.locals[t]
    && forall i :: 0 <= i < |p| - 1 ==> p[i] in s.fields && !Doomed(s, p[i]) && p[i + 1] in s.fields[p[i]]
  }

  ghost predicate Reached(s: State, x: nat) {
    exists t, p: seq<nat> :: IsChain(s, t, p) && p[|p| - 1] == x
  }

  lemma ReachedByLocal(s: State, t: nat, x: nat)
    requires t in s.locals && x in s.locals[t]
    ensures Reached(s, x)
  {
    assert IsChain(s, t, [x]);
  }

  lemma ReachedByWord(s: State, y: nat, x: nat)
    requires Reached(s, y) && y in s.fields && x in s.fields[y] && !Doomed(s, y)
    ensures Reached(s, x)
  {
    var t, p: seq<nat> :| IsChain(s, t, p) && p[|p| - 1] == y;
    var q := p + [x];
    assert IsChain(s, t, q) && q[|q| - 1] == x;
  }

  lemma HandleReddens(s: State, x: nat)
    requires s.queue != []
    ensures Doomed(HandleOne(s), x) <==> Doomed(s, x)
  {
    assert s.queue == [s.queue[0]] + s.queue[1..];
  }

  lemma HandlesOne(s: State)
    requires s.queue != []
    ensures |HandleOne(s).queue| < |s.queue|
  {
  }

  lemma {:induction false} HandleAllReddens(s: State, x: nat)
    ensures IsRed(HandleAll(s), x) <==> Doomed(s, x)
    decreases |s.queue|
  {
    hide HandleOne;
    if s.queue != [] {
      HandleReddens(s, x);
      HandlesOne(s);
      HandleAllReddens(HandleOne(s), x);
    }
  }

  /** After the beginning of a cycle the from list is everything that is placed, and the doomed
      objects are RED. */
  lemma BeginPlaces(s: State)
    requires Invariant(s) && s.phase == Idle
    ensures var r := Apply(s, Begin);
      && r.fields == s.fields && r.locals == s.locals && r.dead == s.dead && r.queue == [] && Young(r) == [] && r.m.scan == []
      && (forall x :: x in r.m.from <==> Placed(s, x)) && (forall x | Placed(s, x) :: x in s.fields)
      && (forall x :: IsRed(r, x) <==> Doomed(s, x)) && r.phase == Roots && r.scanned == {}
  {
    hide NoDup, NewIds, HandleAll, Joined, Lists, Position, Colors, Messages, Holds, Covers, Doomed;
    var h := HandleAll(s);
    HandleAllKeeps(s);
    HandleAllPlaces(s);
    JoinedPlaces(h);
    JoinedFrame(h);
    forall x { HandleAllReddens(s, x); }
  }

  /** And in this order: what the last cycle kept, the new objects, and those whose NEW message is
      handled now, all WHITE but the doomed ones. */
  lemma BeginOrder(s: State)
    requires Invariant(s) && s.phase == Idle
    ensures var r := Apply(s, Begin);
      && r.m.from == s.m.scan + s.news + NewIds(s.queue)
      && (forall x | x in r.m.from :: x in r.m.color && r.m.color[x] == if Doomed(s, x) then RED else WHITE)
  {
    hide NoDup, NewIds, HandleAll, Joined, Lists, Position, Colors, Messages, Holds, Covers, Doomed;
    HandleAllKeeps(s);
    HandleAllOrder(s);
    JoinedOrder(HandleAll(s));
    forall x {
      HandleAllReddens(s, x);
    }
  }

  lemma JoinedOrder(h: State)
    requires Invariant(h) && h.phase == Idle
    ensures var r := Joined(h);
      && r.m.from == h.m.scan + h.news
      && (forall x | x in r.m.from :: x in r.m.color && r.m.color[x] == if IsRed(h, x) then RED else WHITE)
  {
    hide NoDup, Holds, Covers, Messages, Colors, Position;
    var m := Marking(h.m.scan + h.news, [], h.m.color);
    assert m.from[..|m.from|] == m.from;
  }

  lemma {:induction false} HandleAllOrder(s: State)
    requires Invariant(s) && s.phase == Idle
    ensures HandleAll(s).m.scan == s.m.scan && HandleAll(s).news == s.news + NewIds(s.queue)
    decreases |s.queue|
  {
    hide Invariant;
    if s.queue != [] {
      HandleKeeps(s);
      HandlesOne(s);
      HandleOneOrder(s);
      HandleAllOrder(HandleOne(s));
    }
  }

  lemma HandleOneOrder(s: State)
    requires Invariant(s) && s.phase == Idle && s.queue != []
    ensures HandleOne(s).m.scan == s.m.scan && HandleOne(s).phase == Idle
    ensures HandleOne(s).news + NewIds(s.queue[1..]) == s.news + NewIds(s.queue)
  {
    hide Lists, Position, Colors, Holds, Covers;
    assert !s.queue[0].Cti?;
  }

  lemma JoinedPlaces(h: State)
    requires Invariant(h) && h.phase == Idle && h.queue == []
    ensures forall x :: x in Joined(h).m.from <==> Placed(h, x)
    ensures (forall x | Placed(h, x) :: x in h.fields) && forall x :: IsRed(Joined(h), x) <==> IsRed(h, x)
    ensures Young(Joined(h)) == [] && Joined(h).m.scan == []
  {
    hide Joined, Holds, Covers, Messages, Colors;
    JoinedFacts(h);
    hide NoDup, Young;
    assert h.m.from == [];
  }

  lemma {:induction false} HandleAllPlaces(s: State)
    requires Invariant(s) && s.phase == Idle
    ensures forall x :: Placed(HandleAll(s), x) <==> Placed(s, x)
    decreases |s.queue|
  {
    hide Invariant;
    if s.queue != [] {
      HandleKeeps(s);
      HandlePlaces(s);
      HandleAllPlaces(HandleOne(s));
    }
  }

  lemma HandlePlaces(s: State)
    requires Invariant(s) && s.phase == Idle && s.queue != []
    ensures HandleOne(s).phase == Idle && forall x :: Placed(HandleOne(s), x) <==> Placed(s, x)
  {
    hide NoDup, Holds, Covers, Position, Colors, Lists, NewIds;
    assert !s.queue[0].Cti?;
    QueueTail(s.queue);
    assert Young(HandleOne(s)) == Young(s);
  }

  /** What a cycle is bound to sweep. */
  ghost predicate IsGarbage(s: State, x: nat) {
    Placed(s, x) && (Doomed(s, x) || !Reached(s, x))
  }

  /** At the beginning of a cycle the garbage is hidden. */
  lemma BeginHides(s: State, g: set<nat>)
    requires Invariant(s) && s.phase == Idle && g == set x | x in s.fields && IsGarbage(s, x)
    ensures Hidden(Apply(s, Begin), g) && Unheld(Apply(s, Begin), g)
  {
    hide Reached, Doomed, Invariant, Apply, Young;
    var r := Apply(s, Begin);
    BeginPlaces(s);
    hide Placed;
    forall t | t in r.locals
      ensures NoneIn(r, r.locals[t], g)
    {
      forall i {:trigger r.locals[t][i]} | 0 <= i < |r.locals[t]|
        ensures r.locals[t][i] in g ==> IsRed(r, r.locals[t][i])
      {
        ReachedByLocal(s, t, r.locals[t][i]);
      }
    }
    forall y | OnLists(r, y) && y !in g
      ensures y in r.fields && NoneIn(r, r.fields[y], g)
    {
      forall i {:trigger r.fields[y][i]} | 0 <= i < |r.fields[y]|
        ensures r.fields[y][i] in g ==> IsRed(r, r.fields[y][i])
      {
        ReachedByWord(s, y, r.fields[y][i]);
      }
    }
  }

  /** `es` is a sound run that completes the cycle which `s` begins. */
  ghost predicate Completes(s: State, es: seq<Event>)
    requires s.phase == Idle
  {
    var r := Apply(s, Begin);
    IsRun(r, es) && SoundRun(r, es) && Begin !in es && After(r, es).phase == Idle
  }

  /** No garbage stays: what no thread reached through objects that are not doomed, when a
      cycle began, and what was doomed, is swept by the end of that cycle, whatever the threads
      do meanwhile and whoever holds it. */
  lemma GarbageIsSwept(s: State, es: seq<Event>, x: nat)
    requires Invariant(s) && s.phase == Idle && IsGarbage(s, x) && Completes(s, es)
    ensures Sweeps(Apply(s, Begin), es, x)
  {
    hide Reached, Doomed, Hidden, Unheld, Invariant, Apply, IsRun, After, SoundRun, Placed;
    var g := set y | y in s.fields && IsGarbage(s, y);
    BeginHides(s, g);
    StepKeeps(s, Begin);
    BeginPlaces(s);
    HiddenIsSwept(Apply(s, Begin), es, g, x);
  }

  // ----- The collector alone -----

  /** The event with which the collector goes on. */
  function NextMarking(s: State): Event
    requires InLoop(s) || s.phase == Sweep
  {
    match s.phase
    case Blacken(_) => BlackenNext
    case Words(_, _) => ScanWord
    case Drain(_) => if s.queue == [] then Drained else HandleNext
    case _ => if s.m.from == [] then Finish else SweepNext
  }

  /** The objects that the collector still has to scan, or to sweep. */
  function ObjectsLeft(s: State): int {
    if InLoop(s) then |s.m.from| + |s.m.scan| - s.phase.k else |s.m.from|
  }

  /** What it still has to do with the object at hand. */
  function StepsLeft(s: State): nat {
    match s.phase
    case Blacken(_) => 2
    case Words(_, _) => 1
    case _ => 0
  }

  function PartsLeft(s: State): int {
    match s.phase
    case Words(k, j) => if k < |s.m.scan| && s.m.scan[k] in s.fields then |s.fields[s.m.scan[k]]| - j else 0
    case _ => |s.queue|
  }

  ghost predicate IsLess(r: State, s: State) {
    || (r.phase == Sweep && InLoop(s))
    || ((InLoop(r) <==> InLoop(s)) && 0 <= ObjectsLeft(r) < ObjectsLeft(s))
    || ((InLoop(r) <==> InLoop(s)) && ObjectsLeft(r) == ObjectsLeft(s) && StepsLeft(r) < StepsLeft(s))
    || ((InLoop(r) <==> InLoop(s)) && ObjectsLeft(r) == ObjectsLeft(s) && StepsLeft(r) == StepsLeft(s) &&
        0 <= PartsLeft(r) < PartsLeft(s))
  }

  lemma MoveSize(s: State, m: Marking<nat>, x: nat)
    requires Lists(s) && OnLists(s, x) && m.from == s.m.from && m.scan == s.m.scan
    ensures |MoveToScan(m, x).from| + |MoveToScan(m, x).scan| == |s.m.from| + |s.m.scan|
  {
    hide NewIds;
    WithoutNoDup(s.m.from, x);
    WithoutNoDup(s.m.scan, x);
  }

  /** The collector can always go on, and gets closer to the end of the cycle. */
  lemma MarkingDecreases(s: State)
    requires Invariant(s) && (InLoop(s) || s.phase == Sweep)
    ensures var e := NextMarking(s);
      Enabled(s, e) && IsMarking(e) && Sound(s, e) && (e != Finish ==> IsLess(Apply(s, e), s))
      && (e != Finish ==> InLoop(Apply(s, e)) || Apply(s, e).phase == Sweep)
      && (e == Finish ==> Apply(s, e).phase == Idle)
  {
    hide NoDup, NewIds, Colors, Covers, MoveToScan, Young, HandleAll, Joined, ScanRoots, Copied, With, Nulls, CanUse;
    if s.phase.Words? {
      var k, j := s.phase.k, s.phase.j;
      var cur := s.m.scan[k];
      assert cur in s.m.scan && Placed(s, cur);
      if j < |s.fields[cur]| && IsWhite(s, s.fields[cur][j]) {
        assert KnownWords(s, s.fields[cur]) && KnownWord(s, s.fields[cur][j]);
        WhitePlaced(s, s.fields[cur][j]);
        MoveSize(s, s.m.(color := s.m.color[cur := GRAY]), s.fields[cur][j]);
        RefereeKeeps(s, s.fields[cur][j]);
        var n := ScanRef(s.m, cur, s.fields[cur][j]);
        assert n.scan[k] == n.scan[..k + 1][k] == s.m.scan[..k + 1][k];
      }
    } else if s.phase.Drain? && s.queue != [] && s.queue[0].Cti? && IsWhite(s, s.queue[0].x) {
      MoveSize(s, s.m, s.queue[0].x);
    }
  }

  predicate IsCollector(e: Event) {
    e == Begin || e.ScanStack? || e == EnterLoop || IsMarking(e)
  }

  /** From `s` to `q` the threads did nothing. */
  ghost predicate Frozen(s: State, q: State) {
    && q.queue == [] && q.fields == s.fields && q.locals == s.locals && q.dead == s.dead && Young(q) == Young(s)
    && forall y | IsRed(q, y) :: IsRed(s, y)
  }

  lemma MarkingFreezes(s: State)
    requires Invariant(s) && InLoop(s) && s.queue == []
    ensures Frozen(s, Apply(s, NextMarking(s)))
  {
    hide NoDup, NewIds, Colors, Messages, Covers, Holds, MoveToScan, WordScanned;
    var e := NextMarking(s);
    MarkingDecreases(s);
    MarkingLists(s, e);
    MarkingLocals(s, e);
    if e == ScanWord {
      ScanWordColor(s);
      ScanWordQueue(s);
    }
  }

  lemma OneThenRun(s: State, e: Event, es: seq<Event>)
    requires Enabled(s, e) && IsRun(Apply(s, e), es)
    ensures IsRun(s, [e] + es) && After(s, [e] + es) == After(Apply(s, e), es)
    ensures Sound(s, e) && SoundRun(Apply(s, e), es) ==> SoundRun(s, [e] + es)
  {
    hide Apply, Enabled, Sound;
    assert ([e] + es)[0] == e && ([e] + es)[1..] == es;
  }

  /** Marking to its end, when no thread interferes. */
  lemma {:induction false} MarkToEnd(s: State) returns (es: seq<Event>)
    requires Invariant(s) && (InLoop(s) || s.phase == Sweep) && s.queue == []
    ensures IsRun(s, es) && SoundRun(s, es) && forall e | e in es :: IsMarking(e) && e != SweepNext
    ensures Frozen(s, After(s, es)) && Invariant(After(s, es)) && After(s, es).phase == Sweep
    decreases InLoop(s), ObjectsLeft(s), StepsLeft(s), PartsLeft(s)
  {
    hide Invariant, Apply, Enabled, Young, IsRun, SoundRun, After;
    if s.phase == Sweep {
      es := [];
      NothingYet(s);
    } else {
      var e := NextMarking(s);
      MarkingDecreases(s);
      MarkingFreezes(s);
      StepKeeps(s, e);
      var fs := MarkToEnd(Apply(s, e));
      OneThenRun(s, e, fs);
      es := [e] + fs;
    }
  }

  lemma {:induction false} ScanRootsRed(m: Marking<nat>, ws: seq<nat>, y: nat)
    requires var n := ScanRoots(m, ws); y in n.color && n.color[y] == RED
    ensures y in m.color && m.color[y] == RED
  {
    if ws != [] {
      ScanRootsRed(m, ws[..|ws| - 1], y);
    }
  }

  lemma ScanStackFreezes(s: State, t: nat)
    requires Enabled(s, ScanStack(t)) && s.queue == []
    ensures Frozen(s, Apply(s, ScanStack(t)))
  {
    hide NewIds, ScanRoots;
    forall y | IsRed(Apply(s, ScanStack(t)), y)
      ensures IsRed(s, y)
    {
      ScanRootsRed(s.m, s.locals[t], y);
    }
  }

  /** The stacks and the marking, when no thread interferes. */
  lemma {:induction false} MarkFromRoots(s: State) returns (es: seq<Event>)
    requires Invariant(s) && s.phase == Roots && s.queue == []
    ensures IsRun(s, es) && SoundRun(s, es) && forall e | e in es :: IsCollector(e) && e != SweepNext && e != Begin
    ensures Frozen(s, After(s, es)) && Invariant(After(s, es)) && After(s, es).phase == Sweep
    decreases |s.locals.Keys - s.scanned|
  {
    hide Invariant, Young, ScanRoots;
    ScannedThreads(s);
    var e;
    if forall t | t in s.locals.Keys :: t in s.scanned {
      assert s.scanned == s.locals.Keys;
      e := EnterLoop;
      StepKeeps(s, e);
      var fs := MarkToEnd(Apply(s, e));
      OneThenRun(s, e, fs);
      SameYoung(s, Apply(s, e));
      es := [e] + fs;
    } else {
      var t :| t in s.locals.Keys && t !in s.scanned;
      e := ScanStack(t);
      ScanStackFreezes(s, t);
      StepKeeps(s, e);
      assert s.locals.Keys - (s.scanned + {t}) < s.locals.Keys - s.scanned;
      SetsShrink(s.locals.Keys - (s.scanned + {t}), s.locals.Keys - s.scanned);
      var fs := MarkFromRoots(Apply(s, e));
      OneThenRun(s, e, fs);
      es := [e] + fs;
    }
  }

  lemma ScannedThreads(s: State)
    requires Invariant(s)
    ensures s.scanned <= s.locals.Keys
  {
  }

  lemma SetsShrink(a: set<nat>, b: set<nat>)
    requires a < b
    ensures |a| < |b|
  {
    assert b == a + (b - a);
  }

  /** At the end of marking, what is reached is on the scan list. */
  lemma {:induction false} ChainScanned(q: State, t: nat, p: seq<nat>)
    requires Invariant(q) && q.phase == Sweep && Young(q) == [] && p != [] && t in q.locals && p[0] in q.locals[t]
    requires forall i :: 0 <= i < |p| ==> p[i] != 0 && !IsRed(q, p[i])
    requires forall i :: 0 <= i < |p| - 1 ==> p[i] in q.fields && p[i + 1] in q.fields[p[i]]
    ensures p[|p| - 1] in q.m.scan
  {
    hide NoDup, NewIds, Messages, Covers, Position;
    var x := p[|p| - 1];
    if |p| == 1 {
      assert KnownWords(q, q.locals[t]);
      var i :| 0 <= i < |q.locals[t]| && q.locals[t][i] == x;
    } else {
      var y := p[|p| - 2];
      ChainScanned(q, t, p[..|p| - 1]);
      assert p[|p| - 2 + 1] in q.fields[y];
      assert KnownWords(q, q.fields[y]);
      var i :| 0 <= i < |q.fields[y]| && q.fields[y][i] == x;
    }
  }

  lemma {:induction false} SparesScanned(s: State, es: seq<Event>, x: nat)
    requires IsRun(s, es) && x !in s.m.from && forall e | e in es :: e == SweepNext || e == Finish
    ensures !Sweeps(s, es, x)
    decreases |es|
  {
    if es != [] {
      hide Apply, Enabled;
      assert es[0] in es && forall e | e in es[1..] :: e in es;
      SweepSpares(s, es[0], x);
      SparesScanned(Apply(s, es[0]), es[1..], x);
    }
  }

  lemma SweepSpares(s: State, e: Event, x: nat)
    requires Enabled(s, e) && x !in s.m.from && (e == SweepNext || e == Finish)
    ensures (e == SweepNext ==> s.m.from != [] && s.m.from[0] != x) && x !in Apply(s, e).m.from
  {
    if e == SweepNext {
      assert s.m.from == [s.m.from[0]] + s.m.from[1..];
    }
  }

  lemma {:induction false} SweepsLater(s: State, es: seq<Event>, fs: seq<Event>, x: nat)
    requires IsRun(s, es) && IsRun(After(s, es), fs) && SweepNext !in es && IsRun(s, es + fs)
    ensures Sweeps(s, es + fs, x) <==> Sweeps(After(s, es), fs, x)
    decreases |es|
  {
    hide Apply, Enabled;
    if es == [] {
      assert es + fs == fs;
    } else {
      assert (es + fs)[0] == es[0] && (es + fs)[1..] == es[1..] + fs;
      SweepsLater(Apply(s, es[0]), es[1..], fs, x);
    }
  }

  /** The sweep to its end. */
  lemma SweepToEnd(s: State, x: nat) returns (es: seq<Event>)
    requires s.phase == Sweep && x !in s.m.from
    ensures IsRun(s, es) && SoundRun(s, es) && !Sweeps(s, es, x) && forall e | e in es :: e == SweepNext || e == Finish
    ensures After(s, es) == s.(m := s.m.(from := []), phase := Idle)
  {
    var fs := seq(|s.m.from|, _ => SweepNext);
    SweepAll(s);
    var q, f := After(s, fs), [Finish];
    assert f[1..] == [] && IsRun(Apply(q, Finish), []) && IsRun(q, f) && SoundRun(q, f) && After(q, f) == Apply(q, Finish);
    RunConcat(s, fs, f);
    es := fs + f;
    SparesScanned(s, es, x);
  }

  /** What a thread reaches through objects that are not doomed, and that is not doomed itself,
      survives when the threads do nothing: the collector can complete the cycle without it. */
  lemma ReachedSurvives(s: State, x: nat) returns (es: seq<Event>)
    requires Invariant(s) && s.phase == Idle && Placed(s, x) && !Doomed(s, x) && Reached(s, x)
    ensures Completes(s, es) && !Sweeps(Apply(s, Begin), es, x) && forall e | e in es :: IsCollector(e)
    ensures var q := After(Apply(s, Begin), es);
      && Invariant(q) && Placed(q, x) && q.queue == [] && q.locals == s.locals && q.fields == s.fields && q.dead == s.dead
      && forall y | IsRed(q, y) :: Doomed(s, y)
  {
    hide Invariant, Apply, IsRun, SoundRun, After, Doomed, Sweeps, Young;
    var r := Apply(s, Begin);
    StepKeeps(s, Begin);
    BeginPlaces(s);
    var fs := MarkFromRoots(r);
    var q := After(r, fs);
    var t, p: seq<nat> :| IsChain(s, t, p) && p[|p| - 1] == x;
    ChainNonzero(s, t, p);
    ChainScanned(q, t, p);
    NotInBoth(q, x);
    var gs := SweepToEnd(q, x);
    RunConcat(r, fs, gs);
    SweepsLater(r, fs, gs, x);
    es := fs + gs;
    RunKeeps(r, es);
  }

  lemma NotInBoth(q: State, x: nat)
    requires Invariant(q) && x in q.m.scan
    ensures x !in q.m.from
  {
  }

  lemma ChainNonzero(s: State, t: nat, p: seq<nat>)
    requires Invariant(s) && IsChain(s, t, p) && Placed(s, p[|p| - 1])
    ensures forall i :: 0 <= i < |p| ==> p[i] != 0
  {
    hide NewIds, Young, NoDup, Doomed, Messages, Holds, Covers, Position, Colors;
    assert 0 !in s.fields.Keys;
    assert p[|p| - 1] in s.fields;
  }

  /** What a cycle sweeps, exactly: an object is swept in every sound completion if it is
      doomed or no thread reaches it through objects that are not, and otherwise some
      completion spares it. */
  lemma SweptIff(s: State, x: nat)
    requires Invariant(s) && s.phase == Idle && Placed(s, x)
    ensures Doomed(s, x) || !Reached(s, x) <==> forall es | Completes(s, es) :: Sweeps(Apply(s, Begin), es, x)
  {
    hide Invariant, Placed, Doomed, Reached, Apply, Sweeps, IsRun, SoundRun, After;
    if Doomed(s, x) || !Reached(s, x) {
      forall es | Completes(s, es)
        ensures Sweeps(Apply(s, Begin), es, x)
      {
        GarbageIsSwept(s, es, x);
      }
    } else {
      var es := ReachedSurvives(s, x);
    }
  }

  // ----- Doomed objects, whatever the steps -----

  ghost predicate Condemned(s: State, x: nat) {
    IsRed(s, x) && x in s.m.from && x !in s.m.scan
  }

  lemma {:induction false} ScanRootsMoves(m: Marking<nat>, ws: seq<nat>, x: nat)
    requires x in m.color && m.color[x] == RED && x !in m.scan
    ensures x !in ScanRoots(m, ws).scan
  {
    if ws != [] {
      ScanRootsMoves(m, ws[..|ws| - 1], x);
      if x in ScanRoots(m, ws).scan { ScanRootsReds(m, ws[..|ws| - 1], x); }
    }
  }

  lemma {:induction false} ScanRootsReds(m: Marking<nat>, ws: seq<nat>, x: nat)
    requires x in m.color && m.color[x] == RED
    ensures var n := ScanRoots(m, ws); x in n.color && n.color[x] == RED
  {
    if ws != [] {
      ScanRootsReds(m, ws[..|ws| - 1], x);
    }
  }

  lemma StepCondemns(s: State, e: Event, x: nat)
    requires Enabled(s, e) && e != Begin && Condemned(s, x)
    ensures (e == SweepNext && s.m.from[0] == x) || Condemned(Apply(s, e), x)
    ensures s.phase != Idle ==> Apply(s, e).phase != Idle
  {
    hide NewIds, Barrier, HandleAll, Joined, ScanRoots, With, Nulls, Copied;
    if e.ScanStack? {
      ScanRootsLeaves(s.m, s.locals[e.t], x);
      ScanRootsMoves(s.m, s.locals[e.t], x);
    }
  }

  lemma {:induction false} CondemnedIsSwept(s: State, es: seq<Event>, x: nat)
    requires IsRun(s, es) && Begin !in es && s.phase != Idle && After(s, es).phase == Idle && Condemned(s, x)
    ensures Sweeps(s, es, x)
    decreases |es|
  {
    hide Apply, Condemned;
    if es != [] {
      StepCondemns(s, es[0], x);
      if !(es[0] == SweepNext && s.m.from[0] == x) {
        CondemnedIsSwept(Apply(s, es[0]), es[1..], x);
      }
    }
  }

  /** A doomed object is swept by the end of the cycle even if the steps are not sound. */
  lemma DoomedIsSwept(s: State, es: seq<Event>, x: nat)
    requires Invariant(s) && s.phase == Idle && Placed(s, x) && Doomed(s, x)
    requires IsRun(Apply(s, Begin), es) && Begin !in es && After(Apply(s, Begin), es).phase == Idle
    ensures Sweeps(Apply(s, Begin), es, x)
  {
    hide Invariant, Placed, Doomed;
    BeginPlaces(s);
    CondemnedIsSwept(Apply(s, Begin), es, x);
  }

  // ----- A free that is forgotten -----

  predicate Frees(e: Event, x: nat) {
    (e.Free? && e.x == x) || (e.Resize? && e.obj == x)
  }

  ghost predicate Forgotten(s: State, x: nat) {
    x in s.m.scan && !Doomed(s, x)
  }

  lemma StepForgets(s: State, e: Event, x: nat)
    requires Enabled(s, e) && e != Begin && !Frees(e, x) && Forgotten(s, x)
    ensures Forgotten(Apply(s, e), x)
  {
    hide NewIds, Barrier, HandleAll, Joined, ScanRoots, With, Nulls, Copied, MoveToScan;
    ScanStepGrows(s, e, x);
    if e.ScanStack? {
      if IsRed(Apply(s, e), x) { ScanRootsRed(s.m, s.locals[e.t], x); }
    } else if e == ScanWord {
      ScanWordColor(s);
      ScanWordQueue(s);
    } else if e == HandleNext {
      MovedColor(s.m, s.queue[0].x);
      assert s.queue == [s.queue[0]] + s.queue[1..];
    }
  }

  /** An object that is RED when the mark loop comes to it: the FREE message is forgotten.  At
      the end of the cycle the object is on the scan list, and it is not doomed unless the
      program freed it once more. */
  lemma {:induction false} FreeIsForgotten(s: State, es: seq<Event>, x: nat)
    requires s.phase.Blacken? && s.phase.k < |s.m.scan| && s.m.scan[s.phase.k] == x && Freed(x) !in s.queue
    requires IsRun(Apply(s, BlackenNext), es) && Begin !in es && forall e | e in es :: !Frees(e, x)
    ensures Forgotten(After(Apply(s, BlackenNext), es), x)
  {
    StaysForgotten(Apply(s, BlackenNext), es, x);
  }

  lemma {:induction false} StaysForgotten(s: State, es: seq<Event>, x: nat)
    requires IsRun(s, es) && Begin !in es && Forgotten(s, x) && forall e | e in es :: !Frees(e, x)
    ensures Forgotten(After(s, es), x)
    decreases |es|
  {
    hide Apply, Enabled, Forgotten, Frees;
    if es != [] {
      StepForgets(s, es[0], x);
      assert forall e | e in es[1..] :: e in es;
      StaysForgotten(Apply(s, es[0]), es[1..], x);
    }
  }

  /** How many cycles begin. */
  function Cycles(es: seq<Event>): nat {
    if es == [] then 0 else (if es[0] == Begin then 1 else 0) + Cycles(es[1..])
  }

  lemma {:induction false} CyclesConcat(es: seq<Event>, fs: seq<Event>)
    ensures Cycles(es + fs) == Cycles(es) + Cycles(fs)
  {
    if es == [] {
      assert es + fs == fs;
    } else {
      assert (es + fs)[0] == es[0] && (es + fs)[1..] == es[1..] + fs;
      CyclesConcat(es[1..], fs);
    }
  }

  lemma {:induction false} NoCycle(es: seq<Event>)
    requires Begin !in es
    ensures Cycles(es) == 0
  {
    if es != [] {
      NoCycle(es[1..]);
    }
  }

  lemma OneCycle(s: State, x: nat) returns (es: seq<Event>)
    requires Invariant(s) && s.phase == Idle && Placed(s, x) && !Doomed(s, x) && Reached(s, x)
    ensures IsRun(s, es) && SoundRun(s, es) && Cycles(es) == 1 && forall e | e in es :: IsCollector(e)
    ensures var q := After(s, es);
      && Invariant(q) && q.phase == Idle && Placed(q, x) && !Doomed(q, x) && Reached(q, x)
      && q.locals == s.locals && q.dead == s.dead
  {
    hide Invariant, Apply, IsRun, SoundRun, After, Doomed, Sweeps, Young, Placed, Reached;
    var r := Apply(s, Begin);
    var fs := ReachedSurvives(s, x);
    StillReached(s, After(r, fs), x);
    OneThenRun(s, Begin, fs);
    NoCycle(fs);
    CyclesConcat([Begin], fs);
    assert Cycles([Begin]) == 1 by { assert [Begin][1..] == []; }
    es := [Begin] + fs;
  }

  /** An object that is not doomed survives any number of cycles, freed or not, while a thread
      reaches it through such objects. */
  lemma {:induction false} ReachedSurvivesCycles(s: State, x: nat, n: nat) returns (es: seq<Event>)
    requires Invariant(s) && s.phase == Idle && Placed(s, x) && !Doomed(s, x) && Reached(s, x)
    ensures IsRun(s, es) && SoundRun(s, es) && Cycles(es) == n && forall e | e in es :: IsCollector(e)
    ensures var q := After(s, es); q.phase == Idle && Placed(q, x) && q.locals == s.locals && q.dead == s.dead
    decreases n
  {
    hide Invariant, Apply, Doomed, Young, Placed, Reached;
    if n == 0 {
      es := [];
    } else {
      hide IsRun, SoundRun, After, Cycles;
      var fs := OneCycle(s, x);
      var gs := ReachedSurvivesCycles(After(s, fs), x, n - 1);
      RunConcat(s, fs, gs);
      CyclesConcat(fs, gs);
      es := fs + gs;
    }
  }

  lemma StillReached(s: State, q: State, x: nat)
    requires Reached(s, x) && !Doomed(s, x) && q.queue == [] && q.locals == s.locals && q.fields == s.fields
    requires forall y | IsRed(q, y) :: Doomed(s, y)
    ensures Reached(q, x) && !Doomed(q, x)
  {
    var t, p: seq<nat> :| IsChain(s, t, p) && p[|p| - 1] == x;
    assert IsChain(q, t, p);
  }
}
