/**
 The threaded build as an interleaving of one collector with any number of mutator threads
 (src/sgc.c:358-376, 561-754, src/sgc.h:138-156, src/sgc_thread.c:300-350).

 What the code does not enforce is built into the events: the beginning of a cycle up to the
 end of clearing is one event; a store or load and its barrier are one event; a program reads
 and writes heap words through its local variables only; the roots are the thread stacks.
 Loads and stores without a barrier, and messages that get lost, are events of their own.
 */
module IncrementalCollector {
  import opened Seqs
  import opened MarkSpec

  /** CTI stands for both forms of the message, whose handling is the same. */
  datatype Message = New(x: nat) | Cti(x: nat) | Freed(x: nat)

  /** Where the collector is: between cycles, scanning stacks, at the k-th object of the scan
      list (about to blacken it, before its j-th word, handling messages), or sweeping. */
  datatype Phase = Idle | Roots | Blacken(k: nat) | Words(k: nat, j: nat) | Drain(k: nat) | Sweep

  /** `fields` are the words of every object ever allocated, 0 standing for NULL, and
      `locals` those of the thread stacks.  `dead` are the objects that the program freed. */
  datatype State = State(
    m: Marking<nat>, news: seq<nat>, queue: seq<Message>, fields: map<nat, seq<nat>>,
    locals: map<nat, seq<nat>>, scanned: set<nat>, dead: set<nat>, phase: Phase)

  /** The steps of the collector and of the threads.  Resize is the end of `sgc_resize_object`:
      the copy of `obj` to the new object `x`, and the free of `obj`.  The last four are those
      of a thread without a message: no barrier was written, or there was no cell for it. */
  datatype Event =
    | Begin | ScanStack(t: nat) | EnterLoop | BlackenNext | ScanWord | HandleNext | Drained | SweepNext | Finish
    | Load(t: nat, obj: nat, i: nat) | Store(t: nat, obj: nat, i: nat, w: nat)
    | Alloc(t: nat, x: nat, n: nat) | Free(t: nat, x: nat) | SetLocals(t: nat, ws: seq<nat>)
    | Resize(t: nat, obj: nat, x: nat)
    | PlainLoad(t: nat, obj: nat, i: nat) | PlainStore(t: nat, obj: nat, i: nat, w: nat)
    | LostFree(t: nat, x: nat) | LostAlloc(t: nat, x: nat, n: nat)

  // ----- The collector's events -----

  /** `sgc_handle_message` */
  function Handle(s: State, msg: Message): State {
    match msg
    case New(x) => s.(news := s.news + [x])
    case Cti(x) => if x in s.m.color && s.m.color[x] == WHITE then s.(m := MoveToScan(s.m, x)) else s
    case Freed(x) => s.(m := s.m.(color := s.m.color[x := RED]))
  }

  function HandleOne(s: State): State
    requires s.queue != []
  {
    Handle(s, s.queue[0]).(queue := s.queue[1..])
  }

  function HandleAll(s: State): (r: State)
    ensures r.queue == []
    decreases |s.queue|
  {
    if s.queue == [] then s else HandleAll(HandleOne(s))
  }

  /** `sgc_run` up to and including `sgc_clear`. */
  function BeginCycle(s: State): State {
    Joined(HandleAll(s))
  }

  /** Joining the lists and clearing. */
  function Joined(h: State): State {
    var m := Marking(h.m.scan + h.news, [], h.m.color);
    h.(m := Cleared(m, |m.from|), news := [], scanned := {}, phase := Roots)
  }

  /** The stack words `ws`, as `sgc_scan_thread` treats them. */
  function ScanRoots(m: Marking<nat>, ws: seq<nat>): Marking<nat> {
    if ws == [] then m else
    var n := ScanRoots(m, ws[..|ws| - 1]);
    var w := ws[|ws| - 1];
    if w in n.color && n.color[w] == WHITE then AddRoot(n, w) else n
  }

  /** The word at hand, as `sgc_scan_mem` treats it. */
  function WordScanned(s: State): State
    requires s.phase.Words? && s.phase.k < |s.m.scan| && s.m.scan[s.phase.k] in s.fields
  {
    var k, j, cur := s.phase.k, s.phase.j, s.m.scan[s.phase.k];
    if j < |s.fields[cur]| then s.(m := ScanRef(s.m, cur, s.fields[cur][j]), phase := Words(k, j + 1))
    else s.(phase := Drain(k))
  }

  /** The mutator's message, if there is one. */
  function Send(s: State, c: bool, msg: Message): State {
    if c then s.(queue := s.queue + [msg]) else s
  }

  predicate IsWhite(s: State, x: nat) {
    x in s.m.color && s.m.color[x] == WHITE
  }

  predicate IsRed(s: State, x: nat) {
    x in s.m.color && s.m.color[x] == RED
  }

  /** The objects whose NEW message is still to come. */
  function NewIds(queue: seq<Message>): seq<nat> {
    if queue == [] then [] else
    (if queue[0].New? then [queue[0].x] else []) + NewIds(queue[1..])
  }

  /** The objects allocated since the cycle began. */
  function Young(s: State): seq<nat> {
    s.news + NewIds(s.queue)
  }

  predicate OnLists(s: State, x: nat) {
    x in s.m.from || x in s.m.scan
  }

  predicate Placed(s: State, x: nat) {
    x in s.m.from || x in s.m.scan || x in Young(s)
  }

  predicate Holding(s: State, t: nat, x: nat) {
    t in s.locals && x in s.locals[t] && x in s.fields
  }

  /** A thread may use an object that it holds and that was not freed. */
  predicate CanUse(s: State, t: nat, x: nat) {
    Holding(s, t, x) && x !in s.dead
  }

  /** The allocator hands out what is in no list: new memory, or memory that was swept. */
  predicate CanAllocate(s: State, t: nat, x: nat) {
    t in s.locals && x != 0 && !Placed(s, x)
  }

  predicate CanLoad(s: State, t: nat, obj: nat, i: nat) {
    CanUse(s, t, obj) && i < |s.fields[obj]|
  }

  predicate CanStore(s: State, t: nat, obj: nat, i: nat, w: nat) {
    CanLoad(s, t, obj, i) && (w == 0 || w in s.locals[t])
  }

  predicate CanResize(s: State, t: nat, obj: nat, x: nat) {
    CanUse(s, t, obj) && CanUse(s, t, x) && obj != x
  }

  predicate Enabled(s: State, e: Event) {
    match e
    case Begin => s.phase == Idle
    case ScanStack(t) => s.phase == Roots && t in s.locals && t !in s.scanned
    case EnterLoop => s.phase == Roots && s.scanned == s.locals.Keys
    case BlackenNext => s.phase.Blacken? && s.phase.k < |s.m.scan|
    case ScanWord => s.phase.Words? && s.phase.k < |s.m.scan| && s.m.scan[s.phase.k] in s.fields
    case HandleNext => s.phase.Drain? && s.queue != []
    case Drained => s.phase.Drain? && s.queue == []
    case SweepNext => s.phase == Sweep && s.m.from != []
    case Finish => s.phase == Sweep && s.m.from == []
    case Load(t, obj, i) => CanLoad(s, t, obj, i)
    case PlainLoad(t, obj, i) => CanLoad(s, t, obj, i)
    case Store(t, obj, i, w) => CanStore(s, t, obj, i, w)
    case PlainStore(t, obj, i, w) => CanStore(s, t, obj, i, w)
    case Alloc(t, x, n) => CanAllocate(s, t, x)
    case LostAlloc(t, x, n) => CanAllocate(s, t, x)
    case Free(t, x) => Holding(s, t, x)
    case LostFree(t, x) => Holding(s, t, x)
    case Resize(t, obj, x) => CanResize(s, t, obj, x)
    case SetLocals(t, ws) => t in s.locals && forall w | w in ws :: w == 0 || w in s.locals[t]
  }

  function With(ws: seq<nat>, i: nat, w: nat): (r: seq<nat>)
    requires i < |ws|
    ensures |r| == |ws| && r[i] == w && forall j :: 0 <= j < |ws| && j != i ==> r[j] == ws[j]
  {
    ws[i := w]
  }

  function Nulls(n: nat): (ws: seq<nat>)
    ensures |ws| == n && forall i :: 0 <= i < n ==> ws[i] == 0
  {
    seq(n, _ => 0)
  }

  function Loaded(s: State, t: nat, obj: nat, i: nat): State
    requires CanLoad(s, t, obj, i)
  {
    s.(locals := s.locals[t := s.locals[t] + [s.fields[obj][i]]])
  }

  function Written(s: State, obj: nat, i: nat, w: nat): State
    requires obj in s.fields && i < |s.fields[obj]|
  {
    s.(fields := s.fields[obj := With(s.fields[obj], i, w)])
  }

  /** The words `to` after the first of them were overwritten by those of `from`. */
  function Copied(from: seq<nat>, to: seq<nat>): (ws: seq<nat>)
    ensures |ws| == |to| && forall i :: 0 <= i < |to| ==> ws[i] == if i < |from| then from[i] else to[i]
  {
    seq(|to|, i requires 0 <= i < |to| => if i < |from| then from[i] else to[i])
  }

  /** `sgc_memcpy` to the new object of a resize: there is no barrier. */
  function Copy(s: State, obj: nat, x: nat): State
    requires obj in s.fields && x in s.fields
  {
    s.(fields := s.fields[x := Copied(s.fields[obj], s.fields[x])])
  }

  function Freeing(s: State, x: nat): State {
    Send(s.(dead := s.dead + {x}), true, Freed(x))
  }

  /** The object `x`, with cleared words.  It is BLACK, and not one that the program freed. */
  function Allocated(s: State, t: nat, x: nat, n: nat): State
    requires t in s.locals
  {
    s.(m := s.m.(color := s.m.color[x := BLACK]), fields := s.fields[x := Nulls(n)],
       locals := s.locals[t := s.locals[t] + [x]], dead := s.dead - {x})
  }

  /** The test of `sgc_wb2`. */
  predicate Barrier(s: State, obj: nat, w: nat) {
    obj in s.m.color && s.m.color[obj] == BLACK && IsWhite(s, w)
  }

  function Apply(s: State, e: Event): State
    requires Enabled(s, e)
  {
    match e
    case Begin => BeginCycle(s)
    case ScanStack(t) => s.(m := ScanRoots(s.m, s.locals[t]), scanned := s.scanned + {t})
    case EnterLoop => s.(phase := if s.m.scan == [] then Sweep else Blacken(0))
    case BlackenNext =>
      var cur := s.m.scan[s.phase.k];
      s.(m := s.m.(color := s.m.color[cur := BLACK]), phase := Words(s.phase.k, 0))
    case ScanWord => WordScanned(s)
    case HandleNext => HandleOne(s)
    case Drained => s.(phase := if s.phase.k + 1 == |s.m.scan| then Sweep else Blacken(s.phase.k + 1))
    case SweepNext => s.(m := s.m.(from := s.m.from[1..]))
    case Finish => s.(phase := Idle)
    case Load(t, obj, i) => Send(Loaded(s, t, obj, i), IsWhite(s, s.fields[obj][i]), Cti(s.fields[obj][i]))
    case PlainLoad(t, obj, i) => Loaded(s, t, obj, i)
    case Store(t, obj, i, w) => Send(Written(s, obj, i, w), Barrier(s, obj, w), Cti(w))
    case PlainStore(t, obj, i, w) => Written(s, obj, i, w)
    case Alloc(t, x, n) => Send(Allocated(s, t, x, n), true, New(x))
    case LostAlloc(t, x, n) => Allocated(s, t, x, n)
    case Free(t, x) => Freeing(s, x)
    case Resize(t, obj, x) => Freeing(Copy(s, obj, x), obj)
    case LostFree(t, x) => s.(dead := s.dead + {x})
    case SetLocals(t, ws) => s.(locals := s.locals[t := ws])
  }

  /** A store sends its message exactly when it puts a WHITE object into a BLACK one, and a load
      when it reads a WHITE object: into an object of another color a store sends nothing. */
  lemma StoreSends(s: State, t: nat, obj: nat, i: nat, w: nat)
    requires Enabled(s, Store(t, obj, i, w))
    ensures var sends := obj in s.m.color && s.m.color[obj] == BLACK && w in s.m.color && s.m.color[w] == WHITE;
      Apply(s, Store(t, obj, i, w)).queue == s.queue + if sends then [Cti(w)] else []
    ensures obj in s.m.color && (s.m.color[obj] == WHITE || s.m.color[obj] == GRAY || s.m.color[obj] == RED) ==>
      Apply(s, Store(t, obj, i, w)).queue == s.queue
  {
  }

  lemma LoadSends(s: State, t: nat, obj: nat, i: nat)
    requires Enabled(s, Load(t, obj, i))
    ensures var w := s.fields[obj][i];
      Apply(s, Load(t, obj, i)).queue == s.queue + if w in s.m.color && s.m.color[w] == WHITE then [Cti(w)] else []
  {
  }

  // ----- Invariants -----

  /** Every object of a list or of a NEW message is in one place. */
  ghost predicate Lists(s: State) {
    && NoDup(s.m.from) && NoDup(s.m.scan) && NoDup(Young(s))
    && (forall x | x in s.m.scan :: x !in s.m.from)
    && (forall x | x in Young(s) :: x !in s.m.from && x !in s.m.scan)
    && (forall x | Placed(s, x) :: x in s.m.color && x in s.fields)
    && s.fields.Keys == s.m.color.Keys && 0 !in s.m.color && s.scanned <= s.locals.Keys
  }

  /** How many objects of the scan list the mark loop has blackened. */
  function Blackened(s: State): nat {
    match s.phase
    case Blacken(k) => k
    case Words(k, _) => k + 1
    case Drain(k) => k + 1
    case _ => |s.m.scan|
  }

  /** The mark loop is at an object of the scan list, and what it blackened is not WHITE. */
  ghost predicate Position(s: State) {
    && Blackened(s) <= |s.m.scan| && (s.phase.Blacken? ==> s.phase.k < |s.m.scan|)
    && (forall i :: 0 <= i < Blackened(s) ==> !IsWhite(s, s.m.scan[i]))
    && (s.m.scan != [] ==> !IsWhite(s, s.m.scan[0]))
    && (s.phase == Idle ==> s.m.from == [])
  }

  ghost predicate Colors(s: State) {
    && (forall x | x in s.m.from :: IsWhite(s, x) || IsRed(s, x))
    && (forall x | x in Young(s) :: x in s.m.color && (s.m.color[x] == BLACK || s.m.color[x] == RED))
    && (forall x | IsRed(s, x) :: x in s.dead)
  }

  /** Messages name objects that are in some list or in a NEW message, and between the end of
      marking and the next cycle none that the sweep will free. */
  ghost predicate Messages(s: State) {
    && (forall i :: 0 <= i < |s.queue| ==> Placed(s, s.queue[i].x))
    && (forall i :: 0 <= i < |s.queue| ==> s.queue[i].Freed? ==> s.queue[i].x in s.dead)
    && (forall i :: 0 <= i < |s.queue| ==> s.queue[i].Cti? ==> OnLists(s, s.queue[i].x))
    && (s.phase == Sweep || s.phase == Idle ==>
         (forall i :: 0 <= i < |s.queue| ==> !s.queue[i].Cti? && s.queue[i].x !in s.m.from))
  }

  /** What a word may hold; after marking, nothing that is about to be swept. */
  ghost predicate KnownWord(s: State, w: nat) {
    w == 0 || IsRed(s, w) || w in s.m.scan || w in Young(s) || (w in s.m.from && s.phase != Sweep)
  }

  ghost predicate KnownWords(s: State, ws: seq<nat>) {
    forall i {:trigger ws[i]} :: 0 <= i < |ws| ==> KnownWord(s, ws[i])
  }

  ghost predicate Holds(s: State) {
    && (forall t | t in s.locals :: KnownWords(s, s.locals[t]))
    && (forall x | x in s.m.scan || x in Young(s) || (x in s.m.from && s.phase != Sweep) :: x in s.fields && KnownWords(s, s.fields[x]))
  }

  ghost predicate HasCti(queue: seq<Message>, w: nat) {
    exists i :: 0 <= i < |queue| && queue[i] == Cti(w)
  }

  /** A CTI or FREE message names `w`. */
  ghost predicate Pending(queue: seq<Message>, w: nat) {
    exists i :: 0 <= i < |queue| && (queue[i] == Cti(w) || queue[i] == Freed(w))
  }

  /** A WHITE object that the marking has not reached is on its way to the collector, or RED soon. */
  ghost predicate CoveredWord(s: State, w: nat) {
    w in s.m.from && IsWhite(s, w) ==> Pending(s.queue, w)
  }

  ghost predicate CoveredWords(s: State, ws: seq<nat>) {
    forall i {:trigger ws[i]} :: 0 <= i < |ws| ==> CoveredWord(s, ws[i])
  }

  predicate InLoop(s: State) {
    s.phase.Blacken? || s.phase.Words? || s.phase.Drain?
  }

  predicate InCycle(s: State) {
    s.phase == Roots || InLoop(s)
  }

  /** How many words of the i-th object of the scan list have been scanned. */
  function WordsDone(s: State, i: nat): nat
    requires i < |s.m.scan| && s.m.scan[i] in s.fields
  {
    var n := |s.fields[s.m.scan[i]]|;
    if !InLoop(s) || i > s.phase.k then 0
    else if i < s.phase.k || s.phase.Drain? then n
    else if s.phase.Words? && s.phase.j < n then s.phase.j
    else if s.phase.Words? then n
    else 0
  }

  /** The collector relies on what the thread holds: its stack was scanned in this cycle. */
  predicate StackDone(s: State, t: nat) {
    InLoop(s) || (s.phase == Roots && t in s.scanned)
  }

  /** The collector will handle a CTI message for `y` before any FREE message for it. */
  ghost predicate CtiAhead(queue: seq<Message>, y: nat) {
    exists i :: 0 <= i < |queue| && queue[i] == Cti(y) && forall j :: 0 <= j < i ==> queue[j] != Freed(y)
  }

  /** The collector will scan the j-th word of `y`. */
  ghost predicate ToScan(s: State, y: nat, j: nat) {
    || (exists i: nat :: i < |s.m.scan| && s.m.scan[i] == y && y in s.fields && WordsDone(s, i) <= j)
    || (y in s.m.from && IsWhite(s, y) && CtiAhead(s.queue, y))
  }

  /** An object that was resized, and that no thread writes to any more, holds `w` in a word that
      the collector will scan. */
  ghost predicate Inherited(s: State, w: nat) {
    exists y: nat, j: nat {:trigger ToScan(s, y, j)} ::
      y in s.dead && y in s.fields && j < |s.fields[y]| && s.fields[y][j] == w && ToScan(s, y, j)
  }

  ghost predicate ExpectedWord(s: State, w: nat) {
    CoveredWord(s, w) || Inherited(s, w)
  }

  ghost predicate ExpectedWords(s: State, ws: seq<nat>) {
    forall i {:trigger ws[i]} :: 0 <= i < |ws| ==> ExpectedWord(s, ws[i])
  }

  /** What is held by a thread whose stack was scanned is covered; what is held by a young
      object, or by a word that was scanned, is at least expected. */
  ghost predicate Covers(s: State) {
    && (forall t | t in s.locals && StackDone(s, t) :: CoveredWords(s, s.locals[t]))
    && (s.phase == Roots || InLoop(s) ==> forall x | x in Young(s) :: x in s.fields && ExpectedWords(s, s.fields[x]))
    && (forall i {:trigger s.m.scan[i]} :: 0 <= i < |s.m.scan| ==>
         s.m.scan[i] in s.fields && ExpectedWords(s, s.fields[s.m.scan[i]][..WordsDone(s, i)]))
  }

  ghost predicate Invariant(s: State) {
    Lists(s) && Position(s) && Colors(s) && Messages(s) && Holds(s) && Covers(s)
  }

  /** No message names an object that a sweep would free now. */
  predicate NothingPending(s: State) {
    forall i :: 0 <= i < |s.queue| ==> s.queue[i].x !in s.m.from
  }

  // ----- Every event keeps the invariant -----

  lemma {:induction false} NewIdsAppend(queue: seq<Message>, msg: Message)
    ensures NewIds(queue + [msg]) == NewIds(queue) + if msg.New? then [msg.x] else []
  {
    if queue == [] {
      assert queue + [msg] == [msg];
    } else {
      assert (queue + [msg])[0] == queue[0] && (queue + [msg])[1..] == queue[1..] + [msg];
      NewIdsAppend(queue[1..], msg);
    }
  }

  lemma HasCtiMore(queue: seq<Message>, msg: Message, w: nat)
    ensures HasCti(queue + [msg], w) <==> HasCti(queue, w) || msg == Cti(w)
  {
    if i :| 0 <= i < |queue| && queue[i] == Cti(w) {
      assert (queue + [msg])[i] == Cti(w);
    }
    if msg == Cti(w) {
      assert (queue + [msg])[|queue|] == Cti(w);
    }
  }

  lemma PendingMore(queue: seq<Message>, msg: Message, w: nat)
    ensures Pending(queue + [msg], w) <==> Pending(queue, w) || msg == Cti(w) || msg == Freed(w)
  {
    if i :| 0 <= i < |queue| && (queue[i] == Cti(w) || queue[i] == Freed(w)) {
      assert (queue + [msg])[i] == queue[i];
    }
    if msg == Cti(w) || msg == Freed(w) {
      assert (queue + [msg])[|queue|] == msg;
    }
  }

  lemma CtiAheadMore(queue: seq<Message>, msg: Message, y: nat)
    requires CtiAhead(queue, y)
    ensures CtiAhead(queue + [msg], y)
  {
    var i :| 0 <= i < |queue| && queue[i] == Cti(y) && forall j :: 0 <= j < i ==> queue[j] != Freed(y);
    assert (queue + [msg])[i] == Cti(y);
  }

  /** The objects that the program freed keep their words, and their CTI messages. */
  ghost predicate KeepsFreed(s: State, r: State) {
    && (forall y | y in s.dead && y in s.fields :: y in r.dead && y in r.fields && r.fields[y] == s.fields[y])
    && (forall y | y in s.m.from && IsWhite(s, y) && CtiAhead(s.queue, y) :: CtiAhead(r.queue, y))
  }

  /** From `s` to `r` the young objects and the lists stay, and what is covered stays covered. */
  ghost predicate Extends(s: State, r: State) {
    && r.m == s.m && Young(r) == Young(s) && r.phase == s.phase && KeepsFreed(s, r)
    && forall w | w in s.m.from && IsWhite(s, w) && Pending(s.queue, w) :: Pending(r.queue, w)
  }

  lemma ExtendsInherited(s: State, r: State, w: nat)
    requires Extends(s, r) && Inherited(s, w)
    ensures Inherited(r, w)
  {
    hide Young;
    var y: nat, j: nat :| y in s.dead && y in s.fields && j < |s.fields[y]| && s.fields[y][j] == w && ToScan(s, y, j);
    if i: nat :| i < |s.m.scan| && s.m.scan[i] == y && y in s.fields && WordsDone(s, i) <= j {
      assert WordsDone(r, i) == WordsDone(s, i);
    }
    assert ToScan(r, y, j);
  }

  lemma ExtendsWords(s: State, r: State, ws: seq<nat>)
    requires Extends(s, r)
    ensures KnownWords(s, ws) ==> KnownWords(r, ws)
    ensures CoveredWords(s, ws) ==> CoveredWords(r, ws)
    ensures ExpectedWords(s, ws) ==> ExpectedWords(r, ws)
  {
    hide Inherited;
    forall w | Inherited(s, w)
      ensures Inherited(r, w)
    {
      ExtendsInherited(s, r, w);
    }
  }

  lemma ExtendsHolds(s: State, r: State)
    requires Extends(s, r) && r.fields == s.fields && r.locals == s.locals && Holds(s)
    ensures Holds(r)
  {
    forall t | t in r.locals ensures KnownWords(r, r.locals[t]) { ExtendsWords(s, r, s.locals[t]); }
    forall x | x in r.m.scan || x in Young(r) || (x in r.m.from && r.phase != Sweep)
      ensures x in r.fields && KnownWords(r, r.fields[x])
    {
      ExtendsWords(s, r, s.fields[x]);
    }
  }

  lemma ExtendsCovers(s: State, r: State)
    requires Extends(s, r) && r.fields == s.fields && r.locals == s.locals && r.scanned == s.scanned && Covers(s)
    ensures Covers(r)
  {
    hide CoveredWords, ExpectedWords;
    forall t | t in r.locals ensures CoveredWords(s, r.locals[t]) ==> CoveredWords(r, r.locals[t]) { ExtendsWords(s, r, r.locals[t]); }
    forall x | x in r.fields ensures ExpectedWords(s, r.fields[x]) ==> ExpectedWords(r, r.fields[x]) { ExtendsWords(s, r, r.fields[x]); }
    forall i {:trigger s.m.scan[i]} | 0 <= i < |s.m.scan|
      ensures r.m.scan[i] in r.fields && ExpectedWords(r, r.fields[r.m.scan[i]][..WordsDone(r, i)])
    {
      ExtendsWords(s, r, s.fields[s.m.scan[i]][..WordsDone(s, i)]);
    }
  }

  lemma ExtendsRest(s: State, r: State)
    requires Extends(s, r) && r.fields.Keys == s.fields.Keys && r.locals.Keys == s.locals.Keys && r.scanned == s.scanned
    requires s.dead <= r.dead && Lists(s) && Position(s) && Colors(s)
    ensures Lists(r) && Position(r) && Colors(r)
  {
    hide NoDup, NewIds;
  }

  lemma SendMessages(s: State, msg: Message)
    requires Messages(s) && Placed(s, msg.x) && (msg.Freed? ==> msg.x in s.dead) && (msg.Cti? ==> OnLists(s, msg.x))
    requires s.phase == Sweep || s.phase == Idle ==> !msg.Cti? && msg.x !in s.m.from
    requires Young(s.(queue := s.queue + [msg])) == Young(s)
    ensures Messages(s.(queue := s.queue + [msg]))
  {
    hide NewIds, Young;
  }

  /** Sending a message about a placed object. */
  lemma SendKeeps(s: State, msg: Message)
    requires Invariant(s) && !msg.New? && Placed(s, msg.x) && (msg.Freed? ==> msg.x in s.dead) && (msg.Cti? ==> OnLists(s, msg.x))
    requires s.phase == Sweep || s.phase == Idle ==> !msg.Cti? && msg.x !in s.m.from
    ensures Invariant(s.(queue := s.queue + [msg]))
  {
    hide NoDup, Holds, Covers, Lists, Position, Colors, Messages, NewIds, Placed;
    var r := s.(queue := s.queue + [msg]);
    NewIdsAppend(s.queue, msg);
    forall x ensures Pending(s.queue, x) ==> Pending(r.queue, x) { PendingMore(s.queue, msg, x); }
    forall x ensures CtiAhead(s.queue, x) ==> CtiAhead(r.queue, x) {
      if CtiAhead(s.queue, x) { CtiAheadMore(s.queue, msg, x); }
    }
    assert Young(r) == Young(s);
    ExtendsRest(s, r);
    SendMessages(s, msg);
    ExtendsHolds(s, r);
    ExtendsCovers(s, r);
  }

  lemma ExtendsMessages(s: State, r: State)
    requires Extends(s, r) && r.queue == s.queue && s.dead <= r.dead && Messages(s)
    ensures Messages(r)
  {
    hide NewIds, Young;
  }

  lemma LocalsHold(s: State, r: State, t: nat, ws: seq<nat>)
    requires Extends(s, r) && r.fields == s.fields && t in s.locals && r.locals == s.locals[t := ws]
    requires Holds(s) && KnownWords(s, ws)
    ensures Holds(r)
  {
    forall u | u in r.locals ensures KnownWords(r, r.locals[u]) { ExtendsWords(s, r, r.locals[u]); }
    forall x | x in r.m.scan || x in Young(r) || (x in r.m.from && r.phase != Sweep)
      ensures x in r.fields && KnownWords(r, r.fields[x])
    {
      ExtendsWords(s, r, s.fields[x]);
    }
  }

  lemma LocalsCover(s: State, r: State, t: nat, ws: seq<nat>)
    requires Extends(s, r) && r.fields == s.fields && r.scanned == s.scanned && t in s.locals && r.locals == s.locals[t := ws]
    requires Covers(s) && (StackDone(s, t) ==> CoveredWords(s, ws))
    ensures Covers(r)
  {
    forall x: seq<nat> ensures CoveredWords(s, x) ==> CoveredWords(r, x) { ExtendsWords(s, r, x); }
    forall x: seq<nat> ensures ExpectedWords(s, x) ==> ExpectedWords(r, x) { ExtendsWords(s, r, x); }
    hide CoveredWords, ExpectedWords;
  }

  /** A thread's locals become `ws`. */
  lemma LocalsKeep(s: State, t: nat, ws: seq<nat>)
    requires Invariant(s) && t in s.locals && KnownWords(s, ws)
    requires StackDone(s, t) ==> CoveredWords(s, ws)
    ensures Invariant(s.(locals := s.locals[t := ws]))
  {
    hide Holds, Covers, Lists, Position, Colors, Messages, NewIds, Placed;
    var r := s.(locals := s.locals[t := ws]);
    ExtendsRest(s, r);
    ExtendsMessages(s, r);
    LocalsHold(s, r, t, ws);
    LocalsCover(s, r, t, ws);
  }

  /** Each word of `vs` is the old one or may be written to `obj`. */
  ghost predicate Writable(s: State, obj: nat, vs: seq<nat>)
    requires obj in s.fields
  {
    && |vs| == |s.fields[obj]|
    && forall i {:trigger vs[i]} :: 0 <= i < |vs| && vs[i] != s.fields[obj][i] ==>
         KnownWord(s, vs[i]) && (InLoop(s) || (s.phase == Roots && obj in Young(s)) ==> ExpectedWord(s, vs[i]))
  }

  lemma WritableWords(s: State, obj: nat, vs: seq<nat>, n: nat)
    requires obj in s.fields && Writable(s, obj, vs) && n <= |vs|
    ensures KnownWords(s, s.fields[obj]) ==> KnownWords(s, vs)
    ensures InLoop(s) || (s.phase == Roots && obj in Young(s)) ==>
      (ExpectedWords(s, s.fields[obj][..n]) ==> ExpectedWords(s, vs[..n]))
  {
    hide KnownWord, ExpectedWord, Young;
    var ws := s.fields[obj];
    assert forall i :: 0 <= i < n ==> vs[..n][i] == vs[i] && ws[..n][i] == ws[i];
  }

  lemma WrittenHolds(s: State, r: State, obj: nat, vs: seq<nat>)
    requires Extends(s, r) && r.locals == s.locals && obj in s.fields && Writable(s, obj, vs)
    requires r.fields == s.fields[obj := vs] && Holds(s)
    ensures Holds(r)
  {
    hide Writable;
    forall u | u in r.locals ensures KnownWords(r, r.locals[u]) { ExtendsWords(s, r, r.locals[u]); }
    forall x | x in r.m.scan || x in Young(r) || (x in r.m.from && r.phase != Sweep)
      ensures x in r.fields && KnownWords(r, r.fields[x])
    {
      if x == obj { WritableWords(s, obj, vs, 0); }
      ExtendsWords(s, r, r.fields[x]);
    }
  }

  lemma WrittenCovers(s: State, r: State, obj: nat, vs: seq<nat>)
    requires Extends(s, r) && r.locals == s.locals && r.scanned == s.scanned && obj in s.fields && Writable(s, obj, vs)
    requires r.fields == s.fields[obj := vs] && |vs| == |s.fields[obj]| && Covers(s)
    ensures Covers(r)
  {
    hide Writable, CoveredWords, ExpectedWords;
    forall t | t in r.locals ensures CoveredWords(s, r.locals[t]) ==> CoveredWords(r, r.locals[t]) { ExtendsWords(s, r, r.locals[t]); }
    forall x: seq<nat> ensures ExpectedWords(s, x) ==> ExpectedWords(r, x) { ExtendsWords(s, r, x); }
    forall x | x in Young(r) && (r.phase == Roots || InLoop(r))
      ensures x in r.fields && ExpectedWords(r, r.fields[x])
    {
      WritableWords(s, obj, vs, |vs|);
      assert s.fields[x][..|s.fields[x]|] == s.fields[x];
      assert r.fields[x][..|r.fields[x]|] == r.fields[x];
    }
    forall j {:trigger r.m.scan[j]} | 0 <= j < |r.m.scan|
      ensures r.m.scan[j] in r.fields && ExpectedWords(r, r.fields[r.m.scan[j]][..WordsDone(r, j)])
    {
      var x, n := s.m.scan[j], WordsDone(s, j);
      assert ExpectedWords(s, s.fields[x][..n]);
      if x == obj && InLoop(s) {
        WritableWords(s, obj, vs, n);
      } else {
        assert r.fields[x][..WordsDone(r, j)] == s.fields[x][..n];
      }
    }
  }

  /** The words of `obj`, which the program has not freed, become `vs`. */
  lemma WordsKeep(s: State, obj: nat, vs: seq<nat>)
    requires Invariant(s) && obj in s.fields && obj !in s.dead && Writable(s, obj, vs)
    ensures Invariant(s.(fields := s.fields[obj := vs]))
  {
    var r := s.(fields := s.fields[obj := vs]);
    assert |vs| == |s.fields[obj]|;
    hide Holds, Covers, Lists, Position, Colors, Messages, NewIds, Placed, Writable;
    ExtendsRest(s, r);
    ExtendsMessages(s, r);
    WrittenHolds(s, r, obj, vs);
    WrittenCovers(s, r, obj, vs);
  }

  /** The i-th word of `obj` becomes `w`. */
  lemma FieldKeeps(s: State, obj: nat, i: nat, w: nat)
    requires Invariant(s) && obj in s.fields && obj !in s.dead && i < |s.fields[obj]| && KnownWord(s, w)
    requires InLoop(s) || (s.phase == Roots && obj in Young(s)) ==> ExpectedWord(s, w)
    ensures Invariant(s.(fields := s.fields[obj := With(s.fields[obj], i, w)]))
  {
    hide Invariant, KnownWord, ExpectedWord, Young;
    WordsKeep(s, obj, With(s.fields[obj], i, w));
  }

  // ----- Mutator events -----

  /** An object that a thread may use has not been swept. */
  lemma UsablePlaced(s: State, t: nat, x: nat)
    requires Invariant(s) && CanUse(s, t, x)
    ensures Placed(s, x) && !IsRed(s, x) && (s.phase == Sweep || s.phase == Idle ==> x !in s.m.from)
    ensures KnownWords(s, s.fields[x]) && x != 0
  {
    hide NoDup, NewIds, Young;
    assert KnownWords(s, s.locals[t]);
    var i :| 0 <= i < |s.locals[t]| && s.locals[t][i] == x;
  }

  /** A WHITE object that can be found is in a list of a running cycle. */
  lemma WhitePlaced(s: State, w: nat)
    requires Invariant(s) && KnownWord(s, w) && IsWhite(s, w)
    ensures Placed(s, w) && s.phase != Sweep && s.phase != Idle && w !in Young(s) && OnLists(s, w)
  {
    hide NoDup, NewIds, Young, Holds, Covers, Messages;
    if i :| 0 <= i < |s.m.scan| && s.m.scan[i] == w {
      assert i >= Blackened(s);
    }
  }

  /** The barrier's message, if `c` says so. */
  lemma BarrierKeeps(s: State, c: bool, w: nat)
    requires Invariant(s) && KnownWord(s, w) && (c ==> IsWhite(s, w))
    ensures var r := Send(s, c, Cti(w));
      && Invariant(r) && KnownWord(r, w) && (forall x | KnownWord(s, x) :: KnownWord(r, x)) && Young(r) == Young(s)
      && (forall x | CoveredWord(s, x) :: CoveredWord(r, x)) && (c || !IsWhite(s, w) ==> CoveredWord(r, w))
  {
    hide Invariant, NewIds;
    if c {
      WhitePlaced(s, w);
      SendKeeps(s, Cti(w));
      NewIdsAppend(s.queue, Cti(w));
      forall x ensures Pending(s.queue + [Cti(w)], x) <==> Pending(s.queue, x) || x == w { PendingMore(s.queue, Cti(w), x); }
    }
  }

  lemma LocalsFacts(s: State, t: nat)
    requires Invariant(s) && t in s.locals
    ensures KnownWords(s, s.locals[t]) && (StackDone(s, t) ==> CoveredWords(s, s.locals[t]))
  {
  }

  /** A load without its message keeps the invariant exactly when the thread's stack is still
      to be scanned or the object is not one that waits unannounced. */
  lemma PlainLoadKeepsIff(s: State, t: nat, obj: nat, i: nat)
    requires Invariant(s) && CanLoad(s, t, obj, i)
    ensures Invariant(Loaded(s, t, obj, i)) <==> (StackDone(s, t) ==> CoveredWord(s, s.fields[obj][i]))
  {
    hide Invariant, NewIds, Young;
    var ws := s.locals[t] + [s.fields[obj][i]];
    UsablePlaced(s, t, obj);
    LocalsFacts(s, t);
    if StackDone(s, t) ==> CoveredWord(s, s.fields[obj][i]) {
      LocalsKeep(s, t, ws);
    }
    if Invariant(Loaded(s, t, obj, i)) && StackDone(s, t) {
      LocalsFacts(Loaded(s, t, obj, i), t);
      assert CoveredWord(Loaded(s, t, obj, i), ws[|s.locals[t]|]);
    }
  }

  lemma LoadKeeps(s: State, t: nat, obj: nat, i: nat)
    requires Invariant(s) && Enabled(s, Load(t, obj, i))
    ensures Invariant(Apply(s, Load(t, obj, i)))
  {
    hide Invariant, NewIds, Young;
    var w := s.fields[obj][i];
    UsablePlaced(s, t, obj);
    BarrierKeeps(s, IsWhite(s, w), w);
    var r := Send(s, IsWhite(s, w), Cti(w));
    LocalsFacts(r, t);
    LocalsKeep(r, t, r.locals[t] + [w]);
    assert Apply(s, Load(t, obj, i)) == r.(locals := r.locals[t := r.locals[t] + [w]]);
  }

  /** A store without its message keeps the invariant exactly when it does not put an object
      that waits unexpected into a young one before the mark loop begins. */
  lemma PlainStoreKeepsIff(s: State, t: nat, obj: nat, i: nat, w: nat)
    requires Invariant(s) && CanStore(s, t, obj, i, w)
    ensures Invariant(Written(s, obj, i, w)) <==> (s.phase == Roots && obj in Young(s) ==> ExpectedWord(s, w))
  {
    hide Invariant, NewIds, Young;
    UsablePlaced(s, t, obj);
    LocalsFacts(s, t);
    StoredKnown(s, t, obj, w);
    if s.phase == Roots && obj in Young(s) ==> ExpectedWord(s, w) {
      FieldKeeps(s, obj, i, w);
    }
    if Invariant(Written(s, obj, i, w)) && s.phase == Roots && obj in Young(s) {
      YoungCovered(s, Written(s, obj, i, w), obj, i, w);
    }
  }

  lemma YoungCovered(s: State, r: State, obj: nat, i: nat, w: nat)
    requires Invariant(r) && r.phase == Roots && obj in Young(s) && obj in s.fields && i < |s.fields[obj]|
    requires r == Written(s, obj, i, w) && obj !in s.dead
    ensures ExpectedWord(s, w)
  {
    hide NoDup, NewIds, Lists, Holds, Messages, Inherited;
    assert Young(r) == Young(s);
    assert ExpectedWord(r, r.fields[obj][i]);
    if Inherited(r, w) { ExtendsInherited(r, s, w); }
  }

  lemma StoreKeeps(s: State, t: nat, obj: nat, i: nat, w: nat)
    requires Invariant(s) && Enabled(s, Store(t, obj, i, w))
    ensures Invariant(Apply(s, Store(t, obj, i, w)))
  {
    hide Invariant, NewIds, Young;
    UsablePlaced(s, t, obj);
    LocalsFacts(s, t);
    StoredKnown(s, t, obj, w);
    BarrierKeeps(s, Barrier(s, obj, w), w);
    var r := Send(s, Barrier(s, obj, w), Cti(w));
    FieldKeeps(r, obj, i, w);
    assert Apply(s, Store(t, obj, i, w)) == Written(r, obj, i, w);
  }

  /** What a thread stores is known, and covered except when a young object gets it: then
      the object is BLACK and the barrier sends its message. */
  lemma StoredKnown(s: State, t: nat, obj: nat, w: nat)
    requires Invariant(s) && CanUse(s, t, obj) && (w == 0 || w in s.locals[t])
    ensures KnownWord(s, w) && (InLoop(s) ==> CoveredWord(s, w))
    ensures obj in Young(s) ==> obj in s.m.color && s.m.color[obj] == BLACK
  {
    hide NoDup, NewIds, Young, Messages;
    UsablePlaced(s, t, obj);
    LocalsFacts(s, t);
    if w != 0 {
      var i :| 0 <= i < |s.locals[t]| && s.locals[t][i] == w;
    }
  }

  lemma SetLocalsKeeps(s: State, t: nat, ws: seq<nat>)
    requires Invariant(s) && Enabled(s, SetLocals(t, ws))
    ensures Invariant(Apply(s, SetLocals(t, ws)))
  {
    hide Invariant, NewIds, Young;
    LocalsFacts(s, t);
    forall i {:trigger ws[i]} | 0 <= i < |ws|
      ensures KnownWord(s, ws[i]) && (CoveredWords(s, s.locals[t]) ==> CoveredWord(s, ws[i]))
    {
      assert ws[i] in ws;
      if ws[i] != 0 {
        var j :| 0 <= j < |s.locals[t]| && s.locals[t][j] == ws[i];
      } else {
        NullCovered(s);
      }
    }
    LocalsKeep(s, t, ws);
  }

  lemma NullCovered(s: State)
    requires Invariant(s)
    ensures CoveredWord(s, 0)
  {
  }

  /** This is the first free of the object, or the object was not swept and is not about to be. */
  predicate MayFree(s: State, x: nat) {
    x !in s.dead || (Placed(s, x) && (s.phase == Sweep ==> x !in s.m.from))
  }

  lemma FreeKeeps(s: State, t: nat, x: nat)
    requires Invariant(s) && Enabled(s, Free(t, x)) && MayFree(s, x)
    ensures Invariant(Apply(s, Free(t, x)))
  {
    hide Holds, Covers, Lists, Colors, Messages, NewIds, Placed;
    if x !in s.dead { UsablePlaced(s, t, x); }
    LostFreeKeeps(s, x);
    var r := s.(dead := s.dead + {x});
    assert Placed(r, x) by { SamePlaced(s, r, x); }
    SendKeeps(r, Freed(x));
  }

  // ----- The copy of a resize -----

  /** The words that are copied are not lost: the old object is announced or was reached, or no
      word of it waits unexpected. */
  ghost predicate MayResize(s: State, obj: nat, x: nat)
    requires obj in s.fields && x in s.fields
  {
    s.phase == Roots && x in Young(s) && !CoveredWord(s, obj) ==>
      forall i :: 0 <= i < |s.fields[obj]| && i < |s.fields[x]| ==>
        s.fields[obj][i] == obj || ExpectedWord(s, s.fields[obj][i])
  }

  lemma FreeingExtends(s: State, x: nat)
    ensures Extends(s, Freeing(s, x)) && Pending(Freeing(s, x).queue, x)
  {
    hide NewIds;
    NewIdsAppend(s.queue, Freed(x));
    forall w ensures Pending(s.queue + [Freed(x)], w) <==> Pending(s.queue, w) || x == w { PendingMore(s.queue, Freed(x), w); }
    forall y | CtiAhead(s.queue, y) ensures CtiAhead(s.queue + [Freed(x)], y) { CtiAheadMore(s.queue, Freed(x), y); }
  }

  lemma ExtendsExpected(s: State, r: State, w: nat)
    requires Extends(s, r) && ExpectedWord(s, w)
    ensures ExpectedWord(r, w)
  {
    hide Extends, ExpectedWord;
    ExtendsWords(s, r, [w]);
    assert ExpectedWord(r, [w][0]);
  }

  /** A word of an object that is freed, and that the collector comes to, is expected. */
  lemma FreedLeaves(s: State, t: nat, obj: nat, j: nat)
    requires Invariant(s) && CanUse(s, t, obj) && j < |s.fields[obj]| && InCycle(s) && CoveredWord(s, obj)
    ensures ExpectedWord(Freeing(s, obj), s.fields[obj][j])
  {
    hide NoDup, Holds, Extends, Young, Position;
    var r, w := Freeing(s, obj), s.fields[obj][j];
    UsablePlaced(s, t, obj);
    FreeingExtends(s, obj);
    ExtendsFrame(s, r);
    if obj in Young(s) {
      assert ExpectedWord(s, s.fields[obj][j]);
      ExtendsExpected(s, r, w);
    } else if obj in s.m.scan {
      var i: nat :| i < |s.m.scan| && s.m.scan[i] == obj;
      if j < WordsDone(s, i) {
        assert ExpectedWord(s, s.fields[obj][..WordsDone(s, i)][j]);
        ExtendsExpected(s, r, w);
      } else {
        assert WordsDone(r, i) == WordsDone(s, i);
        assert ToScan(r, obj, j);
      }
    } else {
      UnfreedAhead(s, obj);
      assert ToScan(r, obj, j);
    }
  }

  lemma ExtendsFrame(s: State, r: State)
    requires Extends(s, r)
    ensures r.m == s.m && r.phase == s.phase
    ensures forall y | y in s.m.from && IsWhite(s, y) && CtiAhead(s.queue, y) :: CtiAhead(r.queue, y)
  {
  }

  lemma UnfreedAhead(s: State, y: nat)
    requires Messages(s) && y !in s.dead && Pending(s.queue, y)
    ensures CtiAhead(s.queue, y)
  {
    hide Young;
    var i :| 0 <= i < |s.queue| && (s.queue[i] == Cti(y) || s.queue[i] == Freed(y));
    assert s.queue[i] == Cti(y) && forall j :: 0 <= j < i ==> s.queue[j] != Freed(y);
  }

  /** The copy and the free of a resize keep the invariant exactly when they may. */
  lemma ResizeKeepsIff(s: State, t: nat, obj: nat, x: nat)
    requires Invariant(s) && CanResize(s, t, obj, x)
    ensures Invariant(Freeing(Copy(s, obj, x), obj)) <==> MayResize(s, obj, x)
  {
    hide Invariant, NewIds, Young, ExpectedWord, KnownWord, CoveredWord, Pending;
    var b, vs := Freeing(s, obj), Copied(s.fields[obj], s.fields[x]);
    assert Freeing(Copy(s, obj, x), obj) == b.(fields := b.fields[x := vs]);
    FreeKeeps(s, t, obj);
    if MayResize(s, obj, x) {
      CopyWritable(s, t, obj, x);
      WordsKeep(b, x, vs);
    }
    if Invariant(Freeing(Copy(s, obj, x), obj)) {
      CopiedExpected(s, t, obj, x);
    }
  }

  lemma CopyWritable(s: State, t: nat, obj: nat, x: nat)
    requires Invariant(s) && CanResize(s, t, obj, x) && MayResize(s, obj, x)
    ensures Writable(Freeing(s, obj), x, Copied(s.fields[obj], s.fields[x]))
  {
    hide Invariant, NewIds, ExpectedWord, CoveredWord, Pending;
    var b, vs := Freeing(s, obj), Copied(s.fields[obj], s.fields[x]);
    UsablePlaced(s, t, obj);
    LocalsFacts(s, t);
    FreeingExtends(s, obj);
    forall i {:trigger vs[i]} | 0 <= i < |vs| && i < |s.fields[obj]|
      ensures KnownWord(b, vs[i]) && (InLoop(b) || (b.phase == Roots && x in Young(b)) ==> ExpectedWord(b, vs[i]))
    {
      assert KnownWord(s, s.fields[obj][i]);
      if InLoop(s) || (s.phase == Roots && x in Young(s)) {
        if CoveredWord(s, obj) {
          FreedLeaves(s, t, obj, i);
        } else if vs[i] == obj {
          PendingExpected(b, obj);
        } else {
          ExtendsExpected(s, b, vs[i]);
        }
      }
    }
  }

  lemma PendingExpected(s: State, w: nat)
    requires Pending(s.queue, w)
    ensures ExpectedWord(s, w)
  {
  }

  lemma CopiedExpected(s: State, t: nat, obj: nat, x: nat)
    requires Invariant(s) && CanResize(s, t, obj, x) && Invariant(Freeing(Copy(s, obj, x), obj))
    ensures MayResize(s, obj, x)
  {
    hide NoDup, Holds, Position, Messages, Colors, Inherited, NewIds;
    var r := Freeing(Copy(s, obj, x), obj);
    FreeingExtends(s, obj);
    assert Young(r) == Young(s);
    hide Young;
    if s.phase == Roots && x in Young(s) && !CoveredWord(s, obj) {
      forall i | 0 <= i < |s.fields[obj]| && i < |s.fields[x]|
        ensures s.fields[obj][i] == obj || ExpectedWord(s, s.fields[obj][i])
      {
        var w := s.fields[obj][i];
        assert ExpectedWord(r, r.fields[x][i]);
        PendingMore(s.queue, Freed(obj), w);
        if Inherited(r, w) { InheritedBefore(s, obj, x, w); }
      }
    }
  }

  /** The old object, which waits unannounced, is not one that the collector comes to. */
  lemma InheritedBefore(s: State, obj: nat, x: nat, w: nat)
    requires Lists(s) && obj in s.fields && x in s.fields && x !in s.dead && x != obj && s.phase == Roots && !CoveredWord(s, obj)
    requires Inherited(Freeing(Copy(s, obj, x), obj), w)
    ensures Inherited(s, w)
  {
    hide NoDup, NewIds, Young;
    var r := Freeing(Copy(s, obj, x), obj);
    var y: nat, j: nat :| y in r.dead && y in r.fields && j < |r.fields[y]| && r.fields[y][j] == w && ToScan(r, y, j);
    if CtiAhead(r.queue, y) {
      CtiAheadBefore(s.queue, obj, y);
    }
    assert y != obj && y != x;
    if i: nat :| i < |r.m.scan| && r.m.scan[i] == y && y in r.fields && WordsDone(r, i) <= j {
      assert WordsDone(s, i) == WordsDone(r, i);
    }
    assert ToScan(s, y, j);
  }

  lemma CtiAheadBefore(queue: seq<Message>, x: nat, y: nat)
    requires CtiAhead(queue + [Freed(x)], y)
    ensures CtiAhead(queue, y) && Pending(queue, y)
  {
    var q := queue + [Freed(x)];
    var i :| 0 <= i < |q| && q[i] == Cti(y) && forall j :: 0 <= j < i ==> q[j] != Freed(y);
    assert queue[i] == Cti(y) && forall j :: 0 <= j < i ==> queue[j] == q[j];
  }

  /** A FREE message may get lost. */
  lemma LostFreeKeeps(s: State, x: nat)
    requires Invariant(s)
    ensures Invariant(s.(dead := s.dead + {x}))
  {
    hide Holds, Covers, Lists, Position, Colors, Messages, NewIds, Placed;
    var r := s.(dead := s.dead + {x});
    ExtendsRest(s, r);
    ExtendsMessages(s, r);
    ExtendsHolds(s, r);
    ExtendsCovers(s, r);
  }

  lemma SamePlaced(s: State, r: State, x: nat)
    requires Extends(s, r)
    ensures Placed(r, x) <==> Placed(s, x)
  {
  }

  /** From `s` to `r` the object `x` is allocated. */
  ghost predicate GrowsBy(s: State, r: State, x: nat) {
    && r.m == s.m.(color := s.m.color[x := BLACK]) && Young(r) == Young(s) + [x] && r.phase == s.phase
    && !Placed(s, x) && x != 0 && r.queue == s.queue + [New(x)] && r.scanned == s.scanned && r.dead == s.dead - {x}
    && forall y | y in s.fields && y != x :: y in r.fields && r.fields[y] == s.fields[y]
  }

  lemma GrowsInherited(s: State, r: State, x: nat, w: nat)
    requires GrowsBy(s, r, x) && Lists(s) && Inherited(s, w)
    ensures Inherited(r, w)
  {
    hide Young, NoDup;
    var y: nat, j: nat :| y in s.dead && y in s.fields && j < |s.fields[y]| && s.fields[y][j] == w && ToScan(s, y, j);
    if i: nat :| i < |s.m.scan| && s.m.scan[i] == y && y in s.fields && WordsDone(s, i) <= j {
      assert y in s.m.scan;
      assert WordsDone(r, i) == WordsDone(s, i);
    }
    if CtiAhead(s.queue, y) { CtiAheadMore(s.queue, New(x), y); }
    assert ToScan(r, y, j);
  }

  lemma GrowsWords(s: State, r: State, x: nat, ws: seq<nat>)
    requires GrowsBy(s, r, x) && Lists(s)
    ensures KnownWords(s, ws) ==> KnownWords(r, ws)
    ensures CoveredWords(s, ws) ==> CoveredWords(r, ws)
    ensures ExpectedWords(s, ws) ==> ExpectedWords(r, ws)
  {
    hide NoDup, NewIds, Young, Inherited;
    assert forall w | CoveredWord(s, w) :: CoveredWord(r, w) by {
      forall w ensures Pending(r.queue, w) <==> Pending(s.queue, w) { PendingMore(s.queue, New(x), w); }
    }
    forall w | Inherited(s, w)
      ensures Inherited(r, w)
    {
      GrowsInherited(s, r, x, w);
    }
  }

  lemma GrowsLists(s: State, r: State, x: nat, n: nat)
    requires GrowsBy(s, r, x) && Lists(s) && r.fields == s.fields[x := Nulls(n)] && r.locals.Keys == s.locals.Keys
    ensures Lists(r)
  {
    hide NewIds, Young;
    NoDupConcat(Young(s), [x]);
  }

  lemma GrowsMessages(s: State, r: State, x: nat)
    requires GrowsBy(s, r, x) && Messages(s) && Lists(s)
    ensures Messages(r)
  {
    hide NewIds, Young, NoDup;
    assert x in Young(s) + [x];
  }

  lemma GrowsHolds(s: State, r: State, x: nat, t: nat, n: nat)
    requires GrowsBy(s, r, x) && Lists(s) && Holds(s) && t in s.locals
    requires r.fields == s.fields[x := Nulls(n)] && r.locals == s.locals[t := s.locals[t] + [x]]
    ensures Holds(r)
  {
    hide NewIds, Young, NoDup;
    forall u | u in r.locals
      ensures KnownWords(r, r.locals[u])
    {
      GrowsWords(s, r, x, s.locals[u]);
      assert x in Young(s) + [x];
    }
    forall y | y in r.m.scan || y in Young(r) || (y in r.m.from && r.phase != Sweep)
      ensures y in r.fields && KnownWords(r, r.fields[y])
    {
      if y != x { GrowsWords(s, r, x, s.fields[y]); }
    }
  }

  lemma GrowsCovers(s: State, r: State, x: nat, t: nat, n: nat)
    requires GrowsBy(s, r, x) && Lists(s) && Covers(s) && t in s.locals
    requires r.fields == s.fields[x := Nulls(n)] && r.locals == s.locals[t := s.locals[t] + [x]]
    ensures Covers(r)
  {
    hide NewIds, Young, NoDup;
    forall u | u in r.locals && StackDone(r, u)
      ensures CoveredWords(r, r.locals[u])
    {
      GrowsWords(s, r, x, s.locals[u]);
      assert CoveredWord(r, x);
    }
    hide Inherited;
    forall y | y in Young(r) && (r.phase == Roots || InLoop(r))
      ensures y in r.fields && ExpectedWords(r, r.fields[y])
    {
      assert CoveredWord(r, 0);
      if y != x { GrowsWords(s, r, x, s.fields[y]); }
    }
    forall i {:trigger r.m.scan[i]} | 0 <= i < |r.m.scan|
      ensures r.m.scan[i] in r.fields && ExpectedWords(r, r.fields[r.m.scan[i]][..WordsDone(r, i)])
    {
      GrowsWords(s, r, x, s.fields[s.m.scan[i]][..WordsDone(s, i)]);
    }
  }

  lemma AllocKeeps(s: State, t: nat, x: nat, n: nat)
    requires Invariant(s) && Enabled(s, Alloc(t, x, n))
    ensures Invariant(Apply(s, Alloc(t, x, n)))
  {
    hide Holds, Covers, Messages, NewIds, NoDup;
    var r := Apply(s, Alloc(t, x, n));
    NewIdsAppend(s.queue, New(x));
    assert Young(r) == Young(s) + [x];
    GrowsLists(s, r, x, n);
    GrowsMessages(s, r, x);
    GrowsHolds(s, r, x, t, n);
    GrowsCovers(s, r, x, t, n);
  }

  // ----- Collector events -----

  /** What the collector may do to the lists and the colours while it marks: objects only
      leave the from list, for the scan list, and freed objects turn RED. */
  ghost predicate Progress(s: State, r: State) {
    && NoDup(r.m.from) && NoDup(r.m.scan) && (forall x | x in r.m.scan :: x !in r.m.from)
    && (forall x | x in r.m.from :: x in s.m.from) && (forall x | x in s.m.scan :: x in r.m.scan)
    && (forall x | x in s.m.from :: OnLists(r, x)) && (forall x | x in r.m.scan :: OnLists(s, x))
    && r.m.color.Keys == s.m.color.Keys
    && (forall x | IsRed(r, x) :: IsRed(s, x) || x in s.dead)
    && (forall x | IsRed(s, x) :: IsRed(r, x) || x in r.m.scan)
    && (forall x | x in r.m.color && (x in r.m.from || !OnLists(s, x)) :: r.m.color[x] == s.m.color[x] || r.m.color[x] == RED)
    && Young(r) == Young(s) && r.fields == s.fields && r.locals == s.locals && r.dead == s.dead
    && r.scanned <= r.locals.Keys && Consumes(s, r)
    && (forall y | y in r.m.from && IsWhite(s, y) && CtiAhead(s.queue, y) :: IsWhite(r, y) && CtiAhead(r.queue, y))
    && (r.phase == Sweep <==> s.phase == Sweep) && (r.phase == Idle <==> s.phase == Idle)
    && (s.phase == Sweep ==> r.m.scan == s.m.scan)
  }

  /** Messages only go, and a CTI only when it has become pointless. */
  ghost predicate Consumes(s: State, r: State) {
    && (forall i {:trigger r.queue[i]} :: 0 <= i < |r.queue| ==> r.queue[i] in s.queue)
    && (forall w | w in r.m.from && IsWhite(r, w) && Pending(s.queue, w) :: Pending(r.queue, w))
  }

  lemma ProgressWords(s: State, r: State, ws: seq<nat>)
    requires Progress(s, r) && Lists(s)
    ensures KnownWords(s, ws) ==> KnownWords(r, ws)
    ensures CoveredWords(s, ws) ==> CoveredWords(r, ws)
  {
    hide NoDup, NewIds, Young;
  }

  lemma ProgressLists(s: State, r: State)
    requires Progress(s, r) && Lists(s) && Colors(s)
    ensures Lists(r) && Colors(r)
  {
    hide NewIds, Young, NoDup;
  }

  lemma ProgressMessages(s: State, r: State)
    requires Progress(s, r) && Messages(s)
    ensures Messages(r)
  {
    hide NewIds, Young, NoDup;
    forall i | 0 <= i < |r.queue|
      ensures Placed(r, r.queue[i].x) && (r.queue[i].Freed? ==> r.queue[i].x in r.dead)
      ensures r.queue[i].Cti? ==> OnLists(r, r.queue[i].x)
      ensures r.phase == Sweep || r.phase == Idle ==> !r.queue[i].Cti? && r.queue[i].x !in r.m.from
    {
      var j :| 0 <= j < |s.queue| && s.queue[j] == r.queue[i];
      assert Placed(s, s.queue[j].x);
    }
  }

  lemma ProgressHolds(s: State, r: State)
    requires Progress(s, r) && Lists(s) && Holds(s)
    ensures Holds(r)
  {
    hide NewIds, Young, NoDup;
    forall t | t in r.locals ensures KnownWords(r, r.locals[t]) { ProgressWords(s, r, s.locals[t]); }
    forall x | x in r.m.scan || x in Young(r) || (x in r.m.from && r.phase != Sweep)
      ensures x in r.fields && KnownWords(r, r.fields[x])
    {
      ProgressWords(s, r, s.fields[x]);
    }
  }

  /** What was scanned of the i-th object before is still the i-th object's. */
  ghost predicate KeptDone(s: State, r: State, i: nat) {
    && i < |r.m.scan| && r.m.scan[i] in r.fields && r.m.scan[i] in s.fields
    && (WordsDone(r, i) == 0 || (i < |s.m.scan| && s.m.scan[i] == r.m.scan[i] && WordsDone(r, i) <= WordsDone(s, i)))
  }

  ghost predicate SameDone(s: State, r: State) {
    forall i: nat {:trigger KeptDone(s, r, i)} {:trigger r.m.scan[i]} :: i < |r.m.scan| ==> KeptDone(s, r, i)
  }

  lemma ProgressInherited(s: State, r: State, w: nat)
    requires Progress(s, r) && Lists(s) && SameDone(s, r) && Inherited(s, w)
    ensures Inherited(r, w)
  {
    hide NewIds, Young;
    var y: nat, j: nat :| y in s.dead && y in s.fields && j < |s.fields[y]| && s.fields[y][j] == w && ToScan(s, y, j);
    if y in r.m.scan {
      var i: nat :| i < |r.m.scan| && r.m.scan[i] == y;
      assert KeptDone(s, r, i);
      if WordsDone(r, i) != 0 {
        assert s.m.scan[i] == y && y in s.m.scan;
      }
      assert WordsDone(r, i) <= j;
    }
    assert ToScan(r, y, j);
  }

  lemma ProgressExpected(s: State, r: State, ws: seq<nat>)
    requires Progress(s, r) && Lists(s) && SameDone(s, r)
    ensures ExpectedWords(s, ws) ==> ExpectedWords(r, ws)
  {
    hide Inherited, Progress, SameDone, Lists, CoveredWord;
    if ExpectedWords(s, ws) {
      forall i {:trigger ws[i]} | 0 <= i < |ws|
        ensures ExpectedWord(r, ws[i])
      {
        if CoveredWord(s, ws[i]) {
          ProgressWords(s, r, [ws[i]]);
          assert CoveredWord(r, [ws[i]][0]);
        } else {
          ProgressInherited(s, r, ws[i]);
        }
      }
    }
  }

  lemma ProgressCovers(s: State, r: State)
    requires Progress(s, r) && Lists(s) && Covers(s) && Lists(r) && (InLoop(r) <==> InLoop(s)) && r.scanned == s.scanned
    requires forall i {:trigger s.m.scan[i]} :: 0 <= i < |s.m.scan| ==> s.m.scan[i] in s.fields
    requires SameDone(s, r)
    ensures Covers(r)
  {
    hide NewIds, Young, NoDup, ExpectedWords, CoveredWords;
    forall t | t in r.locals && StackDone(r, t)
      ensures CoveredWords(r, r.locals[t])
    {
      ProgressWords(s, r, s.locals[t]);
    }
    forall x | x in Young(r) && InCycle(r)
      ensures x in r.fields && ExpectedWords(r, r.fields[x])
    {
      ProgressExpected(s, r, s.fields[x]);
    }
    forall i {:trigger r.m.scan[i]} | 0 <= i < |r.m.scan|
      ensures r.m.scan[i] in r.fields && ExpectedWords(r, r.fields[r.m.scan[i]][..WordsDone(r, i)])
    {
      assert KeptDone(s, r, i);
      if WordsDone(r, i) != 0 {
        ExpectedPrefix(s, s.fields[s.m.scan[i]], WordsDone(r, i), WordsDone(s, i));
        ProgressExpected(s, r, s.fields[s.m.scan[i]][..WordsDone(r, i)]);
      } else {
        ExpectedPrefix(r, r.fields[r.m.scan[i]], 0, 0);
      }
    }
  }

  lemma ExpectedPrefix(s: State, ws: seq<nat>, i: nat, n: nat)
    requires i <= n <= |ws| && (ExpectedWords(s, ws[..n]) || i == 0)
    ensures ExpectedWords(s, ws[..i])
  {
    hide ExpectedWord;
    assert forall j :: 0 <= j < i ==> ws[..i][j] == ws[..n][j];
  }

  /** Moving `x` to the end of the scan list, past the first `k` objects. */
  lemma MoveFacts(m: Marking<nat>, x: nat, k: nat)
    requires NoDup(m.from) && NoDup(m.scan) && (forall y | y in m.scan :: y !in m.from)
    requires k <= |m.scan| && x !in m.scan[..k]
    ensures var n := MoveToScan(m, x);
      && NoDup(n.from) && NoDup(n.scan) && (forall y | y in n.scan :: y !in n.from)
      && (forall y :: y in n.from <==> y in m.from && y != x) && (forall y :: y in n.scan <==> y in m.scan || y == x)
      && k < |n.scan| && n.scan[..k] == m.scan[..k]
  {
    WithoutNoDup(m.from, x);
    WithoutNoDup(m.scan, x);
    MovePrefix(m, k, x);
    var n := MoveToScan(m, x);
    forall y
      ensures y in n.scan <==> y in m.scan || y == x
    {
      assert y in n.scan <==> y in Without(m.scan, x) || y == x;
    }
  }

  lemma NotBlackened(s: State, x: nat)
    requires Position(s) && IsWhite(s, x)
    ensures x !in s.m.scan[..Blackened(s)]
  {
    var p := s.m.scan[..Blackened(s)];
    forall i | 0 <= i < |p|
      ensures p[i] != x
    {
      assert p[i] == s.m.scan[i];
    }
  }

  /** Progress that keeps the position of the mark loop, or moves it by one. */
  lemma ProgressKeeps(s: State, r: State)
    requires Invariant(s) && Progress(s, r) && Position(r) && (InLoop(r) <==> InLoop(s)) && r.scanned == s.scanned
    requires SameDone(s, r)
    ensures Invariant(r)
  {
    hide NoDup, NewIds, Young, Holds, Covers, Progress, Position, SameDone, Messages;
    ProgressLists(s, r);
    ProgressMessages(s, r);
    ProgressHolds(s, r);
    ScanInFields(s);
    ProgressCovers(s, r);
  }

  lemma ScanInFields(s: State)
    requires Covers(s)
    ensures forall i {:trigger s.m.scan[i]} :: 0 <= i < |s.m.scan| ==> s.m.scan[i] in s.fields
  {
  }

  /** Progress of the lists and colours alone. */
  lemma MarkingProgress(s: State, r: State)
    requires Lists(s) && Colors(s) && r == s.(m := r.m, phase := r.phase)
    requires (r.phase == Sweep <==> s.phase == Sweep) && (r.phase == Idle <==> s.phase == Idle) && s.phase != Sweep
    requires NoDup(r.m.from) && NoDup(r.m.scan) && (forall x | x in r.m.scan :: x !in r.m.from)
    requires (forall x | x in r.m.from :: x in s.m.from) && (forall x | x in s.m.scan :: x in r.m.scan)
    requires (forall x | x in s.m.from :: OnLists(r, x)) && (forall x | x in r.m.scan :: OnLists(s, x))
    requires r.m.color.Keys == s.m.color.Keys
    requires forall x | x in s.m.color && x !in r.m.scan :: r.m.color[x] == s.m.color[x]
    requires forall x | IsRed(r, x) :: IsRed(s, x)
    ensures Progress(s, r)
  {
    hide NewIds, NoDup;
    assert Consumes(s, r);
    assert Young(r) == Young(s);
  }

  lemma BlackenNextKeeps(s: State)
    requires Invariant(s) && Enabled(s, BlackenNext)
    ensures Invariant(Apply(s, BlackenNext))
  {
    hide NoDup, NewIds, Holds, Messages, CoveredWords, Progress;
    var r := Apply(s, BlackenNext);
    MarkingProgress(s, r);
    hide Young, Colors, Lists;
    ScanInFields(s);
    ProgressKeeps(s, r);
  }

  /** The referee of a word goes to the end of the scan list, and `cur` turns GRAY. */
  lemma RefereeKeeps(s: State, w: nat)
    requires Invariant(s) && s.phase.Words? && IsWhite(s, w) && KnownWord(s, w)
    ensures Invariant(s.(m := ScanRef(s.m, s.m.scan[s.phase.k], w)))
    ensures ScanRef(s.m, s.m.scan[s.phase.k], w).scan[..s.phase.k + 1] == s.m.scan[..s.phase.k + 1]
  {
    hide NoDup, NewIds, Holds, Messages, CoveredWords, Progress, MoveToScan;
    var k, r := s.phase.k, s.(m := ScanRef(s.m, s.m.scan[s.phase.k], w));
    WhitePlaced(s, w);
    NotBlackened(s, w);
    MoveFacts(s.m.(color := s.m.color[s.m.scan[k] := GRAY]), w, k + 1);
    RefereeProgress(s, r, k, w);
    MovedColor(s.m.(color := s.m.color[s.m.scan[k] := GRAY]), w);
    hide Young, Colors, Lists;
    ScanInFields(s);
    MovedPosition(s, r, k + 1, s.m.scan[k]);
    ProgressKeeps(s, r);
  }

  lemma RefereeProgress(s: State, r: State, k: nat, w: nat)
    requires Lists(s) && Colors(s) && s.phase.Words? && s.phase.k == k && k < |s.m.scan|
    requires IsWhite(s, w) && OnLists(s, w) && r == s.(m := ScanRef(s.m, s.m.scan[k], w)) && w !in s.m.scan[..k + 1]
    ensures Progress(s, r)
  {
    hide NewIds, Progress, MoveToScan;
    MoveFacts(s.m.(color := s.m.color[s.m.scan[k] := GRAY]), w, k + 1);
    MovedColor(s.m.(color := s.m.color[s.m.scan[k] := GRAY]), w);
    assert s.m.scan[k] in s.m.scan;
    hide NoDup, Young;
    MarkingProgress(s, r);
  }

  lemma MovedColor(m: Marking<nat>, x: nat)
    ensures MoveToScan(m, x).color == m.color
  {
  }

  /** The blackened part of the scan list is the same, except that an object may be GRAY. */
  lemma MovedPosition(s: State, r: State, n: nat, y: nat)
    requires Position(s) && InLoop(s) && !s.phase.Blacken? && Blackened(s) == n && r.phase == s.phase && r.fields == s.fields
    requires n <= |r.m.scan| && r.m.scan[..n] == s.m.scan[..n]
    requires r.m.color == s.m.color[y := GRAY] || r.m.color == s.m.color
    requires forall x | x in r.m.scan :: x in s.fields
    requires forall i {:trigger s.m.scan[i]} :: 0 <= i < |s.m.scan| ==> s.m.scan[i] in s.fields
    ensures Position(r) && SameDone(s, r)
  {
    forall i | 0 <= i < n
      ensures r.m.scan[i] == s.m.scan[i] && !IsWhite(r, r.m.scan[i])
    {
      assert r.m.scan[i] == r.m.scan[..n][i] == s.m.scan[..n][i];
      assert !IsWhite(s, s.m.scan[i]);
    }
    forall i: nat {:trigger KeptDone(s, r, i)} | i < |r.m.scan|
      ensures KeptDone(s, r, i)
    {
      assert r.m.scan[i] in r.m.scan;
      if i < n { DoneAlike(s, r, i); }
    }
  }

  lemma DoneAlike(s: State, r: State, i: nat)
    requires i < |s.m.scan| && i < |r.m.scan| && r.m.scan[i] == s.m.scan[i] && s.m.scan[i] in s.fields
    requires r.fields == s.fields && r.phase == s.phase
    ensures WordsDone(r, i) == WordsDone(s, i)
  {
  }

  /** From `s` to `r` only the phase and the scanned threads differ. */
  ghost predicate Rephased(s: State, r: State) {
    r == s.(phase := r.phase, scanned := r.scanned) && r.scanned <= r.locals.Keys && Young(r) == Young(s)
  }

  lemma RephasedLists(s: State, r: State)
    requires Rephased(s, r) && Lists(s) && Colors(s)
    ensures Lists(r) && Colors(r)
  {
    hide NoDup, NewIds, Young;
  }

  lemma RephasedMessages(s: State, r: State)
    requires Rephased(s, r) && Messages(s)
    requires r.phase == Sweep || r.phase == Idle ==> s.phase == Sweep || s.phase == Idle
    ensures Messages(r)
  {
    hide NewIds, Young;
  }

  lemma RephasedHolds(s: State, r: State)
    requires Rephased(s, r) && Holds(s) && (s.phase == Sweep ==> r.phase == Sweep || s.m.from == []) && r.phase != Sweep
    ensures Holds(r)
  {
    hide NewIds, Young;
    assert forall w | KnownWord(s, w) :: KnownWord(r, w);
    assert forall ws: seq<nat> | KnownWords(s, ws) :: KnownWords(r, ws);
    hide KnownWords, KnownWord;
  }

  lemma RephasedCovered(s: State, r: State)
    requires Rephased(s, r)
    ensures forall ws: seq<nat> | CoveredWords(s, ws) :: CoveredWords(r, ws)
  {
  }

  /** A change of phase that leaves as many words scanned. */
  lemma RephasedExpected(s: State, r: State)
    requires r == s.(phase := r.phase, scanned := r.scanned)
    requires forall i {:trigger s.m.scan[i]} :: 0 <= i < |s.m.scan| && s.m.scan[i] in s.fields ==> WordsDone(r, i) == WordsDone(s, i)
    ensures forall w | ExpectedWord(s, w) :: ExpectedWord(r, w)
  {
    hide Young, WordsDone;
    forall y: nat, j: nat | ToScan(s, y, j)
      ensures ToScan(r, y, j)
    {
    }
  }

  lemma ExpectedAlike(s: State, r: State)
    requires forall w | ExpectedWord(s, w) :: ExpectedWord(r, w)
    ensures forall ws: seq<nat> | ExpectedWords(s, ws) :: ExpectedWords(r, ws)
  {
    hide ExpectedWord;
  }

  /** A change of phase inside the mark loop. */
  lemma PhaseKeeps(s: State, ph: Phase)
    requires Invariant(s) && InLoop(s) && InLoop(s.(phase := ph)) && Blackened(s.(phase := ph)) == Blackened(s)
    requires ph.Blacken? ==> ph.k < |s.m.scan|
    requires forall w | ExpectedWord(s, w) :: ExpectedWord(s.(phase := ph), w)
    requires forall i {:trigger s.m.scan[i]} :: 0 <= i < |s.m.scan| ==>
      s.m.scan[i] in s.fields && ExpectedWords(s, s.fields[s.m.scan[i]][..WordsDone(s.(phase := ph), i)])
    ensures Invariant(s.(phase := ph))
  {
    var r := s.(phase := ph);
    ExpectedAlike(s, r);
    hide NoDup, NewIds, KnownWords, CoveredWords, ExpectedWords, Holds, Messages, Colors;
    RephasedLists(s, r);
    RephasedMessages(s, r);
    RephasedHolds(s, r);
    RephasedCovered(s, r);
  }

  /** The word at hand is behind the collector now. */
  lemma WordDoneKeeps(s: State)
    requires Invariant(s) && s.phase.Words? && s.phase.j < |s.fields[s.m.scan[s.phase.k]]|
    requires CoveredWord(s, s.fields[s.m.scan[s.phase.k]][s.phase.j])
    ensures Invariant(s.(phase := Words(s.phase.k, s.phase.j + 1)))
  {
    hide Lists, Colors, Messages, Holds, CoveredWord, NewIds, Inherited;
    var k, j, r := s.phase.k, s.phase.j, s.(phase := Words(s.phase.k, s.phase.j + 1));
    forall i {:trigger s.m.scan[i]} | 0 <= i < |s.m.scan|
      ensures ExpectedWords(s, s.fields[s.m.scan[i]][..WordsDone(r, i)])
    {
      var ws := s.fields[s.m.scan[i]];
      assert ExpectedWords(s, ws[..WordsDone(s, i)]);
      if i == k {
        assert ws[..j + 1] == ws[..j] + [ws[j]];
      }
    }
    WordDoneExpected(s);
    PhaseKeeps(s, r.phase);
  }

  lemma WordDoneExpected(s: State)
    requires s.phase.Words? && s.phase.k < |s.m.scan| && s.m.scan[s.phase.k] in s.fields
    requires s.phase.j < |s.fields[s.m.scan[s.phase.k]]| && CoveredWord(s, s.fields[s.m.scan[s.phase.k]][s.phase.j])
    ensures forall w | ExpectedWord(s, w) :: ExpectedWord(s.(phase := Words(s.phase.k, s.phase.j + 1)), w)
  {
    hide NewIds;
    var k, r := s.phase.k, s.(phase := Words(s.phase.k, s.phase.j + 1));
    forall w | ExpectedWord(s, w)
      ensures ExpectedWord(r, w)
    {
      if !CoveredWord(s, w) {
        var y: nat, j: nat :| y in s.dead && y in s.fields && j < |s.fields[y]| && s.fields[y][j] == w && ToScan(s, y, j);
        if i: nat :| i < |s.m.scan| && s.m.scan[i] == y && y in s.fields && WordsDone(s, i) <= j {
          assert WordsDone(r, i) == if i == k then s.phase.j + 1 else WordsDone(s, i);
        }
        assert ToScan(r, y, j);
      }
    }
  }

  lemma ScanWordKeeps(s: State)
    requires Invariant(s) && Enabled(s, ScanWord)
    ensures Invariant(Apply(s, ScanWord))
  {
    hide Lists, Colors, Messages, NewIds, Placed, CoveredWords, MoveToScan, Young;
    var k, j, cur := s.phase.k, s.phase.j, s.m.scan[s.phase.k];
    if j < |s.fields[cur]| {
      var w := s.fields[cur][j];
      assert cur in s.m.scan && KnownWords(s, s.fields[cur]);
      if IsWhite(s, w) {
        RefereeKeeps(s, w);
        var r := s.(m := ScanRef(s.m, cur, w));
        assert r.m.scan[k] == r.m.scan[..k + 1][k] == s.m.scan[..k + 1][k] == cur;
        RefereeCovered(s.m.(color := s.m.color[cur := GRAY]), w);
        WordDoneKeeps(r);
      } else {
        WordDoneKeeps(s);
      }
    } else {
      ScanInFields(s);
      DrainExpected(s, k);
      PhaseKeeps(s, Drain(k));
    }
  }

  lemma DrainExpected(s: State, k: nat)
    requires s.phase.Words? && s.phase.k == k
    requires k < |s.m.scan| && s.m.scan[k] in s.fields && s.phase.j >= |s.fields[s.m.scan[k]]|
    ensures forall w | ExpectedWord(s, w) :: ExpectedWord(s.(phase := Drain(k)), w)
  {
    hide NewIds, ExpectedWord;
    var r := s.(phase := Drain(k));
    RephasedExpected(s, r);
  }

  lemma RefereeCovered(m: Marking<nat>, w: nat)
    ensures w !in MoveToScan(m, w).from
  {
  }

  lemma HasCtiHead(queue: seq<Message>, w: nat)
    requires queue != []
    ensures HasCti(queue, w) <==> queue[0] == Cti(w) || HasCti(queue[1..], w)
  {
    if i :| 0 <= i < |queue| && queue[i] == Cti(w) {
      assert i > 0 ==> queue[1..][i - 1] == Cti(w);
    }
    if i :| 0 <= i < |queue[1..]| && queue[1..][i] == Cti(w) {
      assert queue[i + 1] == Cti(w);
    }
  }

  lemma PendingHead(queue: seq<Message>, w: nat)
    requires queue != []
    ensures Pending(queue, w) <==> queue[0] == Cti(w) || queue[0] == Freed(w) || Pending(queue[1..], w)
  {
    if i :| 0 <= i < |queue| && (queue[i] == Cti(w) || queue[i] == Freed(w)) {
      assert i > 0 ==> queue[1..][i - 1] == queue[i];
    }
    if i :| 0 <= i < |queue[1..]| && (queue[1..][i] == Cti(w) || queue[1..][i] == Freed(w)) {
      assert queue[i + 1] == queue[1..][i];
    }
  }

  lemma CtiAheadTail(queue: seq<Message>, y: nat)
    requires queue != [] && CtiAhead(queue, y)
    ensures queue[0] != Freed(y) && (queue[0] == Cti(y) || CtiAhead(queue[1..], y))
  {
    var i :| 0 <= i < |queue| && queue[i] == Cti(y) && forall j :: 0 <= j < i ==> queue[j] != Freed(y);
    if i > 0 {
      assert queue[1..][i - 1] == Cti(y);
    }
  }

  lemma QueueTail(queue: seq<Message>)
    requires queue != []
    ensures forall i {:trigger queue[1..][i]} :: 0 <= i < |queue| - 1 ==> queue[1..][i] in queue && queue[1..][i] == queue[i + 1]
    ensures forall w :: HasCti(queue, w) <==> queue[0] == Cti(w) || HasCti(queue[1..], w)
    ensures forall w :: Pending(queue, w) <==> queue[0] == Cti(w) || queue[0] == Freed(w) || Pending(queue[1..], w)
    ensures forall y | CtiAhead(queue, y) :: queue[0] != Freed(y) && (queue[0] == Cti(y) || CtiAhead(queue[1..], y))
    ensures NewIds(queue) == (if queue[0].New? then [queue[0].x] else []) + NewIds(queue[1..])
  {
    forall w ensures Pending(queue, w) <==> queue[0] == Cti(w) || queue[0] == Freed(w) || Pending(queue[1..], w) {
      PendingHead(queue, w);
    }
    forall y | CtiAhead(queue, y) ensures queue[0] != Freed(y) && (queue[0] == Cti(y) || CtiAhead(queue[1..], y)) {
      CtiAheadTail(queue, y);
    }
    forall w ensures HasCti(queue, w) <==> queue[0] == Cti(w) || HasCti(queue[1..], w) { HasCtiHead(queue, w); }
  }

  /** The first message goes; it is not a NEW, and it is not needed any more. */
  lemma TailKeeps(s: State)
    requires Invariant(s) && s.queue != [] && !s.queue[0].New?
    requires s.queue[0].x !in s.m.from || !IsWhite(s, s.queue[0].x)
    ensures Invariant(s.(queue := s.queue[1..]))
  {
    hide Holds, Covers, Lists, Position, Colors, NewIds, Placed;
    var r := s.(queue := s.queue[1..]);
    QueueTail(s.queue);
    assert Young(r) == Young(s);
    ExtendsRest(s, r);
    ExtendsHolds(s, r);
    ExtendsCovers(s, r);
    TailMessages(s, r);
  }

  lemma HandleNewKeeps(s: State)
    requires Invariant(s) && s.queue != [] && s.queue[0].New?
    ensures Invariant(HandleOne(s))
  {
    hide Holds, Covers, Lists, Position, Colors, NewIds, Placed;
    var r := HandleOne(s);
    QueueTail(s.queue);
    assert Young(r) == Young(s);
    ExtendsRest(s, r);
    ExtendsHolds(s, r);
    ExtendsCovers(s, r);
    TailMessages(s, r);
  }

  lemma TailMessages(s: State, r: State)
    requires Extends(s, r) && s.dead <= r.dead && Messages(s)
    requires forall i {:trigger r.queue[i]} :: 0 <= i < |r.queue| ==> r.queue[i] in s.queue
    ensures Messages(r)
  {
    hide NewIds, Young, NoDup;
    forall i | 0 <= i < |r.queue|
      ensures Placed(r, r.queue[i].x) && (r.queue[i].Freed? ==> r.queue[i].x in r.dead)
      ensures r.queue[i].Cti? ==> OnLists(r, r.queue[i].x)
      ensures r.phase == Sweep || r.phase == Idle ==> !r.queue[i].Cti? && r.queue[i].x !in r.m.from
    {
      var j :| 0 <= j < |s.queue| && s.queue[j] == r.queue[i];
      assert Placed(s, s.queue[j].x);
    }
  }

  /** A WHITE object moves to the end of the scan list, its colour unchanged. */
  lemma MoveKeeps(s: State, x: nat)
    requires Invariant(s) && s.phase.Drain? && IsWhite(s, x) && OnLists(s, x)
    ensures Invariant(s.(m := MoveToScan(s.m, x)))
  {
    hide NoDup, NewIds, Holds, Messages, CoveredWords, Progress, MoveToScan;
    var n, r := Blackened(s), s.(m := MoveToScan(s.m, x));
    NotBlackened(s, x);
    MoveFacts(s.m, x, n);
    MovedColor(s.m, x);
    MarkingProgress(s, r);
    hide Young, Colors, Lists;
    ScanInFields(s);
    MovedPosition(s, r, n, x);
    ProgressKeeps(s, r);
  }

  /** A freed object turns RED. */
  lemma RedKeeps(s: State, x: nat)
    requires Invariant(s) && Placed(s, x) && x in s.dead && !CtiAhead(s.queue, x)
    ensures Invariant(s.(m := s.m.(color := s.m.color[x := RED])))
  {
    hide NoDup, NewIds, Holds, Messages, CoveredWords, Progress;
    var r := s.(m := s.m.(color := s.m.color[x := RED]));
    RedProgress(s, r, x);
    hide Young, Colors, Lists;
    ScanInFields(s);
    ProgressKeeps(s, r);
  }

  lemma RedProgress(s: State, r: State, x: nat)
    requires Lists(s) && Placed(s, x) && x in s.dead && r == s.(m := s.m.(color := s.m.color[x := RED]))
    requires !CtiAhead(s.queue, x)
    ensures Progress(s, r)
  {
    hide NewIds, NoDup;
    assert Consumes(s, r);
  }

  lemma HandleKeeps(s: State)
    requires Invariant(s) && (s.phase.Drain? || s.phase == Idle) && s.queue != []
    ensures Invariant(HandleOne(s))
  {
    hide Lists, Position, Colors, Holds, Covers, NewIds, Young, MoveToScan;
    var msg := s.queue[0];
    if msg.New? {
      HandleNewKeeps(s);
    } else if msg.Cti? {
      if IsWhite(s, msg.x) {
        CtiOnLists(s, msg.x);
        MoveKeeps(s, msg.x);
        RefereeCovered(s.m, msg.x);
        TailKeeps(s.(m := MoveToScan(s.m, msg.x)));
      } else {
        TailKeeps(s);
      }
    } else {
      QueueTail(s.queue);
      RedKeeps(s, msg.x);
      TailKeeps(s.(m := s.m.(color := s.m.color[msg.x := RED])));
    }
  }

  lemma CtiOnLists(s: State, x: nat)
    requires Invariant(s) && IsWhite(s, x) && Placed(s, x)
    ensures OnLists(s, x)
  {
    hide NewIds;
  }

  /** A stack word that denotes a WHITE object. */
  lemma RootKeeps(s: State, w: nat)
    requires Invariant(s) && s.phase == Roots && IsWhite(s, w) && KnownWord(s, w)
    ensures Invariant(s.(m := AddRoot(s.m, w)))
  {
    hide NoDup, NewIds, Holds, Messages, CoveredWords, Progress, MoveToScan;
    var r := s.(m := AddRoot(s.m, w));
    WhitePlaced(s, w);
    NotBlackened(s, w);
    MoveFacts(s.m.(color := s.m.color[w := GRAY]), w, |s.m.scan|);
    MovedColor(s.m.(color := s.m.color[w := GRAY]), w);
    assert s.m.scan[..|s.m.scan|] == s.m.scan;
    MarkingProgress(s, r);
    hide Young, Colors, Lists;
    ScanInFields(s);
    RootPosition(s, r, w);
    ProgressKeeps(s, r);
  }

  lemma RootPosition(s: State, r: State, w: nat)
    requires Position(s) && s.phase == Roots && r.phase == s.phase && r.fields == s.fields
    requires forall x :: x in r.m.scan <==> x in s.m.scan || x == w
    requires r.m.color == s.m.color[w := GRAY] && w in s.fields
    requires forall i {:trigger s.m.scan[i]} :: 0 <= i < |s.m.scan| ==> s.m.scan[i] in s.fields
    ensures Position(r) && SameDone(s, r)
  {
    forall i | 0 <= i < |r.m.scan|
      ensures !IsWhite(r, r.m.scan[i])
    {
      assert r.m.scan[i] in r.m.scan;
      if r.m.scan[i] != w {
        var j :| 0 <= j < |s.m.scan| && s.m.scan[j] == r.m.scan[i];
        assert !IsWhite(s, s.m.scan[j]);
      }
    }
    forall i: nat {:trigger KeptDone(s, r, i)} | i < |r.m.scan|
      ensures KeptDone(s, r, i)
    {
      assert r.m.scan[i] in r.m.scan;
      if r.m.scan[i] != w {
        var j :| 0 <= j < |s.m.scan| && s.m.scan[j] == r.m.scan[i];
      }
    }
  }

  lemma {:induction false} ScanRootsKeeps(s: State, ws: seq<nat>)
    requires Invariant(s) && s.phase == Roots && KnownWords(s, ws)
    ensures var r := s.(m := ScanRoots(s.m, ws));
      && Invariant(r) && (forall x | IsWhite(r, x) :: IsWhite(s, x)) && (forall x | KnownWord(s, x) :: KnownWord(r, x))
      && (forall i {:trigger ws[i]} :: 0 <= i < |ws| ==> !IsWhite(r, ws[i]))
  {
    hide Invariant, AddRoot, NewIds;
    if ws != [] {
      var vs, w := ws[..|ws| - 1], ws[|ws| - 1];
      assert forall i :: 0 <= i < |vs| ==> vs[i] == ws[i];
      ScanRootsKeeps(s, vs);
      var n := s.(m := ScanRoots(s.m, vs));
      if IsWhite(n, w) {
        RootKeeps(n, w);
        RootWords(n, w);
      }
      assert s.(m := ScanRoots(s.m, ws)) == if IsWhite(n, w) then n.(m := AddRoot(n.m, w)) else n;
    }
  }

  lemma RootWords(s: State, w: nat)
    requires Invariant(s) && IsWhite(s, w)
    ensures var r := s.(m := AddRoot(s.m, w));
      && (forall x | IsWhite(r, x) :: IsWhite(s, x)) && !IsWhite(r, w) && (forall x | KnownWord(s, x) :: KnownWord(r, x))
  {
    hide NoDup, NewIds, Holds, Messages, Covers;
  }

  ghost predicate NoWhite(m: Marking<nat>) {
    forall x | x in m.scan && x in m.color :: m.color[x] != WHITE
  }

  /** One word of a stack. */
  lemma StackStep(m: Marking<nat>, ws: seq<nat>)
    requires ws != [] && NoWhite(ScanRoots(m, ws[..|ws| - 1]))
    ensures var k, r, w := ScanRoots(m, ws[..|ws| - 1]), ScanRoots(m, ws), ws[|ws| - 1];
      && NoWhite(r)
      && r.scan == k.scan + (if w in k.color && k.color[w] == WHITE then [w] else [])
      && r.color == if w in k.color && k.color[w] == WHITE then k.color[w := GRAY] else k.color
  {
    var k, w := ScanRoots(m, ws[..|ws| - 1]), ws[|ws| - 1];
    if w in k.color && k.color[w] == WHITE {
      WithoutAbsent(k.scan, w);
    }
  }

  /** The scan of a stack adds the WHITE objects that it names to the scan list, once each, and
      turns them GRAY. */
  lemma {:induction false} StackAdds(m: Marking<nat>, ws: seq<nat>)
    requires NoWhite(m)
    ensures var r := ScanRoots(m, ws);
      && NoWhite(r) && r.color.Keys == m.color.Keys && m.scan <= r.scan
      && (forall x :: x in r.scan <==> x in m.scan || (x in ws && x in m.color && m.color[x] == WHITE))
      && (forall x | x in m.color :: r.color[x] == if x in ws && m.color[x] == WHITE then GRAY else m.color[x])
    decreases |ws|
  {
    if ws != [] {
      var vs, w := ws[..|ws| - 1], ws[|ws| - 1];
      StackAdds(m, vs);
      StackStep(m, ws);
      hide ScanRoots;
      assert ws == vs + [w];
    }
  }

  /** As far as the stack was scanned, they come in the order in which the scan met them. */
  lemma {:induction false} StackOrder(m: Marking<nat>, ws: seq<nat>, n: nat)
    requires NoWhite(m) && n <= |ws|
    ensures ScanRoots(m, ws[..n]).scan <= ScanRoots(m, ws).scan
    decreases |ws|
  {
    if n == |ws| {
      assert ws[..n] == ws;
    } else {
      var vs := ws[..|ws| - 1];
      StackOrder(m, vs, n);
      StackAdds(m, vs);
      StackStep(m, ws);
      assert ws[..n] == vs[..n];
    }
  }

  lemma ScanStackKeeps(s: State, t: nat)
    requires Invariant(s) && Enabled(s, ScanStack(t))
    ensures Invariant(Apply(s, ScanStack(t)))
    ensures forall i {:trigger s.locals[t][i]} :: 0 <= i < |s.locals[t]| ==> !IsWhite(Apply(s, ScanStack(t)), s.locals[t][i])
  {
    hide Lists, Position, Colors, Messages, Holds, NewIds, ScanRoots;
    var n := s.(m := ScanRoots(s.m, s.locals[t]));
    LocalsFacts(s, t);
    ScanRootsKeeps(s, s.locals[t]);
    assert CoveredWords(n, s.locals[t]);
    ScannedKeeps(n, t);
  }

  lemma ScannedKeeps(s: State, t: nat)
    requires Invariant(s) && s.phase == Roots && t in s.locals && CoveredWords(s, s.locals[t])
    ensures Invariant(s.(scanned := s.scanned + {t}))
  {
    hide NoDup, NewIds, KnownWords, CoveredWords, Holds, Messages, Colors;
    var r := s.(scanned := s.scanned + {t});
    RephasedExpected(s, r);
    ExpectedAlike(s, r);
    hide ExpectedWords, ExpectedWord;
    RephasedLists(s, r);
    RephasedMessages(s, r);
    RephasedHolds(s, r);
    RephasedCovered(s, r);
  }

  /** Marking is over when nothing that is held can still be waiting. */
  lemma SweepKeeps(s: State)
    requires Invariant(s) && InCycle(s) && NothingPending(s) && (s.m.scan == [] || s.queue == [])
    requires forall t | t in s.locals :: CoveredWords(s, s.locals[t])
    requires forall i {:trigger s.m.scan[i]} :: 0 <= i < |s.m.scan| ==>
      s.m.scan[i] in s.fields && CoveredWords(s, s.fields[s.m.scan[i]]) && !IsWhite(s, s.m.scan[i])
    ensures Invariant(s.(phase := Sweep))
  {
    var r := s.(phase := Sweep);
    forall ws: seq<nat> | KnownWords(s, ws) && CoveredWords(s, ws) ensures KnownWords(r, ws) { Uncovered(s, ws); }
    hide NoDup, NewIds, KnownWords, CoveredWords, CoveredWord, KnownWord;
    assert Lists(r) && Colors(r);
    SweepMessages(s);
    assert Position(r);
    forall x | x in r.m.scan ensures x in s.fields && CoveredWords(s, s.fields[x]) {
      var i :| 0 <= i < |s.m.scan| && s.m.scan[i] == x;
    }
    assert Holds(r);
    NothingDone(r);
  }

  lemma NothingDone(r: State)
    requires r.phase == Sweep && forall i {:trigger r.m.scan[i]} :: 0 <= i < |r.m.scan| ==> r.m.scan[i] in r.fields
    ensures Covers(r)
  {
  }

  lemma SweepMessages(s: State)
    requires Messages(s) && NothingPending(s) && (s.m.scan == [] || s.queue == [])
    ensures Messages(s.(phase := Sweep))
  {
    hide NewIds;
  }

  /** Without pending messages, what is covered is known to the collector. */
  lemma Uncovered(s: State, ws: seq<nat>)
    requires Colors(s) && NothingPending(s) && KnownWords(s, ws) && CoveredWords(s, ws)
    ensures KnownWords(s.(phase := Sweep), ws)
  {
    hide NewIds;
    forall i {:trigger ws[i]} | 0 <= i < |ws|
      ensures KnownWord(s.(phase := Sweep), ws[i])
    {
      assert KnownWord(s, ws[i]) && CoveredWord(s, ws[i]);
      assert ws[i] in s.m.from ==> !HasCti(s.queue, ws[i]);
    }
  }

  /** Entering the loop, or skipping it and its handling of messages. */
  lemma EnterLoopKeeps(s: State)
    requires Invariant(s) && Enabled(s, EnterLoop) && (s.m.scan == [] ==> NothingPending(s))
    ensures Invariant(Apply(s, EnterLoop))
  {
    if s.m.scan == [] {
      SweepKeeps(s);
    } else {
      EnterNonEmptyKeeps(s);
    }
  }

  lemma EnterNonEmptyKeeps(s: State)
    requires Invariant(s) && Enabled(s, EnterLoop) && s.m.scan != []
    ensures Invariant(s.(phase := Blacken(0)))
  {
    var r := s.(phase := Blacken(0));
    hide NoDup, NewIds, KnownWords, CoveredWords, Holds, Messages, Colors;
    RephasedExpected(s, r);
    ExpectedAlike(s, r);
    hide ExpectedWords, ExpectedWord;
    RephasedLists(s, r);
    RephasedMessages(s, r);
    RephasedHolds(s, r);
    RephasedCovered(s, r);
    forall i {:trigger r.m.scan[i]} | 0 <= i < |r.m.scan|
      ensures r.m.scan[i] in r.fields && ExpectedWords(r, r.fields[r.m.scan[i]][..WordsDone(r, i)])
    {
      assert ExpectedWords(s, s.fields[s.m.scan[i]][..WordsDone(s, i)]);
    }
  }

  lemma DrainedKeeps(s: State)
    requires Invariant(s) && Enabled(s, Drained)
    ensures Invariant(Apply(s, Drained))
  {
    hide Lists, Colors, Messages, Holds, NewIds, CoveredWord, Inherited;
    var k := s.phase.k;
    forall i {:trigger s.m.scan[i]} | 0 <= i < |s.m.scan| && i <= k
      ensures s.m.scan[i] in s.fields && ExpectedWords(s, s.fields[s.m.scan[i]])
    {
      var ws := s.fields[s.m.scan[i]];
      assert ExpectedWords(s, ws[..WordsDone(s, i)]) && ws[..|ws|] == ws;
    }
    if k + 1 == |s.m.scan| {
      NoneInherited(s);
      SweepKeeps(s);
    } else {
      NextPhase(s, k);
      RephasedExpected(s, s.(phase := Blacken(k + 1)));
      PhaseKeeps(s, Blacken(k + 1));
    }
  }

  /** Everything is scanned and every message handled. */
  lemma NoneInherited(s: State)
    requires s.phase.Drain? && s.phase.k + 1 == |s.m.scan| && s.queue == []
    ensures forall w :: !Inherited(s, w)
  {
    forall y: nat, j: nat | y in s.fields && j < |s.fields[y]|
      ensures !ToScan(s, y, j)
    {
    }
  }

  lemma NextPhase(s: State, k: nat)
    requires Covers(s) && s.phase == Drain(k)
    ensures forall i {:trigger s.m.scan[i]} :: 0 <= i < |s.m.scan| ==>
      s.m.scan[i] in s.fields && WordsDone(s.(phase := Blacken(k + 1)), i) == WordsDone(s, i)
  {
  }

  lemma SweepNextKeeps(s: State)
    requires Invariant(s) && Enabled(s, SweepNext)
    ensures Invariant(Apply(s, SweepNext))
  {
    hide NewIds;
    var r := Apply(s, SweepNext);
    assert NoDup(r.m.from);
    assert forall x | x in r.m.from :: x in s.m.from;
    hide NoDup;
    assert Lists(r) && Colors(r) && Position(r) && Messages(r);
    assert forall w | KnownWord(s, w) :: KnownWord(r, w);
    assert Holds(r);
    NothingDone(r);
  }

  lemma FinishKeeps(s: State)
    requires Invariant(s) && Enabled(s, Finish)
    ensures Invariant(Apply(s, Finish))
  {
    hide NoDup, NewIds, KnownWords, CoveredWords, Holds, Messages, Colors;
    var r := Apply(s, Finish);
    RephasedLists(s, r);
    RephasedMessages(s, r);
    RephasedHolds(s, r);
    RephasedCovered(s, r);
  }

  lemma {:induction false} HandleAllKeeps(s: State)
    requires Invariant(s) && s.phase == Idle
    ensures var h := HandleAll(s);
      Invariant(h) && h.phase == Idle && h.fields == s.fields && h.locals == s.locals && h.dead == s.dead
    decreases |s.queue|
  {
    hide Invariant;
    if s.queue != [] {
      HandleKeeps(s);
      HandleAllKeeps(HandleOne(s));
    }
  }

  lemma JoinedFacts(h: State)
    requires h.queue == [] && NoDup(h.m.scan) && NoDup(Young(h)) && forall x | x in Young(h) :: x !in h.m.scan
    ensures var r := Joined(h);
      && Young(h) == h.news && Young(r) == [] && NoDup(r.m.from) && r.m.scan == []
      && (forall x :: x in r.m.from <==> x in h.m.scan || x in h.news) && r.m.color.Keys == h.m.color.Keys
      && (forall x | x in r.m.color :: r.m.color[x] == if x in r.m.from && h.m.color[x] != RED then WHITE else h.m.color[x])
  {
    var m := Marking(h.m.scan + h.news, [], h.m.color);
    assert m.from[..|m.from|] == m.from && Young(h) == h.news;
    NoDupConcat(h.m.scan, h.news);
  }

  lemma ClearKeeps(h: State)
    requires Invariant(h) && h.phase == Idle && h.queue == []
    ensures Invariant(Joined(h))
  {
    hide Holds, Joined, Covers;
    var r := Joined(h);
    JoinedFacts(h);
    JoinedFrame(h);
    hide NoDup, Young;
    NothingCovered(r);
    ClearedHolds(h, r);
  }

  lemma NothingCovered(r: State)
    requires r.phase == Roots && r.scanned == {} && Young(r) == [] && r.m.scan == []
    ensures Covers(r)
  {
  }

  lemma JoinedFrame(h: State)
    ensures var r := Joined(h);
      r.fields == h.fields && r.locals == h.locals && r.dead == h.dead && r.queue == h.queue && r.scanned == {} && r.phase == Roots
  {
  }

  lemma ClearedHolds(h: State, r: State)
    requires h.m.from == [] && Young(h) == h.news && Young(r) == [] && r.phase == Roots && r.m.scan == []
    requires forall x :: x in r.m.from <==> x in h.m.scan || x in h.news
    requires forall x :: IsRed(r, x) <==> IsRed(h, x)
    requires r.fields == h.fields && r.locals == h.locals && Holds(h)
    ensures Holds(r)
  {
    hide Young;
    assert forall ws: seq<nat> | KnownWords(h, ws) :: KnownWords(r, ws);
  }

  lemma BeginKeeps(s: State)
    requires Invariant(s) && Enabled(s, Begin)
    ensures Invariant(Apply(s, Begin))
  {
    hide Invariant, HandleAll, Joined;
    HandleAllKeeps(s);
    ClearKeeps(HandleAll(s));
  }

  // ----- Sound steps -----

  /** What a step must not do: skip the mark loop while a message names an object about to be
      swept, hide an object from the collector, free swept memory, or lose a NEW message. */
  ghost predicate Sound(s: State, e: Event) {
    match e
    case EnterLoop => s.m.scan == [] ==> NothingPending(s)
    case PlainLoad(t, obj, i) => CanLoad(s, t, obj, i) && (StackDone(s, t) ==> CoveredWord(s, s.fields[obj][i]))
    case PlainStore(t, obj, i, w) => s.phase == Roots && obj in Young(s) ==> ExpectedWord(s, w)
    case Free(t, x) => MayFree(s, x)
    case Resize(t, obj, x) => CanResize(s, t, obj, x) && MayResize(s, obj, x)
    case LostAlloc(t, x, n) => false
    case _ => true
  }

  lemma StepKeeps(s: State, e: Event)
    requires Invariant(s) && Enabled(s, e) && Sound(s, e)
    ensures Invariant(Apply(s, e))
  {
    hide Invariant, Apply;
    match e
    case Begin => BeginKeeps(s);
    case ScanStack(t) => ScanStackKeeps(s, t);
    case EnterLoop => EnterLoopKeeps(s);
    case BlackenNext => BlackenNextKeeps(s);
    case ScanWord => ScanWordKeeps(s);
    case HandleNext => HandleKeeps(s); ApplyIs(s, e);
    case Drained => DrainedKeeps(s);
    case SweepNext => SweepNextKeeps(s);
    case Finish => FinishKeeps(s);
    case Load(t, obj, i) => LoadKeeps(s, t, obj, i);
    case Store(t, obj, i, w) => StoreKeeps(s, t, obj, i, w);
    case Alloc(t, x, n) => AllocKeeps(s, t, x, n);
    case Free(t, x) => FreeKeeps(s, t, x);
    case Resize(t, obj, x) => ResizeKeepsIff(s, t, obj, x); ApplyIs(s, e);
    case SetLocals(t, ws) => SetLocalsKeeps(s, t, ws);
    case PlainLoad(t, obj, i) => PlainLoadKeepsIff(s, t, obj, i); ApplyIs(s, e);
    case PlainStore(t, obj, i, w) => PlainStoreKeepsIff(s, t, obj, i, w); ApplyIs(s, e);
    case LostFree(t, x) => LostFreeKeeps(s, x); ApplyIs(s, e);
    case LostAlloc(t, x, n) =>
  }

  lemma ApplyIs(s: State, e: Event)
    requires Enabled(s, e)
    ensures e == HandleNext ==> Apply(s, e) == HandleOne(s)
    ensures e.PlainLoad? ==> Apply(s, e) == Loaded(s, e.t, e.obj, e.i)
    ensures e.PlainStore? ==> Apply(s, e) == Written(s, e.obj, e.i, e.w)
    ensures e.Resize? ==> Apply(s, e) == Freeing(Copy(s, e.obj, e.x), e.obj)
    ensures e.LostFree? ==> Apply(s, e) == s.(dead := s.dead + {e.x})
  {
  }
}
