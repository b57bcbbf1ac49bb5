/**
 The protocol between the collector and the threads whose stacks it scans
 (src/sgc_thread.c:132-166, 195-350), one step per mutex operation.
 */
module StackHandshake {

  datatype Owner = Nobody | Mutator | Gc

  /** Where an attached thread is: in its locked region; in `sgc_thread_sync` before and after
      releasing the scan mutex, holding the sync mutex, and past it; in `sgc_thread_unlock`
      before releasing; outside between unlock and lock. */
  datatype ThreadPc = Running | SyncReady | SyncReleased | SyncHolding | SyncPassed | UnlockReady | Outside

  /** `bottom` is 0 until the thread publishes `stack_bottom`; the n-th value published is
      called n.  `releases` counts how often the scan mutex was released. */
  datatype Thread = Thread(pc: ThreadPc, scan: Owner, sync: Owner, bottom: nat, releases: nat)

  /** Where the collector is: outside `sgc_scan_threads`, waiting for the list mutex, about to
      take up the i-th thread, waiting for its sync and then its scan mutex, about to release
      the sync mutex, scanning, and releasing the list mutex. */
  datatype GcPc = Away | WantList | Next(i: nat) | WantSync(i: nat) | WantScan(i: nat) | HasBoth(i: nat) | Scanning(i: nat) | Leaving

  /** The mutex of the thread list, and whether a thread that attaches has been appended. */
  datatype ListState = Free | ByGc | Attaching | Attached

  datatype State = State(threads: seq<Thread>, gc: GcPc, list: ListState)

  datatype Event =
    | Enter | LockList | TakeUp | LockSync | LockScan | UnlockSync | ScanDone | UnlockList
    | AttachLock | AttachAppend | AttachUnlock
    | SyncPublish(t: nat) | SyncRelease(t: nat) | SyncLock(t: nat) | SyncUnlock(t: nat) | SyncReturn(t: nat)
    | UnlockPublish(t: nat) | UnlockRelease(t: nat) | LockReturn(t: nat)

  predicate At(s: State, t: nat, pc: ThreadPc) {
    t < |s.threads| && s.threads[t].pc == pc
  }

  /** The thread is between a lock or an attach and the next release. */
  predicate InRegion(pc: ThreadPc) {
    pc == Running || pc == SyncReady || pc == UnlockReady
  }

  predicate Enabled(s: State, e: Event) {
    match e
    case Enter => s.gc == Away
    case LockList => s.gc == WantList && s.list == Free
    case TakeUp => s.gc.Next?
    case LockSync => s.gc.WantSync? && s.gc.i < |s.threads| && s.threads[s.gc.i].sync == Nobody
    case LockScan => s.gc.WantScan? && s.gc.i < |s.threads| && s.threads[s.gc.i].scan == Nobody
    case UnlockSync => s.gc.HasBoth? && s.gc.i < |s.threads|
    case ScanDone => s.gc.Scanning? && s.gc.i < |s.threads|
    case UnlockList => s.gc == Leaving
    case AttachLock => s.list == Free
    case AttachAppend => s.list == Attaching
    case AttachUnlock => s.list == Attached
    case SyncPublish(t) => At(s, t, Running)
    case SyncRelease(t) => At(s, t, SyncReady)
    case SyncLock(t) => At(s, t, SyncReleased) && s.threads[t].sync == Nobody
    case SyncUnlock(t) => At(s, t, SyncHolding)
    case SyncReturn(t) => At(s, t, SyncPassed) && s.threads[t].scan == Nobody
    case UnlockPublish(t) => At(s, t, Running)
    case UnlockRelease(t) => At(s, t, UnlockReady)
    case LockReturn(t) => At(s, t, Outside) && s.threads[t].scan == Nobody
  }

  function Set(s: State, t: nat, th: Thread): State
    requires t < |s.threads|
  {
    s.(threads := s.threads[t := th])
  }

  function Apply(s: State, e: Event): State
    requires Enabled(s, e)
  {
    match e
    case Enter => s.(gc := WantList)
    case LockList => s.(gc := Next(0), list := ByGc)
    case TakeUp => s.(gc := if s.gc.i < |s.threads| then WantSync(s.gc.i) else Leaving)
    case LockSync => Set(s.(gc := WantScan(s.gc.i)), s.gc.i, s.threads[s.gc.i].(sync := Gc))
    case LockScan => Set(s.(gc := HasBoth(s.gc.i)), s.gc.i, s.threads[s.gc.i].(scan := Gc))
    case UnlockSync => Set(s.(gc := Scanning(s.gc.i)), s.gc.i, s.threads[s.gc.i].(sync := Nobody))
    case ScanDone => Set(s.(gc := Next(s.gc.i + 1)), s.gc.i, s.threads[s.gc.i].(scan := Nobody))
    case UnlockList => s.(gc := Away, list := Free)
    case AttachLock => s.(list := Attaching)
    case AttachAppend => s.(threads := s.threads + [Thread(Running, Mutator, Nobody, 0, 0)], list := Attached)
    case AttachUnlock => s.(list := Free)
    case SyncPublish(t) => Set(s, t, s.threads[t].(pc := SyncReady, bottom := s.threads[t].releases + 1))
    case SyncRelease(t) => Set(s, t, s.threads[t].(pc := SyncReleased, scan := Nobody, releases := s.threads[t].releases + 1))
    case SyncLock(t) => Set(s, t, s.threads[t].(pc := SyncHolding, sync := Mutator))
    case SyncUnlock(t) => Set(s, t, s.threads[t].(pc := SyncPassed, sync := Nobody))
    case SyncReturn(t) => Set(s, t, s.threads[t].(pc := Running, scan := Mutator))
    case UnlockPublish(t) => Set(s, t, s.threads[t].(pc := UnlockReady, bottom := s.threads[t].releases + 1))
    case UnlockRelease(t) => Set(s, t, s.threads[t].(pc := Outside, scan := Nobody, releases := s.threads[t].releases + 1))
    case LockReturn(t) => Set(s, t, s.threads[t].(pc := Running, scan := Mutator))
  }

  const INITIAL: State := State([], Away, Free)

  // ----- Invariant -----

  /** Who holds the mutexes of the t-th thread follows from where everybody is, and the
      published stack bottom is the one of the latest release. */
  ghost predicate ThreadOk(th: Thread, t: nat, gc: GcPc) {
    && (th.scan == Mutator <==> InRegion(th.pc))
    && (th.scan == Gc <==> gc == HasBoth(t) || gc == Scanning(t))
    && (th.sync == Mutator <==> th.pc == SyncHolding)
    && (th.sync == Gc <==> gc == WantScan(t) || gc == HasBoth(t))
    && (th.bottom == if th.pc == SyncReady || th.pc == UnlockReady then th.releases + 1 else th.releases)
    && (!InRegion(th.pc) ==> th.releases > 0)
  }

  function Index(gc: GcPc): nat {
    match gc
    case Next(i) => i
    case WantSync(i) => i
    case WantScan(i) => i
    case HasBoth(i) => i
    case Scanning(i) => i
    case _ => 0
  }

  predicate AtThread(gc: GcPc) {
    gc.WantSync? || gc.WantScan? || gc.HasBoth? || gc.Scanning?
  }

  ghost predicate Inv(s: State) {
    && (forall t: nat {:trigger s.threads[t]} :: t < |s.threads| ==> ThreadOk(s.threads[t], t, s.gc))
    && (s.list == ByGc <==> s.gc != Away && s.gc != WantList)
    && Index(s.gc) <= |s.threads| && (AtThread(s.gc) ==> Index(s.gc) < |s.threads|)
  }

  lemma StepKeeps(s: State, e: Event)
    requires Inv(s) && Enabled(s, e)
    ensures Inv(Apply(s, e))
  {
    var r := Apply(s, e);
    forall t: nat {:trigger r.threads[t]} | t < |r.threads|
      ensures ThreadOk(r.threads[t], t, r.gc)
    {
      if t < |s.threads| {
        assert ThreadOk(s.threads[t], t, s.gc);
      }
    }
  }

  ghost predicate IsRun(s: State, es: seq<Event>)
    decreases |es|
  {
    es == [] || (Enabled(s, es[0]) && IsRun(Apply(s, es[0]), es[1..]))
  }

  function After(s: State, es: seq<Event>): State
    requires IsRun(s, es)
    decreases |es|
  {
    if es == [] then s else After(Apply(s, es[0]), es[1..])
  }

  lemma {:induction false} RunKeeps(s: State, es: seq<Event>)
    requires Inv(s) && IsRun(s, es)
    ensures Inv(After(s, es))
    decreases |es|
  {
    hide Enabled, Apply, Inv;
    if es != [] {
      StepKeeps(s, es[0]);
      RunKeeps(Apply(s, es[0]), es[1..]);
    }
  }

  /** How often the t-th thread releases its scan mutex during the run. */
  function Releases(es: seq<Event>, t: nat): nat {
    if es == [] then 0 else
    (if es[0] == SyncRelease(t) || es[0] == UnlockRelease(t) then 1 else 0) + Releases(es[1..], t)
  }

  /** The threads keep their places in the list, and each is the only one to release its mutex. */
  lemma {:induction false} ReleasesCount(s: State, es: seq<Event>, t: nat)
    requires IsRun(s, es) && t < |s.threads|
    ensures t < |After(s, es).threads|
    ensures After(s, es).threads[t].releases == s.threads[t].releases + Releases(es, t)
    decreases |es|
  {
    if es != [] {
      ReleasesCount(Apply(s, es[0]), es[1..], t);
    }
  }

  /** A mutex changes hands only through its holder: it is released by the one who has it, and
      taken when nobody has it. */
  lemma HoldersOnly(s: State, e: Event)
    requires Inv(s) && Enabled(s, e)
    ensures var r := Apply(s, e);
      && (s.list == ByGc ==> r.list == ByGc || (r.list == Free && e == UnlockList))
      && (s.list == Attaching ==> r.list == Attaching || (r.list == Attached && e == AttachAppend))
      && (s.list == Attached ==> r.list == Attached || (r.list == Free && e == AttachUnlock))
      && (forall t: nat {:trigger r.threads[t]} | t < |s.threads| && t < |r.threads| :: HoldersAt(s.threads[t], r.threads[t], t, s.gc, e))
  {
    forall t: nat {:trigger s.threads[t]} | t < |s.threads| && t < |Apply(s, e).threads|
      ensures HoldersAt(s.threads[t], Apply(s, e).threads[t], t, s.gc, e)
    {
      assert ThreadOk(s.threads[t], t, s.gc);
    }
  }

  ghost predicate HoldersAt(th: Thread, th': Thread, t: nat, gc: GcPc, e: Event) {
    && (th.scan == Gc ==> th'.scan == Gc || (th'.scan == Nobody && e == ScanDone && gc == Scanning(t)))
    && (th.scan == Mutator ==> th'.scan == Mutator || (th'.scan == Nobody && (e == SyncRelease(t) || e == UnlockRelease(t))))
    && (th.sync == Gc ==> th'.sync == Gc || (th'.sync == Nobody && e == UnlockSync && gc == HasBoth(t)))
    && (th.sync == Mutator ==> th'.sync == Mutator || (th'.sync == Nobody && e == SyncUnlock(t)))
  }

  // ----- What the handshake is for -----

  /** In every run, while a stack is scanned its thread is outside its locked region, and the
      bottom that the collector uses is the one published for the latest release; a thread
      that has not released yet is never scanned. */
  lemma ScannedOnlyOutside(es: seq<Event>)
    requires IsRun(INITIAL, es) && After(INITIAL, es).gc.Scanning?
    ensures var s := After(INITIAL, es);
      && s.gc.i < |s.threads| && !InRegion(s.threads[s.gc.i].pc)
      && s.threads[s.gc.i].bottom == s.threads[s.gc.i].releases > 0
  {
    RunKeeps(INITIAL, es);
    var s := After(INITIAL, es);
    assert ThreadOk(s.threads[s.gc.i], s.gc.i, s.gc);
  }

  /** The thread is inside `sgc_thread_sync`, and the collector is going to scan it first. */
  ghost predicate Pledged(s: State, t: nat) {
    && t < |s.threads|
    && match s.threads[t].pc
       case SyncReleased => s.gc == WantScan(t) || s.gc == HasBoth(t) || s.gc == Scanning(t)
       case SyncHolding => s.gc == Scanning(t)
       case SyncPassed => s.gc == Scanning(t)
       case _ => false
  }

  /** Nothing but the end of the scan of its stack frees the thread. */
  lemma PledgeKeeps(s: State, t: nat, e: Event)
    requires Inv(s) && Pledged(s, t) && Enabled(s, e) && !(e == ScanDone && s.gc == Scanning(t))
    ensures Pledged(Apply(s, e), t) && e != SyncReturn(t)
  {
    assert ThreadOk(s.threads[t], t, s.gc);
  }

  /** Some event of the run ends the scan of the t-th thread. */
  ghost predicate Scans(s: State, es: seq<Event>, t: nat)
    requires IsRun(s, es)
    decreases |es|
  {
    es != [] && ((es[0] == ScanDone && s.gc == Scanning(t)) || Scans(Apply(s, es[0]), es[1..], t))
  }

  lemma {:induction false} PledgedIsScanned(s: State, es: seq<Event>, t: nat)
    requires Inv(s) && Pledged(s, t) && IsRun(s, es) && SyncReturn(t) in es
    ensures Scans(s, es, t)
    decreases |es|
  {
    hide Enabled, Apply, Inv, Pledged;
    if !(es[0] == ScanDone && s.gc == Scanning(t)) {
      PledgeKeeps(s, t, es[0]);
      StepKeeps(s, es[0]);
      assert SyncReturn(t) in es[1..];
      PledgedIsScanned(Apply(s, es[0]), es[1..], t);
    }
  }

  /** If the collector holds the sync mutex of a thread when the thread releases its scan
      mutex in `sgc_thread_sync`, then the thread does not return before it was scanned. */
  lemma SyncWaitsForScan(es: seq<Event>, t: nat, fs: seq<Event>)
    requires IsRun(INITIAL, es) && Enabled(After(INITIAL, es), SyncRelease(t))
    requires After(INITIAL, es).threads[t].sync == Gc
    requires IsRun(Apply(After(INITIAL, es), SyncRelease(t)), fs) && SyncReturn(t) in fs
    ensures Scans(Apply(After(INITIAL, es), SyncRelease(t)), fs, t)
  {
    var s := After(INITIAL, es);
    RunKeeps(INITIAL, es);
    StepKeeps(s, SyncRelease(t));
    assert ThreadOk(s.threads[t], t, s.gc);
    PledgedIsScanned(Apply(s, SyncRelease(t)), fs, t);
  }

  // ----- A whole pass -----

  /** The threads whose scans end during the run, in order. */
  function Scanned(s: State, es: seq<Event>): seq<nat>
    requires IsRun(s, es)
    decreases |es|
  {
    if es == [] then [] else
    (if es[0] == ScanDone then [s.gc.i] else []) + Scanned(Apply(s, es[0]), es[1..])
  }

  lemma {:induction false} ScannedIff(s: State, es: seq<Event>, t: nat)
    requires IsRun(s, es)
    ensures t in Scanned(s, es) <==> Scans(s, es, t)
    decreases |es|
  {
    if es != [] {
      ScannedIff(Apply(s, es[0]), es[1..], t);
    }
  }

  /** The numbers from `i` to `n`, without `n`. */
  function Upto(i: nat, n: nat): (r: seq<nat>)
    requires i <= n
    ensures |r| == n - i && forall k :: 0 <= k < n - i ==> r[k] == i + k
  {
    seq(n - i, k requires 0 <= k < n - i => i + k)
  }

  predicate InPass(s: State) {
    s.gc != Away && s.gc != WantList
  }

  /** How many threads a pass is done with. */
  function Done(s: State): nat {
    if s.gc == Leaving then |s.threads| else Index(s.gc)
  }

  lemma PassStep(s: State, e: Event)
    requires Inv(s) && InPass(s) && Enabled(s, e) && e != UnlockList
    ensures var r := Apply(s, e);
      && InPass(r) && |r.threads| == |s.threads| && Done(s) <= |s.threads|
      && Done(r) == (if e == ScanDone then Done(s) + 1 else Done(s)) && (e == ScanDone ==> s.gc.i == Done(s))
  {
  }

  lemma {:induction false} PassSoFar(s: State, es: seq<Event>)
    requires Inv(s) && InPass(s) && IsRun(s, es) && UnlockList !in es
    ensures var r := After(s, es);
      && Inv(r) && InPass(r) && |r.threads| == |s.threads| && Done(s) <= Done(r) <= |s.threads|
      && Scanned(s, es) == Upto(Done(s), Done(r))
    decreases |es|
  {
    hide Inv, Enabled, Apply, InPass, Done;
    if es == [] {
      DoneInside(s);
    } else {
      PassStep(s, es[0]);
      StepKeeps(s, es[0]);
      assert UnlockList !in es[1..];
      PassSoFar(Apply(s, es[0]), es[1..]);
    }
  }

  lemma DoneInside(s: State)
    requires Inv(s)
    ensures Done(s) <= |s.threads|
  {
  }

  lemma {:induction false} RunSplit(s: State, es: seq<Event>, e: Event)
    requires IsRun(s, es + [e])
    ensures IsRun(s, es) && Enabled(After(s, es), e) && Scanned(s, es + [e]) == Scanned(s, es) + Scanned(After(s, es), [e])
    decreases |es|
  {
    if es == [] {
      assert es + [e] == [e] && [e][1..] == [];
    } else {
      assert (es + [e])[0] == es[0] && (es + [e])[1..] == es[1..] + [e];
      RunSplit(Apply(s, es[0]), es[1..], e);
    }
  }

  /** A pass over the thread list, from the lock of the list to its unlock, scans every attached
      thread, once, in the order of the list. */
  lemma PassScansAll(s: State, es: seq<Event>)
    requires Inv(s) && Enabled(s, LockList) && UnlockList !in es && IsRun(Apply(s, LockList), es + [UnlockList])
    ensures Scanned(Apply(s, LockList), es + [UnlockList]) == Upto(0, |s.threads|)
    ensures forall t: nat | t < |s.threads| :: Scans(Apply(s, LockList), es + [UnlockList], t)
  {
    var r := Apply(s, LockList);
    StepKeeps(s, LockList);
    RunSplit(r, es, UnlockList);
    PassSoFar(r, es);
    assert [UnlockList][1..] == [];
    forall t: nat | t < |s.threads|
      ensures Scans(r, es + [UnlockList], t)
    {
      ScannedIff(r, es + [UnlockList], t);
      assert Upto(0, |s.threads|)[t] == t;
    }
  }

  // ----- Calls that nobody disturbs -----

  lemma {:induction false} RunsJoin(s: State, es: seq<Event>, fs: seq<Event>)
    requires IsRun(s, es) && IsRun(After(s, es), fs)
    ensures IsRun(s, es + fs) && After(s, es + fs) == After(After(s, es), fs)
    decreases |es|
  {
    hide Enabled, Apply;
    if es == [] {
      assert es + fs == fs;
    } else {
      assert (es + fs)[0] == es[0] && (es + fs)[1..] == es[1..] + fs;
      RunsJoin(Apply(s, es[0]), es[1..], fs);
    }
  }

  function Published(s: State, t: nat): State
    requires t < |s.threads|
  {
    var n := s.threads[t].releases + 1;
    Set(s, t, s.threads[t].(bottom := n, releases := n))
  }

  /** `sgc_thread_sync` comes back to where it was called, with a newer stack bottom. */
  lemma SyncCompletes(s: State, t: nat)
    requires Inv(s) && At(s, t, Running) && s.threads[t].sync == Nobody
    ensures var es := [SyncPublish(t), SyncRelease(t), SyncLock(t), SyncUnlock(t), SyncReturn(t)];
      IsRun(s, es) && After(s, es) == Published(s, t)
  {
    assert ThreadOk(s.threads[t], t, s.gc);
    SyncReleases(s, t);
    SyncReturns(Set(s, t, Published(s, t).threads[t].(pc := SyncReleased, scan := Nobody)), t);
    hide Enabled, Apply;
    RunsJoin(s, [SyncPublish(t), SyncRelease(t)], [SyncLock(t), SyncUnlock(t), SyncReturn(t)]);
  }

  lemma SyncReleases(s: State, t: nat)
    requires At(s, t, Running)
    ensures var es := [SyncPublish(t), SyncRelease(t)];
      IsRun(s, es) && After(s, es) == Set(s, t, Published(s, t).threads[t].(pc := SyncReleased, scan := Nobody))
  {
    TwoSteps(s, SyncPublish(t), SyncRelease(t));
  }

  lemma SyncReturns(s: State, t: nat)
    requires At(s, t, SyncReleased) && s.threads[t].sync == Nobody && s.threads[t].scan == Nobody
    ensures var es := [SyncLock(t), SyncUnlock(t), SyncReturn(t)];
      IsRun(s, es) && After(s, es) == Set(s, t, s.threads[t].(pc := Running, scan := Mutator))
  {
    TwoSteps(s, SyncLock(t), SyncUnlock(t));
    var r := Set(s, t, s.threads[t].(pc := SyncPassed));
    OneStep(r, SyncReturn(t));
    RunsJoin(s, [SyncLock(t), SyncUnlock(t)], [SyncReturn(t)]);
  }

  /** So do `sgc_thread_unlock` and `sgc_thread_lock`, between which nobody has the scan mutex. */
  lemma UnlockCompletes(s: State, t: nat)
    requires Inv(s) && At(s, t, Running)
    ensures var es := [UnlockPublish(t), UnlockRelease(t)];
      && IsRun(s, es) && After(s, es) == Set(s, t, Published(s, t).threads[t].(pc := Outside, scan := Nobody))
      && IsRun(After(s, es), [LockReturn(t)]) && After(After(s, es), [LockReturn(t)]) == Published(s, t)
  {
    assert ThreadOk(s.threads[t], t, s.gc);
    TwoSteps(s, UnlockPublish(t), UnlockRelease(t));
    OneStep(Apply(Apply(s, UnlockPublish(t)), UnlockRelease(t)), LockReturn(t));
  }

  /** `sgc_thread_new`: the thread is the last of the list, and has its scan mutex. */
  lemma AttachCompletes(s: State)
    requires s.list == Free
    ensures var es := [AttachLock, AttachAppend, AttachUnlock];
      IsRun(s, es) && After(s, es) == s.(threads := s.threads + [Thread(Running, Mutator, Nobody, 0, 0)])
  {
    TwoSteps(s, AttachLock, AttachAppend);
    OneStep(Apply(Apply(s, AttachLock), AttachAppend), AttachUnlock);
    RunsJoin(s, [AttachLock, AttachAppend], [AttachUnlock]);
    assert [AttachLock, AttachAppend] + [AttachUnlock] == [AttachLock, AttachAppend, AttachUnlock];
  }

  lemma OneStep(s: State, e: Event)
    requires Enabled(s, e)
    ensures IsRun(s, [e]) && After(s, [e]) == Apply(s, e)
  {
    assert [e][1..] == [];
  }

  lemma TwoSteps(s: State, e: Event, f: Event)
    requires Enabled(s, e) && Enabled(Apply(s, e), f)
    ensures IsRun(s, [e, f]) && After(s, [e, f]) == Apply(Apply(s, e), f)
  {
    hide Enabled, Apply;
    OneStep(Apply(s, e), f);
    assert [e, f][1..] == [f];
  }

  /** The collector's steps for `n` threads. */
  function PassEvents(n: nat): seq<Event> {
    if n == 0 then [] else [TakeUp, LockSync, LockScan, UnlockSync, ScanDone] + PassEvents(n - 1)
  }

  /** A pass over threads that are all outside their regions comes to its end, and leaves
      everything as it was. */
  lemma PassCompletes(s: State)
    requires Inv(s) && s.gc == Away && s.list == Free
    requires forall t: nat | t < |s.threads| :: s.threads[t].scan == Nobody && s.threads[t].sync == Nobody
    ensures var es := [Enter, LockList] + PassEvents(|s.threads|) + [TakeUp, UnlockList];
      IsRun(s, es) && After(s, es) == s
  {
    hide IsRun, After, Inv;
    var n := |s.threads|;
    PassEnds(s);
    hide Enabled, Apply;
    ScansAlone(s.(gc := Next(0), list := ByGc), 0);
    RunsJoin(s, [Enter, LockList], PassEvents(n));
    RunsJoin(s, [Enter, LockList] + PassEvents(n), [TakeUp, UnlockList]);
  }

  lemma PassEnds(s: State)
    requires s.gc == Away && s.list == Free
    ensures IsRun(s, [Enter, LockList]) && After(s, [Enter, LockList]) == s.(gc := Next(0), list := ByGc)
    ensures var r := s.(gc := Next(|s.threads|), list := ByGc); IsRun(r, [TakeUp, UnlockList]) && After(r, [TakeUp, UnlockList]) == s
  {
    TwoSteps(s, Enter, LockList);
    TwoSteps(s.(gc := Next(|s.threads|), list := ByGc), TakeUp, UnlockList);
  }

  lemma ScanOne(s: State, i: nat)
    requires s.gc == Next(i) && i < |s.threads| && s.threads[i].scan == Nobody && s.threads[i].sync == Nobody
    ensures var es := [TakeUp, LockSync, LockScan, UnlockSync, ScanDone]; IsRun(s, es) && After(s, es) == s.(gc := Next(i + 1))
  {
    var r := Set(s.(gc := WantScan(i)), i, s.threads[i].(sync := Gc));
    TwoSteps(s, TakeUp, LockSync);
    ScanRest(r, i);
    assert s.threads[i := s.threads[i]] == s.threads;
    hide Enabled, Apply;
    RunsJoin(s, [TakeUp, LockSync], [LockScan, UnlockSync, ScanDone]);
  }

  lemma ScanRest(s: State, i: nat)
    requires s.gc == WantScan(i) && i < |s.threads| && s.threads[i].scan == Nobody && s.threads[i].sync == Gc
    ensures var es := [LockScan, UnlockSync, ScanDone];
      IsRun(s, es) && After(s, es) == Set(s.(gc := Next(i + 1)), i, s.threads[i].(sync := Nobody))
  {
    var r := Set(s.(gc := Scanning(i)), i, s.threads[i].(scan := Gc, sync := Nobody));
    TwoSteps(s, LockScan, UnlockSync);
    OneStep(r, ScanDone);
    hide Enabled, Apply;
    RunsJoin(s, [LockScan, UnlockSync], [ScanDone]);
  }

  lemma {:induction false} ScansAlone(s: State, i: nat)
    requires s.gc == Next(i) && i <= |s.threads|
    requires forall t: nat | t < |s.threads| :: s.threads[t].scan == Nobody && s.threads[t].sync == Nobody
    ensures IsRun(s, PassEvents(|s.threads| - i)) && After(s, PassEvents(|s.threads| - i)) == s.(gc := Next(|s.threads|))
    decreases |s.threads| - i
  {
    if i < |s.threads| {
      hide IsRun, After;
      ScanOne(s, i);
      ScansAlone(s.(gc := Next(i + 1)), i + 1);
      RunsJoin(s, [TakeUp, LockSync, LockScan, UnlockSync, ScanDone], PassEvents(|s.threads| - (i + 1)));
    }
  }

  // ----- Progress -----

  /** The event with which the t-th thread goes on, if it is not in its own code. */
  function NextOf(th: Thread, t: nat): Event {
    match th.pc
    case Running => SyncPublish(t)
    case SyncReady => SyncRelease(t)
    case SyncReleased => SyncLock(t)
    case SyncHolding => SyncUnlock(t)
    case SyncPassed => SyncReturn(t)
    case UnlockReady => UnlockRelease(t)
    case Outside => LockReturn(t)
  }

  function NextOfGc(gc: GcPc): Event {
    match gc
    case Away => Enter
    case WantList => LockList
    case Next(_) => TakeUp
    case WantSync(_) => LockSync
    case WantScan(_) => LockScan
    case HasBoth(_) => UnlockSync
    case Scanning(_) => ScanDone
    case Leaving => UnlockList
  }

  /** There is no deadlock: when a thread cannot go on, the collector can. */
  lemma ThreadWaitsForGc(s: State, t: nat)
    requires Inv(s) && t < |s.threads|
    ensures Enabled(s, NextOf(s.threads[t], t)) || Enabled(s, NextOfGc(s.gc))
  {
    assert ThreadOk(s.threads[t], t, s.gc);
  }

  /** And when the collector cannot go on, whoever holds the mutex that it waits for can. */
  lemma GcWaitsForThread(s: State)
    requires Inv(s) && !Enabled(s, NextOfGc(s.gc))
    ensures AtThread(s.gc) ==> s.gc.i < |s.threads| && Enabled(s, NextOf(s.threads[s.gc.i], s.gc.i))
    ensures !AtThread(s.gc) ==> Enabled(s, AttachAppend) || Enabled(s, AttachUnlock)
  {
    if AtThread(s.gc) {
      assert ThreadOk(s.threads[s.gc.i], s.gc.i, s.gc);
    }
  }
}
