/** The writer-preferring read/write lock (config/src/rwmutex.cpp) under every interleaving. A step is
    what a thread does between two points where the others can see a difference: taking the mutex, one
    critical section, waiting on the condition variable, being woken, notifying. */
module RwLock {

  /** Where a thread is. Names ending in Held and Check stand inside a critical section. */
  datatype Pc =
    | Idle
    | RStart | RCheck | RSleep | RWoken | Reading | RuStart | RuHeld
    | WStart | WHeld | WCheck | WSleep | WWoken | Writing | WuStart | WuHeld
    | Notify

  /** The threads, the mutex's owner and the three fields of the lock. */
  datatype State = State(pcs: map<nat, Pc>, mutex: Owner, readCount: nat, waitingWriters: nat, writeCount: bool)

  datatype Owner = Free | By(thread: nat)

  /** The counters are 32 bits wide. */
  const WRAP: nat := 0x1_0000_0000

  function Goto(s: State, t: nat, pc: Pc): State
  {
    s.(pcs := s.pcs[t := pc])
  }

  /** Into a critical section, and out of it. */
  function Acquire(s: State, t: nat, pc: Pc): State
  {
    Goto(s, t, pc).(mutex := By(t))
  }

  function Release(s: State, t: nat, pc: Pc): State
  {
    Goto(s, t, pc).(mutex := Free)
  }

  /** The predicates the two kinds of threads wait for. */
  predicate ReaderMayEnter(s: State)
  {
    !s.writeCount && s.waitingWriters == 0
  }

  predicate WriterMayEnter(s: State)
  {
    s.readCount == 0 && !s.writeCount
  }

  function Woken(pc: Pc): Pc
  {
    match pc
    case RSleep => RWoken
    case WSleep => WWoken
    case _ => pc
  }

  /** `notify_all` by a thread that is done. */
  function NotifyAll(s: State, t: nat): State
  {
    s.(pcs := map u | u in s.pcs :: if u == t then Idle else Woken(s.pcs[u]))
  }

  /** A thread that is neither idle, asleep nor inside the lock: it has something of its own left to do. */
  predicate Busy(pc: Pc)
  {
    !pc.Idle? && !pc.RSleep? && !pc.WSleep? && !pc.Reading? && !pc.Writing?
  }

  /** What a busy thread does next. */
  function Onward(s: State, t: nat): State
    requires t in s.pcs && Busy(s.pcs[t])
  {
    match s.pcs[t]
    // rlock
    case RStart => Acquire(s, t, RCheck)
    case RWoken => Acquire(s, t, RCheck)
    case RCheck =>
      if ReaderMayEnter(s) then Release(s, t, Reading).(readCount := (s.readCount + 1) % WRAP)
      else Release(s, t, RSleep)
    // runlock
    case RuStart => Acquire(s, t, RuHeld)
    case RuHeld =>
      if s.readCount == 0 then s
      else Release(s, t, if s.readCount == 1 then Notify else Idle).(readCount := s.readCount - 1)
    // wlock
    case WStart => Acquire(s, t, WHeld)
    case WHeld => Goto(s, t, WCheck).(waitingWriters := (s.waitingWriters + 1) % WRAP)
    case WWoken => Acquire(s, t, WCheck)
    case WCheck =>
      if !WriterMayEnter(s) then Release(s, t, WSleep)
      else if s.waitingWriters == 0 then s
      else Release(s, t, Writing).(waitingWriters := s.waitingWriters - 1, writeCount := true)
    // wunlock
    case WuStart => Acquire(s, t, WuHeld)
    case WuHeld => if s.writeCount then Release(s, t, Notify).(writeCount := false) else Release(s, t, Idle)
    // the notification after either unlock
    case Notify => NotifyAll(s, t)
  }

  /** Taking the mutex needs it free, and no counter is taken below zero. */
  predicate Enabled(s: State, t: nat)
    requires t in s.pcs && Busy(s.pcs[t])
  {
    var pc := s.pcs[t];
    (HoldsMutex(pc) || pc.Notify? || s.mutex == Free) &&
    (pc.RuHeld? ==> s.readCount > 0) && (pc.WCheck? ==> s.waitingWriters > 0)
  }

  /** What thread t may do next. Sleeping threads may also wake of themselves; a thread unlocks only what
      it has locked. */
  predicate Step(s: State, t: nat, s': State)
  {
    t in s.pcs &&
    match s.pcs[t]
    case Idle => s' == Goto(s, t, RStart) || s' == Goto(s, t, WStart)
    case RSleep => s' == Goto(s, t, RWoken)
    case WSleep => s' == Goto(s, t, WWoken)
    case Reading => s' == Goto(s, t, RuStart)
    case Writing => s' == Goto(s, t, WuStart)
    case _ => Enabled(s, t) && s' == Onward(s, t)
  }

  predicate InReadLock(pc: Pc) { pc.Reading? || pc.RuStart? || pc.RuHeld? }
  predicate InWriteLock(pc: Pc) { pc.Writing? || pc.WuStart? || pc.WuHeld? }
  predicate AwaitsWriting(pc: Pc) { pc.WCheck? || pc.WSleep? || pc.WWoken? }
  predicate HoldsMutex(pc: Pc) { pc.RCheck? || pc.RuHeld? || pc.WHeld? || pc.WCheck? || pc.WuHeld? }

  function Readers(pcs: map<nat, Pc>): set<nat> { set t | t in pcs && InReadLock(pcs[t]) }
  function Writers(pcs: map<nat, Pc>): set<nat> { set t | t in pcs && InWriteLock(pcs[t]) }
  function Waiting(pcs: map<nat, Pc>): set<nat> { set t | t in pcs && AwaitsWriting(pcs[t]) }

  /** The counters say who is where. */
  predicate Counted(s: State)
  {
    |s.pcs.Keys| < WRAP && s.readCount == |Readers(s.pcs)| && s.waitingWriters == |Waiting(s.pcs)| &&
    |Writers(s.pcs)| == (if s.writeCount then 1 else 0)
  }

  predicate Guarded(s: State)
  {
    (forall t :: t in s.pcs ==> (HoldsMutex(s.pcs[t]) <==> s.mutex == By(t))) &&
    (s.mutex.By? ==> s.mutex.thread in s.pcs)
  }

  /** A writer excludes readers; by the count there is never a second writer. */
  predicate Exclusive(s: State)
  {
    s.writeCount ==> s.readCount == 0
  }

  /** A thread that sleeps although it might enter. */
  predicate Overslept(s: State, t: nat)
  {
    t in s.pcs && ((s.pcs[t].RSleep? && ReaderMayEnter(s)) || (s.pcs[t].WSleep? && WriterMayEnter(s)))
  }

  predicate NotifyPending(s: State)
  {
    exists t :: t in s.pcs && s.pcs[t].Notify?
  }

  /** No wake-up is lost. */
  predicate Awake(s: State)
  {
    (exists t :: t in s.pcs && Overslept(s, t)) ==> NotifyPending(s)
  }

  predicate Inv(s: State)
  {
    Counted(s) && Guarded(s) && Exclusive(s) && Awake(s)
  }

  predicate Init(s: State)
  {
    |s.pcs.Keys| < WRAP && (forall t :: t in s.pcs ==> s.pcs[t] == Idle) &&
    s.mutex == Free && s.readCount == 0 && s.waitingWriters == 0 && !s.writeCount
  }

  lemma InitInv(s: State)
    requires Init(s)
    ensures Inv(s)
  {
    assert Readers(s.pcs) == {} && Writers(s.pcs) == {} && Waiting(s.pcs) == {};
  }

  /** One thread moving changes each of the three sets by at most that thread. */
  lemma GotoSets(pcs: map<nat, Pc>, t: nat, pc: Pc)
    requires t in pcs
    ensures pcs[t := pc].Keys == pcs.Keys
    ensures Readers(pcs[t := pc]) == (if InReadLock(pc) then Readers(pcs) + {t} else Readers(pcs) - {t})
    ensures Writers(pcs[t := pc]) == (if InWriteLock(pc) then Writers(pcs) + {t} else Writers(pcs) - {t})
    ensures Waiting(pcs[t := pc]) == (if AwaitsWriting(pc) then Waiting(pcs) + {t} else Waiting(pcs) - {t})
  {
  }

  lemma SetsBounded(pcs: map<nat, Pc>, t: nat)
    requires t in pcs
    ensures !InReadLock(pcs[t]) ==> |Readers(pcs)| < |pcs.Keys|
    ensures !AwaitsWriting(pcs[t]) ==> |Waiting(pcs)| < |pcs.Keys|
  {
    var others := pcs.Keys - {t};
    if !InReadLock(pcs[t]) { SubsetSize(Readers(pcs), others); }
    if !AwaitsWriting(pcs[t]) { SubsetSize(Waiting(pcs), others); }
  }

  lemma {:induction false} SubsetSize(a: set<nat>, b: set<nat>)
    requires a <= b
    ensures |a| <= |b|
    decreases |a|
  {
    if x :| x in a { SubsetSize(a - {x}, b - {x}); }
  }

  /** What a step of one thread other than a notification does to the fields, by what the thread enters
      and leaves. */
  lemma StepMoves(s: State, t: nat, s': State)
    requires Step(s, t, s') && !s.pcs[t].Notify?
    ensures t in s.pcs && t in s'.pcs && s'.pcs == s.pcs[t := s'.pcs[t]]
  {
  }

  lemma StepReads(s: State, t: nat, s': State)
    requires Step(s, t, s') && !s.pcs[t].Notify? && t in s'.pcs
    ensures var r, r' := InReadLock(s.pcs[t]), InReadLock(s'.pcs[t]);
            if r == r' then s'.readCount == s.readCount
            else if r' then s'.readCount == (s.readCount + 1) % WRAP && ReaderMayEnter(s)
            else s'.readCount == s.readCount - 1
  {
  }

  lemma StepWaits(s: State, t: nat, s': State)
    requires Step(s, t, s') && !s.pcs[t].Notify? && t in s'.pcs
    ensures var w, w' := AwaitsWriting(s.pcs[t]), AwaitsWriting(s'.pcs[t]);
            if w == w' then s'.waitingWriters == s.waitingWriters
            else if w' then s'.waitingWriters == (s.waitingWriters + 1) % WRAP
            else s'.waitingWriters == s.waitingWriters - 1 && s'.writeCount
  {
  }

  lemma StepWrites(s: State, t: nat, s': State)
    requires Step(s, t, s') && !s.pcs[t].Notify? && t in s'.pcs
    ensures var w, w' := InWriteLock(s.pcs[t]), InWriteLock(s'.pcs[t]);
            if w == w' then s'.writeCount == s.writeCount
            else if w' then s'.writeCount && WriterMayEnter(s)
            else !s'.writeCount
  {
  }

  lemma StepMutex(s: State, t: nat, s': State)
    requires Step(s, t, s') && !s.pcs[t].Notify?
    requires HoldsMutex(s.pcs[t]) <==> s.mutex == By(t)
    ensures t in s'.pcs && (HoldsMutex(s'.pcs[t]) <==> s'.mutex == By(t))
    ensures s'.mutex == s.mutex || (s.mutex == By(t) && s'.mutex == Free) || (s.mutex == Free && s'.mutex == By(t))
  {
  }

  /** A set after one element has moved in or out. */
  lemma SizeMoves(a: set<nat>, b: set<nat>, t: nat, inside: bool)
    requires b == if inside then a + {t} else a - {t}
    ensures |b| == |a| + (if inside && t !in a then 1 else 0) - (if !inside && t in a then 1 else 0)
  {
    if inside && t in a { assert b == a; }
    if !inside && t !in a { assert b == a; }
  }

  lemma SizesMove(pcs: map<nat, Pc>, t: nat, pc: Pc)
    requires t in pcs
    ensures |Readers(pcs[t := pc])| ==
            |Readers(pcs)| + (if InReadLock(pc) then 1 else 0) - (if InReadLock(pcs[t]) then 1 else 0)
    ensures |Writers(pcs[t := pc])| ==
            |Writers(pcs)| + (if InWriteLock(pc) then 1 else 0) - (if InWriteLock(pcs[t]) then 1 else 0)
    ensures |Waiting(pcs[t := pc])| ==
            |Waiting(pcs)| + (if AwaitsWriting(pc) then 1 else 0) - (if AwaitsWriting(pcs[t]) then 1 else 0)
    ensures pcs[t := pc].Keys == pcs.Keys
  {
    hide Readers, Writers, Waiting, InReadLock, InWriteLock, AwaitsWriting;
    GotoSets(pcs, t, pc);
    Members(pcs, t);
    SizeMoves(Readers(pcs), Readers(pcs[t := pc]), t, InReadLock(pc));
    SizeMoves(Writers(pcs), Writers(pcs[t := pc]), t, InWriteLock(pc));
    SizeMoves(Waiting(pcs), Waiting(pcs[t := pc]), t, AwaitsWriting(pc));
  }

  lemma Members(pcs: map<nat, Pc>, t: nat)
    requires t in pcs
    ensures t in Readers(pcs) <==> InReadLock(pcs[t])
    ensures t in Writers(pcs) <==> InWriteLock(pcs[t])
    ensures t in Waiting(pcs) <==> AwaitsWriting(pcs[t])
  {
  }

  lemma StepCounted(s: State, t: nat, s': State)
    requires Counted(s) && Step(s, t, s') && !s.pcs[t].Notify?
    ensures Counted(s')
  {
    hide Step, InReadLock, InWriteLock, AwaitsWriting, Readers, Writers, Waiting;
    StepMoves(s, t, s');
    SizesMove(s.pcs, t, s'.pcs[t]);
    SetsBounded(s.pcs, t);
    StepReads(s, t, s');
    StepWaits(s, t, s');
    StepWrites(s, t, s');
  }

  lemma StepGuarded(s: State, t: nat, s': State)
    requires Guarded(s) && Step(s, t, s') && !s.pcs[t].Notify?
    ensures Guarded(s')
  {
    hide Step, HoldsMutex, InReadLock, InWriteLock, AwaitsWriting;
    StepMoves(s, t, s');
    StepMutex(s, t, s');
  }

  /** Any step keeps a writer alone: readers enter only when nobody writes, a writer only when nobody
      reads. */
  lemma StepExclusive(s: State, t: nat, s': State)
    requires Counted(s) && Exclusive(s) && Step(s, t, s') && !s.pcs[t].Notify?
    ensures Exclusive(s')
  {
    hide Step, InReadLock, InWriteLock, AwaitsWriting, Counted;
    StepMoves(s, t, s');
    StepReads(s, t, s');
    StepWrites(s, t, s');
    if InReadLock(s.pcs[t]) { ReadersCounted(s, t); }
    OneAtATime(s.pcs[t]);
    OneAtATime(s'.pcs[t]);
  }

  lemma OneAtATime(pc: Pc)
    ensures !(InReadLock(pc) && InWriteLock(pc))
  {
  }

  lemma ReadersCounted(s: State, t: nat)
    requires Counted(s) && t in s.pcs && InReadLock(s.pcs[t])
    ensures s.readCount > 0
  {
    assert t in Readers(s.pcs);
  }

  /** A thread goes to sleep only when it may not enter. */
  lemma StepSleeps(s: State, t: nat, s': State)
    requires Step(s, t, s') && !s.pcs[t].Notify?
    ensures !Overslept(s', t)
  {
  }

  /** Whoever lets others in will notify them. */
  lemma StepOpens(s: State, t: nat, s': State)
    requires Step(s, t, s') && !s.pcs[t].Notify? && t in s'.pcs
    requires !InReadLock(s.pcs[t]) ==> s.readCount + 1 < WRAP
    requires !AwaitsWriting(s.pcs[t]) ==> s.waitingWriters + 1 < WRAP
    ensures ReaderMayEnter(s') && !ReaderMayEnter(s) ==> s'.pcs[t].Notify?
    ensures WriterMayEnter(s') && !WriterMayEnter(s) ==> s'.pcs[t].Notify?
  {
  }

  lemma StepAwake(s: State, t: nat, s': State)
    requires Counted(s) && Awake(s) && Step(s, t, s') && !s.pcs[t].Notify?
    ensures Awake(s')
  {
    hide Step, Counted, InReadLock, InWriteLock, AwaitsWriting, ReaderMayEnter, WriterMayEnter;
    StepMoves(s, t, s');
    RoomLeft(s, t);
    StepOpens(s, t, s');
    StepSleeps(s, t, s');
    if u :| u in s'.pcs && Overslept(s', u) {
      if Overslept(s, u) {
        var v :| v in s.pcs && s.pcs[v].Notify?;
        assert v in s'.pcs && s'.pcs[v].Notify?;
      } else {
        assert s'.pcs[t].Notify?;
      }
    }
  }

  lemma RoomLeft(s: State, t: nat)
    requires Counted(s) && t in s.pcs
    ensures !InReadLock(s.pcs[t]) ==> s.readCount + 1 < WRAP
    ensures !AwaitsWriting(s.pcs[t]) ==> s.waitingWriters + 1 < WRAP
  {
    hide Readers, Writers, Waiting;
    SetsBounded(s.pcs, t);
  }

  /** A notification wakes every sleeper and touches nothing else. */
  lemma NotifyMoves(s: State, t: nat)
    requires t in s.pcs && s.pcs[t].Notify?
    ensures var pcs := NotifyAll(s, t).pcs;
            pcs.Keys == s.pcs.Keys && Readers(pcs) == Readers(s.pcs) && Writers(pcs) == Writers(s.pcs) &&
            Waiting(pcs) == Waiting(s.pcs) &&
            forall u :: u in pcs ==>
              (HoldsMutex(pcs[u]) <==> HoldsMutex(s.pcs[u])) && !pcs[u].RSleep? && !pcs[u].WSleep?
  {
  }

  lemma NotifyKeeps(s: State, t: nat)
    requires Inv(s) && t in s.pcs && s.pcs[t].Notify?
    ensures Inv(NotifyAll(s, t))
  {
    hide Readers, Writers, Waiting, HoldsMutex;
    NotifyMoves(s, t);
  }

  /** Every step of every thread keeps the invariant. */
  lemma StepInv(s: State, t: nat, s': State)
    requires Inv(s) && Step(s, t, s')
    ensures Inv(s')
  {
    hide Step, Counted, Guarded, Exclusive, Awake, NotifyAll;
    StepThere(s, t, s');
    if s.pcs[t].Notify? {
      NotifyKeeps(s, t);
    } else {
      StepCounted(s, t, s');
      StepGuarded(s, t, s');
      StepExclusive(s, t, s');
      StepAwake(s, t, s');
    }
  }

  lemma StepThere(s: State, t: nat, s': State)
    requires Step(s, t, s')
    ensures t in s.pcs && (s.pcs[t].Notify? ==> s' == NotifyAll(s, t))
  {
    hide NotifyAll;
  }

  ghost predicate Next(s: State, s': State)
  {
    exists t :: Step(s, t, s')
  }

  /** A run: any threads, any interleaving. */
  ghost predicate Run(trace: seq<State>)
  {
    trace != [] && Init(trace[0]) && forall i :: 0 <= i < |trace| - 1 ==> Next(trace[i], trace[i + 1])
  }

  lemma {:induction false} RunInv(trace: seq<State>, i: nat)
    requires Run(trace) && i < |trace|
    ensures Inv(trace[i])
    decreases i
  {
    hide Step, Inv, Init;
    if i == 0 {
      InitInv(trace[0]);
    } else {
      RunInv(trace, i - 1);
      var j := i - 1;
      assert Next(trace[j], trace[j + 1]);
      var t :| Step(trace[j], t, trace[j + 1]);
      StepInv(trace[j], t, trace[i]);
    }
  }

  /** In every state of every run, a thread inside the write lock is alone in the lock. */
  lemma WriterAlone(trace: seq<State>, i: nat, t: nat, u: nat)
    requires Run(trace) && i < |trace| && t in trace[i].pcs && u in trace[i].pcs && t != u
    requires InWriteLock(trace[i].pcs[t])
    ensures !InReadLock(trace[i].pcs[u]) && !InWriteLock(trace[i].pcs[u])
  {
    hide Run;
    RunInv(trace, i);
    var s := trace[i];
    var w := Writers(s.pcs);
    assert t in w;
    assert s.writeCount;
    assert Readers(s.pcs) == {};
    assert |w - {t}| == 0;
    assert u in w ==> u in w - {t};
    assert InReadLock(s.pcs[u]) ==> u in Readers(s.pcs);
  }

  /** In every run, a reader that enters finds no writer inside and none waiting. */
  lemma WritersFirst(trace: seq<State>, i: nat, t: nat, u: nat)
    requires Run(trace) && i + 1 < |trace| && t in trace[i].pcs && Step(trace[i], t, trace[i + 1])
    requires t in trace[i + 1].pcs && !InReadLock(trace[i].pcs[t]) && InReadLock(trace[i + 1].pcs[t])
    requires u in trace[i].pcs
    ensures !AwaitsWriting(trace[i].pcs[u]) && !InWriteLock(trace[i].pcs[u])
  {
    hide Run, Step, InReadLock, InWriteLock, AwaitsWriting;
    RunInv(trace, i);
    var s := trace[i];
    NotifyEntersNobody(s, t, trace[i + 1]);
    StepReads(s, t, trace[i + 1]);
    assert Waiting(s.pcs) == {} && Writers(s.pcs) == {};
    Members(s.pcs, u);
  }

  lemma NotifyEntersNobody(s: State, t: nat, s': State)
    requires Step(s, t, s') && t in s'.pcs && InReadLock(s'.pcs[t])
    ensures !s.pcs[t].Notify?
  {
  }

  lemma CountedHere(s: State, t: nat)
    requires Inv(s) && t in s.pcs
    ensures (s.pcs[t].RuHeld? ==> s.readCount > 0) && (s.pcs[t].WuHeld? ==> s.writeCount)
    ensures s.pcs[t].WCheck? ==> s.waitingWriters > 0
  {
    Members(s.pcs, t);
  }

  /** The source's own assertions hold in every run: a thread that unlocks has been counted. */
  lemma UnlockCounted(trace: seq<State>, i: nat, t: nat)
    requires Run(trace) && i < |trace| && t in trace[i].pcs
    ensures trace[i].pcs[t].RuHeld? ==> trace[i].readCount > 0
    ensures trace[i].pcs[t].WuHeld? ==> trace[i].writeCount
    ensures trace[i].pcs[t].WCheck? ==> trace[i].waitingWriters > 0
  {
    hide Run, Inv;
    RunInv(trace, i);
    CountedHere(trace[i], t);
  }

  /** No run leaves a thread asleep for good: while one sleeps, somebody is inside the lock or has steps of
      its own to do. */
  lemma SleepersAttended(trace: seq<State>, i: nat, t: nat)
    requires Run(trace) && i < |trace| && t in trace[i].pcs && (trace[i].pcs[t].RSleep? || trace[i].pcs[t].WSleep?)
    ensures var pcs := trace[i].pcs; exists u :: u in pcs && (Busy(pcs[u]) || pcs[u].Reading? || pcs[u].Writing?)
  {
    hide Run;
    RunInv(trace, i);
    var s := trace[i];
    if Quiet(s) { QuietSleepless(s, t); }
  }

  predicate Quiet(s: State)
  {
    forall u :: u in s.pcs ==> !Busy(s.pcs[u]) && !s.pcs[u].Reading? && !s.pcs[u].Writing?
  }

  lemma QuietSleepless(s: State, t: nat)
    requires Inv(s) && Quiet(s) && t in s.pcs
    ensures !s.pcs[t].RSleep? && !s.pcs[t].WSleep?
  {
    assert Readers(s.pcs) == {} && Writers(s.pcs) == {};
    assert forall u :: u in s.pcs ==> !Overslept(s, u);
    assert forall u :: u in s.pcs ==> !s.pcs[u].WSleep?;
    assert Waiting(s.pcs) == {};
  }

  /** In every state of every run: if a sleeping thread might enter, a notification is on its way. */
  lemma NoLostWakeUp(trace: seq<State>, i: nat, t: nat)
    requires Run(trace) && i < |trace| && t in trace[i].pcs && Overslept(trace[i], t)
    ensures NotifyPending(trace[i])
  {
    hide Run, Counted, Guarded, Overslept, NotifyPending;
    RunInv(trace, i);
  }

  lemma SomeoneMoves(s: State, t: nat) returns (u: nat)
    requires Inv(s) && t in s.pcs && Busy(s.pcs[t])
    ensures u in s.pcs && Busy(s.pcs[u]) && Step(s, u, Onward(s, u))
  {
    hide Onward;
    u := if s.mutex.By? then s.mutex.thread else t;
    CountedHere(s, u);
  }

  /** No run gets stuck on the mutex: while a thread is busy, some busy thread can move. */
  lemma BusyMoves(trace: seq<State>, i: nat, t: nat)
    requires Run(trace) && i < |trace| && t in trace[i].pcs && Busy(trace[i].pcs[t])
    ensures exists u :: u in trace[i].pcs && Busy(trace[i].pcs[u]) && Step(trace[i], u, Onward(trace[i], u))
  {
    hide Run, Onward, Inv, Step;
    RunInv(trace, i);
    var u := SomeoneMoves(trace[i], t);
  }

  // Sleepers do occur: a writer enters, and a reader goes to sleep behind it.

  function Two(a: Pc, b: Pc, mutex: Owner, waitingWriters: nat, writeCount: bool): State
  {
    State(map[0 := a, 1 := b], mutex, 0, waitingWriters, writeCount)
  }

  lemma TwoMoves(a: Pc, b: Pc, c: Pc, mutex: Owner, waitingWriters: nat, writeCount: bool)
    ensures Goto(Two(a, b, mutex, waitingWriters, writeCount), 0, c) == Two(c, b, mutex, waitingWriters, writeCount)
    ensures Goto(Two(a, b, mutex, waitingWriters, writeCount), 1, c) == Two(a, c, mutex, waitingWriters, writeCount)
  {
  }

  lemma WriterSteps()
    ensures Step(Two(Idle, Idle, Free, 0, false), 0, Two(WStart, Idle, Free, 0, false))
    ensures Step(Two(WStart, Idle, Free, 0, false), 0, Two(WHeld, Idle, By(0), 0, false))
    ensures Step(Two(WHeld, Idle, By(0), 0, false), 0, Two(WCheck, Idle, By(0), 1, false))
  {
    hide Goto;
    TwoMoves(Idle, Idle, WStart, Free, 0, false);
    TwoMoves(WStart, Idle, WHeld, Free, 0, false);
    TwoMoves(WHeld, Idle, WCheck, By(0), 0, false);
  }

  lemma WriterEnters()
    ensures Step(Two(WCheck, Idle, By(0), 1, false), 0, Two(Writing, Idle, Free, 0, true))
  {
    hide Goto;
    TwoMoves(WCheck, Idle, Writing, By(0), 1, false);
  }

  lemma ReaderSteps()
    ensures Step(Two(Writing, Idle, Free, 0, true), 1, Two(Writing, RStart, Free, 0, true))
    ensures Step(Two(Writing, RStart, Free, 0, true), 1, Two(Writing, RCheck, By(1), 0, true))
    ensures Step(Two(Writing, RCheck, By(1), 0, true), 1, Two(Writing, RSleep, Free, 0, true))
  {
    hide Goto;
    TwoMoves(Writing, Idle, RStart, Free, 0, true);
    TwoMoves(Writing, RStart, RCheck, Free, 0, true);
    TwoMoves(Writing, RCheck, RSleep, By(1), 0, true);
  }

  lemma Extended(trace: seq<State>, t: nat, s: State)
    requires Run(trace) && Step(trace[|trace| - 1], t, s)
    ensures Run(trace + [s])
  {
    hide Step, Init;
    assert Next(trace[|trace| - 1], s);
  }

  lemma ReaderSleeps() returns (trace: seq<State>)
    ensures Run(trace) && trace[|trace| - 1] == Two(Writing, RSleep, Free, 0, true)
  {
    StartsIdle();
    hide Step, Run, Two;
    WriterSteps();
    WriterEnters();
    ReaderSteps();
    trace := [Two(Idle, Idle, Free, 0, false)];
    Extended(trace, 0, Two(WStart, Idle, Free, 0, false));
    trace := trace + [Two(WStart, Idle, Free, 0, false)];
    Extended(trace, 0, Two(WHeld, Idle, By(0), 0, false));
    trace := trace + [Two(WHeld, Idle, By(0), 0, false)];
    Extended(trace, 0, Two(WCheck, Idle, By(0), 1, false));
    trace := trace + [Two(WCheck, Idle, By(0), 1, false)];
    Extended(trace, 0, Two(Writing, Idle, Free, 0, true));
    trace := trace + [Two(Writing, Idle, Free, 0, true)];
    Extended(trace, 1, Two(Writing, RStart, Free, 0, true));
    trace := trace + [Two(Writing, RStart, Free, 0, true)];
    Extended(trace, 1, Two(Writing, RCheck, By(1), 0, true));
    trace := trace + [Two(Writing, RCheck, By(1), 0, true)];
    Extended(trace, 1, Two(Writing, RSleep, Free, 0, true));
    trace := trace + [Two(Writing, RSleep, Free, 0, true)];
  }

  lemma StartsIdle()
    ensures Run([Two(Idle, Idle, Free, 0, false)])
  {
    var s := Two(Idle, Idle, Free, 0, false);
    assert s.pcs.Keys == {0, 1};
  }
}
