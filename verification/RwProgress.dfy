/** Progress of the read/write lock (config/src/rwmutex.cpp): once no thread asks for the lock any more, every run
    comes to an end, whatever the order of the steps, and everyone who has asked has got in. */
module RwProgress {
  import opened RwLock

  /** A step that is neither a new request nor a spurious wake-up. */
  predicate Advances(s: State, t: nat, s': State)
  {
    Step(s, t, s') && !s.pcs[t].Idle? && !s.pcs[t].RSleep? && !s.pcs[t].WSleep?
  }

  const TOP: nat := 10

  /** How far a thread is from being idle, if no notification comes in between. */
  function Phase(pc: Pc): (k: nat)
    ensures k <= TOP && (k == 0 <==> pc.Idle?)
  {
    match pc
    case WStart => 10
    case RStart | RWoken | WHeld | WWoken => 9
    case RCheck | WCheck => 8
    case RSleep | WSleep => 7
    case Reading | Writing => 6
    case RuStart | WuStart => 5
    case RuHeld | WuHeld => 4
    case Notify => 3
    case Idle => 0
  }

  /** The threads in phase k or higher. */
  function Above(pcs: map<nat, Pc>, k: nat): set<nat>
  {
    set t | t in pcs && Phase(pcs[t]) >= k
  }

  /** The phases of all threads together, those above k counted as k. */
  function Total(pcs: map<nat, Pc>, k: nat): nat
  {
    if k == 0 then 0 else |Above(pcs, k)| + Total(pcs, k - 1)
  }

  function Capped(pc: Pc, k: nat): nat
  {
    if Phase(pc) < k then Phase(pc) else k
  }

  lemma AboveMoves(pcs: map<nat, Pc>, t: nat, pc: Pc, k: nat)
    requires t in pcs
    ensures |Above(pcs[t := pc], k)| ==
            |Above(pcs, k)| + (if Phase(pc) >= k then 1 else 0) - (if Phase(pcs[t]) >= k then 1 else 0)
  {
    hide Phase;
    var a, b := Above(pcs, k), Above(pcs[t := pc], k);
    assert b == if Phase(pc) >= k then a + {t} else a - {t};
    SizeMoves(a, b, t, Phase(pc) >= k);
  }

  lemma {:induction false} TotalMoves(pcs: map<nat, Pc>, t: nat, pc: Pc, k: nat)
    requires t in pcs
    ensures Total(pcs[t := pc], k) == Total(pcs, k) + Capped(pc, k) - Capped(pcs[t], k)
  {
    hide Phase, Above;
    if k > 0 {
      AboveMoves(pcs, t, pc, k);
      TotalMoves(pcs, t, pc, k - 1);
    }
  }

  lemma {:induction false} TotalBounded(pcs: map<nat, Pc>, k: nat)
    ensures Total(pcs, k) <= k * |pcs.Keys|
  {
    hide Phase;
    if k > 0 {
      SubsetSize(Above(pcs, k), pcs.Keys);
      TotalBounded(pcs, k - 1);
      OneMoreTimes(k - 1, |pcs.Keys|);
    }
  }

  lemma OneMoreTimes(k: nat, n: nat)
    ensures (k + 1) * n == k * n + n
  {
  }

  /** Threads that are not idle weigh more than all phases together, since a notification costs its thread and puts
      the sleepers back. */
  function Measure(s: State): nat
  {
    |Above(s.pcs, 1)| * (TOP * |s.pcs.Keys| + 1) + Total(s.pcs, TOP)
  }

  /** A step of one thread lowers its phase. */
  lemma PhaseFalls(s: State, t: nat, s': State)
    requires Advances(s, t, s') && !s.pcs[t].Notify?
    ensures t in s'.pcs && Phase(s'.pcs[t]) < Phase(s.pcs[t])
  {
  }

  /** A notification leaves one thread less that is not idle. */
  lemma NotifyFalls(s: State, t: nat)
    requires t in s.pcs && s.pcs[t].Notify?
    ensures NotifyAll(s, t).pcs.Keys == s.pcs.Keys
    ensures |Above(NotifyAll(s, t).pcs, 1)| == |Above(s.pcs, 1)| - 1
  {
    var a, b := Above(s.pcs, 1), Above(NotifyAll(s, t).pcs, 1);
    assert forall u :: u in s.pcs ==> (Phase(Woken(s.pcs[u])) >= 1 <==> Phase(s.pcs[u]) >= 1);
    assert t in a && b == a - {t};
  }

  /** Every such step makes the measure smaller. */
  lemma AdvanceFalls(s: State, t: nat, s': State)
    requires Advances(s, t, s')
    ensures Measure(s') < Measure(s)
  {
    hide Phase, Above, Total, NotifyAll;
    if s.pcs[t].Notify? {
      AdvanceNotifies(s, t, s');
      NotifyFalls(s, t);
      TotalBounded(s'.pcs, TOP);
      FewerWeighLess(|Above(s'.pcs, 1)|, TOP * |s.pcs.Keys|, Total(s'.pcs, TOP));
    } else {
      PhaseFalls(s, t, s');
      AdvanceMoves(s, t, s');
      AboveMoves(s.pcs, t, s'.pcs[t], 1);
      TotalMoves(s.pcs, t, s'.pcs[t], TOP);
      SameWeigh(|Above(s'.pcs, 1)|, |Above(s.pcs, 1)|, TOP * |s.pcs.Keys| + 1);
    }
  }

  lemma AdvanceNotifies(s: State, t: nat, s': State)
    requires Advances(s, t, s') && s.pcs[t].Notify?
    ensures s' == NotifyAll(s, t)
  {
    hide NotifyAll;
  }

  lemma AdvanceMoves(s: State, t: nat, s': State)
    requires Advances(s, t, s') && !s.pcs[t].Notify?
    ensures t in s'.pcs && s'.pcs == s.pcs[t := s'.pcs[t]] && s'.pcs.Keys == s.pcs.Keys
  {
    hide Step;
    StepMoves(s, t, s');
  }

  lemma FewerWeighLess(a: nat, w: nat, total: nat)
    requires total <= w
    ensures a * (w + 1) + total < (a + 1) * (w + 1)
  {
    OneMoreTimes(a, w + 1);
  }

  lemma SameWeigh(a: nat, b: nat, w: nat)
    requires a <= b
    ensures a * w <= b * w
  {
  }

  ghost predicate Moves(s: State, s': State)
  {
    exists t :: Advances(s, t, s')
  }

  /** A run in which nothing new is asked for. */
  ghost predicate Draining(trace: seq<State>)
  {
    trace != [] && forall i :: 0 <= i < |trace| - 1 ==> Moves(trace[i], trace[i + 1])
  }

  /** No such run is longer than the measure of its start. */
  lemma {:induction false} DrainingEnds(trace: seq<State>, i: nat)
    requires Draining(trace) && i < |trace|
    ensures i + Measure(trace[i]) <= Measure(trace[0])
    decreases i
  {
    hide Advances, Measure;
    if i > 0 {
      DrainingEnds(trace, i - 1);
      var j := i - 1;
      assert Moves(trace[j], trace[j + 1]);
      var t :| Advances(trace[j], t, trace[j + 1]);
      AdvanceFalls(trace[j], t, trace[i]);
    }
  }

  lemma {:induction false} DrainingInv(trace: seq<State>, i: nat)
    requires Draining(trace) && Inv(trace[0]) && i < |trace|
    ensures Inv(trace[i]) && trace[i].pcs.Keys == trace[0].pcs.Keys
    decreases i
  {
    hide Step, Inv;
    if i > 0 {
      DrainingInv(trace, i - 1);
      var j := i - 1;
      assert Moves(trace[j], trace[j + 1]);
      var t :| Advances(trace[j], t, trace[j + 1]);
      StepInv(trace[j], t, trace[i]);
      SameThreads(trace[j], t, trace[i]);
    }
  }

  lemma SameThreads(s: State, t: nat, s': State)
    requires Step(s, t, s')
    ensures s'.pcs.Keys == s.pcs.Keys
  {
  }

  ghost predicate AtRest(s: State)
  {
    forall t, s' :: !Advances(s, t, s')
  }

  /** When nothing advances any more, everyone is idle. */
  lemma RestIsIdle(s: State, t: nat)
    requires Inv(s) && AtRest(s) && t in s.pcs
    ensures s.pcs[t].Idle?
  {
    hide Inv, Onward, Step;
    forall u | u in s.pcs ensures !Busy(s.pcs[u]) && !s.pcs[u].Reading? && !s.pcs[u].Writing? {
      if s.pcs[u].Reading? || s.pcs[u].Writing? {
        HolderMoves(s, u);
      } else if Busy(s.pcs[u]) {
        BusyAdvances(s, u);
      }
    }
    QuietSleepless(s, t);
  }

  lemma BusyAdvances(s: State, u: nat)
    requires Inv(s) && u in s.pcs && Busy(s.pcs[u])
    ensures !AtRest(s)
  {
    hide Inv, Onward, Step;
    var v := SomeoneMoves(s, u);
    assert Advances(s, v, Onward(s, v));
  }

  lemma HolderMoves(s: State, u: nat)
    requires u in s.pcs && (s.pcs[u].Reading? || s.pcs[u].Writing?)
    ensures Advances(s, u, Goto(s, u, if s.pcs[u].Reading? then RuStart else WuStart))
  {
  }

  /** A thread that has asked for the lock and has not got it yet. */
  predicate Asks(pc: Pc)
  {
    pc.RStart? || pc.RCheck? || pc.RSleep? || pc.RWoken? ||
    pc.WStart? || pc.WHeld? || pc.WCheck? || pc.WSleep? || pc.WWoken?
  }

  predicate Inside(pc: Pc) { InReadLock(pc) || InWriteLock(pc) }

  /** Nobody who asks goes away without the lock. */
  lemma AsksOrEnters(s: State, t: nat, s': State, u: nat)
    requires Step(s, t, s') && u in s.pcs && u in s'.pcs && Asks(s.pcs[u])
    ensures Asks(s'.pcs[u]) || Inside(s'.pcs[u])
  {
  }

  lemma {:induction false} StillAsks(trace: seq<State>, t: nat, i: nat)
    requires Draining(trace) && Inv(trace[0]) && t in trace[0].pcs && Asks(trace[0].pcs[t]) && i < |trace|
    ensures t in trace[i].pcs
    ensures Asks(trace[i].pcs[t]) || exists j :: 0 <= j <= i && t in trace[j].pcs && Inside(trace[j].pcs[t])
    decreases i
  {
    hide Step, Inv, Asks, Inside;
    DrainingInv(trace, i);
    if i > 0 {
      StillAsks(trace, t, i - 1);
      var j := i - 1;
      assert Moves(trace[j], trace[j + 1]);
      var u :| Advances(trace[j], u, trace[j + 1]);
      if Asks(trace[j].pcs[t]) { AsksOrEnters(trace[j], u, trace[i], t); }
    }
  }

  /** Every thread that has asked gets in: in any run from a reachable state without new requests that has come to
      rest. By DrainingEnds every run comes to rest, within as many steps as the measure says. */
  lemma EveryoneGetsIn(trace: seq<State>, t: nat)
    requires Draining(trace) && Inv(trace[0]) && AtRest(trace[|trace| - 1])
    requires t in trace[0].pcs && Asks(trace[0].pcs[t])
    ensures exists j :: 0 <= j < |trace| && t in trace[j].pcs && Inside(trace[j].pcs[t])
    ensures |trace| <= Measure(trace[0]) + 1
  {
    hide Inv, Draining, AtRest, Inside, Measure;
    var last := |trace| - 1;
    assert trace != [] by { NotEmpty(trace); }
    StillAsks(trace, t, last);
    DrainingInv(trace, last);
    RestIsIdle(trace[last], t);
    DrainingEnds(trace, last);
  }

  lemma NotEmpty(trace: seq<State>)
    requires Draining(trace)
    ensures trace != []
  {
  }
}
