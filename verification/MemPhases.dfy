/** Whole histories of the allocator: calls by one thread, phases of many threads, deinit and init in between. */
module MemPhases {
  import opened CTypes
  import opened MemLedger
  import MemSession
  import MemSessionProofs
  import opened MemThreads
  import opened MemThreadsProofs
  import opened MemThreadsTheorems

  // ----- the C heap under threads: what goes out and what comes back -----

  /** What an action gives back to the C heap is live at that moment. */
  lemma FreesOneLiveBlock(s: Shared, foreign: set<Addr>, a: Action)
    requires Balanced(s, foreign) && Enabled(s, a)
    ensures FreedBy(s, a) <= multiset(s.heap.Keys)
  {
    match a
    case Realloc(_, ptr, _, _, _) => OwnedIsLive(s, foreign);
    case RealFree(t) => InFlightIsLive(s, foreign, t, s.threads[t].p);
    case LockedUnlink(_, ptr) =>
      if Find(s.ledger.entries, ptr) < |s.ledger.entries| {
        NodeIsLive(s, foreign, Find(s.ledger.entries, ptr));
      }
    case _ =>
  }

  lemma TrafficAt(s: Shared, a: Action, x: Addr)
    requires Enabled(s, a) && FreedBy(s, a) <= multiset(s.heap.Keys)
    ensures Once(x in Apply(s, a).heap) + FreedBy(s, a)[x] == Once(x in s.heap) + TakenBy(a)[x]
  {
    assert FreedBy(s, a)[x] <= multiset(s.heap.Keys)[x];
  }

  lemma ActionTraffic(s: Shared, foreign: set<Addr>, a: Action)
    requires Balanced(s, foreign) && Enabled(s, a)
    ensures multiset(Apply(s, a).heap.Keys) + FreedBy(s, a) == multiset(s.heap.Keys) + TakenBy(a)
  {
    FreesOneLiveBlock(s, foreign, a);
    var before, after := multiset(s.heap.Keys), multiset(Apply(s, a).heap.Keys);
    forall x: Addr ensures (after + FreedBy(s, a))[x] == (before + TakenBy(a))[x] {
      TrafficAt(s, a, x);
    }
  }

  lemma {:induction false} ScheduleTraffic(s: Shared, foreign: set<Addr>, actions: seq<Action>)
    requires Balanced(s, foreign) && Schedule(s, actions)
    ensures multiset(Execute(s, actions).heap.Keys) + AllFreed(s, actions) == multiset(s.heap.Keys) + AllTaken(actions)
    decreases |actions|
  {
    if actions != [] {
      var a, rest, t := actions[0], actions[1..], Apply(s, actions[0]);
      ActionBalanced(s, foreign, a);
      ActionTraffic(s, foreign, a);
      ScheduleTraffic(t, foreign, rest);
      hide Balanced, Apply, FreedBy, TakenBy;
      Chain(multiset(s.heap.Keys), multiset(t.heap.Keys), multiset(Execute(t, rest).heap.Keys),
            TakenBy(a), AllTaken(rest), FreedBy(s, a), AllFreed(t, rest));
    }
  }

  lemma Chain(a: multiset<Addr>, b: multiset<Addr>, c: multiset<Addr>,
              out1: multiset<Addr>, out2: multiset<Addr>, back1: multiset<Addr>, back2: multiset<Addr>)
    requires b + back1 == a + out1 && c + back2 == b + out2
    ensures c + (back1 + back2) == a + (out1 + out2)
  {
    forall x ensures (c + (back1 + back2))[x] == (a + (out1 + out2))[x] {
      assert (b + back1)[x] == (a + out1)[x] && (c + back2)[x] == (b + out2)[x];
    }
  }

  // ----- phases -----

  /**
    * One stretch of a program's life: calls by a single thread, deinit and init among them, or `n` threads that start
    * in client code, interleave in any way and are all back in client code at the end.
    */
  datatype Phase = Calls(ops: seq<MemSession.Op>) | Threads(n: nat, actions: seq<Action>)

  predicate LegalPhase(w: MemSession.World, ph: Phase) {
    match ph
    case Calls(ops) => MemSession.LegalRun(w, ops)
    case Threads(n, actions) =>
      && w.s.on && Schedule(Fork(w.s, n), actions) && Quiet(Execute(Fork(w.s, n), actions))
  }

  /** The blocks of clients that tracing does not know about. */
  function Foreign(a: MemSession.Account): set<Addr> {
    a.held - a.records.Keys
  }

  /**
    * One thread goes on alone. The observer counts the heap traffic of all threads, knows which blocks their clients
    * hold, and takes over what is recorded about these.
    */
  function Join(w: MemSession.World, n: nat, actions: seq<Action>): MemSession.World
    requires Schedule(Fork(w.s, n), actions)
  {
    var start := Fork(w.s, n);
    var end := Execute(start, actions);
    MemSession.World(
      MemSession.State(true, end.ledger, end.heap),
      w.a.(taken := w.a.taken + AllTaken(actions), freed := w.a.freed + AllFreed(start, actions),
           held := end.owned + Foreign(w.a), records := Records(end.ledger.entries)))
  }

  function NextPhase(w: MemSession.World, ph: Phase): MemSession.World
    requires LegalPhase(w, ph)
  {
    match ph
    case Calls(ops) => MemSession.Run(w, ops)
    case Threads(n, actions) => Join(w, n, actions)
  }

  predicate LegalPhases(w: MemSession.World, phases: seq<Phase>)
    decreases |phases|
  {
    phases == [] || (LegalPhase(w, phases[0]) && LegalPhases(NextPhase(w, phases[0]), phases[1..]))
  }

  function RunPhases(w: MemSession.World, phases: seq<Phase>): MemSession.World
    requires LegalPhases(w, phases)
    decreases |phases|
  {
    if phases == [] then w else RunPhases(NextPhase(w, phases[0]), phases[1..])
  }

  // ----- threads can always get back to client code -----

  function Work(pc: Pc): nat {
    if pc.Idle? then 0 else if pc.Moved? then 3 else if pc.Obtained? then 2 else 1
  }

  function AllWork(ts: seq<Pc>): nat {
    if ts == [] then 0 else Work(ts[0]) + AllWork(ts[1..])
  }

  lemma {:induction false} LessWork(ts: seq<Pc>, t: nat, pc: Pc)
    requires t < |ts| && Work(pc) < Work(ts[t])
    ensures AllWork(ts[t := pc]) < AllWork(ts)
  {
    if t == 0 {
      assert ts[0 := pc][1..] == ts[1..];
    } else {
      LessWork(ts[1..], t - 1, pc);
      assert ts[t := pc][1..] == ts[1..][t - 1 := pc];
    }
  }

  /** A next step of a thread inside a wrapper, with no memory for a node. */
  function StepOn(t: nat, pc: Pc): Action {
    match pc
    case Obtained(_, _, _) => NodeMalloc(t, NULL)
    case Ready(_, _, _, _) => LockedPush(t)
    case Moved(_, _, _, _, _) => LockedRetarget(t)
    case _ => RealFree(t)
  }

  lemma StepsOn(s: Shared, t: nat)
    requires t < |s.threads| && !s.threads[t].Idle?
    ensures var a := StepOn(t, s.threads[t]);
            Enabled(s, a) && AllWork(Apply(s, a).threads) < AllWork(s.threads)
  {
    var a := StepOn(t, s.threads[t]);
    assert Enabled(s, a);
    var pc := Apply(s, a).threads[t];
    assert Apply(s, a).threads == s.threads[t := pc] && Work(pc) < Work(s.threads[t]);
    hide Apply, Work;
    LessWork(s.threads, t, pc);
  }

  lemma {:induction false} CanEnd(s: Shared) returns (rest: seq<Action>)
    ensures Schedule(s, rest) && Quiet(Execute(s, rest))
    decreases AllWork(s.threads)
  {
    if t: nat :| t < |s.threads| && !s.threads[t].Idle? {
      var a := StepOn(t, s.threads[t]);
      StepsOn(s, t);
      hide Enabled, Apply, Quiet, StepOn;
      var more := CanEnd(Apply(s, a));
      rest := [a] + more;
      assert rest[1..] == more;
    } else {
      rest := [];
    }
  }

  lemma {:induction false} ScheduleOn(s: Shared, actions: seq<Action>, rest: seq<Action>)
    requires Schedule(s, actions) && Schedule(Execute(s, actions), rest)
    ensures Schedule(s, actions + rest) && Execute(s, actions + rest) == Execute(Execute(s, actions), rest)
    decreases |actions|
  {
    if actions == [] {
      assert actions + rest == rest;
    } else {
      var all, t, more := actions + rest, Apply(s, actions[0]), actions[1..];
      assert all[0] == actions[0] && all[1..] == more + rest;
      FirstAction(s, actions);
      hide Enabled, Apply, Execute, Schedule;
      ScheduleOn(t, more, rest);
      FirstAction(s, all);
    }
  }

  // ----- every phase keeps the agreement -----

  lemma JoinConserves(w: MemSession.World, n: nat, actions: seq<Action>)
    requires MemSession.Agrees(w.s, w.a) && LegalPhase(w, Threads(n, actions))
    ensures var v := Join(w, n, actions); MemSession.Conserves(v.s, v.a)
  {
    var start, end := Fork(w.s, n), Execute(Fork(w.s, n), actions);
    assert w.a.taken == w.a.freed + multiset(w.s.heap.Keys);
    ForkFits(w.s, w.a, n);
    ScheduleKeeps(start, Foreign(w.a), w.a.droppedBlocks, w.a.droppedBytes, actions);
    ScheduleTraffic(start, Foreign(w.a), actions);
    QuietKeys(end, Foreign(w.a));
    hide MemSession.Agrees, Balanced, Execute, Schedule, AllFreed, Quiet;
    Booked(w.a.taken, w.a.freed, multiset(w.s.heap.Keys), multiset(end.heap.Keys),
           AllTaken(actions), AllFreed(start, actions));
  }

  lemma Booked(taken: multiset<Addr>, freed: multiset<Addr>, live: multiset<Addr>, live': multiset<Addr>,
               out: multiset<Addr>, back: multiset<Addr>)
    requires taken == freed + live && live' + back == live + out
    ensures taken + out == freed + back + live'
  {
    forall x ensures (taken + out)[x] == (freed + back + live')[x] {
      assert (live' + back)[x] == (live + out)[x];
    }
  }

  /** When many threads have come and gone, one thread finds everything as if it had been alone. */
  lemma JoinAgrees(w: MemSession.World, n: nat, actions: seq<Action>)
    requires MemSession.Agrees(w.s, w.a) && LegalPhase(w, Threads(n, actions))
    ensures var v := Join(w, n, actions); MemSession.Agrees(v.s, v.a)
    ensures Foreign(Join(w, n, actions).a) == Foreign(w.a)
  {
    var end := Execute(Fork(w.s, n), actions);
    assert w.a.tracing;
    ForkFits(w.s, w.a, n);
    ScheduleKeeps(Fork(w.s, n), Foreign(w.a), w.a.droppedBlocks, w.a.droppedBytes, actions);
    JoinConserves(w, n, actions);
    QuietInv(end, Foreign(w.a));
    QuietKeys(end, Foreign(w.a));
    QuietRecords(end, Foreign(w.a));
    hide MemSession.Inv, MemSession.Conserves, Balanced, Schedule, Execute, Records, Quiet, AllFreed;
  }

  /** Every history of calls and threaded phases, with any number of sessions, keeps state and account in agreement. */
  lemma {:induction false} PhasesAgree(w: MemSession.World, phases: seq<Phase>)
    requires MemSession.Agrees(w.s, w.a) && LegalPhases(w, phases)
    ensures var v := RunPhases(w, phases); MemSession.Agrees(v.s, v.a)
    decreases |phases|
  {
    if phases != [] {
      hide MemSession.Agrees, Join;
      match phases[0]
      case Calls(ops) =>
        MemSessionProofs.RunAgrees(w, ops);
        PhasesAgree(NextPhase(w, phases[0]), phases[1..]);
      case Threads(n, actions) =>
        JoinAgrees(w, n, actions);
        PhasesAgree(NextPhase(w, phases[0]), phases[1..]);
    }
  }
}
