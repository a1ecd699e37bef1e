/** The promises of the tracing allocator in every state that calls, threads, deinits and inits can lead to. */
module MemPhasesTheorems {
  import opened CTypes
  import opened Bags
  import opened MemLedger
  import MemSession
  import MemSessionProofs
  import MemSessionTheorems
  import opened MemThreads
  import opened MemThreadsProofs
  import opened MemThreadsTheorems
  import opened MemThreadsSizes
  import opened MemPhases
  import opened MemDrift

  /** A program from its start. */
  predicate History(phases: seq<Phase>) {
    LegalPhases(MemSession.World(MemSession.Start(), MemSession.Opening()), phases)
  }

  function Ending(phases: seq<Phase>): MemSession.World
    requires History(phases)
  {
    RunPhases(MemSession.World(MemSession.Start(), MemSession.Opening()), phases)
  }

  lemma EndingAgrees(phases: seq<Phase>)
    requires History(phases)
    ensures MemSession.Agrees(Ending(phases).s, Ending(phases).a)
  {
    MemSessionProofs.StartAgrees();
    PhasesAgree(MemSession.World(MemSession.Start(), MemSession.Opening()), phases);
  }

  lemma EndingCounted(phases: seq<Phase>)
    requires History(phases)
    ensures Counted(Ending(phases).s.ledger, Ending(phases).a.droppedBlocks, Ending(phases).a.droppedBytes)
  {
    hide Ending, Counted, MemSession.Inv, MemSession.Conserves;
    EndingAgrees(phases);
  }

  // ----- between phases -----

  /**
    * The C heap holds the client's blocks and the ledger's nodes and nothing else, and these are disjoint. Per
    * address, blocks taken from the heap are blocks given back plus the live one, so nothing is freed twice.
    */
  lemma HeapIsConserved(phases: seq<Phase>)
    requires History(phases)
    ensures var w := Ending(phases);
            && w.s.heap.Keys == w.a.held + MemSession.NodeSet(w.s.ledger.entries)
            && w.a.held !! MemSession.NodeSet(w.s.ledger.entries)
            && (forall p :: w.a.taken[p] == w.a.freed[p] + Once(p in w.s.heap))
  {
    EndingAgrees(phases);
    var w := Ending(phases);
    hide Ending, MemSession.Inv;
    forall p ensures w.a.taken[p] == w.a.freed[p] + Once(p in w.s.heap) {
      assert multiset(w.s.heap.Keys)[p] == Once(p in w.s.heap);
    }
  }

  /**
    * Deinit never resets the counters. After any history they equal the ledger's length and byte sum plus all leak
    * totals reported so far, modulo 2^32; they describe the ledger alone exactly when that carry is 0 mod 2^32.
    */
  lemma CountersCarryReportedLeaks(phases: seq<Phase>)
    requires History(phases)
    ensures var w := Ending(phases); var l := w.s.ledger;
            && l.blocks == Wrap32(|l.entries| + w.a.droppedBlocks)
            && l.bytes == Wrap32(Bytes(l.entries) + w.a.droppedBytes)
            && (l.blocks == Wrap32(|l.entries|) <==> Wrap32(w.a.droppedBlocks) == 0)
            && (l.bytes == Wrap32(Bytes(l.entries)) <==> Wrap32(w.a.droppedBytes) == 0)
  {
    hide *;
    EndingCounted(phases);
    var w := Ending(phases);
    MemSessionTheorems.CountedFacts(w.s.ledger, w.a.droppedBlocks, w.a.droppedBytes);
  }

  /**
    * A deinit that ends a session of any kind frees every node, once and in list order, reports what the counters
    * say less the carry, and leaves an empty ledger; client blocks are untouched.
    */
  lemma DeinitFreesEveryNodeOnce(phases: seq<Phase>)
    requires History(phases) && Ending(phases).s.on
    ensures var w := Ending(phases); var l := w.s.ledger;
            var e := MemSession.Step(w.s, MemSession.Deinit(true)); var ns := MemSession.Nodes(l.entries);
            && e.out.freed == ns && |ns| == |l.entries|
            && (forall i, j :: 0 <= i < j < |ns| ==> ns[i] != ns[j])
            && (forall n :: n in ns ==> n in w.s.heap && n !in e.s.heap)
            && e.s.heap.Keys == w.a.held && !e.s.on && e.s.ledger.entries == []
            && e.out.ret == MemSession.Report(Wrap32(l.blocks - w.a.droppedBlocks), Wrap32(l.bytes - w.a.droppedBytes))
  {
    EndingAgrees(phases);
    var w := Ending(phases);
    hide Ending, MemSession.Agrees, MemSession.Nodes;
    MemSessionTheorems.DeinitFacts(w.s, w.a);
  }

  /** Whenever tracing is off the ledger is empty, so the reset of the list head in init drops no record. */
  lemma InitDropsNothing(phases: seq<Phase>, state: bool)
    requires History(phases)
    ensures var s := Ending(phases).s;
            && (!s.on ==> s.ledger.entries == [])
            && MemSession.Step(s, MemSession.Init(state)).s.ledger == s.ledger
  {
    EndingAgrees(phases);
    hide Ending;
  }

  // ----- in the middle of a threaded phase -----

  /** After the phases `n` threads have taken over, and by now have taken the steps `actions`. */
  predicate Interleaving(phases: seq<Phase>, n: nat, actions: seq<Action>) {
    History(phases) && Ending(phases).s.on && Schedule(Fork(Ending(phases).s, n), actions)
  }

  function Reached(phases: seq<Phase>, n: nat, actions: seq<Action>): Shared
    requires Interleaving(phases, n, actions)
  {
    Execute(Fork(Ending(phases).s, n), actions)
  }

  /** The live blocks tracing does not know about. */
  function Untraced(phases: seq<Phase>): set<Addr>
    requires History(phases)
  {
    Foreign(Ending(phases).a)
  }

  /**
    * After any history that leaves tracing on, every interleaving of any number of threads keeps the balance between
    * ledger, heap, clients and counters, whatever sessions and leaks came before.
    */
  lemma EveryInterleavingBalanced(phases: seq<Phase>, n: nat, actions: seq<Action>)
    requires Interleaving(phases, n, actions)
    ensures var a := Ending(phases).a;
            ThreadInv(Reached(phases, n, actions), Untraced(phases), a.droppedBlocks, a.droppedBytes)
  {
    EndingAgrees(phases);
    var w := Ending(phases);
    hide Ending, MemSession.Agrees, ThreadInv, Fork;
    ForkFits(w.s, w.a, n);
    ScheduleKeeps(Fork(w.s, n), Foreign(w.a), w.a.droppedBlocks, w.a.droppedBytes, actions);
  }

  /**
    * Ledger pointers plus blocks in flight are exactly the live client blocks plus the addresses that running
    * reallocs have given up, counted with multiplicity.
    */
  lemma LedgerPlusInFlight(phases: seq<Phase>, n: nat, actions: seq<Action>)
    requires Interleaving(phases, n, actions)
    ensures var s := Reached(phases, n, actions);
            Gather(s.ledger.entries, PtrOf) + Gather(s.threads, InFlight)
            == multiset(ClientBlocks(s, Untraced(phases))) + Gather(s.threads, Vacated)
  {
    EveryInterleavingBalanced(phases, n, actions);
    var s := Reached(phases, n, actions);
    assert Balanced(s, Untraced(phases));
    hide *;
    BalanceAsBags(s, Untraced(phases));
  }

  /** With no call in flight the ledger lists every live client block, exactly once, and nothing else. */
  lemma QuietLedgerIsExact(phases: seq<Phase>, n: nat, actions: seq<Action>)
    requires Interleaving(phases, n, actions) && Quiet(Reached(phases, n, actions))
    ensures var s := Reached(phases, n, actions);
            && ClientBlocks(s, Untraced(phases)) == s.owned
            && Gather(s.ledger.entries, PtrOf) == multiset(s.owned)
            && DistinctPtrs(s.ledger.entries)
  {
    EveryInterleavingBalanced(phases, n, actions);
    var s := Reached(phases, n, actions);
    assert Balanced(s, Untraced(phases));
    hide *;
    QuietLedger(s, Untraced(phases));
  }

  /** No lookup of a well-behaved client ever fails, whatever address the heap has meanwhile handed to whom. */
  lemma LookupsAlwaysFind(phases: seq<Phase>, n: nat, actions: seq<Action>)
    requires Interleaving(phases, n, actions)
    ensures var s := Reached(phases, n, actions);
            && (forall p :: p in s.owned ==> Find(s.ledger.entries, p) < |s.ledger.entries|)
            && (forall t :: 0 <= t < |s.threads| && s.threads[t].Moved?
                  ==> Find(s.ledger.entries, s.threads[t].old_) < |s.ledger.entries|)
  {
    EveryInterleavingBalanced(phases, n, actions);
    var s, foreign := Reached(phases, n, actions), Untraced(phases);
    assert Balanced(s, foreign);
    hide *;
    forall p | p in s.owned ensures Find(s.ledger.entries, p) < |s.ledger.entries| {
      UnlinkFinds(s, foreign, p);
    }
    forall t | 0 <= t < |s.threads| && s.threads[t].Moved?
      ensures Find(s.ledger.entries, s.threads[t].old_) < |s.ledger.entries|
    {
      RetargetFinds(s, foreign, t);
    }
  }

  /** A block passed to the real free is live, and no client, other thread or ledger entry still refers to it. */
  lemma RealFreeIsSafe(phases: seq<Phase>, n: nat, actions: seq<Action>, t: nat)
    requires Interleaving(phases, n, actions) && Enabled(Reached(phases, n, actions), RealFree(t))
    ensures var s := Reached(phases, n, actions); var p := s.threads[t].p;
            && p in s.heap && p !in s.owned && p !in Untraced(phases)
            && (forall u :: 0 <= u < |s.threads| && u != t ==> p !in InFlight(s.threads[u]))
            && (p in Gather(s.ledger.entries, PtrOf) ==> p in Gather(s.threads, Vacated))
  {
    EveryInterleavingBalanced(phases, n, actions);
    var s := Reached(phases, n, actions);
    assert Balanced(s, Untraced(phases));
    assert t < |s.threads| && !s.threads[t].Idle?;
    hide *;
    SafeToFree(s, Untraced(phases), t);
  }

  /** Whatever any thread gives back to the C heap, node or block, is live at that moment. */
  lemma ThreadsFreeOnlyLiveBlocks(phases: seq<Phase>, n: nat, actions: seq<Action>, a: Action)
    requires Interleaving(phases, n, actions) && Enabled(Reached(phases, n, actions), a)
    ensures FreedBy(Reached(phases, n, actions), a) <= multiset(Reached(phases, n, actions).heap.Keys)
  {
    EveryInterleavingBalanced(phases, n, actions);
    var s := Reached(phases, n, actions);
    assert Balanced(s, Untraced(phases));
    hide *;
    FreesOneLiveBlock(s, Untraced(phases), a);
  }

  /** Both counters are length and byte sum of the list plus a carry, and those of the list alone if that vanishes. */
  predicate Tell(l: Ledger, db: nat, dB: nat) {
    && l.blocks == Wrap32(|l.entries| + db) && l.bytes == Wrap32(Bytes(l.entries) + dB)
    && (l.blocks == Wrap32(|l.entries|) <==> Wrap32(db) == 0)
    && (l.bytes == Wrap32(Bytes(l.entries)) <==> Wrap32(dB) == 0)
  }

  /**
    * Whenever the lock is free, both counters are the ledger's length and byte sum plus all leaks reported in earlier
    * sessions, modulo 2^32, and describe the ledger alone exactly when these vanish.
    */
  lemma CountersAgreeUnderThreads(phases: seq<Phase>, n: nat, actions: seq<Action>)
    requires Interleaving(phases, n, actions)
    ensures var a := Ending(phases).a;
            Tell(Reached(phases, n, actions).ledger, a.droppedBlocks, a.droppedBytes)
  {
    hide Tell, ThreadInv, Reached, Ending, Schedule, Fork, History;
    EveryInterleavingBalanced(phases, n, actions);
    var a := Ending(phases).a;
    CountersOf(Reached(phases, n, actions), Untraced(phases), a.droppedBlocks, a.droppedBytes);
  }

  lemma CountersOf(s: Shared, foreign: set<Addr>, db: nat, dB: nat)
    requires ThreadInv(s, foreign, db, dB)
    ensures Tell(s.ledger, db, dB)
  {
    hide Balanced, Counted;
    MemSessionTheorems.CountedFacts(s.ledger, db, dB);
  }

  // ----- sizes -----

  /** In no threaded phase does a lookup first find an entry of another size; see SizesKeptThroughoutExactly. */
  predicate AllHit(w: MemSession.World, phases: seq<Phase>)
    requires LegalPhases(w, phases)
    decreases |phases|
  {
    phases == [] || (
      && (phases[0].Threads? ==> AlwaysHits(Fork(w.s, phases[0].n), phases[0].actions))
      && AllHit(NextPhase(w, phases[0]), phases[1..]))
  }

  lemma JoinKeepsSizes(w: MemSession.World, n: nat, actions: seq<Action>)
    requires MemSession.Agrees(w.s, w.a) && MemSession.TrueSizes(w.s) && LegalPhase(w, Threads(n, actions))
    requires AlwaysHits(Fork(w.s, n), actions)
    ensures MemSession.TrueSizes(Join(w, n, actions).s)
  {
    var start := Fork(w.s, n);
    var end := Execute(start, actions);
    ForkFits(w.s, w.a, n);
    ForkSizes(w.s, w.a, n);
    hide MemSession.Agrees, MemSession.TrueSized, Balanced, AllKnowSizes, SizesAgree, OnePlace;
    hide Execute, Schedule, Quiet;
    SizesKeptThroughoutExactly(start, Foreign(w.a), actions);
    AgreesAtTheEnd(start, actions);
    forall i | 0 <= i < |end.ledger.entries| ensures MemSession.TrueSized(end.heap, end.ledger.entries[i]) {
      QuietEntryIsTrue(end, i);
    }
  }

  lemma {:induction false} PhasesKeepSizes(w: MemSession.World, phases: seq<Phase>)
    requires MemSession.Agrees(w.s, w.a) && MemSession.TrueSizes(w.s) && LegalPhases(w, phases) && AllHit(w, phases)
    ensures MemSession.TrueSizes(RunPhases(w, phases).s)
    decreases |phases|
  {
    if phases != [] {
      hide MemSession.Agrees, MemSession.TrueSizes, Join;
      match phases[0]
      case Calls(ops) =>
        MemSessionProofs.RunAgrees(w, ops);
        PhasesKeepSizes(NextPhase(w, phases[0]), phases[1..]);
      case Threads(n, actions) =>
        JoinAgrees(w, n, actions);
        JoinKeepsSizes(w, n, actions);
        PhasesKeepSizes(NextPhase(w, phases[0]), phases[1..]);
    }
  }

  lemma EndingSizes(phases: seq<Phase>)
    requires History(phases)
    requires AllHit(MemSession.World(MemSession.Start(), MemSession.Opening()), phases)
    ensures MemSession.Agrees(Ending(phases).s, Ending(phases).a) && MemSession.TrueSizes(Ending(phases).s)
  {
    MemSessionProofs.StartAgrees();
    hide MemSession.Agrees, MemSession.TrueSizes;
    EndingAgrees(phases);
    PhasesKeepSizes(MemSession.World(MemSession.Start(), MemSession.Opening()), phases);
  }

  /**
    * The byte counter less the carry is the true number of traced bytes modulo 2^32, although a calloc product may
    * have wrapped when it was recorded, and is exactly that number if and only if the number is below 2^32. For calls
    * by one thread at a time this holds always, for threads if no lookup meets an entry of the wrong size.
    */
  lemma ByteCounterIsTrueTotal(phases: seq<Phase>)
    requires History(phases)
    requires AllHit(MemSession.World(MemSession.Start(), MemSession.Opening()), phases)
    ensures var w := Ending(phases); var es := w.s.ledger.entries;
            && (forall i :: 0 <= i < |es| ==> es[i].ptr in w.s.heap && es[i].size == Wrap32(w.s.heap[es[i].ptr]))
            && Wrap32(w.s.ledger.bytes - w.a.droppedBytes) == Wrap32(MemSessionTheorems.TrueBytes(w.s.heap, es))
            && (Wrap32(w.s.ledger.bytes - w.a.droppedBytes) == MemSessionTheorems.TrueBytes(w.s.heap, es)
                <==> MemSessionTheorems.TrueBytes(w.s.heap, es) < TWO32)
  {
    hide *;
    EndingSizes(phases);
    MemSessionTheorems.ByteFacts(Ending(phases).s, Ending(phases).a);
  }

  // ----- by how much the byte counter is off -----

  function RunDrift(w: MemSession.World, drift: int, ops: seq<MemSession.Op>): int
    decreases |ops|
  {
    if ops == [] then drift else RunDrift(MemSession.Next(w, ops[0]), DriftAfter(w.s, drift, ops[0]), ops[1..])
  }

  function PhaseDrift(w: MemSession.World, drift: int, ph: Phase): int
    requires LegalPhase(w, ph)
  {
    match ph
    case Calls(ops) => RunDrift(w, drift, ops)
    case Threads(n, actions) => drift + Misses(Fork(w.s, n), actions)
  }

  /** What all lookups since the last deinit ought to have met less what they met. */
  function Drift(w: MemSession.World, drift: int, phases: seq<Phase>): int
    requires LegalPhases(w, phases)
    decreases |phases|
  {
    if phases == [] then drift
    else Drift(NextPhase(w, phases[0]), PhaseDrift(w, drift, phases[0]), phases[1..])
  }

  function OffOf(w: MemSession.World): int {
    Off(w.s.heap, w.s.ledger.entries)
  }

  lemma {:induction false} RunOff(w: MemSession.World, ops: seq<MemSession.Op>)
    requires MemSession.Agrees(w.s, w.a) && MemSession.LegalRun(w, ops)
    ensures OffOf(MemSession.Run(w, ops)) == RunDrift(w, OffOf(w), ops)
    decreases |ops|
  {
    if ops != [] {
      assert MemSession.Inv(w.s);
      hide MemSession.Agrees, MemSession.Inv, MemSession.Legal, MemSession.Step, MemSession.Tally, Off, DriftAfter;
      MemSessionProofs.StepAgrees(w.s, w.a, ops[0]);
      StepOff(w.s, ops[0]);
      RunOff(MemSession.Next(w, ops[0]), ops[1..]);
    }
  }

  lemma JoinOff(w: MemSession.World, n: nat, actions: seq<Action>)
    requires MemSession.Agrees(w.s, w.a) && LegalPhase(w, Threads(n, actions))
    ensures OffOf(Join(w, n, actions)) == OffOf(w) + Misses(Fork(w.s, n), actions)
  {
    var start, end := Fork(w.s, n), Execute(Fork(w.s, n), actions);
    assert DistinctPtrs(w.s.ledger.entries) && Quiet(start);
    ForkFits(w.s, w.a, n);
    ForkKnowsSizes(w.s, n);
    ScheduleKeeps(start, Foreign(w.a), w.a.droppedBlocks, w.a.droppedBytes, actions);
    hide MemSession.Agrees, Balanced, AllKnowSizes, Execute, Schedule, Quiet, DistinctPtrs, Records, Off, Error, Misses;
    QuietError(start);
    ScheduleError(start, Foreign(w.a), actions);
    QuietLedger(end, Foreign(w.a));
    QuietRecords(end, Foreign(w.a));
    QuietError(end);
  }

  lemma ForkKnowsSizes(s: MemSession.State, n: nat)
    ensures AllKnowSizes(Fork(s, n))
  {
  }

  lemma PhaseOff(w: MemSession.World, ph: Phase)
    requires MemSession.Agrees(w.s, w.a) && LegalPhase(w, ph)
    ensures var v := NextPhase(w, ph); MemSession.Agrees(v.s, v.a) && OffOf(v) == PhaseDrift(w, OffOf(w), ph)
  {
    hide MemSession.Agrees, Join, OffOf, Misses, RunDrift;
    match ph
    case Calls(ops) =>
      MemSessionProofs.RunAgrees(w, ops);
      RunOff(w, ops);
    case Threads(n, actions) =>
      JoinAgrees(w, n, actions);
      JoinOff(w, n, actions);
  }

  lemma {:induction false} PhasesOff(w: MemSession.World, phases: seq<Phase>)
    requires MemSession.Agrees(w.s, w.a) && LegalPhases(w, phases)
    ensures OffOf(RunPhases(w, phases)) == Drift(w, OffOf(w), phases)
    decreases |phases|
  {
    if phases != [] {
      hide MemSession.Agrees, NextPhase, LegalPhase, PhaseDrift, OffOf;
      PhaseOff(w, phases[0]);
      PhasesOff(NextPhase(w, phases[0]), phases[1..]);
    }
  }

  lemma {:induction false} CorrectedTrueBytes(heap: map<Addr, nat>, es: seq<Entry>)
    ensures MemSessionTheorems.TrueBytes(heap, Corrected(heap, es)) == MemSessionTheorems.TrueBytes(heap, es)
  {
    if es != [] {
      CorrectedTrueBytes(heap, es[1..]);
      assert Corrected(heap, es)[1..] == Corrected(heap, es[1..]);
    }
  }

  /** A list that is off by `drift` adds up to the true bytes and that drift, modulo 2^32. */
  lemma OffBytes(heap: map<Addr, nat>, es: seq<Entry>)
    requires forall i :: 0 <= i < |es| ==> es[i].ptr in heap
    ensures Wrap32(Bytes(es)) == Wrap32(MemSessionTheorems.TrueBytes(heap, es) + Off(heap, es))
  {
    var cs := Corrected(heap, es);
    forall i | 0 <= i < |cs| ensures MemSession.TrueSized(heap, cs[i]) {
      CorrectedAt(heap, es, i);
    }
    hide Corrected, Bytes, MemSessionTheorems.TrueBytes, Wrap32;
    CorrectedTrueBytes(heap, es);
    MemSessionTheorems.RecordedBytesAreTrueBytes(heap, cs);
    Wrap32Sum(Bytes(cs), Off(heap, es));
    Wrap32Sum(MemSessionTheorems.TrueBytes(heap, es), Off(heap, es));
  }

  lemma SameUpTo(x: int, d: int)
    ensures Wrap32(x + d) == Wrap32(x) <==> Wrap32(d) == 0
  {
    var p := Wrap32Turns(x);
    var q := Wrap32Turns(d);
    var k := Wrap32Turns(x + d);
    hide Wrap32;
    assert Wrap32(x + d) == Wrap32(x) + Wrap32(d) + (p + q - k) * TWO32;
  }

  /**
    * In every history whatever, races included: the byte counter less the carry is the true number of traced bytes plus
    * what all lookups since the last deinit have missed, modulo 2^32. So it is the true number modulo 2^32 if and only
    * if these misses add up to 0 modulo 2^32.
    */
  lemma ByteCounterExactly(phases: seq<Phase>)
    requires History(phases)
    ensures var w := Ending(phases); var bytes := MemSessionTheorems.TrueBytes(w.s.heap, w.s.ledger.entries);
            var drift := Drift(MemSession.World(MemSession.Start(), MemSession.Opening()), 0, phases);
            && Wrap32(w.s.ledger.bytes - w.a.droppedBytes) == Wrap32(bytes + drift)
            && (Wrap32(w.s.ledger.bytes - w.a.droppedBytes) == Wrap32(bytes) <==> Wrap32(drift) == 0)
  {
    hide *;
    EndingLive(phases);
    EndingCounted(phases);
    EndingOff(phases);
    var w := Ending(phases);
    CounterOff(w.s.ledger, w.s.heap, w.a.droppedBlocks, w.a.droppedBytes);
  }

  lemma CounterOff(l: Ledger, heap: map<Addr, nat>, db: nat, dB: nat)
    requires Counted(l, db, dB) && forall i :: 0 <= i < |l.entries| ==> l.entries[i].ptr in heap
    ensures var bytes, drift := MemSessionTheorems.TrueBytes(heap, l.entries), Off(heap, l.entries);
            && Wrap32(l.bytes - dB) == Wrap32(bytes + drift)
            && (Wrap32(l.bytes - dB) == Wrap32(bytes) <==> Wrap32(drift) == 0)
  {
    hide *;
    OffBytes(heap, l.entries);
    MemSessionTheorems.CountedFacts(l, db, dB);
    SameUpTo(MemSessionTheorems.TrueBytes(heap, l.entries), Off(heap, l.entries));
  }

  lemma EndingLive(phases: seq<Phase>)
    requires History(phases)
    ensures var s := Ending(phases).s; forall i :: 0 <= i < |s.ledger.entries| ==> s.ledger.entries[i].ptr in s.heap
  {
    EndingAgrees(phases);
    PtrsLive(Ending(phases).s);
  }

  lemma EndingOff(phases: seq<Phase>)
    requires History(phases)
    ensures Off(Ending(phases).s.heap, Ending(phases).s.ledger.entries)
         == Drift(MemSession.World(MemSession.Start(), MemSession.Opening()), 0, phases)
  {
    MemSessionProofs.StartAgrees();
    assert OffOf(MemSession.World(MemSession.Start(), MemSession.Opening())) == 0;
    hide MemSession.Agrees, Drift, Off;
    PhasesOff(MemSession.World(MemSession.Start(), MemSession.Opening()), phases);
  }

  // ----- threaded phases leave nothing out -----

  lemma {:induction false} OnePhaseMore(w: MemSession.World, phases: seq<Phase>, ph: Phase)
    requires LegalPhases(w, phases) && LegalPhase(RunPhases(w, phases), ph)
    ensures LegalPhases(w, phases + [ph])
    decreases |phases|
  {
    if phases == [] {
      assert phases + [ph] == [ph] && [ph][1..] == [];
    } else {
      hide LegalPhase, NextPhase;
      OnePhaseMore(NextPhase(w, phases[0]), phases[1..], ph);
      assert (phases + [ph])[1..] == phases[1..] + [ph];
    }
  }

  /**
    * Wherever threads have got to, they can get back to client code, so every interleaving is part of a threaded phase
    * and of a longer history.
    */
  lemma EveryInterleavingCanEnd(phases: seq<Phase>, n: nat, actions: seq<Action>)
    requires Interleaving(phases, n, actions)
    ensures exists rest :: History(phases + [Threads(n, actions + rest)])
  {
    var start := Fork(Ending(phases).s, n);
    var rest := CanEnd(Execute(start, actions));
    ScheduleOn(start, actions, rest);
    hide Schedule, Execute, Fork, Quiet;
    OnePhaseMore(MemSession.World(MemSession.Start(), MemSession.Opening()), phases, Threads(n, actions + rest));
  }

  // ----- a history with everything in it -----

  lemma RaceThenDeinit(w: MemSession.World, site: Site)
    requires w.s == MemSession.State(true, RaceEnd(site).ledger, RaceEnd(site).heap)
    ensures var ph := Calls([MemSession.Deinit(true), MemSession.Init(true)]);
            LegalPhase(w, ph)
            && NextPhase(w, ph).s == MemSession.State(true, Ledger([], 2, 30), map[3 := 20, 1 := 30])
  {
    var es := w.s.ledger.entries;
    assert es[1..][0] == Entry(2, 1, 10, site) && es[1..][1..] == [];
    assert MemSession.NodeSet(es[1..]) == {2};
    assert MemSession.NodeSet(es) == {4, 2};
    var ops := [MemSession.Deinit(true), MemSession.Init(true)];
    var v := MemSession.Next(w, ops[0]);
    assert v.s == MemSession.State(false, Ledger([], 2, 30), map[3 := 20, 1 := 30]);
    assert ops[1..] == [MemSession.Init(true)] && ops[1..][1..] == [];
    assert MemSession.Run(w, ops) == MemSession.Run(v, ops[1..]);
    assert MemSession.LegalRun(v, ops[1..]);
  }

  /**
    * A session in which two threads race, its deinit, and the next init: the ledger is empty, two blocks were reported
    * as leaks with 30 bytes instead of 50, and the counters still show them.
    */
  lemma RacedSessionThenNext(site: Site)
    ensures var phases := [Calls([MemSession.Init(true)]), Threads(2, Race(site)),
                           Calls([MemSession.Deinit(true), MemSession.Init(true)])];
            && History(phases) && Ending(phases).s.on
            && Ending(phases).s.ledger == Ledger([], 2, 30) && Ending(phases).s.heap == map[3 := 20, 1 := 30]
  {
    var w0 := MemSession.World(MemSession.Start(), MemSession.Opening());
    var phases := [Calls([MemSession.Init(true)]), Threads(2, Race(site)),
                   Calls([MemSession.Deinit(true), MemSession.Init(true)])];
    var w1 := NextPhase(w0, phases[0]);
    assert w1.s == MemSession.State(true, Ledger([], 0, 0), map[]);
    RaceRuns(site);
    var w2 := NextPhase(w1, phases[1]);
    RaceThenDeinit(w2, site);
    hide NextPhase, LegalPhase, LegalPhases, RunPhases;
    ThreePhases(w0, phases[0], phases[1], phases[2]);
  }

  lemma ThreePhases(w: MemSession.World, p: Phase, q: Phase, r: Phase)
    requires LegalPhase(w, p) && LegalPhase(NextPhase(w, p), q) && LegalPhase(NextPhase(NextPhase(w, p), q), r)
    ensures LegalPhases(w, [p, q, r])
    ensures RunPhases(w, [p, q, r]) == NextPhase(NextPhase(NextPhase(w, p), q), r)
  {
    hide NextPhase, LegalPhase;
    var v := NextPhase(w, p);
    var u := NextPhase(v, q);
    assert [p, q, r][1..] == [q, r] && [q, r][1..] == [r] && [r][1..] == [];
    assert LegalPhases(u, [r]) && RunPhases(u, [r]) == NextPhase(u, r);
    assert LegalPhases(v, [q, r]) && RunPhases(v, [q, r]) == NextPhase(u, r);
  }
}
