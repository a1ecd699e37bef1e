/** Handing the ledger from one thread to many and back, and what the balance between them implies. */
module MemThreadsTheorems {
  import opened CTypes
  import opened Bags
  import opened MemLedger
  import MemSession
  import MemSessionProofs
  import opened MemThreads
  import opened MemThreadsProofs

  // ----- from one thread to many -----

  /** `n` idle threads take over from a sequential state with tracing on; ledgered blocks are theirs to use. */
  function Fork(s: MemSession.State, n: nat): Shared {
    Shared(s.ledger, s.heap, Records(s.ledger.entries).Keys, seq(n, _ => Idle))
  }

  lemma {:induction false} IdleContributesNothing(ts: seq<Pc>, f: Pc -> multiset<Addr>, x: Addr)
    requires f(Idle) == multiset{} && forall i :: 0 <= i < |ts| ==> ts[i] == Idle
    ensures Gather(ts, f)[x] == 0
  {
    if ts != [] {
      IdleContributesNothing(ts[1..], f, x);
    }
  }

  lemma {:induction false} DistinctPtrsOnce(es: seq<Entry>, x: Addr)
    requires DistinctPtrs(es)
    ensures Gather(es, PtrOf)[x] == Once(x in Records(es))
  {
    if es != [] {
      DistinctPtrsOnce(es[1..], x);
      RecordsFind(es[1..], es[0].ptr);
    }
  }

  lemma {:induction false} DistinctNodesOnce(es: seq<Entry>, x: Addr)
    requires MemSession.DistinctNodes(es)
    ensures Gather(es, NodeOf)[x] == Once(x in MemSession.NodeSet(es))
  {
    if es != [] {
      DistinctNodesOnce(es[1..], x);
      MemSessionProofs.NodeSetHas(es[1..], es[0].node);
    }
  }

  /** A state any sequential run reaches is a fit start for any number of threads. */
  lemma ForkFits(s: MemSession.State, a: MemSession.Account, n: nat)
    requires MemSession.Agrees(s, a) && s.on
    ensures a.records.Keys <= a.held
    ensures ThreadInv(Fork(s, n), a.held - a.records.Keys, a.droppedBlocks, a.droppedBytes)
  {
    var t, foreign := Fork(s, n), a.held - a.records.Keys;
    forall p | p in a.records ensures p in a.held {
      MemSessionProofs.Unrecorded(s, a, p);
      assert MemSession.LiveEntry(s.heap, s.ledger.entries[Find(s.ledger.entries, p)]);
      MemSessionProofs.NodeSetHas(s.ledger.entries, p);
    }
    forall x ensures LedgerAt(t, x) && HeapAt(t, foreign, x) {
      DistinctPtrsOnce(s.ledger.entries, x);
      DistinctNodesOnce(s.ledger.entries, x);
      IdleContributesNothing(t.threads, InFlight, x);
      IdleContributesNothing(t.threads, NodeInFlight, x);
      IdleContributesNothing(t.threads, Vacated, x);
    }
  }

  // ----- consequences of the balance -----

  /** The live blocks that are neither ledger nodes nor foreign. */
  function ClientBlocks(s: Shared, foreign: set<Addr>): set<Addr> {
    s.heap.Keys - foreign
    - (set x | x in s.heap && (x in Gather(s.ledger.entries, NodeOf) || x in Gather(s.threads, NodeInFlight)))
  }

  lemma ClientBlockOnce(s: Shared, foreign: set<Addr>, x: Addr)
    requires Balanced(s, foreign)
    ensures Once(x in ClientBlocks(s, foreign)) == Once(x in s.owned) + Gather(s.threads, InFlight)[x]
  {
    assert HeapAt(s, foreign, x);
  }

  lemma BalanceAsBags(s: Shared, foreign: set<Addr>)
    requires Balanced(s, foreign)
    ensures Gather(s.ledger.entries, PtrOf) + Gather(s.threads, InFlight)
         == multiset(ClientBlocks(s, foreign)) + Gather(s.threads, Vacated)
  {
    var ledger, inFlight := Gather<Entry, Addr>(s.ledger.entries, PtrOf), Gather<Pc, Addr>(s.threads, InFlight);
    var clients, vacated := multiset(ClientBlocks(s, foreign)), Gather<Pc, Addr>(s.threads, Vacated);
    forall x: Addr ensures (ledger + inFlight)[x] == (clients + vacated)[x] {
      assert LedgerAt(s, x);
      ClientBlockOnce(s, foreign, x);
    }
  }

  lemma OnceMeansDistinct(es: seq<Entry>)
    requires forall x: Addr :: Gather(es, PtrOf)[x] <= 1
    ensures DistinctPtrs(es)
  {
    forall i, j | 0 <= i < j < |es| ensures es[i].ptr != es[j].ptr {
      if es[i].ptr == es[j].ptr {
        GatherTwice(es, i, j, PtrOf, es[i].ptr);
      }
    }
  }

  lemma QuietLedger(s: Shared, foreign: set<Addr>)
    requires Balanced(s, foreign) && Quiet(s)
    ensures ClientBlocks(s, foreign) == s.owned
    ensures Gather(s.ledger.entries, PtrOf) == multiset(s.owned)
    ensures DistinctPtrs(s.ledger.entries)
  {
    forall x: Addr ensures Gather(s.ledger.entries, PtrOf)[x] == Once(x in s.owned) {
      assert LedgerAt(s, x);
      IdleContributesNothing(s.threads, Vacated, x);
    }
    forall x: Addr ensures x in ClientBlocks(s, foreign) <==> x in s.owned {
      ClientBlockOnce(s, foreign, x);
      IdleContributesNothing(s.threads, InFlight, x);
    }
    OnceMeansDistinct(s.ledger.entries);
  }

  lemma InFlightOnce(s: Shared, foreign: set<Addr>, t: nat, u: nat, p: Addr)
    requires Balanced(s, foreign) && t < |s.threads| && u < |s.threads| && t != u
    requires p in InFlight(s.threads[t])
    ensures p !in InFlight(s.threads[u])
  {
    if p in InFlight(s.threads[u]) {
      assert HeapAt(s, foreign, p);
      GatherTwice(s.threads, if t < u then t else u, if t < u then u else t, InFlight, p);
    }
  }

  lemma SafeToFree(s: Shared, foreign: set<Addr>, t: nat)
    requires Balanced(s, foreign) && Enabled(s, RealFree(t))
    ensures var p := s.threads[t].p;
            && p in s.heap && p !in s.owned && p !in foreign
            && (forall u :: 0 <= u < |s.threads| && u != t ==> p !in InFlight(s.threads[u]))
            && (p in Gather(s.ledger.entries, PtrOf) ==> p in Gather(s.threads, Vacated))
  {
    var p := s.threads[t].p;
    InFlightIsLive(s, foreign, t, p);
    assert LedgerAt(s, p);
    forall u | 0 <= u < |s.threads| && u != t ensures p !in InFlight(s.threads[u]) {
      InFlightOnce(s, foreign, t, u, p);
    }
    GatherHas(s.threads, InFlight, p);
    assert HeapAt(s, foreign, p);
  }

  // ----- from many threads back to one -----

  /** When all threads are back in client code, a live block is owned, a node or foreign. */
  lemma QuietHeapAt(s: Shared, foreign: set<Addr>, x: Addr)
    requires Balanced(s, foreign) && Quiet(s)
    ensures Once(x in s.heap) == Once(x in s.owned) + Gather(s.ledger.entries, NodeOf)[x] + Once(x in foreign)
    ensures x in Gather(s.ledger.entries, NodeOf) <==> x in MemSession.NodeSet(s.ledger.entries)
  {
    assert HeapAt(s, foreign, x);
    IdleContributesNothing(s.threads, InFlight, x);
    IdleContributesNothing(s.threads, NodeInFlight, x);
    GatherHas(s.ledger.entries, NodeOf, x);
    MemSessionProofs.NodeSetHas(s.ledger.entries, x);
  }

  lemma QuietKeys(s: Shared, foreign: set<Addr>)
    requires Balanced(s, foreign) && Quiet(s)
    ensures var nodes := MemSession.NodeSet(s.ledger.entries);
            && s.heap.Keys == s.owned + foreign + nodes && s.owned !! foreign && (s.owned + foreign) !! nodes
  {
    forall x {
      QuietHeapAt(s, foreign, x);
    }
  }

  lemma QuietRecords(s: Shared, foreign: set<Addr>)
    requires Balanced(s, foreign) && Quiet(s)
    ensures Records(s.ledger.entries).Keys == s.owned
  {
    QuietLedger(s, foreign);
    forall x: Addr ensures x in Records(s.ledger.entries) <==> x in s.owned {
      DistinctPtrsOnce(s.ledger.entries, x);
      assert multiset(s.owned)[x] == Once(x in s.owned);
    }
  }

  lemma QuietNodesDistinct(s: Shared, foreign: set<Addr>)
    requires Balanced(s, foreign) && Quiet(s)
    ensures MemSession.DistinctNodes(s.ledger.entries)
  {
    var es := s.ledger.entries;
    forall i, j | 0 <= i < j < |es| ensures es[i].node != es[j].node {
      if es[i].node == es[j].node {
        GatherTwice(es, i, j, NodeOf, es[i].node);
        QuietHeapAt(s, foreign, es[i].node);
      }
    }
  }

  /** With all threads back in client code the ledger is as one thread would have left it. */
  lemma QuietInv(s: Shared, foreign: set<Addr>)
    requires Balanced(s, foreign) && Quiet(s) && NULL !in s.heap
    ensures MemSession.Inv(MemSession.State(true, s.ledger, s.heap))
  {
    var es := s.ledger.entries;
    QuietLedger(s, foreign);
    QuietNodesDistinct(s, foreign);
    QuietKeys(s, foreign);
    QuietRecords(s, foreign);
    hide Balanced, Quiet;
    forall i | 0 <= i < |es| ensures es[i].ptr in s.owned && es[i].node in MemSession.NodeSet(es) {
      RecordsFind(es, es[i].ptr);
      MemSessionProofs.NodeSetHas(es, es[i].node);
    }
    hide DistinctPtrs, MemSession.DistinctNodes;
  }

  /**
    * A deinit that ends a threaded session: its nodes are live and distinct, and what is left, with the counters as
    * they are, is balanced for the next session, to which the leaked blocks are foreign.
    */
  lemma DeinitKeepsBalance(s: Shared, foreign: set<Addr>, db: nat, dB: nat)
    requires ThreadInv(s, foreign, db, dB) && Quiet(s)
    ensures var es := s.ledger.entries; var nodes := MemSession.NodeSet(es);
            && nodes <= s.heap.Keys && MemSession.DistinctNodes(es)
            && (s.heap - nodes).Keys == s.owned + foreign
            && ThreadInv(Shared(s.ledger.(entries := []), s.heap - nodes, {}, s.threads), foreign + s.owned,
                         db + |es|, dB + Bytes(es))
  {
    var es := s.ledger.entries;
    var s' := Shared(s.ledger.(entries := []), s.heap - MemSession.NodeSet(es), {}, s.threads);
    QuietNodesDistinct(s, foreign);
    QuietKeys(s, foreign);
    forall x ensures LedgerAt(s', x) && HeapAt(s', foreign + s.owned, x) {
      IdleContributesNothing(s.threads, InFlight, x);
      IdleContributesNothing(s.threads, NodeInFlight, x);
      IdleContributesNothing(s.threads, Vacated, x);
    }
  }
}
