/** What every run of the allocator keeps, and what single calls promise in any state a run can reach. */
module MemSessionProofs {
  import opened CTypes
  import opened MemLedger
  import opened MemSession

  // ----- every call keeps the agreement between state and account -----

  lemma KeysDrop(heap: map<Addr, nat>, p: Addr)
    requires p in heap
    ensures multiset(heap.Keys) == multiset((heap - {p}).Keys) + multiset{p}
  {
  }

  lemma {:induction false} NodeSetHas(es: seq<Entry>, n: Addr)
    ensures n in NodeSet(es) <==> exists i :: 0 <= i < |es| && es[i].node == n
  {
    if es != [] {
      NodeSetHas(es[1..], n);
      if n in NodeSet(es[1..]) {
        var i :| 0 <= i < |es[1..]| && es[1..][i].node == n;
        assert es[i+1].node == n;
      }
      if i :| 0 < i < |es| && es[i].node == n {
        assert es[1..][i-1].node == n;
      }
    }
  }

  lemma {:induction false} NodesAreNodeSet(es: seq<Entry>)
    ensures forall n :: n in Nodes(es) <==> n in NodeSet(es)
  {
    forall n ensures n in Nodes(es) <==> n in NodeSet(es) {
      NodeSetHas(es, n);
      if i :| 0 <= i < |es| && es[i].node == n {
        assert Nodes(es)[i] == n;
      }
    }
  }

  lemma PushInv(s: State, e: Entry)
    requires Inv(s) && s.on && e.node != NULL && e.node !in s.heap
    requires e.ptr in s.heap
    requires Find(s.ledger.entries, e.ptr) == |s.ledger.entries|
    requires e.ptr !in NodeSet(s.ledger.entries)
    ensures Inv(State(true, Push(s.ledger, e), s.heap[e.node := NODE_SIZE]))
  {
    var es := s.ledger.entries;
    var heap := s.heap[e.node := NODE_SIZE];
    var fs := [e] + es;
    forall i | 0 <= i < |fs| ensures LiveEntry(heap, fs[i]) {
      assert i > 0 ==> fs[i] == es[i-1] && LiveEntry(s.heap, es[i-1]);
    }
    forall i, j | 0 <= i < |fs| && 0 <= j < |fs| ensures fs[i].ptr != fs[j].node {
      if j > 0 {
        NodeSetHas(es, e.ptr);
        assert es[j-1].node == fs[j].node;
      } else if i > 0 {
        assert LiveEntry(s.heap, es[i-1]);
      }
    }
    forall j | 0 < j < |fs| ensures fs[0].node != fs[j].node {
      assert LiveEntry(s.heap, es[j-1]);
    }
  }

  lemma PushConserves(s: State, a: Account, e: Entry)
    requires Conserves(s, a) && e.node !in s.heap
    ensures Conserves(State(s.on, Push(s.ledger, e), s.heap[e.node := NODE_SIZE]),
                      a.(taken := a.taken + multiset{e.node}))
  {
  }

  lemma DropConserves(s: State, a: Account, p: Addr)
    requires Conserves(s, a) && p in a.held
    ensures Conserves(s.(heap := s.heap - {p}), a.(freed := a.freed + multiset{p}, held := a.held - {p}))
  {
  }

  lemma DropInv(s: State, p: Addr)
    requires Inv(s) && p !in NodeSet(s.ledger.entries) && Find(s.ledger.entries, p) == |s.ledger.entries|
    ensures Inv(s.(heap := s.heap - {p}))
  {
    var es := s.ledger.entries;
    forall i | 0 <= i < |es| ensures LiveEntry(s.heap - {p}, es[i]) {
      assert LiveEntry(s.heap, es[i]);
      NodeSetHas(es, p);
      assert es[i].node != p;
    }
  }

  /** A client block that is not in the account's records has no entry. */
  lemma Unrecorded(s: State, a: Account, p: Addr)
    requires Agrees(s, a)
    ensures p in a.records <==> Find(s.ledger.entries, p) < |s.ledger.entries|
    ensures p in a.held <==> ClientBlock(s, p)
  {
    RecordsFind(s.ledger.entries, p);
  }

  /** A held block either becomes ledgered, or is given back because there is no memory for its node. */
  lemma EnterAgrees(s: State, a: Account, p: Addr, size: uint32, site: Site, node: Addr)
    requires Agrees(s, a) && s.on
    requires p in a.held && p in s.heap && p !in a.records
    requires Answer(s.heap.Keys, node)
    ensures node != NULL ==>
      Agrees(State(true, Push(s.ledger, Entry(node, p, size, site)), s.heap[node := NODE_SIZE]),
             a.(taken := a.taken + multiset{node}, records := a.records[p := Record(size, site)]))
    ensures node == NULL ==>
      Agrees(s.(heap := s.heap - {p}), a.(freed := a.freed + multiset{p}, held := a.held - {p}))
  {
    Unrecorded(s, a, p);
    if node == NULL {
      DropConserves(s, a, p);
      DropInv(s, p);
    } else {
      var e := Entry(node, p, size, site);
      PushCounted(s.ledger, e, a.droppedBlocks, a.droppedBytes);
      PushConserves(s, a, e);
      PushInv(s, e);
      assert Push(s.ledger, e).entries[1..] == s.ledger.entries;
    }
  }

  lemma TracingAgrees(s: State, a: Account)
    requires Agrees(s, a)
    ensures a.tracing == s.on
  {
  }

  /** The account `a` with the heap traffic of one more outcome added. */
  function Booked(a: Account, taken: seq<Addr>, freed: seq<Addr>): Account {
    a.(taken := a.taken + multiset(taken), freed := a.freed + multiset(freed))
  }

  lemma Appended(m: multiset<Addr>, xs: seq<Addr>, x: Addr)
    ensures m + multiset(xs + [x]) == m + multiset(xs) + multiset{x}
  {
  }

  /** EnterAgrees for a call that already has heap traffic of its own and has just obtained block `p`. */
  lemma EnterGot(s: State, a: Account, p: Addr, size: uint32, site: Site, node: Addr,
                 taken: seq<Addr>, freed: seq<Addr>)
    requires s.on && a.tracing && p != NULL && p !in a.held && p !in a.records
    requires Agrees(s, Booked(a.(held := a.held + {p}), taken, freed))
    requires p in s.heap && Answer(s.heap.Keys, node)
    ensures var e := Enter(s, p, size, site, node, taken, freed);
            e.out.ret.Pointer? && Agrees(e.s, Booked(Got(a, e.out.ret.p, size, site), e.out.taken, e.out.freed))
  {
    hide Agrees, Inv, Conserves;
    EnterAgrees(s, Booked(a.(held := a.held + {p}), taken, freed), p, size, site, node);
    if node == NULL {
      Appended(a.freed, freed, p);
      assert a.held + {p} - {p} == a.held;
    } else {
      Appended(a.taken, taken, node);
    }
  }

  lemma FreshInv(s: State, p: Addr, bytes: nat)
    requires Inv(s) && p != NULL && p !in s.heap
    ensures Inv(s.(heap := s.heap[p := bytes]))
    ensures Find(s.ledger.entries, p) == |s.ledger.entries| && p !in NodeSet(s.ledger.entries)
  {
    var es := s.ledger.entries;
    forall i | 0 <= i < |es| ensures LiveEntry(s.heap[p := bytes], es[i]) && es[i].ptr != p && es[i].node != p {
      assert LiveEntry(s.heap, es[i]);
    }
    NodeSetHas(es, p);
  }

  lemma FreshConserves(s: State, a: Account, p: Addr, bytes: nat)
    requires Conserves(s, a) && p !in s.heap && p !in NodeSet(s.ledger.entries)
    ensures Conserves(s.(heap := s.heap[p := bytes]), a.(taken := a.taken + multiset{p}, held := a.held + {p}))
  {
  }

  /** The heap hands a fresh block to the client. */
  lemma FreshAgrees(s: State, a: Account, p: Addr, bytes: nat)
    requires Agrees(s, a) && p != NULL && p !in s.heap
    ensures Agrees(s.(heap := s.heap[p := bytes]), a.(taken := a.taken + multiset{p}, held := a.held + {p}))
    ensures p !in a.records && p !in a.held
  {
    FreshInv(s, p, bytes);
    RecordsFind(s.ledger.entries, p);
    FreshConserves(s, a, p, bytes);
  }

  lemma AllocateTraced(s: State, a: Account, size: uint32, trueSize: nat, site: Site, p: Addr, node: Addr)
    requires Agrees(s, a) && s.on
    requires p != NULL && p !in s.heap && Answer(s.heap.Keys + {p}, node)
    ensures var e := Allocate(s, size, trueSize, site, p, node);
            e.out.ret.Pointer? && Agrees(e.s, Booked(Got(a, e.out.ret.p, size, site), e.out.taken, e.out.freed))
  {
    assert a.tracing;
    hide Agrees, Inv, Conserves;
    FreshAgrees(s, a, p, trueSize);
    var s' := s.(heap := s.heap[p := trueSize]);
    assert Booked(a.(held := a.held + {p}), [p], []) == a.(taken := a.taken + multiset{p}, held := a.held + {p});
    assert s'.heap.Keys == s.heap.Keys + {p};
    EnterGot(s', a, p, size, site, node, [p], []);
  }

  lemma AllocateAgrees(s: State, a: Account, size: uint32, trueSize: nat, site: Site, p: Addr, node: Addr)
    requires Agrees(s, a)
    requires Answer(s.heap.Keys, p) && Answer(s.heap.Keys + {p}, node)
    ensures var e := Allocate(s, size, trueSize, site, p, node);
            e.out.ret.Pointer? && Agrees(e.s, Booked(Got(a, e.out.ret.p, size, site), e.out.taken, e.out.freed))
  {
    assert a.tracing == s.on;
    hide Agrees, Inv, Conserves, Enter;
    if p == NULL {
      assert Booked(a, [], []) == a;
    } else if s.on {
      AllocateTraced(s, a, size, trueSize, site, p, node);
    } else {
      FreshAgrees(s, a, p, trueSize);
      assert Booked(a, [p], []) == a.(taken := a.taken + multiset{p});
    }
  }

  /** A held block with no entry leaves the heap. */
  lemma DropAgrees(s: State, a: Account, p: Addr)
    requires Agrees(s, a) && p in a.held && p !in a.records
    ensures Agrees(s.(heap := s.heap - {p}), Lost(a, p).(freed := a.freed + multiset{p}))
  {
    Unrecorded(s, a, p);
    DropConserves(s, a, p);
    DropInv(s, p);
    assert a.records - {p} == a.records;
  }

  lemma RetargetInv(s: State, i: nat, moved: Addr, size: uint32, site: Site)
    requires Inv(s) && s.on && i < |s.ledger.entries| && moved != NULL
    requires moved !in s.heap.Keys - {s.ledger.entries[i].ptr}
    ensures Inv(State(true, Retarget(s.ledger, i, moved, size, site),
                      (s.heap - {s.ledger.entries[i].ptr})[moved := size]))
    ensures forall j :: 0 <= j < |s.ledger.entries| && j != i ==> s.ledger.entries[j].ptr != moved
  {
  }

  lemma {:induction false} RetargetNodes(l: Ledger, i: nat, p: Addr, size: uint32, site: Site)
    requires i < |l.entries|
    ensures NodeSet(Retarget(l, i, p, size, site).entries) == NodeSet(l.entries)
    decreases i
  {
    var fs := Retarget(l, i, p, size, site).entries;
    if i == 0 {
      assert fs[1..] == l.entries[1..];
    } else {
      var t := Ledger(l.entries[1..], l.blocks, l.bytes);
      RetargetNodes(t, i - 1, p, size, site);
      assert fs[1..] == Retarget(t, i - 1, p, size, site).entries;
    }
  }

  lemma RetargetAgrees(s: State, a: Account, i: nat, moved: Addr, size: uint32, site: Site)
    requires Agrees(s, a) && s.on && i < |s.ledger.entries| && moved != NULL
    requires moved !in s.heap.Keys - {s.ledger.entries[i].ptr}
    ensures var ptr := s.ledger.entries[i].ptr;
            Agrees(State(true, Retarget(s.ledger, i, moved, size, site), (s.heap - {ptr})[moved := size]),
                   Got(Lost(a, ptr), moved, size, site).(
                     taken := a.taken + multiset{moved}, freed := a.freed + multiset{ptr}))
  {
    var es := s.ledger.entries;
    var ptr := es[i].ptr;
    RetargetInv(s, i, moved, size, site);
    RetargetRecords(s.ledger, i, moved, size, site);
    RetargetCounted(s.ledger, i, moved, size, site, a.droppedBlocks, a.droppedBytes);
    assert LiveEntry(s.heap, es[i]);
    var l := Retarget(s.ledger, i, moved, size, site);
    RetargetNodes(s.ledger, i, moved, size, site);
    NodeSetHas(es, ptr);
    DropConserves(s, a, ptr);
    var s' := s.(heap := s.heap - {ptr});
    assert moved !in NodeSet(es);
    FreshConserves(s', a.(freed := a.freed + multiset{ptr}, held := a.held - {ptr}), moved, size);
  }

  /** realloc has moved a block with no entry. */
  lemma MovedAgrees(s: State, a: Account, ptr: Addr, size: uint32, moved: Addr)
    requires Agrees(s, a) && ptr in a.held && ptr !in a.records
    requires moved != NULL && moved !in s.heap.Keys - {ptr}
    ensures moved !in a.records && moved !in a.held - {ptr}
    ensures Agrees(s.(heap := (s.heap - {ptr})[moved := size]),
                   Booked(a.(held := a.held - {ptr} + {moved}), [moved], [ptr]))
  {
    DropAgrees(s, a, ptr);
    var s', a' := s.(heap := s.heap - {ptr}), Lost(a, ptr).(freed := a.freed + multiset{ptr});
    assert moved !in s'.heap;
    FreshAgrees(s', a', moved, size);
    assert a'.records == a.records;
    assert Booked(a.(held := a.held - {ptr} + {moved}), [moved], [ptr])
        == a'.(taken := a'.taken + multiset{moved}, held := a'.held + {moved});
  }

  lemma ReallocUnledgered(s: State, a: Account, ptr: Addr, size: uint32, site: Site, moved: Addr, node: Addr)
    requires Agrees(s, a) && s.on && ptr in a.held && ptr !in a.records
    requires Legal(s, Realloc(ptr, size, site, moved, node)) && ptr != NULL && size != 0 && moved != NULL
    ensures var op := Realloc(ptr, size, site, moved, node);
            var e := Step(s, op); Agrees(e.s, Tally(a, op, e.out))
  {
    hide Agrees, Conserves, Inv, Enter;
    assert a.tracing == s.on by { TracingAgrees(s, a); }
    MovedAgrees(s, a, ptr, size, moved);
    var s' := s.(heap := (s.heap - {ptr})[moved := size]);
    assert s'.heap.Keys == s.heap.Keys - {ptr} + {moved};
    assert a.records - {ptr} == a.records;
    Unrecorded(s, a, ptr);
    EnterGot(s', Lost(a, ptr), moved, size, site, node, [moved], [ptr]);
  }

  lemma ReallocUntraced(s: State, a: Account, ptr: Addr, size: uint32, site: Site, moved: Addr, node: Addr)
    requires Agrees(s, a) && !s.on && ptr in a.held && ptr !in a.records
    requires Legal(s, Realloc(ptr, size, site, moved, node)) && ptr != NULL && size != 0 && moved != NULL
    ensures var op := Realloc(ptr, size, site, moved, node);
            var e := Step(s, op); Agrees(e.s, Tally(a, op, e.out))
  {
    assert a.tracing == s.on;
    hide Agrees, Inv, Conserves;
    MovedAgrees(s, a, ptr, size, moved);
    assert a.records - {ptr} == a.records;
  }

  lemma ReallocLedgered(s: State, a: Account, ptr: Addr, size: uint32, site: Site, moved: Addr, node: Addr)
    requires Agrees(s, a) && s.on && ptr in a.held && ptr in a.records
    requires Legal(s, Realloc(ptr, size, site, moved, node)) && ptr != NULL && size != 0 && moved != NULL
    ensures var op := Realloc(ptr, size, site, moved, node);
            var e := Step(s, op); Agrees(e.s, Tally(a, op, e.out))
  {
    hide Agrees, Inv, Conserves;
    Unrecorded(s, a, ptr);
    RetargetAgrees(s, a, Find(s.ledger.entries, ptr), moved, size, site);
    assert multiset([moved]) == multiset{moved} && multiset([ptr]) == multiset{ptr};
  }

  /** A call that asks the heap for nothing and returns nothing leaves the agreement alone. */
  lemma RefusedAgrees(s: State, a: Account, op: Op, r: Ret)
    requires Agrees(s, a) && Step(s, op) == Refused(s, r) && Observe(a, op, r) == a
    ensures var e := Step(s, op); Agrees(e.s, Tally(a, op, e.out))
  {
  }

  lemma ReallocFromNull(s: State, a: Account, size: uint32, site: Site, moved: Addr, node: Addr)
    requires Agrees(s, a) && size != 0
    requires Answer(s.heap.Keys, moved) && Answer(s.heap.Keys + {moved}, node)
    ensures var op := Realloc(NULL, size, site, moved, node);
            var e := Step(s, op); Agrees(e.s, Tally(a, op, e.out))
  {
    hide Agrees, Inv, Conserves, Enter;
    AllocateAgrees(s, a, size, size, site, moved, node);
    var e := Allocate(s, size, size, site, moved, node);
    assert Step(s, Realloc(NULL, size, site, moved, node)) == e;
    assert moved == NULL ==> e.out.ret.p == NULL;
    hide Allocate, Step;
  }

  lemma ReallocAgrees(s: State, a: Account, ptr: Addr, size: uint32, site: Site, moved: Addr, node: Addr)
    requires Agrees(s, a) && Legal(s, Realloc(ptr, size, site, moved, node))
    ensures var op := Realloc(ptr, size, site, moved, node);
            var e := Step(s, op); Agrees(e.s, Tally(a, op, e.out))
  {
    assert !s.on ==> a.records == map[];
    assert NULL !in s.heap;
    hide Agrees, Inv, Conserves, Tally;
    if size == 0 || (ptr != NULL && moved == NULL) {
      RefusedAgrees(s, a, Realloc(ptr, size, site, moved, node), Pointer(NULL));
    } else if ptr == NULL {
      assert s.heap.Keys - {NULL} == s.heap.Keys;
      ReallocFromNull(s, a, size, site, moved, node);
    } else {
      Unrecorded(s, a, ptr);
      if !s.on {
        ReallocUntraced(s, a, ptr, size, site, moved, node);
      } else if ptr in a.records {
        ReallocLedgered(s, a, ptr, size, site, moved, node);
      } else {
        ReallocUnledgered(s, a, ptr, size, site, moved, node);
      }
    }
  }

  lemma UnlinkInv(s: State, i: nat)
    requires Inv(s) && s.on && i < |s.ledger.entries|
    ensures var e := s.ledger.entries[i];
            Inv(State(true, Unlink(s.ledger, i), s.heap - {e.node} - {e.ptr}))
  {
  }

  lemma {:induction false} UnlinkNodes(l: Ledger, i: nat)
    requires i < |l.entries| && DistinctNodes(l.entries)
    ensures NodeSet(Unlink(l, i).entries) == NodeSet(l.entries) - {l.entries[i].node}
    ensures l.entries[i].node in NodeSet(l.entries)
    decreases i
  {
    var es, fs := l.entries, Unlink(l, i).entries;
    if i == 0 {
      assert fs == es[1..];
      NodeSetHas(es[1..], es[0].node);
    } else {
      var t := Ledger(es[1..], l.blocks, l.bytes);
      UnlinkNodes(t, i - 1);
      assert fs[0] == es[0] && fs[1..] == Unlink(t, i - 1).entries;
      assert es[0].node != es[i].node;
    }
  }

  lemma BalanceDropTwo(heap: map<Addr, nat>, taken: multiset<Addr>, freed: multiset<Addr>, p: Addr, q: Addr)
    requires p in heap && q in heap && p != q && taken == freed + multiset(heap.Keys)
    ensures taken == freed + multiset{p, q} + multiset((heap - {p} - {q}).Keys)
  {
  }

  lemma UnlinkConserves(s: State, a: Account, i: nat)
    requires Inv(s) && Conserves(s, a) && i < |s.ledger.entries|
    ensures var e := s.ledger.entries[i];
            Conserves(State(s.on, Unlink(s.ledger, i), s.heap - {e.node} - {e.ptr}),
                      a.(freed := a.freed + multiset{e.node, e.ptr}, held := a.held - {e.ptr}))
  {
    var e := s.ledger.entries[i];
    assert LiveEntry(s.heap, e);
    assert e.node in s.heap && e.ptr in s.heap && e.ptr != e.node;
    NodeSetHas(s.ledger.entries, e.ptr);
    UnlinkNodes(s.ledger, i);
    hide Inv, NodeSet, Unlink;
    BalanceDropTwo(s.heap, a.taken, a.freed, e.node, e.ptr);
    assert (s.heap - {e.node} - {e.ptr}).Keys == s.heap.Keys - {e.node} - {e.ptr};
  }

  lemma UnlinkAgrees(s: State, a: Account, i: nat)
    requires Agrees(s, a) && s.on && i < |s.ledger.entries|
    ensures var e := s.ledger.entries[i];
            Agrees(State(true, Unlink(s.ledger, i), s.heap - {e.node} - {e.ptr}),
                   Lost(a, e.ptr).(freed := a.freed + multiset{e.node, e.ptr}))
  {
    UnlinkInv(s, i);
    UnlinkConserves(s, a, i);
    UnlinkCounted(s.ledger, i, a.droppedBlocks, a.droppedBytes);
    UnlinkRecords(s.ledger, i);
  }

  lemma FreeLedgered(s: State, a: Account, p: Addr)
    requires Agrees(s, a) && s.on && p != NULL && Find(s.ledger.entries, p) < |s.ledger.entries|
    ensures var e := Step(s, Free(p)); Agrees(e.s, Tally(a, Free(p), e.out))
  {
    hide Agrees, Inv, Conserves;
    var i := Find(s.ledger.entries, p);
    UnlinkAgrees(s, a, i);
    var node := s.ledger.entries[i].node;
    assert multiset([node, p]) == multiset{node, p};
    assert a.taken + multiset([]) == a.taken;
  }

  lemma FreeUntraced(s: State, a: Account, p: Addr)
    requires Agrees(s, a) && !s.on && p in a.held && p != NULL
    ensures var e := Step(s, Free(p)); Agrees(e.s, Tally(a, Free(p), e.out))
  {
    assert a.records == map[];
    hide Agrees, Inv, Conserves;
    DropAgrees(s, a, p);
    assert multiset([p]) == multiset{p};
    assert a.taken + multiset([]) == a.taken;
  }

  lemma FreeAgrees(s: State, a: Account, p: Addr)
    requires Agrees(s, a) && Legal(s, Free(p))
    ensures var e := Step(s, Free(p)); Agrees(e.s, Tally(a, Free(p), e.out))
  {
    hide Agrees, Inv, Conserves, Tally;
    if p == NULL || (s.on && Find(s.ledger.entries, p) == |s.ledger.entries|) {
      RefusedAgrees(s, a, Free(p), Code(RL_FAILED));
    } else if s.on {
      FreeLedgered(s, a, p);
    } else {
      Unrecorded(s, a, p);
      FreeUntraced(s, a, p);
    }
  }

  lemma {:induction false} DropNodes(heap: map<Addr, nat>, es: seq<Entry>)
    requires DistinctNodes(es) && forall i :: 0 <= i < |es| ==> es[i].node in heap
    ensures multiset(heap.Keys) == multiset((heap - NodeSet(es)).Keys) + multiset(Nodes(es))
  {
    if es == [] {
      assert heap - NodeSet(es) == heap && Nodes(es) == [];
    } else {
      KeysDrop(heap, es[0].node);
      DropNodes(heap - {es[0].node}, es[1..]);
      assert Nodes(es) == [es[0].node] + Nodes(es[1..]);
      assert heap - NodeSet(es) == heap - {es[0].node} - NodeSet(es[1..]);
    }
  }

  lemma Shift(taken: multiset<Addr>, freed: multiset<Addr>, all: multiset<Addr>,
              rest: multiset<Addr>, gone: multiset<Addr>)
    requires taken == freed + all && all == rest + gone
    ensures taken == freed + gone + rest
  {
  }

  lemma DeinitConserves(s: State, a: Account)
    requires Inv(s) && Conserves(s, a)
    ensures var es := s.ledger.entries;
            Conserves(State(false, s.ledger.(entries := []), s.heap - NodeSet(es)),
                      a.(freed := a.freed + multiset(Nodes(es))))
  {
    var es := s.ledger.entries;
    assert forall i :: 0 <= i < |es| ==> LiveEntry(s.heap, es[i]);
    DropNodes(s.heap, es);
    hide Inv, Nodes;
    var rest := s.heap - NodeSet(es);
    Shift(a.taken, a.freed, multiset(s.heap.Keys), multiset(rest.Keys), multiset(Nodes(es)));
    assert rest.Keys == a.held;
  }

  lemma DeinitCounted(l: Ledger, db: nat, dB: nat)
    requires Counted(l, db, dB)
    ensures Counted(l.(entries := []), db + Wrap32(|l.entries|), dB + Wrap32(Bytes(l.entries)))
  {
    assert Bytes([]) == 0;
    hide Wrap32, Bytes;
    Wrap32Sum(|l.entries|, db);
    Wrap32Sum(Bytes(l.entries), dB);
  }

  lemma DeinitState(s: State, a: Account)
    requires Agrees(s, a) && s.on
    ensures var es, ns := s.ledger.entries, Nodes(s.ledger.entries);
            Agrees(State(false, s.ledger.(entries := []), s.heap - NodeSet(s.ledger.entries)),
                   a.(freed := a.freed + multiset(ns), tracing := false, records := map[],
                      droppedBlocks := a.droppedBlocks + Wrap32(|es|),
                      droppedBytes := a.droppedBytes + Wrap32(Bytes(es))))
  {
    DeinitConserves(s, a);
    DeinitCounted(s.ledger, a.droppedBlocks, a.droppedBytes);
    var ns := Nodes(s.ledger.entries);
    assert Inv(State(false, s.ledger.(entries := []), s.heap - NodeSet(s.ledger.entries)));
    hide Counted, Inv;
  }

  lemma DeinitAgrees(s: State, a: Account, opens: bool)
    requires Agrees(s, a)
    ensures var e := Step(s, Deinit(opens)); Agrees(e.s, Tally(a, Deinit(opens), e.out))
  {
    hide Agrees, Nodes, Bytes, Wrap32;
    if !s.on || !opens {
      RefusedAgrees(s, a, Deinit(opens), Code(RL_FAILED));
    } else {
      DeinitState(s, a);
      assert a.taken + multiset([]) == a.taken;
    }
  }

  /** Starting a session resets a list that is empty already. */
  lemma InitAgrees(s: State, a: Account, state: bool)
    requires Agrees(s, a)
    ensures var e := Step(s, Init(state)); Agrees(e.s, Tally(a, Init(state), e.out))
  {
  }

  lemma RawAgrees(s: State, a: Account, op: Op)
    requires Agrees(s, a) && Legal(s, op) && (op.RawMalloc? || op.RawFree?)
    ensures var e := Step(s, op); Agrees(e.s, Tally(a, op, e.out))
  {
    hide Agrees, Conserves, Inv;
    assert a.taken + multiset([]) == a.taken && a.freed + multiset([]) == a.freed;
    if op.RawMalloc? {
      FreshAgrees(s, a, op.block, op.bytes);
      assert multiset([op.block]) == multiset{op.block};
    } else {
      Unrecorded(s, a, op.ptr);
      RecordsFind(s.ledger.entries, op.ptr);
      DropAgrees(s, a, op.ptr);
      assert multiset([op.ptr]) == multiset{op.ptr};
    }
  }

  lemma MallocAgrees(s: State, a: Account, size: uint32, site: Site, p: Addr, node: Addr)
    requires Agrees(s, a) && Legal(s, Malloc(size, site, p, node))
    ensures var op := Malloc(size, site, p, node);
            var e := Step(s, op); Agrees(e.s, Tally(a, op, e.out))
  {
    hide Agrees, Conserves, Inv, Allocate;
    if size == 0 {
      RefusedAgrees(s, a, Malloc(size, site, p, node), Pointer(NULL));
    } else {
      AllocateAgrees(s, a, size, size, site, p, node);
    }
  }

  lemma CallocAgrees(s: State, a: Account, unit: uint32, count: uint32, site: Site, p: Addr, node: Addr)
    requires Agrees(s, a) && Legal(s, Calloc(unit, count, site, p, node))
    ensures var op := Calloc(unit, count, site, p, node);
            var e := Step(s, op); Agrees(e.s, Tally(a, op, e.out))
  {
    hide Agrees, Conserves, Inv, Allocate, Wrap32;
    if unit == 0 || count == 0 {
      RefusedAgrees(s, a, Calloc(unit, count, site, p, node), Pointer(NULL));
    } else {
      AllocateAgrees(s, a, Wrap32(unit * count), unit * count, site, p, node);
    }
  }

  lemma StepAgrees(s: State, a: Account, op: Op)
    requires Agrees(s, a) && Legal(s, op)
    ensures var e := Step(s, op); Agrees(e.s, Tally(a, op, e.out))
  {
    hide Agrees, Conserves, Inv, Tally;
    match op
    case Init(state) => InitAgrees(s, a, state);
    case Deinit(opens) => DeinitAgrees(s, a, opens);
    case Malloc(size, site, p, node) => MallocAgrees(s, a, size, site, p, node);
    case Calloc(unit, count, site, p, node) => CallocAgrees(s, a, unit, count, site, p, node);
    case Realloc(ptr, size, site, moved, node) => ReallocAgrees(s, a, ptr, size, site, moved, node);
    case Free(ptr) => FreeAgrees(s, a, ptr);
    case RawMalloc(_, _) => RawAgrees(s, a, op);
    case RawFree(_) => RawAgrees(s, a, op);
  }

  // ----- every call keeps the recorded sizes true -----

  lemma EnterKeepsSizes(s: State, p: Addr, size: uint32, site: Site, node: Addr, taken: seq<Addr>, freed: seq<Addr>)
    requires TrueSizes(s) && p in s.heap && Wrap32(s.heap[p]) == size && (node == NULL || node !in s.heap)
    requires forall i :: 0 <= i < |s.ledger.entries| ==> s.ledger.entries[i].ptr != p
    ensures TrueSizes(Enter(s, p, size, site, node, taken, freed).s)
  {
    var es, s' := s.ledger.entries, Enter(s, p, size, site, node, taken, freed).s;
    forall i | 0 <= i < |s'.ledger.entries| ensures TrueSized(s'.heap, s'.ledger.entries[i]) {
      if node == NULL {
        assert TrueSized(s.heap, es[i]);
      } else if i > 0 {
        assert TrueSized(s.heap, es[i-1]) && s'.ledger.entries[i] == es[i-1];
      }
    }
  }

  lemma FreshKeepsSizes(s: State, p: Addr, bytes: nat)
    requires TrueSizes(s) && p !in s.heap
    ensures TrueSizes(s.(heap := s.heap[p := bytes]))
    ensures forall i :: 0 <= i < |s.ledger.entries| ==> s.ledger.entries[i].ptr != p
  {
    forall i | 0 <= i < |s.ledger.entries|
      ensures TrueSized(s.heap[p := bytes], s.ledger.entries[i]) && s.ledger.entries[i].ptr != p
    {
      assert TrueSized(s.heap, s.ledger.entries[i]);
    }
  }

  lemma DropKeepsSizes(s: State, p: Addr)
    requires TrueSizes(s) && Find(s.ledger.entries, p) == |s.ledger.entries|
    ensures TrueSizes(s.(heap := s.heap - {p}))
  {
    forall i | 0 <= i < |s.ledger.entries| ensures TrueSized(s.heap - {p}, s.ledger.entries[i]) {
      assert TrueSized(s.heap, s.ledger.entries[i]);
    }
  }

  lemma AllocateKeepsSizes(s: State, size: uint32, trueSize: nat, site: Site, p: Addr, node: Addr)
    requires TrueSizes(s) && Wrap32(trueSize) == size
    requires Answer(s.heap.Keys, p) && Answer(s.heap.Keys + {p}, node)
    ensures TrueSizes(Allocate(s, size, trueSize, site, p, node).s)
  {
    if p != NULL {
      FreshKeepsSizes(s, p, trueSize);
      hide TrueSizes;
      if s.on {
        EnterKeepsSizes(s.(heap := s.heap[p := trueSize]), p, size, site, node, [p], []);
      }
    }
  }

  lemma RetargetKeepsSizes(s: State, i: nat, moved: Addr, size: uint32, site: Site)
    requires TrueSizes(s) && DistinctPtrs(s.ledger.entries) && i < |s.ledger.entries|
    requires moved !in s.heap.Keys - {s.ledger.entries[i].ptr}
    ensures TrueSizes(State(s.on, Retarget(s.ledger, i, moved, size, site),
                            (s.heap - {s.ledger.entries[i].ptr})[moved := size]))
  {
    var es := s.ledger.entries;
    var heap, fs := (s.heap - {es[i].ptr})[moved := size], Retarget(s.ledger, i, moved, size, site).entries;
    forall j | 0 <= j < |fs| ensures TrueSized(heap, fs[j]) {
      if j != i {
        assert TrueSized(s.heap, es[j]) && es[j].ptr != es[i].ptr;
      }
    }
  }

  lemma ReallocKeepsSizes(s: State, ptr: Addr, size: uint32, site: Site, moved: Addr, node: Addr)
    requires Inv(s) && TrueSizes(s) && Legal(s, Realloc(ptr, size, site, moved, node))
    requires ptr != NULL && size != 0 && moved != NULL
    ensures TrueSizes(Step(s, Realloc(ptr, size, site, moved, node)).s)
  {
    var i := Find(s.ledger.entries, ptr);
    if i == |s.ledger.entries| {
      DropKeepsSizes(s, ptr);
      var s' := s.(heap := s.heap - {ptr});
      FreshKeepsSizes(s', moved, size);
      hide TrueSizes, Inv;
      if s.on {
        EnterKeepsSizes(s'.(heap := s'.heap[moved := size]), moved, size, site, node, [moved], [ptr]);
      }
    } else {
      RetargetKeepsSizes(s, i, moved, size, site);
    }
  }

  lemma UnlinkKeepsSizes(s: State, i: nat)
    requires Inv(s) && TrueSizes(s) && i < |s.ledger.entries|
    ensures var e := s.ledger.entries[i];
            TrueSizes(State(s.on, Unlink(s.ledger, i), s.heap - {e.node} - {e.ptr}))
  {
    var es, fs := s.ledger.entries, Unlink(s.ledger, i).entries;
    forall j | 0 <= j < |fs| ensures TrueSized(s.heap - {es[i].node} - {es[i].ptr}, fs[j]) {
      var k := if j < i then j else j + 1;
      assert fs[j] == es[k] && TrueSized(s.heap, es[k]);
      assert es[k].ptr != es[i].node && es[k].ptr != es[i].ptr;
    }
  }

  lemma FreeKeepsSizes(s: State, p: Addr)
    requires Inv(s) && TrueSizes(s) && Legal(s, Free(p))
    ensures TrueSizes(Step(s, Free(p)).s)
  {
    var i := Find(s.ledger.entries, p);
    if p != NULL {
      if i < |s.ledger.entries| {
        UnlinkKeepsSizes(s, i);
      } else {
        DropKeepsSizes(s, p);
      }
    }
  }

  /** As long as every size in the ledger is the true one, every call by a single thread leaves it so. */
  lemma StepKeepsSizes(s: State, op: Op)
    requires Inv(s) && TrueSizes(s) && Legal(s, op)
    ensures TrueSizes(Step(s, op).s)
  {
    match op
    case Malloc(size, site, p, node) =>
      hide Inv, TrueSizes;
      if size != 0 { AllocateKeepsSizes(s, size, size, site, p, node); }
    case Calloc(unit, count, site, p, node) =>
      hide Inv, TrueSizes;
      if unit != 0 && count != 0 { AllocateKeepsSizes(s, Wrap32(unit * count), unit * count, site, p, node); }
    case Realloc(ptr, size, site, moved, node) =>
      assert NULL !in s.heap;
      hide Inv, TrueSizes;
      if size != 0 && ptr == NULL {
        assert s.heap.Keys - {NULL} == s.heap.Keys;
        AllocateKeepsSizes(s, size, size, site, moved, node);
      } else if size != 0 && moved != NULL {
        ReallocKeepsSizes(s, ptr, size, site, moved, node);
      }
    case Free(p) => FreeKeepsSizes(s, p);
    case RawMalloc(p, bytes) => FreshKeepsSizes(s, p, bytes);
    case RawFree(p) =>
      RecordsFind(s.ledger.entries, p);
      DropKeepsSizes(s, p);
    case _ =>
  }

  lemma StartAgrees()
    ensures Agrees(Start(), Opening()) && TrueSizes(Start())
  {
  }

  /**
    * Every legal run, of any length and with any answers of the heap, keeps state and account in agreement, and
    * the recorded sizes true if they were.
    */
  lemma {:induction false} RunAgrees(w: World, ops: seq<Op>)
    requires Agrees(w.s, w.a) && LegalRun(w, ops)
    ensures var v := Run(w, ops); Agrees(v.s, v.a) && (TrueSizes(w.s) ==> TrueSizes(v.s))
    decreases |ops|
  {
    if ops != [] {
      assert Inv(w.s);
      hide Agrees, Inv, TrueSizes, Legal, Step, Tally;
      StepAgrees(w.s, w.a, ops[0]);
      if TrueSizes(w.s) {
        StepKeepsSizes(w.s, ops[0]);
      }
      RunAgrees(Next(w, ops[0]), ops[1..]);
    }
  }
}
