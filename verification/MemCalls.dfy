/** What each call of the allocator promises its caller, tracing on or off, in any state a history can reach. */
module MemCalls {
  import opened CTypes
  import opened MemLedger
  import opened MemSession
  import opened MemSessionProofs
  import opened MemSessionTheorems

  /** Every block of `before` but those in `gone` is live and has its size. */
  predicate Untouched(before: map<Addr, nat>, after: map<Addr, nat>, gone: set<Addr>) {
    forall q :: q in before && q !in gone ==> q in after && after[q] == before[q]
  }

  /**
    * A request for a new block of `bytes` bytes, to be recorded as `size`, has been met: it has been granted exactly if
    * it is for something and the heap has memory for the block and, with tracing on, for a node as well.
    */
  ghost predicate Answered(s: State, e: Effect, size: uint32, bytes: nat, site: Site, p: Addr, node: Addr) {
    var granted := bytes > 0 && p != NULL && (s.on ==> node != NULL);
    && e.s.on == s.on && Untouched(s.heap, e.s.heap, {})
    && (!granted ==> e.out.ret == Pointer(0) && e.s == s)
    && (granted ==>
          && e.out.ret == Pointer(p) && p !in s.heap && p in e.s.heap && e.s.heap[p] == bytes
          && (!s.on ==> e.s.ledger == s.ledger && e.s.heap.Keys == s.heap.Keys + {p})
          && (s.on ==>
                && node !in s.heap && node != p && e.s.heap.Keys == s.heap.Keys + {p, node}
                && e.s.heap[node] == 48
                && e.s.ledger.entries == [Entry(node, p, size, site)] + s.ledger.entries
                && e.s.ledger.blocks == (s.ledger.blocks + 1) % 0x1_0000_0000
                && e.s.ledger.bytes == (s.ledger.bytes + size) % 0x1_0000_0000))
    && e.out.taken == (if bytes == 0 || p == NULL then [] else if s.on && node != NULL then [p, node] else [p])
    && e.out.freed == (if bytes > 0 && p != NULL && s.on && node == NULL then [p] else [])
  }

  lemma EnterAnswered(s: State, size: uint32, bytes: nat, site: Site, p: Addr, node: Addr)
    requires p != NULL && p !in s.heap && Answer(s.heap.Keys + {p}, node) && bytes > 0 && s.on
    ensures Answered(s, Enter(s.(heap := s.heap[p := bytes]), p, size, site, node, [p], []), size, bytes, site, p, node)
  {
    if node == NULL {
      assert s.heap[p := bytes] - {p} == s.heap;
    }
  }

  /** rl_malloc, rl_calloc and rl_realloc of NULL answer a request for a new block. */
  lemma RequestsAnswered(s: State, op: Op)
    requires Legal(s, op) && NULL !in s.heap && (op.Malloc? || op.Calloc? || (op.Realloc? && op.ptr == NULL))
    ensures op.Malloc? ==> Answered(s, Step(s, op), op.size, op.size, op.site, op.block, op.node)
    ensures op.Calloc? ==>
              var product := op.unit * op.count;
              Answered(s, Step(s, op), product % 0x1_0000_0000, product, op.site, op.block, op.node)
    ensures op.Realloc? ==> Answered(s, Step(s, op), op.size, op.size, op.site, op.moved, op.node)
  {
    var bytes: nat := if op.Calloc? then op.unit * op.count else op.size;
    var p := if op.Realloc? then op.moved else op.block;
    if op.Calloc? {
      ProductIsZero(op.unit, op.count);
    }
    assert s.heap.Keys - {NULL} == s.heap.Keys;
    if bytes > 0 && p != NULL && s.on {
      EnterAnswered(s, Wrap32(bytes), bytes, op.site, p, op.node);
      SizeIs32(op);
      hide Enter, Answered;
    } else {
      hide Enter;
    }
  }

  lemma ProductIsZero(x: nat, y: nat)
    ensures x * y == 0 <==> x == 0 || y == 0
  {
  }

  lemma SizeIs32(op: Op)
    ensures op.Malloc? || op.Realloc? ==> Wrap32(op.size) == op.size
  {
  }

  /** The block moved, and nothing else happened in the C heap but the making of a ledger node, if there is one. */
  predicate MovedTo(s: State, e: Effect, p: Addr, q: Addr, size: nat, nodes: set<Addr>) {
    && e.out.ret == Pointer(q) && e.s.on == s.on
    && q in e.s.heap && e.s.heap[q] == size
    && Untouched(s.heap, e.s.heap, {p}) && e.s.heap.Keys == s.heap.Keys - {p} + {q} + nodes
  }

  /**
    * rl_realloc of a held block: refused without effect when it is for nothing or realloc has no memory; otherwise the
    * block moves. With tracing on its entry, or a new one if it had none, carries the new address, size and call site;
    * without memory for a new entry the moved block is given up.
    */
  lemma ReallocPromises(s: State, a: Account, op: Op)
    requires Agrees(s, a) && Legal(s, op) && op.Realloc? && op.ptr != NULL
    ensures var e := Step(s, op); var l, es := s.ledger, s.ledger.entries;
            && (op.size == 0 || op.moved == NULL ==> e == Effect(s, Outcome(Pointer(0), [], [])))
            && (op.size > 0 && op.moved != NULL ==>
                  && (!s.on ==>
                        && MovedTo(s, e, op.ptr, op.moved, op.size, {}) && e.s.ledger == l
                        && e.out.taken == [op.moved] && e.out.freed == [op.ptr])
                  && (s.on && op.ptr in a.records ==>
                        && MovedTo(s, e, op.ptr, op.moved, op.size, {})
                        && e.out.taken == [op.moved] && e.out.freed == [op.ptr]
                        && e.s.ledger.blocks == l.blocks
                        && e.s.ledger.bytes == (l.bytes - a.records[op.ptr].size + op.size) % 0x1_0000_0000
                        && exists i :: 0 <= i < |es| && es[i].ptr == op.ptr
                                    && e.s.ledger.entries == es[i := Entry(es[i].node, op.moved, op.size, op.site)])
                  && (s.on && op.ptr !in a.records && op.node != NULL ==>
                        && MovedTo(s, e, op.ptr, op.moved, op.size, {op.node}) && e.s.heap[op.node] == 48
                        && e.out.taken == [op.moved, op.node] && e.out.freed == [op.ptr]
                        && e.s.ledger.entries == [Entry(op.node, op.moved, op.size, op.site)] + es
                        && e.s.ledger.blocks == (l.blocks + 1) % 0x1_0000_0000
                        && e.s.ledger.bytes == (l.bytes + op.size) % 0x1_0000_0000)
                  && (s.on && op.ptr !in a.records && op.node == NULL ==>
                        && e.out == Outcome(Pointer(0), [op.moved], [op.ptr, op.moved])
                        && e.s.on && e.s.ledger == l && e.s.heap == s.heap - {op.ptr}))
  {
    var es := s.ledger.entries;
    Unrecorded(s, a, op.ptr);
    RecordsFind(es, op.ptr);
    hide Agrees, Inv, Conserves;
    if op.size > 0 && op.moved != NULL {
      var heap := s.heap - {op.ptr};
      assert op.moved !in heap && heap[op.moved := op.size] - {op.moved} == heap;
      var i := Find(es, op.ptr);
      if i < |es| {
        RetargetBytes(s.ledger.bytes, es[i].size, op.size);
        hide Wrap32;
        assert es[i].ptr == op.ptr;
      }
    }
  }

  lemma RetargetBytes(b: uint32, x: uint32, y: uint32)
    ensures Wrap32(Wrap32(b - x) + y) == (b - x + y) % 0x1_0000_0000
  {
    Wrap32Sum(b - x, y);
  }

  /** Block `p` has been given back, once, with its node if it had one; no other block of a client was touched. */
  ghost predicate GaveBack(s: State, a: Account, e: Effect, p: Addr) {
    && e.out.ret == Code(0) && e.s.on == s.on && e.out.taken == []
    && multiset(e.out.freed)[p] == 1 && |e.out.freed| == (if s.on then 2 else 1)
    && p in s.heap && p !in e.s.heap
    && Untouched(s.heap, e.s.heap, {p} + NodeSet(s.ledger.entries))
    && (forall q :: q in a.held && q != p ==> q in s.heap && q in e.s.heap && e.s.heap[q] == s.heap[q])
    && Records(e.s.ledger.entries) == Records(s.ledger.entries) - {p}
    && |e.s.ledger.entries| == |s.ledger.entries| - (if s.on then 1 else 0)
    && (!s.on ==> e.s.ledger == s.ledger)
    && (s.on ==>
          && p in a.records
          && e.s.ledger.blocks == (s.ledger.blocks - 1) % 0x1_0000_0000
          && e.s.ledger.bytes == (s.ledger.bytes - a.records[p].size) % 0x1_0000_0000)
  }

  lemma FreedWithNode(s: State, a: Account, p: Addr)
    requires Agrees(s, a) && s.on && p in a.records
    ensures GaveBack(s, a, Step(s, Free(p)), p)
  {
    var es := s.ledger.entries;
    var i := Find(es, p);
    FreeAnyPointer(s, a, p);
    assert NULL !in s.heap && s.heap.Keys == a.held + NodeSet(es) && a.held !! NodeSet(es);
    RecordsFind(es, p);
    UnlinkRecords(s.ledger, i);
    NodeSetHas(es, es[i].node);
    hide Agrees, Inv, Records, NodeSet, DistinctPtrs, Find;
  }

  lemma FreedAlone(s: State, a: Account, p: Addr)
    requires Agrees(s, a) && !s.on && ClientBlock(s, p)
    ensures p != NULL && GaveBack(s, a, Step(s, Free(p)), p)
  {
    assert s.heap.Keys == a.held + NodeSet(s.ledger.entries);
  }

  /**
    * rl_free of a pointer its caller may pass is accepted exactly if it is not NULL and, with tracing on, recorded; if
    * not, nothing happens at all.
    */
  lemma FreePromises(s: State, a: Account, p: Addr)
    requires Agrees(s, a) && Legal(s, Free(p))
    ensures var e := Step(s, Free(p));
            if p != NULL && (s.on ==> p in a.records) then GaveBack(s, a, e, p)
            else e == Effect(s, Outcome(Code(-1), [], []))
  {
    hide GaveBack, NodeSet;
    if p != NULL && s.on && p in a.records {
      FreedWithNode(s, a, p);
    } else if p != NULL && !s.on {
      FreedAlone(s, a, p);
    } else if s.on {
      FreeAnyPointer(s, a, p);
    }
  }

  /** Init switches tracing on if asked to, never off, and does nothing else. */
  lemma InitPromises(s: State, a: Account, state: bool)
    requires Agrees(s, a)
    ensures Step(s, Init(state)) == Effect(s.(on := s.on || state), Outcome(Void, [], []))
  {
  }

  /** Deinit without tracing, or without a file to report to, fails and does nothing; otherwise it ends the session. */
  lemma DeinitPromises(s: State, a: Account, opens: bool)
    requires Agrees(s, a)
    ensures var e := Step(s, Deinit(opens));
            if s.on && opens then
              && !e.s.on && e.s.ledger.entries == [] && e.s.heap.Keys == a.held
              && e.s.ledger.blocks == s.ledger.blocks && e.s.ledger.bytes == s.ledger.bytes
              && (forall q :: q in a.held ==> q in s.heap && e.s.heap[q] == s.heap[q])
              && e.out.taken == [] && multiset(e.out.freed) == multiset(NodeSet(s.ledger.entries))
              && e.out.ret == Report(|s.ledger.entries| % 0x1_0000_0000, Bytes(s.ledger.entries) % 0x1_0000_0000)
            else e == Effect(s, Outcome(Code(-1), [], []))
  {
    if s.on && opens {
      DeinitFacts(s, a);
      NodesOnce(s.ledger.entries);
    }
  }

  lemma {:induction false} NodesOnce(es: seq<Entry>)
    requires DistinctNodes(es)
    ensures multiset(Nodes(es)) == multiset(NodeSet(es))
  {
    if es == [] {
      assert Nodes(es) == [];
    } else {
      NodesOnce(es[1..]);
      NodeSetHas(es[1..], es[0].node);
      assert Nodes(es) == [es[0].node] + Nodes(es[1..]);
    }
  }

  /** Clients may pass on every block they hold, with tracing on rl_free takes anything, and the heap may refuse. */
  lemma ClientsMayCall(s: State, a: Account, p: Addr, size: uint32, site: Site)
    requires Agrees(s, a)
    ensures p in a.held || s.on ==> Legal(s, Free(p))
    ensures p in a.held || p == NULL ==> Legal(s, Realloc(p, size, site, NULL, NULL))
    ensures p !in s.heap ==> Legal(s, Malloc(size, site, p, NULL)) && Legal(s, Calloc(size, size, site, p, NULL))
  {
    Unrecorded(s, a, p);
  }
}
