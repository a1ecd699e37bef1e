/** The promises of the tracing allocator, for every legal run from program start. */
module MemSessionTheorems {
  import opened CTypes
  import opened MemLedger
  import opened MemSession
  import opened MemSessionProofs

  /** Where a whole program run ends. */
  function Final(ops: seq<Op>): World {
    Run(World(Start(), Opening()), ops)
  }

  predicate LegalProgram(ops: seq<Op>) {
    LegalRun(World(Start(), Opening()), ops)
  }

  lemma FinalAgrees(ops: seq<Op>)
    requires LegalProgram(ops)
    ensures Agrees(Final(ops).s, Final(ops).a) && TrueSizes(Final(ops).s)
  {
    StartAgrees();
    RunAgrees(World(Start(), Opening()), ops);
  }

  /**
    * The list refines a finite map: for every pointer it knows the size and call site of the latest call that
    * returned it, as the observer has noted it, and for no other pointer. It has no duplicates.
    */
  lemma LedgerIsMapOfLatestCalls(ops: seq<Op>)
    requires LegalProgram(ops)
    ensures var w := Final(ops);
            && DistinctPtrs(w.s.ledger.entries)
            && forall p :: var i := Find(w.s.ledger.entries, p);
                 && (p in w.a.records <==> i < |w.s.ledger.entries|)
                 && (p in w.a.records ==>
                       w.a.records[p] == Record(w.s.ledger.entries[i].size, w.s.ledger.entries[i].site))
  {
    FinalAgrees(ops);
    var es := Final(ops).s.ledger.entries;
    forall p {
      RecordsFind(es, p);
    }
  }

  // ----- what single calls promise in every such state -----

  /** No call passes the real free anything but blocks that are live at that moment, each once. */
  lemma FreesOnlyLiveBlocks(s: State, a: Account, op: Op)
    requires Agrees(s, a) && Legal(s, op)
    ensures var out := Step(s, op).out;
            multiset(out.freed) <= multiset(s.heap.Keys) + multiset(out.taken)
  {
    hide Step, Inv, Records;
    var e := Step(s, op);
    StepAgrees(s, a, op);
    var b := Tally(a, op, e.out);
    assert b.taken == a.taken + multiset(e.out.taken) && b.freed == a.freed + multiset(e.out.freed);
    Balance(a.freed, multiset(s.heap.Keys), multiset(e.out.taken), multiset(e.out.freed), multiset(e.s.heap.Keys));
  }

  lemma Balance(before: multiset<Addr>, live: multiset<Addr>, taken: multiset<Addr>, freed: multiset<Addr>,
                live': multiset<Addr>)
    requires before + live + taken == before + freed + live'
    ensures freed <= live + taken
  {
    forall p ensures freed[p] <= (live + taken)[p] {
      assert (before + live + taken)[p] == (before + freed + live')[p];
    }
  }

  /**
    * With tracing on, rl_free accepts any pointer whatever. For a ledgered one it frees its node and its block,
    * both live until now and neither afterwards; for any other it fails and changes nothing.
    */
  lemma FreeAnyPointer(s: State, a: Account, p: Addr)
    requires Agrees(s, a) && s.on
    ensures var e := Step(s, Free(p)); var i := Find(s.ledger.entries, p);
            if p in a.records then
              && i < |s.ledger.entries| && e.out.ret == Code(RL_SUCCESS)
              && e.out.freed == [s.ledger.entries[i].node, p]
              && p in s.heap && s.ledger.entries[i].node in s.heap && p != s.ledger.entries[i].node
              && p !in e.s.heap && s.ledger.entries[i].node !in e.s.heap && p !in Records(e.s.ledger.entries)
              && e.s.ledger.entries == s.ledger.entries[..i] + s.ledger.entries[i+1..]
            else e == Refused(s, Code(RL_FAILED))
  {
    Unrecorded(s, a, p);
    var i := Find(s.ledger.entries, p);
    if i < |s.ledger.entries| {
      assert LiveEntry(s.heap, s.ledger.entries[i]);
      assert s.ledger.entries[i].ptr != s.ledger.entries[i].node;
      UnlinkRecords(s.ledger, i);
    }
  }

  /** A second rl_free of the same pointer, with nothing allocated in between, fails and changes nothing. */
  lemma SecondFreeFails(s: State, a: Account, p: Addr)
    requires Agrees(s, a) && s.on
    ensures var t := Step(s, Free(p)).s; Step(t, Free(p)) == Refused(t, Code(RL_FAILED))
  {
  }

  /** A reallocation that has moved the block but has no memory to enter it in the ledger. */
  predicate ConsumesBlock(s: State, op: Op) {
    && op.Realloc? && op.size != 0 && op.ptr != NULL && op.moved != NULL
    && s.on && op.ptr !in Records(s.ledger.entries) && op.node == NULL
  }

  /**
    * An allocating call that returns NULL leaves heap, ledger and counters as they were, except in exactly one
    * case: reallocating a block the ledger does not know when there is no memory for the node loses the block.
    */
  lemma FailureIsAtomic(s: State, a: Account, op: Op)
    requires Agrees(s, a) && Legal(s, op) && (op.Malloc? || op.Calloc? || op.Realloc?)
    requires Step(s, op).out.ret == Pointer(NULL)
    ensures Step(s, op).s == s <==> !ConsumesBlock(s, op)
    ensures ConsumesBlock(s, op) ==> op.ptr in s.heap && Step(s, op).s == s.(heap := s.heap - {op.ptr})
  {
    hide Conserves, Counted;
    assert NULL !in s.heap;
    hide Agrees, Inv;
    if op.Realloc? && op.ptr != NULL {
      RecordsFind(s.ledger.entries, op.ptr);
      if op.moved != NULL && op.size != 0 && op.moved !in s.heap.Keys - {op.ptr} {
        assert (s.heap - {op.ptr})[op.moved := op.size] - {op.moved} == s.heap - {op.ptr};
        assert s.heap - {op.ptr} != s.heap by { assert op.ptr in s.heap; }
      }
    } else {
      var p := if op.Realloc? then op.moved else op.block;
      if p !in s.heap {
        ReturnedAtOnce(s.heap, p, if op.Calloc? then op.unit * op.count else op.size);
      }
    }
  }

  lemma ReturnedAtOnce(heap: map<Addr, nat>, p: Addr, n: nat)
    requires p !in heap
    ensures heap[p := n] - {p} == heap
  {
  }

  /** The one failure that is not atomic can be reached: the block is gone, although the call reports failure. */
  lemma ConsumedBlock(site: Site)
    ensures var ops := [Init(true), RawMalloc(7, 10)]; var op := Realloc(7, 20, site, 9, NULL);
            && LegalProgram(ops + [op]) && ConsumesBlock(Final(ops).s, op)
            && Step(Final(ops).s, op).out.ret == Pointer(NULL)
            && Final(ops).s.heap == map[7 := 10] && Final(ops + [op]).s.heap == map[]
  {
    var w0 := World(Start(), Opening());
    var w1, w2 := Next(w0, Init(true)), Next(Next(w0, Init(true)), RawMalloc(7, 10));
    var op := Realloc(7, 20, site, 9, NULL);
    assert w2.s == State(true, Ledger([], 0, 0), map[7 := 10]);
    var w3 := Next(w2, op);
    assert w3.s.heap == map[];
    var ops := [Init(true), RawMalloc(7, 10)];
    var more := ops + [op];
    assert ops[1..] == [RawMalloc(7, 10)] && ops[1..][1..] == [];
    assert more[1..][1..] == [op] && more[1..][0] == RawMalloc(7, 10) && more[1..][1..][1..] == [];
    assert Final(ops) == Run(w1, ops[1..]) == Run(w2, []) == w2;
    assert Final(more) == Run(w1, more[1..]) == Run(w2, more[1..][1..]) == Run(w3, []) == w3;
    assert LegalRun(w2, more[1..][1..]);
    assert LegalRun(w1, more[1..]);
  }

  // ----- the counters -----

  lemma CarryArithmetic(b: uint32, x: nat, carry: nat)
    requires b == Wrap32(x + carry)
    ensures b == Wrap32(x) <==> Wrap32(carry) == 0
    ensures Wrap32(b - carry) == Wrap32(x)
  {
    var p := Wrap32Turns(x);
    var q := Wrap32Turns(carry);
    var k := Wrap32Turns(x + carry);
    Wrap32Is(b - carry, Wrap32(x), p - k);
    hide Wrap32;
    assert b == Wrap32(x) + Wrap32(carry) + (p + q - k) * TWO32;
  }

  lemma CountedFacts(l: Ledger, db: nat, dB: nat)
    requires Counted(l, db, dB)
    ensures l.blocks == Wrap32(|l.entries| + db) && l.bytes == Wrap32(Bytes(l.entries) + dB)
    ensures l.blocks == Wrap32(|l.entries|) <==> Wrap32(db) == 0
    ensures l.bytes == Wrap32(Bytes(l.entries)) <==> Wrap32(dB) == 0
    ensures Wrap32(l.blocks - db) == Wrap32(|l.entries|)
    ensures Wrap32(l.bytes - dB) == Wrap32(Bytes(l.entries))
  {
    hide Wrap32, Bytes;
    CarryArithmetic(l.blocks, |l.entries|, db);
    CarryArithmetic(l.bytes, Bytes(l.entries), dB);
  }

  /** One leaked block is enough: the next session starts with an empty ledger and counters that say otherwise. */
  lemma LeakOutlivesItsSession(site: Site)
    ensures var ops := [Init(true), Malloc(100, site, 7, 8), Deinit(true), Init(true)];
            && LegalProgram(ops) && Final(ops).s.on
            && Final(ops).s.ledger == Ledger([], 1, 100)
  {
    var w0 := World(Start(), Opening());
    var w1 := Next(w0, Init(true));
    assert w1.s == State(true, Ledger([], 0, 0), map[]);
    var w2 := Next(w1, Malloc(100, site, 7, 8));
    assert w2.s.ledger == Ledger([Entry(8, 7, 100, site)], 1, 100);
    var w3 := Next(w2, Deinit(true));
    assert w3.s.ledger == Ledger([], 1, 100) && !w3.s.on;
    var w4 := Next(w3, Init(true));
    var ops := [Init(true), Malloc(100, site, 7, 8), Deinit(true), Init(true)];
    assert ops[1..][1..][1..] == [Init(true)] && ops[1..][1..] == [Deinit(true), Init(true)];
    assert Run(w0, ops) == Run(w1, ops[1..]) == Run(w2, ops[1..][1..]) == Run(w3, ops[1..][1..][1..]) == Run(w4, []);
    assert LegalRun(w3, [Init(true)]);
    assert LegalRun(w2, ops[1..][1..]);
    assert LegalRun(w1, ops[1..]);
  }

  /** The true number of bytes behind the ledgered blocks. */
  function TrueBytes(heap: map<Addr, nat>, es: seq<Entry>): nat
  {
    if es == [] then 0
    else (if es[0].ptr in heap then heap[es[0].ptr] else 0) + TrueBytes(heap, es[1..])
  }

  lemma {:induction false} RecordedBytesAreTrueBytes(heap: map<Addr, nat>, es: seq<Entry>)
    requires forall i :: 0 <= i < |es| ==> TrueSized(heap, es[i])
    ensures Wrap32(Bytes(es)) == Wrap32(TrueBytes(heap, es))
  {
    if es != [] {
      assert TrueSized(heap, es[0]);
      assert forall i :: 0 <= i < |es[1..]| ==> es[1..][i] == es[i+1];
      RecordedBytesAreTrueBytes(heap, es[1..]);
      hide Wrap32;
      WrapAdds(es[0].size, heap[es[0].ptr], Bytes(es[1..]), TrueBytes(heap, es[1..]));
    }
  }

  lemma WrapAdds(x: uint32, y: nat, u: nat, v: nat)
    requires x == Wrap32(y) && Wrap32(u) == Wrap32(v)
    ensures Wrap32(x + u) == Wrap32(y + v)
  {
    hide Wrap32;
    Wrap32Sum(y, u);
    Wrap32Sum(u, y);
    Wrap32Sum(v, y);
  }

  /**
    * Where all recorded sizes are true, the byte counter less the carry is the true number of traced bytes modulo 2^32,
    * although a calloc product may have wrapped when it was recorded.
    */
  lemma ByteFacts(s: State, a: Account)
    requires Agrees(s, a) && TrueSizes(s)
    ensures var es := s.ledger.entries;
            && (forall i :: 0 <= i < |es| ==> es[i].ptr in s.heap && es[i].size == Wrap32(s.heap[es[i].ptr]))
            && Wrap32(s.ledger.bytes - a.droppedBytes) == Wrap32(TrueBytes(s.heap, es))
            && (Wrap32(TrueBytes(s.heap, es)) == TrueBytes(s.heap, es) <==> TrueBytes(s.heap, es) < TWO32)
  {
    var es := s.ledger.entries;
    forall i | 0 <= i < |es| ensures es[i].ptr in s.heap && es[i].size == Wrap32(s.heap[es[i].ptr]) {
      assert TrueSized(s.heap, es[i]);
    }
    hide Agrees;
    CountedFacts(s.ledger, a.droppedBlocks, a.droppedBytes);
    RecordedBytesAreTrueBytes(s.heap, es);
    SmallWraps(TrueBytes(s.heap, es));
  }

  lemma SmallWraps(x: nat)
    ensures Wrap32(x) == x <==> x < TWO32
  {
  }

  // ----- the end of a session -----

  lemma DeinitNodes(s: State)
    requires Inv(s)
    ensures var ns := Nodes(s.ledger.entries);
            && (forall i, j :: 0 <= i < j < |ns| ==> ns[i] != ns[j])
            && (forall n :: n in ns ==> n in s.heap)
  {
  }

  /**
    * A successful deinit frees every node, once and in list order, reports what the counters say less the carry,
    * and leaves an empty ledger; client blocks are untouched.
    */
  lemma DeinitFacts(s: State, a: Account)
    requires Agrees(s, a) && s.on
    ensures var e := Step(s, Deinit(true)); var ns := Nodes(s.ledger.entries);
            && e.out.freed == ns && |ns| == |s.ledger.entries|
            && (forall i, j :: 0 <= i < j < |ns| ==> ns[i] != ns[j])
            && (forall n :: n in ns ==> n in s.heap && n !in e.s.heap)
            && e.s.heap.Keys == a.held && !e.s.on && e.s.ledger.entries == []
            && e.out.ret == Report(Wrap32(s.ledger.blocks - a.droppedBlocks), Wrap32(s.ledger.bytes - a.droppedBytes))
  {
    var es := s.ledger.entries;
    CountedFacts(s.ledger, a.droppedBlocks, a.droppedBytes);
    NodesAreNodeSet(es);
    DeinitNodes(s);
    assert s.heap.Keys == a.held + NodeSet(es) && a.held !! NodeSet(es);
    hide Agrees, Counted, Wrap32, Inv, Nodes, NodeSet;
    assert (s.heap - NodeSet(es)).Keys == a.held;
  }
}
