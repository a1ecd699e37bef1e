/** The tracing allocator under threads: heap calls run outside the lock, ledger updates inside it. */
module MemThreads {
  import opened CTypes
  import opened Bags
  import opened MemLedger
  import opened MemSession

  /** How far a thread is inside a wrapper; `Idle` is client code. */
  datatype Pc =
    | Idle
    | Obtained(p: Addr, size: uint32, site: Site)                   // has the block, not yet the node
    | Undo(p: Addr)                                                 // no memory for the node
    | Ready(p: Addr, size: uint32, site: Site, node: Addr)          // node filled in, lock not taken
    | Unlinked(p: Addr)                                             // rl_free has left the lock
    | Moved(old_: Addr, oldSize: uint32, p: Addr, size: uint32, site: Site)  // realloc done, lock not taken

  /**
    * `owned`: blocks client code holds and may pass to a wrapper. `Moved.oldSize` is bookkeeping of the model: the
    * size the vacated block had.
    */
  datatype Shared = Shared(ledger: Ledger, heap: map<Addr, nat>, owned: set<Addr>, threads: seq<Pc>)

  /** One atomic step of thread `t`: a call into the C heap, or a whole critical section. */
  datatype Action =
    | Malloc(t: nat, size: uint32, site: Site, p: Addr)
    | Calloc(t: nat, unit: uint32, count: uint32, site: Site, p: Addr)
    | Realloc(t: nat, ptr: Addr, size: uint32, site: Site, p: Addr)
    | NodeMalloc(t: nat, node: Addr)
    | RealFree(t: nat)
    | LockedPush(t: nat)
    | LockedUnlink(t: nat, ptr: Addr)
    | LockedRetarget(t: nat)

  function At(s: Shared, t: nat): Pc {
    if t < |s.threads| then s.threads[t] else Idle
  }

  /** The program order of the wrappers, the promises of the C heap, and clients passing only what they own. */
  predicate Enabled(s: Shared, a: Action) {
    && a.t < |s.threads|
    && match a
       case Malloc(t, size, _, p) => At(s, t).Idle? && size != 0 && Answer(s.heap.Keys, p)
       case Calloc(t, unit, count, _, p) => At(s, t).Idle? && unit != 0 && count != 0 && Answer(s.heap.Keys, p)
       case Realloc(t, ptr, size, _, p) =>
         At(s, t).Idle? && size != 0 && ptr in s.owned && Answer(s.heap.Keys - {ptr}, p)
       case NodeMalloc(t, node) => At(s, t).Obtained? && Answer(s.heap.Keys, node)
       case RealFree(t) => At(s, t).Undo? || At(s, t).Unlinked?
       case LockedPush(t) => At(s, t).Ready?
       case LockedUnlink(t, ptr) => At(s, t).Idle? && ptr in s.owned
       case LockedRetarget(t) => At(s, t).Moved?
  }

  function Obtain(s: Shared, t: nat, size: uint32, trueSize: nat, site: Site, p: Addr): Shared
    requires t < |s.threads|
  {
    if p == NULL then s
    else s.(heap := s.heap[p := trueSize], threads := s.threads[t := Obtained(p, size, site)])
  }

  function Apply(s: Shared, a: Action): Shared
    requires Enabled(s, a)
  {
    var pc := At(s, a.t);
    match a
    case Malloc(t, size, site, p) => Obtain(s, t, size, size, site, p)
    case Calloc(t, unit, count, site, p) => Obtain(s, t, Wrap32(unit * count), unit * count, site, p)
    case Realloc(t, ptr, size, site, p) =>
      if p == NULL then s
      else Shared(s.ledger, (s.heap - {ptr})[p := size], s.owned - {ptr},
                  s.threads[t := Moved(ptr, if ptr in s.heap then Wrap32(s.heap[ptr]) else 0, p, size, site)])
    case NodeMalloc(t, node) =>
      if node == NULL then s.(threads := s.threads[t := Undo(pc.p)])
      else s.(heap := s.heap[node := NODE_SIZE], threads := s.threads[t := Ready(pc.p, pc.size, pc.site, node)])
    case RealFree(t) => s.(heap := s.heap - {pc.p}, threads := s.threads[t := Idle])
    case LockedPush(t) =>
      s.(ledger := Push(s.ledger, Entry(pc.node, pc.p, pc.size, pc.site)), owned := s.owned + {pc.p},
         threads := s.threads[t := Idle])
    case LockedUnlink(t, ptr) =>
      var i := Find(s.ledger.entries, ptr);
      if i == |s.ledger.entries| then s
      else Shared(Unlink(s.ledger, i), s.heap - {s.ledger.entries[i].node}, s.owned - {ptr},
                  s.threads[t := Unlinked(ptr)])
    case LockedRetarget(t) =>
      var i := Find(s.ledger.entries, pc.old_);
      if i == |s.ledger.entries| then s.(threads := s.threads[t := Obtained(pc.p, pc.size, pc.site)])
      else s.(ledger := Retarget(s.ledger, i, pc.p, pc.size, pc.site), owned := s.owned + {pc.p},
              threads := s.threads[t := Idle])
  }

  /** Every interleaving is a sequence of enabled actions. */
  predicate Schedule(s: Shared, actions: seq<Action>)
    decreases |actions|
  {
    actions == [] || (Enabled(s, actions[0]) && Schedule(Apply(s, actions[0]), actions[1..]))
  }

  function Execute(s: Shared, actions: seq<Action>): Shared
    requires Schedule(s, actions)
    decreases |actions|
  {
    if actions == [] then s else Execute(Apply(s, actions[0]), actions[1..])
  }

  /** All threads are in client code. */
  predicate Quiet(s: Shared) {
    forall t :: 0 <= t < |s.threads| ==> s.threads[t].Idle?
  }

  // ----- what an action takes from the C heap and gives back to it -----

  function Block(p: Addr): multiset<Addr> { if p == NULL then multiset{} else multiset{p} }

  function TakenBy(a: Action): multiset<Addr> {
    match a
    case Malloc(_, _, _, p) => Block(p)
    case Calloc(_, _, _, _, p) => Block(p)
    case Realloc(_, _, _, _, p) => Block(p)
    case NodeMalloc(_, node) => Block(node)
    case _ => multiset{}
  }

  function FreedBy(s: Shared, a: Action): multiset<Addr>
    requires Enabled(s, a)
  {
    match a
    case Realloc(_, ptr, _, _, p) => if p == NULL then multiset{} else multiset{ptr}
    case RealFree(t) => multiset{At(s, t).p}
    case LockedUnlink(_, ptr) =>
      var i := Find(s.ledger.entries, ptr);
      if i == |s.ledger.entries| then multiset{} else multiset{s.ledger.entries[i].node}
    case _ => multiset{}
  }

  function AllTaken(actions: seq<Action>): multiset<Addr> {
    Gather(actions, TakenBy)
  }

  function AllFreed(s: Shared, actions: seq<Action>): multiset<Addr>
    requires Schedule(s, actions)
    decreases |actions|
  {
    if actions == [] then multiset{} else FreedBy(s, actions[0]) + AllFreed(Apply(s, actions[0]), actions[1..])
  }

  // ----- the bags the invariant is about -----

  function PtrOf(e: Entry): multiset<Addr> { multiset{e.ptr} }

  function NodeOf(e: Entry): multiset<Addr> { multiset{e.node} }

  /** The live block a thread has in flight: new from malloc, calloc or realloc, or on its way to free. */
  function InFlight(pc: Pc): multiset<Addr> { if pc.Idle? then multiset{} else multiset{pc.p} }

  function NodeInFlight(pc: Pc): multiset<Addr> { if pc.Ready? then multiset{pc.node} else multiset{} }

  /** The address a realloc has given up while its ledger entry still carries it. */
  function Vacated(pc: Pc): multiset<Addr> { if pc.Moved? then multiset{pc.old_} else multiset{} }

  function Once(b: bool): nat { if b then 1 else 0 }

  /** Address `x` is in the ledger once for its owner and once per realloc that has given it up. */
  ghost predicate LedgerAt(s: Shared, x: Addr) {
    Gather(s.ledger.entries, PtrOf)[x] == Once(x in s.owned) + Gather(s.threads, Vacated)[x]
  }

  /** A live block is owned, in flight, a node, a node in flight or foreign, and only one of these, once. */
  ghost predicate HeapAt(s: Shared, foreign: set<Addr>, x: Addr) {
    Once(x in s.heap)
      == Once(x in s.owned) + Gather(s.threads, InFlight)[x]
       + Gather(s.ledger.entries, NodeOf)[x] + Gather(s.threads, NodeInFlight)[x] + Once(x in foreign)
  }

  /** `foreign`: live blocks that neither the ledger nor any thread here knows about. */
  ghost predicate Balanced(s: Shared, foreign: set<Addr>) {
    forall x :: LedgerAt(s, x) && HeapAt(s, foreign, x)
  }

  ghost predicate ThreadInv(s: Shared, foreign: set<Addr>, db: nat, dB: nat) {
    Balanced(s, foreign) && Counted(s.ledger, db, dB) && NULL !in s.heap
  }
}
