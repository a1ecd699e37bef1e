/** Sequential behaviour of the tracing allocator over whole program runs. */
module MemSession {
  import opened CTypes
  import opened MemLedger

  /** sizeof(MEM_NODE_T) on a 64-bit target. */
  const NODE_SIZE: nat := 48

  /** `heap` is the C heap: every live block with its true size, ledger nodes included. */
  datatype State = State(on: bool, ledger: Ledger, heap: map<Addr, nat>)

  /**
    * One call, with the answers the C heap gives to the calls made inside it: `block`, `ptr` and `moved` for
    * the client's block, `node` for the ledger node. Answers a call never asks for are ignored. The last two are
    * raw malloc and free by code that bypasses the wrappers.
    */
  datatype Op =
    | Init(state: bool)
    | Deinit(reportOpens: bool)
    | Malloc(size: uint32, site: Site, block: Addr, node: Addr)
    | Calloc(unit: uint32, count: uint32, site: Site, block: Addr, node: Addr)
    | Realloc(ptr: Addr, size: uint32, site: Site, moved: Addr, node: Addr)
    | Free(ptr: Addr)
    | RawMalloc(block: Addr, bytes: nat)
    | RawFree(ptr: Addr)

  datatype Ret = Void | Code(code: int32) | Pointer(p: Addr) | Report(blocks: uint32, bytes: uint32)

  /** What a call returns, and the blocks it took from and gave back to the C heap, in order. */
  datatype Outcome = Outcome(ret: Ret, taken: seq<Addr>, freed: seq<Addr>)

  datatype Effect = Effect(s: State, out: Outcome)

  function Start(): State {
    State(false, Ledger([], 0, 0), map[])
  }

  // ----- the calls -----

  function Refused(s: State, r: Ret): Effect {
    Effect(s, Outcome(r, [], []))
  }

  /** Makes a new entry for block `p`, which is live; gives `p` back when there is no memory for the node. */
  function Enter(s: State, p: Addr, size: uint32, site: Site, node: Addr, taken: seq<Addr>, freed: seq<Addr>): Effect {
    if node == NULL then
      Effect(s.(heap := s.heap - {p}), Outcome(Pointer(NULL), taken, freed + [p]))
    else
      Effect(State(s.on, Push(s.ledger, Entry(node, p, size, site)), s.heap[node := NODE_SIZE]),
             Outcome(Pointer(p), taken + [node], freed))
  }

  function Allocate(s: State, size: uint32, trueSize: nat, site: Site, block: Addr, node: Addr): Effect {
    if block == NULL then Refused(s, Pointer(NULL)) else
    var s' := s.(heap := s.heap[block := trueSize]);
    if s.on then Enter(s', block, size, site, node, [block], [])
    else Effect(s', Outcome(Pointer(block), [block], []))
  }

  function DoMalloc(s: State, size: uint32, site: Site, block: Addr, node: Addr): Effect {
    if size == 0 then Refused(s, Pointer(NULL)) else Allocate(s, size, size, site, block, node)
  }

  function DoCalloc(s: State, unit: uint32, count: uint32, site: Site, block: Addr, node: Addr): Effect {
    if unit == 0 || count == 0 then Refused(s, Pointer(NULL))
    else Allocate(s, Wrap32(unit * count), unit * count, site, block, node)
  }

  function DoRealloc(s: State, ptr: Addr, size: uint32, site: Site, moved: Addr, node: Addr): Effect {
    if size == 0 then Refused(s, Pointer(NULL))
    else if ptr == NULL then DoMalloc(s, size, site, moved, node)
    else if moved == NULL then Refused(s, Pointer(NULL))
    else
      var s' := s.(heap := (s.heap - {ptr})[moved := size]);
      var i := Find(s.ledger.entries, ptr);
      if s.on && i == |s.ledger.entries| then
        Enter(s', moved, size, site, node, [moved], [ptr])
      else
        Effect(if s.on then s'.(ledger := Retarget(s.ledger, i, moved, size, site)) else s',
               Outcome(Pointer(moved), [moved], [ptr]))
  }

  function DoFree(s: State, ptr: Addr): Effect {
    if ptr == NULL then Refused(s, Code(RL_FAILED))
    else if s.on then
      var i := Find(s.ledger.entries, ptr);
      if i == |s.ledger.entries| then Refused(s, Code(RL_FAILED))
      else
        var node := s.ledger.entries[i].node;
        Effect(State(s.on, Unlink(s.ledger, i), s.heap - {node} - {ptr}),
               Outcome(Code(RL_SUCCESS), [], [node, ptr]))
    else
      Effect(s.(heap := s.heap - {ptr}), Outcome(Code(RL_SUCCESS), [], [ptr]))
  }

  function DoInit(s: State, state: bool): Effect {
    Refused(if !s.on && state then State(true, s.ledger.(entries := []), s.heap) else s, Void)
  }

  function Nodes(es: seq<Entry>): seq<Addr> {
    seq(|es|, i requires 0 <= i < |es| => es[i].node)
  }

  function NodeSet(es: seq<Entry>): set<Addr> {
    if es == [] then {} else {es[0].node} + NodeSet(es[1..])
  }

  function DoDeinit(s: State, reportOpens: bool): Effect {
    if !s.on || !reportOpens then Refused(s, Code(RL_FAILED))
    else
      var es := s.ledger.entries;
      Effect(State(false, s.ledger.(entries := []), s.heap - NodeSet(es)),
             Outcome(Report(Wrap32(|es|), Wrap32(Bytes(es))), [], Nodes(es)))
  }

  function Step(s: State, op: Op): Effect {
    match op
    case Init(state) => DoInit(s, state)
    case Deinit(opens) => DoDeinit(s, opens)
    case Malloc(size, site, block, node) => DoMalloc(s, size, site, block, node)
    case Calloc(unit, count, site, block, node) => DoCalloc(s, unit, count, site, block, node)
    case Realloc(ptr, size, site, moved, node) => DoRealloc(s, ptr, size, site, moved, node)
    case Free(ptr) => DoFree(s, ptr)
    case RawMalloc(block, bytes) => Effect(s.(heap := s.heap[block := bytes]), Outcome(Pointer(block), [block], []))
    case RawFree(ptr) => Effect(s.(heap := s.heap - {ptr}), Outcome(Void, [], [ptr]))
  }

  // ----- what the C heap promises and what callers owe -----

  /** malloc answers NULL or an address that is not live (ISO/IEC 9899:2011, section 7.22.3). */
  predicate Answer(live: set<Addr>, p: Addr) {
    p == NULL || p !in live
  }

  /** A live block that is not one of the ledger's own nodes. */
  predicate ClientBlock(s: State, p: Addr) {
    p in s.heap && p !in NodeSet(s.ledger.entries)
  }

  predicate Legal(s: State, op: Op) {
    match op
    case Init(_) => true
    case Deinit(_) => true
    case Malloc(_, _, block, node) =>
      Answer(s.heap.Keys, block) && Answer(s.heap.Keys + {block}, node)
    case Calloc(_, _, _, block, node) =>
      Answer(s.heap.Keys, block) && Answer(s.heap.Keys + {block}, node)
    case Realloc(ptr, _, _, moved, node) =>
      && (ptr == NULL || ClientBlock(s, ptr))
      && Answer(s.heap.Keys - {ptr}, moved)
      && Answer(s.heap.Keys - {ptr} + {moved}, node)
    case Free(ptr) => s.on || ptr == NULL || ClientBlock(s, ptr)
    case RawMalloc(block, _) => block != NULL && block !in s.heap
    case RawFree(ptr) => ClientBlock(s, ptr) && ptr !in Records(s.ledger.entries)
  }

  // ----- an account kept by an observer who sees the calls, their results and whether realloc moved -----

  /**
    * `held`: the blocks client code may still use. `records`: for each, while tracing is on, its latest allocating
    * call. `droppedBlocks` and `droppedBytes`: the leak totals reported so far.
    */
  datatype Account = Account(
    tracing: bool, taken: multiset<Addr>, freed: multiset<Addr>, held: set<Addr>, records: map<Addr, Record>,
    droppedBlocks: nat, droppedBytes: nat)

  function Opening(): Account {
    Account(false, multiset{}, multiset{}, {}, map[], 0, 0)
  }

  function Got(a: Account, p: Addr, size: uint32, site: Site): Account {
    if p == NULL then a
    else a.(held := a.held + {p}, records := if a.tracing then a.records[p := Record(size, site)] else a.records)
  }

  function Lost(a: Account, p: Addr): Account {
    a.(held := a.held - {p}, records := a.records - {p})
  }

  function Observe(a: Account, op: Op, r: Ret): Account {
    match (op, r)
    case (Init(state), _) => if state then a.(tracing := true) else a
    case (Deinit(_), Report(blocks, bytes)) =>
      a.(tracing := false, records := map[],
         droppedBlocks := a.droppedBlocks + blocks, droppedBytes := a.droppedBytes + bytes)
    case (Malloc(size, site, _, _), Pointer(p)) => Got(a, p, size, site)
    case (Calloc(unit, count, site, _, _), Pointer(p)) => Got(a, p, Wrap32(unit * count), site)
    case (Realloc(ptr, size, site, moved, _), Pointer(p)) =>
      if size == 0 || moved == NULL then a
      else if ptr == NULL then Got(a, p, size, site)
      else Got(Lost(a, ptr), p, size, site)
    case (Free(ptr), Code(c)) => if c == RL_SUCCESS then Lost(a, ptr) else a
    case (RawMalloc(block, _), _) => a.(held := a.held + {block})
    case (RawFree(ptr), _) => Lost(a, ptr)
    case _ => a
  }

  function Tally(a: Account, op: Op, out: Outcome): Account {
    Observe(a, op, out.ret).(taken := a.taken + multiset(out.taken), freed := a.freed + multiset(out.freed))
  }

  // ----- whole runs -----

  datatype World = World(s: State, a: Account)

  function Next(w: World, op: Op): World {
    var e := Step(w.s, op);
    World(e.s, Tally(w.a, op, e.out))
  }

  function Run(w: World, ops: seq<Op>): World
    decreases |ops|
  {
    if ops == [] then w else Run(Next(w, ops[0]), ops[1..])
  }

  /** Every call in the run meets its caller's duties and gets answers a C heap can give. */
  predicate LegalRun(w: World, ops: seq<Op>)
    decreases |ops|
  {
    ops == [] || (Legal(w.s, ops[0]) && LegalRun(Next(w, ops[0]), ops[1..]))
  }

  // ----- invariants -----

  ghost predicate DistinctNodes(es: seq<Entry>) {
    forall i, j :: 0 <= i < j < |es| ==> es[i].node != es[j].node
  }

  ghost predicate LiveEntry(heap: map<Addr, nat>, e: Entry) {
    e.node in heap && e.ptr in heap
  }

  /** The ledger is a duplicate-free list of live blocks, told apart from its own live nodes; off means empty. */
  ghost predicate Inv(s: State) {
    var es := s.ledger.entries;
    && NULL !in s.heap
    && (!s.on ==> es == [])
    && DistinctPtrs(es)
    && DistinctNodes(es)
    && (forall i :: 0 <= i < |es| ==> LiveEntry(s.heap, es[i]))
    && (forall i, j :: 0 <= i < |es| && 0 <= j < |es| ==> es[i].ptr != es[j].node)
  }

  ghost predicate TrueSized(heap: map<Addr, nat>, e: Entry) {
    e.ptr in heap && Wrap32(heap[e.ptr]) == e.size
  }

  /** Every recorded size is the true one, as an unsigned int. */
  ghost predicate TrueSizes(s: State) {
    forall i :: 0 <= i < |s.ledger.entries| ==> TrueSized(s.heap, s.ledger.entries[i])
  }

  ghost predicate Conserves(s: State, a: Account) {
    && a.taken == a.freed + multiset(s.heap.Keys)
    && s.heap.Keys == a.held + NodeSet(s.ledger.entries)
    && a.held !! NodeSet(s.ledger.entries)
  }

  /** The state agrees with the observer's account. */
  ghost predicate Agrees(s: State, a: Account) {
    && Inv(s)
    && a.tracing == s.on
    && Conserves(s, a)
    && Records(s.ledger.entries) == a.records
    && Counted(s.ledger, a.droppedBlocks, a.droppedBytes)
  }
}
