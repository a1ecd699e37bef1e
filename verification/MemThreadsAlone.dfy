/** A thread nobody interrupts does, step by step, what the sequential model says its call does at once. */
module MemThreadsAlone {
  import opened CTypes
  import opened MemLedger
  import MemSession
  import opened MemThreads

  function View(s: Shared): MemSession.State {
    MemSession.State(true, s.ledger, s.heap)
  }

  // ----- the steps of one call -----

  function Enter(t: nat, node: Addr): seq<Action> {
    [NodeMalloc(t, node), if node == NULL then RealFree(t) else LockedPush(t)]
  }

  function Steps(s: Shared, t: nat, op: MemSession.Op): seq<Action> {
    match op
    case Malloc(size, site, p, node) =>
      if size == 0 then [] else [Malloc(t, size, site, p)] + EnterUnlessNull(t, p, node)
    case Calloc(unit, count, site, p, node) =>
      if unit == 0 || count == 0 then [] else [Calloc(t, unit, count, site, p)] + EnterUnlessNull(t, p, node)
    case Realloc(ptr, size, site, p, node) =>
      if size == 0 then []
      else if ptr == NULL then [Malloc(t, size, site, p)] + EnterUnlessNull(t, p, node)
      else if p == NULL then [Realloc(t, ptr, size, site, NULL)]
      else [Realloc(t, ptr, size, site, p), LockedRetarget(t)] + if Listed(s, ptr) then [] else Enter(t, node)
    case Free(ptr) => if ptr == NULL then [] else [LockedUnlink(t, ptr)] + if Listed(s, ptr) then [RealFree(t)] else []
    case _ => []
  }

  predicate Listed(s: Shared, p: Addr) {
    Find(s.ledger.entries, p) < |s.ledger.entries|
  }

  function EnterUnlessNull(t: nat, p: Addr, node: Addr): seq<Action> {
    if p == NULL then [] else Enter(t, node)
  }

  // ----- where a few steps lead -----

  /** The steps can be taken from `s`, lead to `s'`, and have the heap traffic given. */
  ghost predicate Leads(s: Shared, actions: seq<Action>, s': Shared, taken: multiset<Addr>, freed: multiset<Addr>) {
    && Schedule(s, actions) && Execute(s, actions) == s'
    && AllTaken(actions) == taken && AllFreed(s, actions) == freed
  }

  lemma LeadsNowhere(s: Shared)
    ensures Leads(s, [], s, multiset{}, multiset{})
  {
  }

  lemma OneStepMore(s: Shared, a: Action, rest: seq<Action>, s': Shared, taken: multiset<Addr>, freed: multiset<Addr>)
    requires Enabled(s, a) && Leads(Apply(s, a), rest, s', taken, freed)
    ensures Leads(s, [a] + rest, s', TakenBy(a) + taken, FreedBy(s, a) + freed)
  {
    assert ([a] + rest)[1..] == rest;
  }

  lemma TwoStepsMore(s: Shared, a: Action, b: Action, rest: seq<Action>, s': Shared,
                     taken: multiset<Addr>, freed: multiset<Addr>)
    requires Enabled(s, a) && Enabled(Apply(s, a), b) && Leads(Apply(Apply(s, a), b), rest, s', taken, freed)
    ensures Leads(s, [a, b] + rest, s', TakenBy(a) + (TakenBy(b) + taken),
                  FreedBy(s, a) + (FreedBy(Apply(s, a), b) + freed))
  {
    hide Leads, Apply, Enabled, TakenBy, FreedBy;
    OneStepMore(Apply(s, a), b, rest, s', taken, freed);
    OneStepMore(s, a, [b] + rest, s', TakenBy(b) + taken, FreedBy(Apply(s, a), b) + freed);
    assert [a] + ([b] + rest) == [a, b] + rest;
  }

  lemma TwoSteps(s: Shared, a: Action, b: Action)
    requires Enabled(s, a) && Enabled(Apply(s, a), b)
    ensures Leads(s, [a, b], Apply(Apply(s, a), b), TakenBy(a) + TakenBy(b), FreedBy(s, a) + FreedBy(Apply(s, a), b))
  {
    hide Leads, Apply, Enabled, TakenBy, FreedBy;
    LeadsNowhere(Apply(Apply(s, a), b));
    TwoStepsMore(s, a, b, [], Apply(Apply(s, a), b), multiset{}, multiset{});
    assert [a, b] + [] == [a, b];
    assert TakenBy(b) + multiset{} == TakenBy(b);
    assert FreedBy(Apply(s, a), b) + multiset{} == FreedBy(Apply(s, a), b);
  }

  /** What entering a block in the ledger comes to. */
  function Entered(s: Shared, t: nat, p: Addr, size: uint32, site: Site, node: Addr): Shared
    requires t < |s.threads|
  {
    if node == NULL then s.(heap := s.heap - {p}, threads := s.threads[t := Idle])
    else Shared(Push(s.ledger, Entry(node, p, size, site)), s.heap[node := MemSession.NODE_SIZE], s.owned + {p},
                s.threads[t := Idle])
  }

  lemma EnterLeads(s: Shared, t: nat, node: Addr)
    requires t < |s.threads| && s.threads[t].Obtained? && MemSession.Answer(s.heap.Keys, node)
    ensures var pc := s.threads[t];
            Leads(s, Enter(t, node), Entered(s, t, pc.p, pc.size, pc.site, node), Block(node),
                  if node == NULL then multiset{pc.p} else multiset{})
  {
    var a, pc := NodeMalloc(t, node), s.threads[t];
    if node == NULL {
      assert s.threads[t := Undo(pc.p)][t := Idle] == s.threads[t := Idle];
      TwoSteps(s, a, RealFree(t));
    } else {
      assert s.threads[t := Ready(pc.p, pc.size, pc.site, node)][t := Idle] == s.threads[t := Idle];
      TwoSteps(s, a, LockedPush(t));
    }
    hide Push, Leads;
  }

  /** From a block just obtained to the return of the call, seen from `s`, where the thread is idle. */
  lemma ObtainLeads(s: Shared, t: nat, a: Action, size: uint32, trueSize: nat, site: Site, p: Addr, node: Addr)
    requires t < |s.threads| && s.threads[t].Idle? && p != NULL && p !in s.heap
    requires Enabled(s, a) && Apply(s, a) == Obtain(s, t, size, trueSize, site, p)
    requires TakenBy(a) == multiset{p} && FreedBy(s, a) == multiset{}
    requires MemSession.Answer(s.heap.Keys + {p}, node)
    ensures Leads(s, [a] + Enter(t, node), Entered(s.(heap := s.heap[p := trueSize]), t, p, size, site, node),
                  multiset{p} + Block(node), if node == NULL then multiset{p} else multiset{})
  {
    var s1 := Obtain(s, t, size, trueSize, site, p);
    var freed: multiset<Addr> := if node == NULL then multiset{p} else multiset{};
    assert s1.heap.Keys == s.heap.Keys + {p} && s1.threads[t] == Obtained(p, size, site);
    SameEntered(s, t, size, trueSize, site, p, node);
    hide Leads, Apply, Enabled, Entered, Enter, TakenBy, FreedBy, Obtain;
    EnterLeads(s1, t, node);
    OneStepMore(s, a, Enter(t, node), Entered(s1, t, p, size, site, node), Block(node), freed);
    assert multiset{} + freed == freed;
  }

  lemma SameEntered(s: Shared, t: nat, size: uint32, trueSize: nat, site: Site, p: Addr, node: Addr)
    requires t < |s.threads| && p != NULL
    ensures Entered(Obtain(s, t, size, trueSize, site, p), t, p, size, site, node)
         == Entered(s.(heap := s.heap[p := trueSize]), t, p, size, site, node)
  {
    hide Push;
    assert s.threads[t := Obtained(p, size, site)][t := Idle] == s.threads[t := Idle];
  }

  // ----- the whole call -----

  /** The blocks client code holds after a call, as its result tells. */
  function Held(owned: set<Addr>, op: MemSession.Op, r: MemSession.Ret): set<Addr> {
    MemSession.Observe(MemSession.Opening().(tracing := true, held := owned), op, r).held
  }

  /** The state `s'` is what the sequential call makes of `s`, with the same threads idle again. */
  ghost predicate EndsAs(s: Shared, op: MemSession.Op, s': Shared) {
    var e := MemSession.Step(View(s), op);
    View(s') == e.s && s'.threads == s.threads && s'.owned == Held(s.owned, op, e.out.ret)
  }

  /** The steps of the call lead to the sequential outcome, with its heap traffic. */
  ghost predicate ActsAsStep(s: Shared, t: nat, op: MemSession.Op) {
    var out := MemSession.Step(View(s), op).out;
    exists s' :: EndsAs(s, op, s') && Leads(s, Steps(s, t, op), s', multiset(out.taken), multiset(out.freed))
  }

  lemma RefusedActsAsStep(s: Shared, t: nat, op: MemSession.Op, r: MemSession.Ret)
    requires MemSession.Step(View(s), op) == MemSession.Refused(View(s), r) && Held(s.owned, op, r) == s.owned
    requires || Steps(s, t, op) == []
             || (exists a :: Steps(s, t, op) == [a] && Enabled(s, a) && Apply(s, a) == s
                          && TakenBy(a) == multiset{} && FreedBy(s, a) == multiset{})
    ensures ActsAsStep(s, t, op)
  {
    assert EndsAs(s, op, s);
    hide EndsAs, Steps, Apply, Enabled, TakenBy, FreedBy;
    LeadsNowhere(s);
    if Steps(s, t, op) != [] {
      var a :| Steps(s, t, op) == [a] && Enabled(s, a) && Apply(s, a) == s
               && TakenBy(a) == multiset{} && FreedBy(s, a) == multiset{};
      OneStepMore(s, a, [], s, multiset{}, multiset{});
      assert [a] + [] == [a];
    }
    hide Leads;
  }

  lemma AllocateActsAsStep(s: Shared, t: nat, op: MemSession.Op, a: Action, size: uint32, trueSize: nat, site: Site,
                           p: Addr, node: Addr)
    requires t < |s.threads| && s.threads[t].Idle? && p != NULL && p !in s.heap
    requires MemSession.Answer(s.heap.Keys + {p}, node)
    requires Enabled(s, a) && Apply(s, a) == Obtain(s, t, size, trueSize, site, p)
    requires TakenBy(a) == Block(p) && FreedBy(s, a) == multiset{}
    requires MemSession.Step(View(s), op) == MemSession.Allocate(View(s), size, trueSize, site, p, node)
    requires Steps(s, t, op) == [a] + EnterUnlessNull(t, p, node)
    requires Held(s.owned, op, MemSession.Pointer(NULL)) == s.owned
    requires Held(s.owned, op, MemSession.Pointer(p)) == s.owned + {p}
    ensures ActsAsStep(s, t, op)
  {
    hide Leads, Steps, Apply, Enabled, Held, Push, TakenBy, FreedBy;
    ObtainLeads(s, t, a, size, trueSize, site, p, node);
    var s' := Entered(s.(heap := s.heap[p := trueSize]), t, p, size, site, node);
    var e := MemSession.Allocate(View(s), size, trueSize, site, p, node);
    hide MemSession.Step;
    assert EndsAs(s, op, s') by { assert s.threads[t := Idle] == s.threads; }
    assert multiset(e.out.taken) == multiset{p} + Block(node);
    assert multiset(e.out.freed) == if node == NULL then multiset{p} else multiset{};
  }

  lemma MallocActsAsStep(s: Shared, t: nat, size: uint32, site: Site, p: Addr, node: Addr)
    requires t < |s.threads| && s.threads[t].Idle?
    requires MemSession.Legal(View(s), MemSession.Malloc(size, site, p, node))
    ensures ActsAsStep(s, t, MemSession.Malloc(size, site, p, node))
  {
    var op := MemSession.Malloc(size, site, p, node);
    hide ActsAsStep, Enter, MemSession.Enter;
    if size == 0 || p == NULL {
      assert size != 0 ==> Steps(s, t, op) == [Malloc(t, size, site, p)];
      RefusedActsAsStep(s, t, op, MemSession.Pointer(NULL));
    } else {
      AllocateActsAsStep(s, t, op, Malloc(t, size, site, p), size, size, site, p, node);
    }
  }

  lemma CallocActsAsStep(s: Shared, t: nat, unit: uint32, count: uint32, site: Site, p: Addr, node: Addr)
    requires t < |s.threads| && s.threads[t].Idle?
    requires MemSession.Legal(View(s), MemSession.Calloc(unit, count, site, p, node))
    ensures ActsAsStep(s, t, MemSession.Calloc(unit, count, site, p, node))
  {
    var op := MemSession.Calloc(unit, count, site, p, node);
    hide ActsAsStep, Enter, MemSession.Enter, Wrap32;
    if unit == 0 || count == 0 || p == NULL {
      assert unit != 0 && count != 0 ==> Steps(s, t, op) == [Calloc(t, unit, count, site, p)];
      RefusedActsAsStep(s, t, op, MemSession.Pointer(NULL));
    } else {
      AllocateActsAsStep(s, t, op, Calloc(t, unit, count, site, p), Wrap32(unit * count), unit * count, site, p, node);
    }
  }

  /** The cases of rl_realloc in which no block moves. */
  lemma ReallocInPlaceActsAsStep(s: Shared, t: nat, ptr: Addr, size: uint32, site: Site, p: Addr, node: Addr)
    requires t < |s.threads| && s.threads[t].Idle? && NULL !in s.heap
    requires MemSession.Legal(View(s), MemSession.Realloc(ptr, size, site, p, node))
    requires (size == 0 || ptr == NULL || p == NULL) && (ptr != NULL ==> ptr in s.owned)
    ensures ActsAsStep(s, t, MemSession.Realloc(ptr, size, site, p, node))
  {
    var op := MemSession.Realloc(ptr, size, site, p, node);
    hide ActsAsStep, Enter, MemSession.Enter;
    if size == 0 {
      RefusedActsAsStep(s, t, op, MemSession.Pointer(NULL));
    } else if p == NULL {
      assert Steps(s, t, op)
          == [if ptr == NULL then Malloc(t, size, site, NULL) else Realloc(t, ptr, size, site, NULL)];
      RefusedActsAsStep(s, t, op, MemSession.Pointer(NULL));
    } else {
      assert s.heap.Keys - {NULL} == s.heap.Keys;
      AllocateActsAsStep(s, t, op, Malloc(t, size, site, p), size, size, site, p, node);
    }
  }

  lemma ReallocListedEnds(s: Shared, t: nat, ptr: Addr, size: uint32, site: Site, p: Addr, node: Addr)
    requires t < |s.threads| && s.threads[t].Idle? && ptr in s.owned && ptr != NULL && size != 0 && p != NULL
    requires MemSession.Answer(s.heap.Keys - {ptr}, p) && Listed(s, ptr)
    ensures var a, b := Realloc(t, ptr, size, site, p), LockedRetarget(t);
            && Enabled(s, a) && Enabled(Apply(s, a), b)
            && EndsAs(s, MemSession.Realloc(ptr, size, site, p, node), Apply(Apply(s, a), b))
  {
    hide Find, Retarget;
    assert Apply(s, Realloc(t, ptr, size, site, p)).threads[t := Idle] == s.threads;
  }

  lemma ReallocListedTraffic(s: Shared, t: nat, ptr: Addr, size: uint32, site: Site, p: Addr, node: Addr)
    requires ptr != NULL && size != 0 && p != NULL && Listed(s, ptr)
    requires var a, b := Realloc(t, ptr, size, site, p), LockedRetarget(t); Enabled(s, a) && Enabled(Apply(s, a), b)
    ensures var a, b := Realloc(t, ptr, size, site, p), LockedRetarget(t);
            var op := MemSession.Realloc(ptr, size, site, p, node); var out := MemSession.Step(View(s), op).out;
            && Steps(s, t, op) == [a, b]
            && TakenBy(a) + TakenBy(b) == multiset(out.taken)
            && FreedBy(s, a) + FreedBy(Apply(s, a), b) == multiset(out.freed)
  {
    hide Find, Retarget;
  }

  /** rl_realloc of a block in the ledger. */
  lemma ReallocListed(s: Shared, t: nat, ptr: Addr, size: uint32, site: Site, p: Addr, node: Addr)
    requires t < |s.threads| && s.threads[t].Idle? && ptr in s.owned && ptr != NULL && size != 0 && p != NULL
    requires MemSession.Legal(View(s), MemSession.Realloc(ptr, size, site, p, node)) && Listed(s, ptr)
    ensures ActsAsStep(s, t, MemSession.Realloc(ptr, size, site, p, node))
  {
    hide Leads, EndsAs, Apply, Enabled, TakenBy, FreedBy, Steps, MemSession.Step, Listed;
    ReallocListedEnds(s, t, ptr, size, site, p, node);
    ReallocListedTraffic(s, t, ptr, size, site, p, node);
    TwoSteps(s, Realloc(t, ptr, size, site, p), LockedRetarget(t));
  }

  /** The state in which a block the ledger does not know has moved and is about to be entered. */
  function Relocated(s: Shared, t: nat, ptr: Addr, size: uint32, site: Site, p: Addr): Shared
    requires t < |s.threads|
  {
    s.(heap := (s.heap - {ptr})[p := size], owned := s.owned - {ptr},
       threads := s.threads[t := Obtained(p, size, site)])
  }

  lemma RelocateSteps(s: Shared, t: nat, ptr: Addr, size: uint32, site: Site, p: Addr, node: Addr)
    requires t < |s.threads| && s.threads[t].Idle? && ptr in s.owned && size != 0 && p != NULL && !Listed(s, ptr)
    requires MemSession.Answer(s.heap.Keys - {ptr}, p) && MemSession.Answer(s.heap.Keys - {ptr} + {p}, node)
    ensures var a, b, s2 := Realloc(t, ptr, size, site, p), LockedRetarget(t), Relocated(s, t, ptr, size, site, p);
            && Enabled(s, a) && Enabled(Apply(s, a), b) && Apply(Apply(s, a), b) == s2
            && TakenBy(a) == multiset{p} && TakenBy(b) == multiset{}
            && FreedBy(s, a) == multiset{ptr} && FreedBy(Apply(s, a), b) == multiset{}
            && s2.threads[t] == Obtained(p, size, site) && MemSession.Answer(s2.heap.Keys, node)
  {
    var s1, s2 := Apply(s, Realloc(t, ptr, size, site, p)), Relocated(s, t, ptr, size, site, p);
    assert s1.threads[t := Obtained(p, size, site)] == s2.threads;
    assert s2.heap.Keys == s.heap.Keys - {ptr} + {p};
    hide Find;
  }

  lemma ReallocThenEnter(s: Shared, t: nat, ptr: Addr, size: uint32, site: Site, p: Addr, node: Addr)
    requires t < |s.threads| && s.threads[t].Idle? && ptr != NULL && size != 0 && p != NULL && !Listed(s, ptr)
    ensures var op := MemSession.Realloc(ptr, size, site, p, node);
            EndsAs(s, op, Entered(Relocated(s, t, ptr, size, site, p), t, p, size, site, node))
  {
    hide Find, Push;
    assert s.threads[t := Obtained(p, size, site)][t := Idle] == s.threads;
  }

  lemma ReallocUnlistedTraffic(s: Shared, t: nat, ptr: Addr, size: uint32, site: Site, p: Addr, node: Addr)
    requires ptr != NULL && size != 0 && p != NULL && !Listed(s, ptr)
    ensures var op := MemSession.Realloc(ptr, size, site, p, node); var out := MemSession.Step(View(s), op).out;
            && Steps(s, t, op) == [Realloc(t, ptr, size, site, p), LockedRetarget(t)] + Enter(t, node)
            && multiset(out.taken) == multiset{p} + Block(node)
            && multiset(out.freed) == multiset{ptr} + if node == NULL then multiset{p} else multiset{}
  {
    hide Find, Push;
  }

  /** rl_realloc of a block the ledger does not know. */
  lemma ReallocUnlisted(s: Shared, t: nat, ptr: Addr, size: uint32, site: Site, p: Addr, node: Addr)
    requires t < |s.threads| && s.threads[t].Idle? && ptr in s.owned && ptr != NULL && size != 0 && p != NULL
    requires MemSession.Legal(View(s), MemSession.Realloc(ptr, size, site, p, node)) && !Listed(s, ptr)
    ensures ActsAsStep(s, t, MemSession.Realloc(ptr, size, site, p, node))
  {
    var a, b, s2 := Realloc(t, ptr, size, site, p), LockedRetarget(t), Relocated(s, t, ptr, size, site, p);
    var freed: multiset<Addr> := if node == NULL then multiset{p} else multiset{};
    RelocateSteps(s, t, ptr, size, site, p, node);
    hide Leads, EndsAs, Listed, Entered, Relocated, MemSession.Step, Steps, Enter, Apply, Enabled, TakenBy, FreedBy;
    EnterLeads(s2, t, node);
    TwoStepsMore(s, a, b, Enter(t, node), Entered(s2, t, p, size, site, node), Block(node), freed);
    ReallocThenEnter(s, t, ptr, size, site, p, node);
    ReallocUnlistedTraffic(s, t, ptr, size, site, p, node);
    assert multiset{} + Block(node) == Block(node) && multiset{} + freed == freed;
  }

  lemma FreeEnds(s: Shared, t: nat, ptr: Addr)
    requires t < |s.threads| && s.threads[t].Idle? && ptr in s.owned && ptr != NULL && Listed(s, ptr)
    ensures var a, b := LockedUnlink(t, ptr), RealFree(t);
            Enabled(s, a) && Enabled(Apply(s, a), b) && EndsAs(s, MemSession.Free(ptr), Apply(Apply(s, a), b))
  {
    hide Find, Unlink;
    assert Apply(s, LockedUnlink(t, ptr)).threads[t := Idle] == s.threads;
  }

  lemma FreeTraffic(s: Shared, t: nat, ptr: Addr)
    requires t < |s.threads| && s.threads[t].Idle? && ptr in s.owned && ptr != NULL && Listed(s, ptr)
    requires Enabled(Apply(s, LockedUnlink(t, ptr)), RealFree(t))
    ensures var a, b := LockedUnlink(t, ptr), RealFree(t);
            var out := MemSession.Step(View(s), MemSession.Free(ptr)).out;
            && Steps(s, t, MemSession.Free(ptr)) == [a, b]
            && TakenBy(a) + TakenBy(b) == multiset(out.taken)
            && FreedBy(s, a) + FreedBy(Apply(s, a), b) == multiset(out.freed)
  {
    hide Find, Unlink;
    var node := s.ledger.entries[Find(s.ledger.entries, ptr)].node;
    assert FreedBy(s, LockedUnlink(t, ptr)) == multiset{node};
    assert FreedBy(Apply(s, LockedUnlink(t, ptr)), RealFree(t)) == multiset{ptr};
    hide FreedBy, Apply, Enabled;
  }

  lemma FreeListed(s: Shared, t: nat, ptr: Addr)
    requires t < |s.threads| && s.threads[t].Idle? && ptr in s.owned && ptr != NULL && Listed(s, ptr)
    ensures ActsAsStep(s, t, MemSession.Free(ptr))
  {
    hide Leads, EndsAs, Apply, Enabled, TakenBy, FreedBy, Steps, MemSession.Step, Listed;
    FreeEnds(s, t, ptr);
    FreeTraffic(s, t, ptr);
    TwoSteps(s, LockedUnlink(t, ptr), RealFree(t));
  }

  lemma FreeActsAsStep(s: Shared, t: nat, ptr: Addr)
    requires t < |s.threads| && s.threads[t].Idle? && (ptr == NULL || ptr in s.owned)
    ensures ActsAsStep(s, t, MemSession.Free(ptr))
  {
    hide ActsAsStep, Find;
    if ptr != NULL && Listed(s, ptr) {
      FreeListed(s, t, ptr);
    } else {
      assert ptr != NULL ==> Steps(s, t, MemSession.Free(ptr)) == [LockedUnlink(t, ptr)];
      RefusedActsAsStep(s, t, MemSession.Free(ptr), MemSession.Code(RL_FAILED));
    }
  }

  /**
    * Taken without interruption, the steps of rl_malloc, rl_calloc, rl_realloc and rl_free by any thread come to the
    * sequential call: same ledger, heap, heap traffic and client blocks.
    */
  lemma LoneThreadIsStep(s: Shared, t: nat, op: MemSession.Op)
    requires t < |s.threads| && s.threads[t].Idle?
    requires op.Malloc? || op.Calloc? || op.Realloc? || op.Free?
    requires MemSession.Legal(View(s), op) && NULL !in s.heap
    requires (op.Realloc? || op.Free?) && op.ptr != NULL ==> op.ptr in s.owned
    ensures ActsAsStep(s, t, op)
  {
    hide ActsAsStep, MemSession.Legal;
    match op
    case Malloc(size, site, p, node) => MallocActsAsStep(s, t, size, site, p, node);
    case Calloc(unit, count, site, p, node) => CallocActsAsStep(s, t, unit, count, site, p, node);
    case Realloc(ptr, size, site, p, node) =>
      if size == 0 || ptr == NULL || p == NULL {
        ReallocInPlaceActsAsStep(s, t, ptr, size, site, p, node);
      } else if Listed(s, ptr) {
        ReallocListed(s, t, ptr, size, site, p, node);
      } else {
        ReallocUnlisted(s, t, ptr, size, site, p, node);
      }
    case Free(ptr) => FreeActsAsStep(s, t, ptr);
  }

  /** No step waits for another thread: it depends on its own thread, the live addresses and the owned blocks alone. */
  lemma NobodyWaits(s: Shared, s': Shared, a: Action)
    requires a.t < |s.threads| && a.t < |s'.threads| && s.threads[a.t] == s'.threads[a.t]
    requires s.heap.Keys == s'.heap.Keys && s.owned == s'.owned
    ensures Enabled(s, a) <==> Enabled(s', a)
  {
  }
}
