/** Every interleaving of the traced wrappers keeps ledger, heap and counters balanced. */
module MemThreadsProofs {
  import opened CTypes
  import opened Bags
  import opened MemLedger
  import opened MemSession
  import opened MemThreads

  // ----- how the bags move, one address at a time -----

  lemma ThreadMoves(ts: seq<Pc>, t: nat, pc: Pc, x: Addr)
    requires t < |ts|
    ensures Gather(ts[t := pc], InFlight)[x] + InFlight(ts[t])[x] == Gather(ts, InFlight)[x] + InFlight(pc)[x]
    ensures Gather(ts[t := pc], NodeInFlight)[x] + NodeInFlight(ts[t])[x]
         == Gather(ts, NodeInFlight)[x] + NodeInFlight(pc)[x]
    ensures Gather(ts[t := pc], Vacated)[x] + Vacated(ts[t])[x] == Gather(ts, Vacated)[x] + Vacated(pc)[x]
  {
    UpdateAt(ts, t, pc, InFlight, x);
    UpdateAt(ts, t, pc, NodeInFlight, x);
    UpdateAt(ts, t, pc, Vacated, x);
  }

  lemma UpdateAt<A>(xs: seq<A>, i: nat, a: A, f: A -> multiset<Addr>, x: Addr)
    requires i < |xs|
    ensures Gather(xs[i := a], f)[x] + f(xs[i])[x] == Gather(xs, f)[x] + f(a)[x]
  {
    var before, after := Gather<A, Addr>(xs, f), Gather<A, Addr>(xs[i := a], f);
    GatherUpdate<A, Addr>(xs, i, a, f);
    assert (after + f(xs[i]))[x] == (before + f(a))[x];
  }

  lemma RemoveAt<A>(xs: seq<A>, i: nat, f: A -> multiset<Addr>, x: Addr)
    requires i < |xs|
    ensures Gather(xs, f)[x] == Gather(xs[..i] + xs[i+1..], f)[x] + f(xs[i])[x]
  {
    GatherRemove(xs, i, f);
  }

  // ----- each action keeps the balance -----

  lemma InFlightIsLive(s: Shared, foreign: set<Addr>, t: nat, p: Addr)
    requires Balanced(s, foreign) && t < |s.threads|
    requires p in InFlight(s.threads[t]) || p in NodeInFlight(s.threads[t])
    ensures p in s.heap && p !in s.owned
  {
    GatherHas(s.threads, InFlight, p);
    GatherHas(s.threads, NodeInFlight, p);
    assert HeapAt(s, foreign, p);
  }

  lemma NodeIsLive(s: Shared, foreign: set<Addr>, i: nat)
    requires Balanced(s, foreign) && i < |s.ledger.entries|
    ensures s.ledger.entries[i].node in s.heap
  {
    var es := s.ledger.entries;
    assert es[i].node in NodeOf(es[i]);
    GatherHas(es, NodeOf, es[i].node);
    assert HeapAt(s, foreign, es[i].node);
  }

  lemma OwnedIsLive(s: Shared, foreign: set<Addr>)
    requires Balanced(s, foreign)
    ensures forall p :: p in s.owned ==> p in s.heap
  {
    forall p | p in s.owned ensures p in s.heap {
      assert HeapAt(s, foreign, p);
    }
  }

  /** What the owned blocks and one thread contribute to the two sides of the balance. */
  function LedgerShare(owned: set<Addr>, pc: Pc, x: Addr): nat {
    Once(x in owned) + Vacated(pc)[x]
  }

  function HeapShare(owned: set<Addr>, pc: Pc, x: Addr): nat {
    Once(x in owned) + InFlight(pc)[x] + NodeInFlight(pc)[x]
  }

  /** The step of thread `t` from `s` to `s'` leaves the entries alone and makes up for what it does at `x`. */
  ghost predicate MovesAt(s: Shared, s': Shared, t: nat, x: Addr) {
    && t < |s.threads| == |s'.threads|
    && s'.ledger == s.ledger && s'.threads == s.threads[t := s'.threads[t]]
    && LedgerShare(s'.owned, s'.threads[t], x) == LedgerShare(s.owned, s.threads[t], x)
    && Once(x in s'.heap) + HeapShare(s.owned, s.threads[t], x)
       == Once(x in s.heap) + HeapShare(s'.owned, s'.threads[t], x)
  }

  lemma MoveKeepsLedgerAt(s: Shared, s': Shared, t: nat, x: Addr)
    requires LedgerAt(s, x) && MovesAt(s, s', t, x)
    ensures LedgerAt(s', x)
  {
    hide Gather, InFlight, NodeInFlight, Vacated, Once;
    ThreadMoves(s.threads, t, s'.threads[t], x);
  }

  lemma MoveKeepsHeapAt(s: Shared, s': Shared, foreign: set<Addr>, t: nat, x: Addr)
    requires HeapAt(s, foreign, x) && MovesAt(s, s', t, x)
    ensures HeapAt(s', foreign, x)
  {
    hide Gather, InFlight, NodeInFlight, Vacated, Once;
    ThreadMoves(s.threads, t, s'.threads[t], x);
  }

  lemma MoveKeeps(s: Shared, s': Shared, foreign: set<Addr>, t: nat)
    requires Balanced(s, foreign) && forall x :: MovesAt(s, s', t, x)
    ensures Balanced(s', foreign)
  {
    forall x ensures LedgerAt(s', x) && HeapAt(s', foreign, x) {
      assert LedgerAt(s, x) && HeapAt(s, foreign, x) && MovesAt(s, s', t, x);
      hide *;
      MoveKeepsLedgerAt(s, s', t, x);
      MoveKeepsHeapAt(s, s', foreign, t, x);
    }
  }

  lemma ObtainKeeps(s: Shared, foreign: set<Addr>, t: nat, size: uint32, trueSize: nat, site: Site, p: Addr)
    requires Balanced(s, foreign)
    requires t < |s.threads| && s.threads[t].Idle? && p != NULL && p !in s.heap
    ensures Balanced(Obtain(s, t, size, trueSize, site, p), foreign)
  {
    hide Balanced;
    MoveKeeps(s, Obtain(s, t, size, trueSize, site, p), foreign, t);
  }

  lemma NoNodeKeeps(s: Shared, foreign: set<Addr>, t: nat)
    requires Balanced(s, foreign) && t < |s.threads| && s.threads[t].Obtained?
    ensures Balanced(s.(threads := s.threads[t := Undo(s.threads[t].p)]), foreign)
  {
    hide Balanced;
    MoveKeeps(s, s.(threads := s.threads[t := Undo(s.threads[t].p)]), foreign, t);
  }

  lemma GotNodeKeeps(s: Shared, foreign: set<Addr>, t: nat, node: Addr)
    requires Balanced(s, foreign) && t < |s.threads| && s.threads[t].Obtained? && node !in s.heap
    ensures var pc := s.threads[t];
            Balanced(s.(heap := s.heap[node := NODE_SIZE],
                        threads := s.threads[t := Ready(pc.p, pc.size, pc.site, node)]), foreign)
  {
    hide Balanced;
    var pc := Ready(s.threads[t].p, s.threads[t].size, s.threads[t].site, node);
    MoveKeeps(s, s.(heap := s.heap[node := NODE_SIZE], threads := s.threads[t := pc]), foreign, t);
  }

  lemma NodeMallocKeeps(s: Shared, foreign: set<Addr>, t: nat, node: Addr)
    requires Balanced(s, foreign) && Enabled(s, NodeMalloc(t, node))
    ensures Balanced(Apply(s, NodeMalloc(t, node)), foreign)
  {
    hide Balanced;
    if node == NULL {
      NoNodeKeeps(s, foreign, t);
    } else {
      GotNodeKeeps(s, foreign, t, node);
    }
  }

  lemma RealFreeMovesAt(s: Shared, t: nat, x: Addr)
    requires Enabled(s, RealFree(t)) && s.threads[t].p in s.heap
    ensures MovesAt(s, Apply(s, RealFree(t)), t, x)
  {
  }

  lemma RealFreeKeeps(s: Shared, foreign: set<Addr>, t: nat)
    requires Balanced(s, foreign) && Enabled(s, RealFree(t))
    ensures Balanced(Apply(s, RealFree(t)), foreign)
  {
    InFlightIsLive(s, foreign, t, s.threads[t].p);
    hide Balanced, MovesAt, Apply;
    forall x ensures MovesAt(s, Apply(s, RealFree(t)), t, x) {
      RealFreeMovesAt(s, t, x);
    }
    MoveKeeps(s, Apply(s, RealFree(t)), foreign, t);
  }

  lemma ReallocKeeps(s: Shared, foreign: set<Addr>, a: Action)
    requires Balanced(s, foreign) && a.Realloc? && Enabled(s, a) && a.p != NULL
    ensures Balanced(Apply(s, a), foreign)
  {
    OwnedIsLive(s, foreign);
    hide Balanced;
    MoveKeeps(s, Apply(s, a), foreign, a.t);
  }

  lemma PushKeeps(s: Shared, foreign: set<Addr>, t: nat)
    requires Balanced(s, foreign) && Enabled(s, LockedPush(t))
    ensures Balanced(Apply(s, LockedPush(t)), foreign)
  {
    var s' := Apply(s, LockedPush(t));
    InFlightIsLive(s, foreign, t, s.threads[t].p);
    assert s'.ledger.entries[1..] == s.ledger.entries;
    forall x ensures LedgerAt(s', x) && HeapAt(s', foreign, x) {
      assert LedgerAt(s, x) && HeapAt(s, foreign, x);
      ThreadMoves(s.threads, t, Idle, x);
    }
  }

  lemma UnlinkLedgerAt(s: Shared, foreign: set<Addr>, t: nat, i: nat, x: Addr)
    requires Balanced(s, foreign) && t < |s.threads| && s.threads[t].Idle?
    requires i < |s.ledger.entries| && s.ledger.entries[i].ptr in s.owned
    ensures var e := s.ledger.entries[i];
            var s' := Shared(Unlink(s.ledger, i), s.heap - {e.node}, s.owned - {e.ptr},
                             s.threads[t := Unlinked(e.ptr)]);
            LedgerAt(s', x)
  {
    assert LedgerAt(s, x);
    ThreadMoves(s.threads, t, Unlinked(s.ledger.entries[i].ptr), x);
    RemoveAt(s.ledger.entries, i, PtrOf, x);
  }

  lemma UnlinkHeapAt(s: Shared, foreign: set<Addr>, t: nat, i: nat, x: Addr)
    requires Balanced(s, foreign) && t < |s.threads| && s.threads[t].Idle?
    requires i < |s.ledger.entries| && s.ledger.entries[i].ptr in s.owned
    ensures var e := s.ledger.entries[i];
            var s' := Shared(Unlink(s.ledger, i), s.heap - {e.node}, s.owned - {e.ptr},
                             s.threads[t := Unlinked(e.ptr)]);
            HeapAt(s', foreign, x)
  {
    NodeIsLive(s, foreign, i);
    assert HeapAt(s, foreign, x);
    ThreadMoves(s.threads, t, Unlinked(s.ledger.entries[i].ptr), x);
    RemoveAt(s.ledger.entries, i, NodeOf, x);
  }

  lemma UnlinkKeeps(s: Shared, foreign: set<Addr>, t: nat, ptr: Addr)
    requires Balanced(s, foreign) && Enabled(s, LockedUnlink(t, ptr))
    ensures Balanced(Apply(s, LockedUnlink(t, ptr)), foreign)
  {
    UnlinkFinds(s, foreign, ptr);
    var i := Find(s.ledger.entries, ptr);
    var s' := Apply(s, LockedUnlink(t, ptr));
    forall x ensures LedgerAt(s', x) && HeapAt(s', foreign, x) {
      UnlinkLedgerAt(s, foreign, t, i, x);
      UnlinkHeapAt(s, foreign, t, i, x);
    }
  }

  /** Thread `t` overwrites entry `i` with its block. */
  function Retargeted(s: Shared, t: nat, i: nat): Shared
    requires t < |s.threads| && s.threads[t].Moved? && i < |s.ledger.entries|
  {
    var pc := s.threads[t];
    s.(ledger := Retarget(s.ledger, i, pc.p, pc.size, pc.site), owned := s.owned + {pc.p},
       threads := s.threads[t := Idle])
  }

  lemma RetargetLedgerAt(s: Shared, t: nat, i: nat, x: Addr)
    requires LedgerAt(s, x) && t < |s.threads| && s.threads[t].Moved? && s.threads[t].p !in s.owned
    requires i < |s.ledger.entries| && s.ledger.entries[i].ptr == s.threads[t].old_
    ensures LedgerAt(Retargeted(s, t, i), x)
  {
    var es, pc := s.ledger.entries, s.threads[t];
    hide Gather;
    ThreadMoves(s.threads, t, Idle, x);
    UpdateAt(es, i, Entry(es[i].node, pc.p, pc.size, pc.site), PtrOf, x);
  }

  lemma RetargetHeapAt(s: Shared, foreign: set<Addr>, t: nat, i: nat, x: Addr)
    requires HeapAt(s, foreign, x) && t < |s.threads| && s.threads[t].Moved? && s.threads[t].p !in s.owned
    requires i < |s.ledger.entries|
    ensures HeapAt(Retargeted(s, t, i), foreign, x)
  {
    var es, pc := s.ledger.entries, s.threads[t];
    hide Gather;
    ThreadMoves(s.threads, t, Idle, x);
    UpdateAt(es, i, Entry(es[i].node, pc.p, pc.size, pc.site), NodeOf, x);
  }

  lemma RetargetKeeps(s: Shared, foreign: set<Addr>, t: nat)
    requires Balanced(s, foreign) && Enabled(s, LockedRetarget(t))
    ensures Balanced(Apply(s, LockedRetarget(t)), foreign)
  {
    RetargetFinds(s, foreign, t);
    InFlightIsLive(s, foreign, t, s.threads[t].p);
    var i := Find(s.ledger.entries, s.threads[t].old_);
    var s' := Retargeted(s, t, i);
    assert Apply(s, LockedRetarget(t)) == s';
    forall x ensures LedgerAt(s', x) && HeapAt(s', foreign, x) {
      assert LedgerAt(s, x) && HeapAt(s, foreign, x);
      hide Balanced, LedgerAt, HeapAt, Retargeted;
      RetargetLedgerAt(s, t, i, x);
      RetargetHeapAt(s, foreign, t, i, x);
    }
  }

  /** Whatever other threads did meanwhile, the ledger still has an entry for the address a realloc gave up. */
  lemma RetargetFinds(s: Shared, foreign: set<Addr>, t: nat)
    requires Balanced(s, foreign) && t < |s.threads| && s.threads[t].Moved?
    ensures Find(s.ledger.entries, s.threads[t].old_) < |s.ledger.entries|
  {
    var p := s.threads[t].old_;
    GatherHas(s.threads, Vacated, p);
    GatherHas(s.ledger.entries, PtrOf, p);
    assert LedgerAt(s, p);
  }

  /** rl_free of an owned block always finds an entry for it. */
  lemma UnlinkFinds(s: Shared, foreign: set<Addr>, p: Addr)
    requires Balanced(s, foreign) && p in s.owned
    ensures Find(s.ledger.entries, p) < |s.ledger.entries|
  {
    GatherHas(s.ledger.entries, PtrOf, p);
    assert LedgerAt(s, p);
  }

  lemma ActionCounted(s: Shared, a: Action, db: nat, dB: nat)
    requires Counted(s.ledger, db, dB) && Enabled(s, a)
    ensures Counted(Apply(s, a).ledger, db, dB)
  {
    var es, pc := s.ledger.entries, At(s, a.t);
    hide Counted;
    if a.LockedPush? {
      PushCounted(s.ledger, Entry(pc.node, pc.p, pc.size, pc.site), db, dB);
    } else if a.LockedUnlink? && Find(es, a.ptr) < |es| {
      UnlinkCounted(s.ledger, Find(es, a.ptr), db, dB);
    } else if a.LockedRetarget? && Find(es, pc.old_) < |es| {
      RetargetCounted(s.ledger, Find(es, pc.old_), pc.p, pc.size, pc.site, db, dB);
    }
  }

  lemma ActionBalanced(s: Shared, foreign: set<Addr>, a: Action)
    requires Balanced(s, foreign) && Enabled(s, a)
    ensures Balanced(Apply(s, a), foreign)
  {
    hide Balanced;
    match a
    case Malloc(t, size, site, p) => if p != NULL { ObtainKeeps(s, foreign, t, size, size, site, p); }
    case Calloc(t, unit, count, site, p) =>
      if p != NULL { ObtainKeeps(s, foreign, t, Wrap32(unit * count), unit * count, site, p); }
    case Realloc(t, ptr, size, site, p) => if p != NULL { ReallocKeeps(s, foreign, a); }
    case NodeMalloc(t, node) => NodeMallocKeeps(s, foreign, t, node);
    case RealFree(t) => RealFreeKeeps(s, foreign, t);
    case LockedPush(t) => PushKeeps(s, foreign, t);
    case LockedUnlink(t, ptr) => UnlinkKeeps(s, foreign, t, ptr);
    case LockedRetarget(t) => RetargetKeeps(s, foreign, t);
  }

  lemma NullNeverLive(s: Shared, a: Action)
    requires NULL !in s.heap && Enabled(s, a)
    ensures NULL !in Apply(s, a).heap
  {
  }

  lemma ActionKeeps(s: Shared, foreign: set<Addr>, db: nat, dB: nat, a: Action)
    requires ThreadInv(s, foreign, db, dB) && Enabled(s, a)
    ensures ThreadInv(Apply(s, a), foreign, db, dB)
  {
    ActionBalanced(s, foreign, a);
    ActionCounted(s, a, db, dB);
    NullNeverLive(s, a);
    hide Balanced, Counted, Apply;
  }

  lemma FirstAction(s: Shared, actions: seq<Action>)
    requires actions != [] && Enabled(s, actions[0]) && Schedule(Apply(s, actions[0]), actions[1..])
    ensures Schedule(s, actions) && Execute(s, actions) == Execute(Apply(s, actions[0]), actions[1..])
  {
  }

  /** Every interleaving of any number of threads keeps ledger, heap and counters balanced. */
  lemma {:induction false} ScheduleKeeps(s: Shared, foreign: set<Addr>, db: nat, dB: nat, actions: seq<Action>)
    requires ThreadInv(s, foreign, db, dB) && Schedule(s, actions)
    ensures ThreadInv(Execute(s, actions), foreign, db, dB)
    decreases |actions|
  {
    if actions != [] {
      hide ThreadInv;
      ActionKeeps(s, foreign, db, dB, actions[0]);
      ScheduleKeeps(Apply(s, actions[0]), foreign, db, dB, actions[1..]);
    }
  }
}
