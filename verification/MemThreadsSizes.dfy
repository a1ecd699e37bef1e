/**
  * Which size the ledger records for which block. Under threads this can go wrong: between a realloc and its
  * critical section the heap may hand the old address to another thread, and the lookup then sees two entries.
  */
module MemThreadsSizes {
  import opened CTypes
  import opened Bags
  import opened MemLedger
  import MemSession
  import opened MemThreads
  import opened MemThreadsProofs
  import opened MemThreadsTheorems

  /** A block address with the recorded size it ought to have. */
  datatype Sized = Sized(p: Addr, size: uint32)

  function SizedOf(e: Entry): multiset<Sized> { multiset{Sized(e.ptr, e.size)} }

  function SizedVacated(pc: Pc): multiset<Sized> {
    if pc.Moved? then multiset{Sized(pc.old_, pc.oldSize)} else multiset{}
  }

  predicate OwnedSized(s: Shared, x: Sized) {
    x.p in s.owned && x.p in s.heap && Wrap32(s.heap[x.p]) == x.size
  }

  ghost predicate SizesAt(s: Shared, x: Sized) {
    Gather(s.ledger.entries, SizedOf)[x] == Once(OwnedSized(s, x)) + Gather(s.threads, SizedVacated)[x]
  }

  /** The ledger pairs every owned block with its true size, and every vacated address with its former one. */
  ghost predicate SizesAgree(s: Shared) {
    forall x :: SizesAt(s, x)
  }

  /** A thread that is about to enter a block in the ledger knows the block's true size. */
  predicate KnowsSize(s: Shared, pc: Pc) {
    pc.Obtained? || pc.Ready? || pc.Moved? ==> pc.p in s.heap && Wrap32(s.heap[pc.p]) == pc.size
  }

  ghost predicate AllKnowSizes(s: Shared) {
    forall t :: 0 <= t < |s.threads| ==> KnowsSize(s, s.threads[t])
  }

  lemma NodeIsNotInFlight(s: Shared, foreign: set<Addr>, i: nat, t: nat)
    requires Balanced(s, foreign) && i < |s.ledger.entries| && t < |s.threads|
    ensures s.ledger.entries[i].node !in InFlight(s.threads[t]) && s.ledger.entries[i].node !in s.owned
  {
    var n := s.ledger.entries[i].node;
    assert n in NodeOf(s.ledger.entries[i]);
    GatherHas(s.ledger.entries, NodeOf, n);
    GatherHas(s.threads, InFlight, n);
    assert HeapAt(s, foreign, n);
  }

  /** No thread touches a block another one has in flight. */
  lemma InFlightUntouched(s: Shared, foreign: set<Addr>, a: Action, t: nat)
    requires Balanced(s, foreign) && Enabled(s, a) && t < |s.threads| && t != a.t && !s.threads[t].Idle?
    ensures var p := s.threads[t].p; p in s.heap && p in Apply(s, a).heap && Apply(s, a).heap[p] == s.heap[p]
  {
    InFlightIsLive(s, foreign, t, s.threads[t].p);
    if a.RealFree? {
      InFlightOnce(s, foreign, t, a.t, s.threads[t].p);
    } else if a.LockedUnlink? {
      UnlinkFinds(s, foreign, a.ptr);
      NodeIsNotInFlight(s, foreign, Find(s.ledger.entries, a.ptr), t);
    }
    hide Balanced, Find;
  }

  /** A thread knows the size of the block it has just obtained, and goes on knowing it. */
  lemma OwnSizeKnown(s: Shared, a: Action)
    requires Enabled(s, a) && KnowsSize(s, s.threads[a.t])
    ensures KnowsSize(Apply(s, a), Apply(s, a).threads[a.t])
  {
  }

  lemma KnowsSizesKept(s: Shared, foreign: set<Addr>, a: Action)
    requires Balanced(s, foreign) && AllKnowSizes(s) && Enabled(s, a)
    ensures AllKnowSizes(Apply(s, a))
  {
    var s' := Apply(s, a);
    assert |s'.threads| == |s.threads|;
    assert forall t :: 0 <= t < |s.threads| && t != a.t ==> s'.threads[t] == s.threads[t];
    hide Apply, Balanced, Enabled;
    forall t | 0 <= t < |s'.threads| ensures KnowsSize(s', s'.threads[t]) {
      assert KnowsSize(s, s.threads[t]);
      if t == a.t {
        OwnSizeKnown(s, a);
      } else if !s.threads[t].Idle? {
        InFlightUntouched(s, foreign, a, t);
      }
    }
  }

  // ----- the exact condition, step by step -----

  /** The entry a critical section finds first, be it its own block's or not, carries the size of that block. */
  predicate HitsRightSize(s: Shared, a: Action)
    requires Enabled(s, a)
  {
    match a
    case LockedUnlink(_, ptr) =>
      var i := Find(s.ledger.entries, ptr);
      i < |s.ledger.entries| && ptr in s.heap && s.ledger.entries[i].size == Wrap32(s.heap[ptr])
    case LockedRetarget(t) =>
      var i := Find(s.ledger.entries, At(s, t).old_);
      i < |s.ledger.entries| && s.ledger.entries[i].size == At(s, t).oldSize
    case _ => true
  }

  lemma SizedMoves(ts: seq<Pc>, t: nat, pc: Pc, x: Sized)
    requires t < |ts|
    ensures Gather(ts[t := pc], SizedVacated)[x] + SizedVacated(ts[t])[x]
         == Gather(ts, SizedVacated)[x] + SizedVacated(pc)[x]
  {
    var before, after := Gather<Pc, Sized>(ts, SizedVacated), Gather<Pc, Sized>(ts[t := pc], SizedVacated);
    GatherUpdate<Pc, Sized>(ts, t, pc, SizedVacated);
    assert (after + SizedVacated(ts[t]))[x] == (before + SizedVacated(pc))[x];
  }

  /** The step of thread `t` from `s` to `s'` leaves the entries alone and hands `x` on. */
  ghost predicate SizeMovesAt(s: Shared, s': Shared, t: nat, x: Sized) {
    && t < |s.threads| == |s'.threads|
    && s'.ledger == s.ledger && s'.threads == s.threads[t := s'.threads[t]]
    && Once(OwnedSized(s', x)) + SizedVacated(s'.threads[t])[x]
       == Once(OwnedSized(s, x)) + SizedVacated(s.threads[t])[x]
  }

  lemma MoveKeepsSizesAt(s: Shared, s': Shared, t: nat, x: Sized)
    requires SizesAt(s, x) && SizeMovesAt(s, s', t, x)
    ensures SizesAt(s', x)
  {
    hide Gather, SizedVacated, OwnedSized;
    SizedMoves(s.threads, t, s'.threads[t], x);
  }

  lemma MoveKeepsSizes(s: Shared, s': Shared, t: nat)
    requires SizesAgree(s) && forall x :: SizeMovesAt(s, s', t, x)
    ensures SizesAgree(s')
  {
    forall x ensures SizesAt(s', x) {
      assert SizesAt(s, x) && SizeMovesAt(s, s', t, x);
      hide *;
      MoveKeepsSizesAt(s, s', t, x);
    }
  }

  /** Calls into the heap never spoil the recorded sizes. */
  lemma HeapCallsKeepSizes(s: Shared, foreign: set<Addr>, a: Action)
    requires Balanced(s, foreign) && SizesAgree(s) && Enabled(s, a)
    requires a.Malloc? || a.Calloc? || a.NodeMalloc? || a.RealFree? || a.Realloc?
    ensures SizesAgree(Apply(s, a))
  {
    var s' := Apply(s, a);
    OwnedIsLive(s, foreign);
    if a.RealFree? {
      InFlightIsLive(s, foreign, a.t, s.threads[a.t].p);
    }
    hide SizesAgree, Balanced;
    if s' != s {
      forall x ensures SizeMovesAt(s, s', a.t, x) {
        if a.Realloc? {
          ReallocMovesSizeAt(s, a, x);
        } else {
          HeapCallMovesSizeAt(s, a, x);
        }
      }
      MoveKeepsSizes(s, s', a.t);
    }
  }

  lemma HeapCallMovesSizeAt(s: Shared, a: Action, x: Sized)
    requires Enabled(s, a) && Apply(s, a) != s && (x.p in s.owned ==> x.p in s.heap)
    requires a.Malloc? || a.Calloc? || a.NodeMalloc? || (a.RealFree? && s.threads[a.t].p !in s.owned)
    ensures SizeMovesAt(s, Apply(s, a), a.t, x)
  {
  }

  lemma ReallocMovesSizeAt(s: Shared, a: Action, x: Sized)
    requires Enabled(s, a) && a.Realloc? && a.p != NULL && a.ptr in s.heap && (x.p in s.owned ==> x.p in s.heap)
    ensures SizeMovesAt(s, Apply(s, a), a.t, x)
  {
  }

  lemma PushKeepsSizes(s: Shared, foreign: set<Addr>, t: nat)
    requires Balanced(s, foreign) && AllKnowSizes(s) && SizesAgree(s) && Enabled(s, LockedPush(t))
    ensures SizesAgree(Apply(s, LockedPush(t)))
  {
    var s' := Apply(s, LockedPush(t));
    InFlightIsLive(s, foreign, t, s.threads[t].p);
    assert KnowsSize(s, s.threads[t]);
    assert s'.ledger.entries[1..] == s.ledger.entries;
    forall x ensures SizesAt(s', x) {
      assert SizesAt(s, x);
      SizedMoves(s.threads, t, Idle, x);
    }
  }

  /** Unlinking entry `i` in the name of block `ptr` leaves size `x` right exactly when it takes out what it ought. */
  lemma UnlinkSizedAt(s: Shared, t: nat, i: nat, node: Addr, x: Sized)
    requires SizesAt(s, x) && t < |s.threads| && s.threads[t].Idle? && i < |s.ledger.entries|
    requires s.ledger.entries[i].ptr in s.owned && node !in s.owned
    requires forall p :: p in s.owned ==> p in s.heap
    ensures var ptr := s.ledger.entries[i].ptr;
            var s' := Shared(Unlink(s.ledger, i), s.heap - {node}, s.owned - {ptr}, s.threads[t := Unlinked(ptr)]);
            SizesAt(s', x) <==> (x == Sized(ptr, s.ledger.entries[i].size) <==> x == Sized(ptr, Wrap32(s.heap[ptr])))
  {
    SizedMoves(s.threads, t, Unlinked(s.ledger.entries[i].ptr), x);
    RemoveSized(s.ledger.entries, i, x);
  }

  /** After rl_free's critical section the sizes are right exactly when the entry it removed had the block's size. */
  lemma UnlinkSizes(s: Shared, foreign: set<Addr>, a: Action)
    requires Balanced(s, foreign) && SizesAgree(s) && Enabled(s, a) && a.LockedUnlink?
    ensures SizesAgree(Apply(s, a)) <==> HitsRightSize(s, a)
  {
    var s' := Apply(s, a);
    var es := s.ledger.entries;
    UnlinkFinds(s, foreign, a.ptr);
    OwnedIsLive(s, foreign);
    var i := Find(es, a.ptr);
    NodeIsNotInFlight(s, foreign, i, a.t);
    var gone, right := Sized(a.ptr, es[i].size), Sized(a.ptr, Wrap32(s.heap[a.ptr]));
    assert s' == Shared(Unlink(s.ledger, i), s.heap - {es[i].node}, s.owned - {a.ptr},
                        s.threads[a.t := Unlinked(a.ptr)]);
    hide Balanced, Apply, Find, SizesAt;
    forall x ensures SizesAt(s', x) <==> (x == gone <==> x == right) {
      assert SizesAt(s, x);
      UnlinkSizedAt(s, a.t, i, es[i].node, x);
    }
    assert SizesAt(s', gone) <==> gone == right;
  }

  lemma RemoveSized(es: seq<Entry>, i: nat, x: Sized)
    requires i < |es|
    ensures Gather(es, SizedOf)[x] == Gather(es[..i] + es[i+1..], SizedOf)[x] + Once(x == Sized(es[i].ptr, es[i].size))
  {
    GatherRemove(es, i, SizedOf);
  }

  lemma UpdateSized(es: seq<Entry>, i: nat, e: Entry, x: Sized)
    requires i < |es|
    ensures Gather(es[i := e], SizedOf)[x] + Once(x == Sized(es[i].ptr, es[i].size))
         == Gather(es, SizedOf)[x] + Once(x == Sized(e.ptr, e.size))
  {
    var before, after := Gather<Entry, Sized>(es, SizedOf), Gather<Entry, Sized>(es[i := e], SizedOf);
    GatherUpdate<Entry, Sized>(es, i, e, SizedOf);
    assert (after + SizedOf(es[i]))[x] == (before + SizedOf(e))[x];
  }

  lemma RetargetSizedAt(s: Shared, t: nat, i: nat, x: Sized)
    requires SizesAt(s, x) && t < |s.threads| && s.threads[t].Moved? && i < |s.ledger.entries|
    requires s.ledger.entries[i].ptr == s.threads[t].old_ && KnowsSize(s, s.threads[t]) && s.threads[t].p !in s.owned
    ensures var pc := s.threads[t];
            var s' := s.(ledger := Retarget(s.ledger, i, pc.p, pc.size, pc.site), owned := s.owned + {pc.p},
                         threads := s.threads[t := Idle]);
            SizesAt(s', x) <==> (x == Sized(pc.old_, s.ledger.entries[i].size) <==> x == Sized(pc.old_, pc.oldSize))
  {
    var pc := s.threads[t];
    SizedMoves(s.threads, t, Idle, x);
    UpdateSized(s.ledger.entries, i, Entry(s.ledger.entries[i].node, pc.p, pc.size, pc.site), x);
  }

  /** After rl_realloc's critical section the sizes are right exactly when the entry it updated had the old size. */
  lemma RetargetSizes(s: Shared, foreign: set<Addr>, a: Action)
    requires Balanced(s, foreign) && AllKnowSizes(s) && SizesAgree(s) && Enabled(s, a) && a.LockedRetarget?
    ensures SizesAgree(Apply(s, a)) <==> HitsRightSize(s, a)
  {
    var s' := Apply(s, a);
    var es, pc := s.ledger.entries, s.threads[a.t];
    RetargetFinds(s, foreign, a.t);
    InFlightIsLive(s, foreign, a.t, pc.p);
    assert KnowsSize(s, pc);
    var i := Find(es, pc.old_);
    var gone, right := Sized(pc.old_, es[i].size), Sized(pc.old_, pc.oldSize);
    hide Balanced;
    forall x ensures SizesAt(s', x) <==> (x == gone <==> x == right) {
      assert SizesAt(s, x);
      RetargetSizedAt(s, a.t, i, x);
    }
    assert SizesAt(s', gone) <==> gone == right;
  }

  /**
    * One action keeps every recorded size right if and only if it is not a lookup that first finds an entry for the
    * same address with another size.
    */
  lemma SizesKeptExactly(s: Shared, foreign: set<Addr>, a: Action)
    requires Balanced(s, foreign) && AllKnowSizes(s) && SizesAgree(s) && Enabled(s, a)
    ensures SizesAgree(Apply(s, a)) <==> HitsRightSize(s, a)
  {
    hide SizesAgree, Balanced, AllKnowSizes, Apply;
    match a
    case LockedPush(t) => PushKeepsSizes(s, foreign, t);
    case LockedUnlink(_, _) => UnlinkSizes(s, foreign, a);
    case LockedRetarget(_) => RetargetSizes(s, foreign, a);
    case _ => HeapCallsKeepSizes(s, foreign, a);
  }

  ghost predicate AlwaysAgree(s: Shared, actions: seq<Action>)
    requires Schedule(s, actions)
    decreases |actions|
  {
    SizesAgree(s) && (actions == [] || AlwaysAgree(Apply(s, actions[0]), actions[1..]))
  }

  predicate AlwaysHits(s: Shared, actions: seq<Action>)
    requires Schedule(s, actions)
    decreases |actions|
  {
    actions == [] || (HitsRightSize(s, actions[0]) && AlwaysHits(Apply(s, actions[0]), actions[1..]))
  }

  /** Over a whole schedule: all sizes are right in all states if and only if every lookup finds the right size. */
  lemma {:induction false} SizesKeptThroughoutExactly(s: Shared, foreign: set<Addr>, actions: seq<Action>)
    requires Balanced(s, foreign) && AllKnowSizes(s) && SizesAgree(s) && Schedule(s, actions)
    ensures AlwaysAgree(s, actions) <==> AlwaysHits(s, actions)
    decreases |actions|
  {
    if actions != [] {
      hide Balanced, AllKnowSizes, SizesAgree, Apply, Enabled, HitsRightSize;
      var a := actions[0];
      ActionBalanced(s, foreign, a);
      KnowsSizesKept(s, foreign, a);
      SizesKeptExactly(s, foreign, a);
      if SizesAgree(Apply(s, a)) {
        SizesKeptThroughoutExactly(Apply(s, a), foreign, actions[1..]);
      }
    }
  }

  lemma {:induction false} AgreesAtTheEnd(s: Shared, actions: seq<Action>)
    requires Schedule(s, actions) && AlwaysAgree(s, actions)
    ensures SizesAgree(Execute(s, actions))
    decreases |actions|
  {
    if actions != [] {
      AgreesAtTheEnd(Apply(s, actions[0]), actions[1..]);
    }
  }

  lemma {:induction false} IdleSized(ts: seq<Pc>, x: Sized)
    requires forall i :: 0 <= i < |ts| ==> ts[i] == Idle
    ensures Gather(ts, SizedVacated)[x] == 0
  {
    if ts != [] {
      IdleSized(ts[1..], x);
    }
  }

  /** With all threads back in client code and all sizes right, every entry carries the true size of a live block. */
  lemma QuietEntryIsTrue(s: Shared, i: nat)
    requires SizesAgree(s) && Quiet(s) && i < |s.ledger.entries|
    ensures MemSession.TrueSized(s.heap, s.ledger.entries[i])
  {
    var e := s.ledger.entries[i];
    var x := Sized(e.ptr, e.size);
    assert SizesAt(s, x) && x in SizedOf(e);
    hide SizesAgree;
    GatherHas(s.ledger.entries, SizedOf, x);
    IdleSized(s.threads, x);
  }

  // ----- a condition on the heap that is enough for whole runs -----

  /** The heap does not hand out an address that some running realloc has given up and not yet reported. */
  predicate NoReuse(s: Shared, a: Action) {
    match a
    case Malloc(_, _, _, p) => p !in Gather(s.threads, Vacated)
    case Calloc(_, _, _, _, p) => p !in Gather(s.threads, Vacated)
    case Realloc(_, ptr, _, _, p) => p == ptr || p !in Gather(s.threads, Vacated)
    case _ => true
  }

  predicate ScheduleWithoutReuse(s: Shared, actions: seq<Action>)
    requires Schedule(s, actions)
    decreases |actions|
  {
    actions == [] || (NoReuse(s, actions[0]) && ScheduleWithoutReuse(Apply(s, actions[0]), actions[1..]))
  }

  /** The address a thread is about to enter in the ledger, unless it is one it has vacated itself. */
  function Pending(pc: Pc): multiset<Addr> {
    if pc.Obtained? || pc.Ready? || (pc.Moved? && pc.p != pc.old_) then multiset{pc.p} else multiset{}
  }

  ghost predicate OnePlaceAt(s: Shared, x: Addr) {
    Once(x in s.owned) + Gather(s.threads, Vacated)[x] + Gather(s.threads, Pending)[x] <= 1
  }

  ghost predicate OnePlace(s: Shared) {
    forall x :: OnePlaceAt(s, x)
  }

  lemma {:induction false} PendingIsInFlight(ts: seq<Pc>, x: Addr)
    ensures Gather(ts, Pending)[x] <= Gather(ts, InFlight)[x]
  {
    if ts != [] {
      PendingIsInFlight(ts[1..], x);
    }
  }

  lemma PlaceMoves(ts: seq<Pc>, t: nat, pc: Pc, x: Addr)
    requires t < |ts|
    ensures Gather(ts[t := pc], Vacated)[x] + Vacated(ts[t])[x] == Gather(ts, Vacated)[x] + Vacated(pc)[x]
    ensures Gather(ts[t := pc], Pending)[x] + Pending(ts[t])[x] == Gather(ts, Pending)[x] + Pending(pc)[x]
  {
    UpdateAt(ts, t, pc, Vacated, x);
    UpdateAt(ts, t, pc, Pending, x);
  }

  /** A fresh address has no place yet. */
  lemma FreshHasNoPlace(s: Shared, foreign: set<Addr>, p: Addr)
    requires Balanced(s, foreign) && p !in s.heap
    ensures p !in s.owned && Gather(s.threads, Pending)[p] == 0
  {
    assert HeapAt(s, foreign, p);
    PendingIsInFlight(s.threads, p);
  }

  /** What thread state `pc` and the set of owned blocks contribute to the places of `x`. */
  function Share(owned: set<Addr>, pc: Pc, x: Addr): nat {
    Once(x in owned) + Vacated(pc)[x] + Pending(pc)[x]
  }

  /**
    * The step of thread `t` from `s` to `s'` passes `x` on within the thread or between it and its client, or gives it
    * its first place.
    */
  predicate PassesAt(s: Shared, s': Shared, t: nat, x: Addr) {
    && t < |s.threads| == |s'.threads| && s'.threads == s.threads[t := s'.threads[t]]
    && (|| Share(s'.owned, s'.threads[t], x) <= Share(s.owned, s.threads[t], x)
        || (&& Share(s'.owned, s'.threads[t], x) <= 1
            && Gather(s.threads, Vacated)[x] + Gather(s.threads, Pending)[x] == 0))
  }

  lemma PassingKeepsPlaceAt(s: Shared, s': Shared, t: nat, x: Addr)
    requires OnePlaceAt(s, x) && PassesAt(s, s', t, x)
    ensures OnePlaceAt(s', x)
  {
    hide Gather, Vacated, Pending;
    PlaceMoves(s.threads, t, s'.threads[t], x);
  }

  lemma PassingKeepsPlace(s: Shared, s': Shared, t: nat)
    requires OnePlace(s) && forall x :: PassesAt(s, s', t, x)
    ensures OnePlace(s')
  {
    forall x ensures OnePlaceAt(s', x) {
      assert OnePlaceAt(s, x) && PassesAt(s, s', t, x);
      hide *;
      PassingKeepsPlaceAt(s, s', t, x);
    }
  }

  lemma ObtainPassesAt(s: Shared, t: nat, size: uint32, trueSize: nat, site: Site, p: Addr, x: Addr)
    requires t < |s.threads| && s.threads[t].Idle?
    requires p !in s.owned && Gather(s.threads, Vacated)[p] + Gather(s.threads, Pending)[p] == 0
    ensures PassesAt(s, Obtain(s, t, size, trueSize, site, p), t, x)
  {
    hide Gather;
  }

  lemma ObtainKeepsPlace(s: Shared, foreign: set<Addr>, t: nat, size: uint32, trueSize: nat, site: Site, p: Addr)
    requires Balanced(s, foreign) && OnePlace(s) && t < |s.threads| && s.threads[t].Idle?
    requires p !in s.heap && p !in Gather(s.threads, Vacated)
    ensures OnePlace(Obtain(s, t, size, trueSize, site, p))
  {
    FreshHasNoPlace(s, foreign, p);
    hide Balanced, OnePlace, Gather, Obtain, PassesAt;
    forall x ensures PassesAt(s, Obtain(s, t, size, trueSize, site, p), t, x) {
      ObtainPassesAt(s, t, size, trueSize, site, p, x);
    }
    PassingKeepsPlace(s, Obtain(s, t, size, trueSize, site, p), t);
  }

  lemma ReallocPassesAt(s: Shared, a: Action, x: Addr)
    requires Enabled(s, a) && a.Realloc? && a.p != NULL
    requires a.p != a.ptr ==> a.p !in s.owned && Gather(s.threads, Vacated)[a.p] + Gather(s.threads, Pending)[a.p] == 0
    ensures PassesAt(s, Apply(s, a), a.t, x)
  {
    hide Gather;
  }

  lemma ReallocKeepsPlace(s: Shared, foreign: set<Addr>, a: Action)
    requires Balanced(s, foreign) && OnePlace(s) && Enabled(s, a) && NoReuse(s, a) && a.Realloc? && a.p != NULL
    ensures OnePlace(Apply(s, a))
  {
    if a.p != a.ptr {
      FreshHasNoPlace(s, foreign, a.p);
    }
    hide Balanced, OnePlace, Gather, Apply, Enabled, PassesAt;
    forall x ensures PassesAt(s, Apply(s, a), a.t, x) {
      ReallocPassesAt(s, a, x);
    }
    PassingKeepsPlace(s, Apply(s, a), a.t);
  }

  lemma HeapCallKeepsPlace(s: Shared, a: Action)
    requires OnePlace(s) && Enabled(s, a) && (a.NodeMalloc? || a.RealFree? || a.LockedPush?)
    ensures OnePlace(Apply(s, a))
  {
    hide OnePlace, Gather, Push;
    PassingKeepsPlace(s, Apply(s, a), a.t);
  }

  lemma UnlinkKeepsPlace(s: Shared, foreign: set<Addr>, a: Action)
    requires Balanced(s, foreign) && OnePlace(s) && Enabled(s, a) && a.LockedUnlink?
    ensures OnePlace(Apply(s, a))
  {
    UnlinkFinds(s, foreign, a.ptr);
    hide OnePlace, Balanced, Find;
    PassingKeepsPlace(s, Apply(s, a), a.t);
  }

  lemma RetargetKeepsPlace(s: Shared, foreign: set<Addr>, a: Action)
    requires Balanced(s, foreign) && OnePlace(s) && Enabled(s, a) && a.LockedRetarget?
    ensures OnePlace(Apply(s, a))
  {
    RetargetFinds(s, foreign, a.t);
    hide OnePlace, Balanced, Find;
    PassingKeepsPlace(s, Apply(s, a), a.t);
  }

  lemma PlaceKept(s: Shared, foreign: set<Addr>, a: Action)
    requires Balanced(s, foreign) && OnePlace(s) && Enabled(s, a) && NoReuse(s, a)
    ensures OnePlace(Apply(s, a))
  {
    hide Balanced, OnePlace;
    match a
    case Malloc(t, size, site, p) => if p != NULL { ObtainKeepsPlace(s, foreign, t, size, size, site, p); }
    case Calloc(t, unit, count, site, p) =>
      if p != NULL { ObtainKeepsPlace(s, foreign, t, Wrap32(unit * count), unit * count, site, p); }
    case Realloc(_, _, _, _, p) => if p != NULL { ReallocKeepsPlace(s, foreign, a); }
    case LockedUnlink(_, _) => UnlinkKeepsPlace(s, foreign, a);
    case LockedRetarget(_) => RetargetKeepsPlace(s, foreign, a);
    case _ => HeapCallKeepsPlace(s, a);
  }

  lemma OnlyEntryIsFirst(es: seq<Entry>, x: Sized)
    requires x in Gather(es, SizedOf) && Gather(es, PtrOf)[x.p] <= 1
    ensures var i := Find(es, x.p); i < |es| && es[i].size == x.size
  {
    var i := Find(es, x.p);
    GatherHas(es, SizedOf, x);
    var j :| 0 <= j < |es| && x in SizedOf(es[j]);
    assert es[j].ptr == x.p;
    if i < j {
      GatherTwice(es, i, j, PtrOf, x.p);
    }
  }

  /** With one place per address, the only entry for an address is the one with the size it ought to have. */
  lemma OnlyEntry(s: Shared, foreign: set<Addr>, x: Sized)
    requires Balanced(s, foreign) && SizesAgree(s) && OnePlace(s)
    requires OwnedSized(s, x) || x in Gather(s.threads, SizedVacated)
    ensures var i := Find(s.ledger.entries, x.p);
            i < |s.ledger.entries| && s.ledger.entries[i].size == x.size
  {
    assert LedgerAt(s, x.p);
    assert SizesAt(s, x);
    assert OnePlaceAt(s, x.p);
    hide Balanced, SizesAgree, OnePlace, Gather, Find, OwnedSized;
    OnlyEntryIsFirst(s.ledger.entries, x);
  }

  lemma UnlinkHits(s: Shared, foreign: set<Addr>, a: Action)
    requires Balanced(s, foreign) && SizesAgree(s) && OnePlace(s) && Enabled(s, a) && a.LockedUnlink?
    ensures HitsRightSize(s, a)
  {
    hide Balanced, OnePlace, SizesAgree, Find;
    OwnedIsLive(s, foreign);
    OnlyEntry(s, foreign, Sized(a.ptr, Wrap32(s.heap[a.ptr])));
  }

  lemma RetargetHits(s: Shared, foreign: set<Addr>, a: Action)
    requires Balanced(s, foreign) && SizesAgree(s) && OnePlace(s) && Enabled(s, a) && a.LockedRetarget?
    ensures HitsRightSize(s, a)
  {
    hide Balanced, OnePlace, SizesAgree, Find;
    var x := Sized(s.threads[a.t].old_, s.threads[a.t].oldSize);
    GatherHas(s.threads, SizedVacated, x);
    OnlyEntry(s, foreign, x);
  }

  lemma NoReuseHits(s: Shared, foreign: set<Addr>, a: Action)
    requires Balanced(s, foreign) && SizesAgree(s) && OnePlace(s) && Enabled(s, a)
    ensures HitsRightSize(s, a)
  {
    hide Balanced, OnePlace, SizesAgree;
    if a.LockedUnlink? {
      UnlinkHits(s, foreign, a);
    } else if a.LockedRetarget? {
      RetargetHits(s, foreign, a);
    }
  }

  /** In every schedule without such reuse, every lookup finds the right size and all sizes stay right. */
  lemma {:induction false} NoReuseKeepsSizes(s: Shared, foreign: set<Addr>, actions: seq<Action>)
    requires Balanced(s, foreign) && AllKnowSizes(s) && SizesAgree(s) && OnePlace(s)
    requires Schedule(s, actions) && ScheduleWithoutReuse(s, actions)
    ensures AlwaysHits(s, actions)
    ensures SizesAgree(Execute(s, actions)) && OnePlace(Execute(s, actions)) && Balanced(Execute(s, actions), foreign)
    decreases |actions|
  {
    if actions != [] {
      hide Balanced, AllKnowSizes, SizesAgree, OnePlace, Apply, Enabled, NoReuse, HitsRightSize;
      var a := actions[0];
      ActionBalanced(s, foreign, a);
      KnowsSizesKept(s, foreign, a);
      PlaceKept(s, foreign, a);
      NoReuseHits(s, foreign, a);
      SizesKeptExactly(s, foreign, a);
      NoReuseKeepsSizes(Apply(s, a), foreign, actions[1..]);
    }
  }

  /**
    * In plain terms: once all threads are back in client code after such a schedule, looking up any owned block in
    * the ledger gives its true size, as an unsigned int.
    */
  lemma QuietSizesAreTrue(s: Shared, foreign: set<Addr>, actions: seq<Action>, p: Addr)
    requires Balanced(s, foreign) && AllKnowSizes(s) && SizesAgree(s) && OnePlace(s)
    requires Schedule(s, actions) && ScheduleWithoutReuse(s, actions)
    requires Quiet(Execute(s, actions))
    requires p in Execute(s, actions).owned
    ensures var e := Execute(s, actions);
            && p in e.heap && p in Records(e.ledger.entries)
            && Records(e.ledger.entries)[p].size == Wrap32(e.heap[p])
  {
    NoReuseKeepsSizes(s, foreign, actions);
    var e := Execute(s, actions);
    hide Execute, Schedule, ScheduleWithoutReuse, AllKnowSizes, OnePlace, Balanced, SizesAgree;
    OwnedIsLive(e, foreign);
    OnlyEntry(e, foreign, Sized(p, Wrap32(e.heap[p])));
    RecordsFind(e.ledger.entries, p);
  }

  lemma {:induction false} SizedOnce(es: seq<Entry>, x: Sized)
    requires DistinctPtrs(es)
    ensures Gather(es, SizedOf)[x] == Once(x.p in Records(es) && Records(es)[x.p].size == x.size)
  {
    if es != [] {
      SizedOnce(es[1..], x);
      RecordsFind(es[1..], es[0].ptr);
    }
  }

  /** Threads that take over from a sequential run start with right sizes and one place per address. */
  lemma ForkSizes(s: MemSession.State, a: MemSession.Account, n: nat)
    requires MemSession.Agrees(s, a) && MemSession.TrueSizes(s) && s.on
    ensures var t := Fork(s, n); SizesAgree(t) && AllKnowSizes(t) && OnePlace(t)
  {
    var t, es := Fork(s, n), s.ledger.entries;
    forall x ensures SizesAt(t, x) {
      IdleSized(t.threads, x);
      SizedOnce(es, x);
      RecordsFind(es, x.p);
      if x.p in t.owned {
        assert MemSession.TrueSized(s.heap, es[Find(es, x.p)]);
      }
    }
    forall x ensures OnePlaceAt(t, x) {
      IdleContributesNothing(t.threads, Vacated, x);
      IdleContributesNothing(t.threads, Pending, x);
    }
  }

  // ----- a schedule that spoils the sizes -----

  /**
    * Two threads, one reused address. Thread 0 allocates block 1 and moves it to 3; before it takes the lock the
    * heap hands address 1 to thread 1, which enters it. Thread 0 then finds thread 1's entry first.
    */
  function Race(site: Site): seq<Action> {
    [Malloc(0, 10, site, 1), NodeMalloc(0, 2), LockedPush(0), Realloc(0, 1, 20, site, 3),
     Malloc(1, 30, site, 1), NodeMalloc(1, 4), LockedPush(1), LockedRetarget(0)]
  }

  function RaceStart(): Shared {
    Fork(MemSession.State(true, Ledger([], 0, 0), map[]), 2)
  }

  /** The state in which thread 0 has moved its block and thread 1 has not started. */
  function RaceMiddle(site: Site): Shared {
    Shared(Ledger([Entry(2, 1, 10, site)], 1, 10), map[2 := MemSession.NODE_SIZE, 3 := 20], {},
           [Moved(1, 10, 3, 20, site), Idle])
  }

  function RaceEnd(site: Site): Shared {
    Shared(Ledger([Entry(4, 3, 20, site), Entry(2, 1, 10, site)], 2, 30),
           map[2 := MemSession.NODE_SIZE, 3 := 20, 1 := 30, 4 := MemSession.NODE_SIZE], {1, 3}, [Idle, Idle])
  }

  lemma RaceFirstHalf(site: Site, rest: seq<Action>)
    requires rest == Race(site)[4..] && Schedule(RaceMiddle(site), rest)
    ensures Schedule(RaceStart(), Race(site))
    ensures Execute(RaceStart(), Race(site)) == Execute(RaceMiddle(site), rest)
  {
    var r := Race(site);
    var s0 := RaceStart();
    assert s0 == Shared(Ledger([], 0, 0), map[], {}, [Idle, Idle]);
    var s1 := Apply(s0, r[0]);
    var s2 := Apply(s1, r[1]);
    var s3 := Apply(s2, r[2]);
    var s4 := Apply(s3, r[3]);
    assert s4 == RaceMiddle(site);
    assert r[3..][1..] == rest && r[2..][1..] == r[3..] && r[1..][1..] == r[2..];
    hide Apply;
    FirstAction(s3, r[3..]);
    FirstAction(s2, r[2..]);
    FirstAction(s1, r[1..]);
    FirstAction(s0, r);
  }

  /** The state in which thread 1 has its block and its node. */
  function RaceReady(site: Site): Shared {
    Shared(Ledger([Entry(2, 1, 10, site)], 1, 10),
           map[2 := MemSession.NODE_SIZE, 3 := 20, 1 := 30, 4 := MemSession.NODE_SIZE], {},
           [Moved(1, 10, 3, 20, site), Ready(1, 30, site, 4)])
  }

  lemma RaceThirdQuarter(site: Site, rest: seq<Action>)
    requires rest == Race(site)[4..] && Schedule(RaceReady(site), rest[2..])
    ensures Schedule(RaceMiddle(site), rest)
    ensures Execute(RaceMiddle(site), rest) == Execute(RaceReady(site), rest[2..])
  {
    var s4 := RaceMiddle(site);
    var s5 := Apply(s4, rest[0]);
    var s6 := Apply(s5, rest[1]);
    assert s6 == RaceReady(site);
    assert rest[1..][1..] == rest[2..];
    hide Apply;
    FirstAction(s5, rest[1..]);
    FirstAction(s4, rest);
  }

  lemma RaceLastQuarter(site: Site, last: seq<Action>)
    requires last == Race(site)[6..]
    ensures Schedule(RaceReady(site), last) && Execute(RaceReady(site), last) == RaceEnd(site)
  {
    var s6 := RaceReady(site);
    var s7 := Apply(s6, last[0]);
    assert s7.ledger.entries == [Entry(4, 1, 30, site), Entry(2, 1, 10, site)];
    var s8 := Apply(s7, last[1]);
    assert s8 == RaceEnd(site);
    assert last[1..][1..] == [];
    hide Apply;
    FirstAction(s7, last[1..]);
    FirstAction(s6, last);
  }

  lemma RaceEndDisagrees(site: Site)
    ensures var s := RaceEnd(site);
            && 1 in Records(s.ledger.entries) && Records(s.ledger.entries)[1].size == 10
            && 1 in s.heap && s.heap[1] == 30 && !SizesAgree(s)
  {
    var s := RaceEnd(site);
    var es, x := s.ledger.entries, Sized(1, 10);
    assert es[0].ptr == 3 && es[1] == Entry(2, 1, 10, site);
    RecordsFind(es, 1);
    assert Find(es, 1) == 1;
    assert x in SizedOf(es[1]);
    GatherHas(es, SizedOf, x);
    GatherHas(s.threads, SizedVacated, x);
    assert !OwnedSized(s, x);
    assert !SizesAt(s, x);
  }

  lemma RaceStartAgrees()
    ensures SizesAgree(RaceStart())
  {
    var s := MemSession.State(true, Ledger([], 0, 0), map[]);
    var a := MemSession.Opening().(tracing := true);
    assert MemSession.Agrees(s, a) && MemSession.TrueSizes(s);
    hide SizesAgree, MemSession.Agrees;
    ForkSizes(s, a, 2);
  }

  lemma RaceRuns(site: Site)
    ensures Schedule(RaceStart(), Race(site)) && Execute(RaceStart(), Race(site)) == RaceEnd(site)
  {
    var rest := Race(site)[4..];
    assert rest[2..] == Race(site)[6..];
    RaceLastQuarter(site, rest[2..]);
    RaceThirdQuarter(site, rest);
    RaceFirstHalf(site, rest);
  }

  /** The promise of right sizes fails: all calls have returned, block 1 is 30 bytes, and the ledger says 10. */
  lemma RaceSpoilsSizes(site: Site)
    ensures Schedule(RaceStart(), Race(site)) && SizesAgree(RaceStart())
    ensures var s := Execute(RaceStart(), Race(site));
            && s.threads == [Idle, Idle] && s.owned == {1, 3}
            && 1 in Records(s.ledger.entries) && Records(s.ledger.entries)[1].size == 10
            && 1 in s.heap && s.heap[1] == 30 && !SizesAgree(s)
  {
    hide SizesAgree, Records;
    RaceRuns(site);
    RaceEndDisagrees(site);
    RaceStartAgrees();
    hide Execute, Race, Schedule;
  }
}
