/** How far the recorded sizes are off in total; only lookups that meet an entry of another size move it. */
module MemDrift {
  import opened CTypes
  import opened Bags
  import opened MemLedger
  import MemSession
  import opened MemThreads
  import opened MemThreadsProofs
  import opened MemThreadsTheorems
  import opened MemThreadsSizes

  /** The size a block ought to be recorded with. */
  function TrueSize(heap: map<Addr, nat>, p: Addr): uint32 {
    if p in heap then Wrap32(heap[p]) else 0
  }

  // ----- one thread: the list and what it ought to be -----

  /** The list with every size put right. */
  function Corrected(heap: map<Addr, nat>, es: seq<Entry>): seq<Entry> {
    seq(|es|, i requires 0 <= i < |es| => es[i].(size := TrueSize(heap, es[i].ptr)))
  }

  /** Recorded bytes less the bytes that ought to be recorded. */
  function Off(heap: map<Addr, nat>, es: seq<Entry>): int {
    Bytes(es) - Bytes(Corrected(heap, es))
  }

  /** The size a lookup ought to meet less the size it meets. */
  function Miss(heap: map<Addr, nat>, es: seq<Entry>, p: Addr): int {
    var i := Find(es, p);
    if i < |es| then TrueSize(heap, p) - es[i].size else 0
  }

  function MissOf(s: MemSession.State, op: MemSession.Op): int {
    match op
    case Free(p) => if s.on && p != NULL then Miss(s.heap, s.ledger.entries, p) else 0
    case Realloc(p, size, _, moved, _) =>
      if s.on && size != 0 && p != NULL && moved != NULL then Miss(s.heap, s.ledger.entries, p) else 0
    case _ => 0
  }

  /** What a call makes of the total; a successful deinit takes all entries with it. */
  function DriftAfter(s: MemSession.State, drift: int, op: MemSession.Op): int {
    if op.Deinit? && op.reportOpens && s.on then 0 else drift + MissOf(s, op)
  }

  /** Blocks that the list does not mention may come and go. */
  lemma OffSame(heap: map<Addr, nat>, heap': map<Addr, nat>, es: seq<Entry>)
    requires forall i :: 0 <= i < |es| ==> TrueSize(heap, es[i].ptr) == TrueSize(heap', es[i].ptr)
    ensures Corrected(heap, es) == Corrected(heap', es) && Off(heap, es) == Off(heap', es)
  {
  }

  lemma OffPush(heap: map<Addr, nat>, e: Entry, es: seq<Entry>)
    requires TrueSize(heap, e.ptr) == e.size
    ensures Off(heap, [e] + es) == Off(heap, es)
  {
    var fs := Corrected(heap, [e] + es);
    assert fs[0] == e && fs[1..] == Corrected(heap, es) && ([e] + es)[1..] == es;
  }

  lemma OffUnlink(heap: map<Addr, nat>, es: seq<Entry>, i: nat)
    requires i < |es|
    ensures Off(heap, es[..i] + es[i+1..]) == Off(heap, es) + TrueSize(heap, es[i].ptr) - es[i].size
  {
    var cs := Corrected(heap, es);
    assert Corrected(heap, es[..i] + es[i+1..]) == cs[..i] + cs[i+1..];
    hide Bytes, Corrected;
    BytesSplit(es, i);
    BytesSplit(cs, i);
    BytesAppend(es[..i], es[i+1..]);
    BytesAppend(cs[..i], cs[i+1..]);
    assert cs[i].size == TrueSize(heap, es[i].ptr) by { CorrectedAt(heap, es, i); }
  }

  lemma CorrectedAt(heap: map<Addr, nat>, es: seq<Entry>, i: nat)
    requires i < |es|
    ensures |Corrected(heap, es)| == |es| && Corrected(heap, es)[i] == es[i].(size := TrueSize(heap, es[i].ptr))
  {
  }

  lemma BytesUpdate(es: seq<Entry>, i: nat, e: Entry)
    requires i < |es|
    ensures Bytes(es[i := e]) == Bytes(es) - es[i].size + e.size
  {
    BytesSplit(es, i);
    BytesSplit(es[i := e], i);
    assert es[i := e][..i] == es[..i] && es[i := e][i+1..] == es[i+1..];
  }

  /** Overwriting entry `i` with another block and its true size. */
  lemma OffRetarget(heap: map<Addr, nat>, heap': map<Addr, nat>, es: seq<Entry>, i: nat, e: Entry)
    requires i < |es| && TrueSize(heap', e.ptr) == e.size
    requires forall j :: 0 <= j < |es| && j != i ==> TrueSize(heap, es[j].ptr) == TrueSize(heap', es[j].ptr)
    ensures Off(heap', es[i := e]) == Off(heap, es) + TrueSize(heap, es[i].ptr) - es[i].size
  {
    var cs := Corrected(heap, es);
    assert Corrected(heap', es[i := e]) == cs[i := e];
    CorrectedAt(heap, es, i);
    hide Bytes, Corrected;
    BytesUpdate(es, i, e);
    BytesUpdate(cs, i, e);
  }

  // ----- every call by a single thread -----

  lemma EnterOff(s: MemSession.State, p: Addr, size: uint32, site: Site, node: Addr, taken: seq<Addr>, freed: seq<Addr>)
    requires p in s.heap && Wrap32(s.heap[p]) == size && (node == NULL || node !in s.heap)
    requires forall i :: 0 <= i < |s.ledger.entries| ==>
                           s.ledger.entries[i].ptr in s.heap && s.ledger.entries[i].ptr != p
    ensures var t := MemSession.Enter(s, p, size, site, node, taken, freed).s;
            Off(t.heap, t.ledger.entries) == Off(s.heap, s.ledger.entries)
  {
    var es := s.ledger.entries;
    hide Off, Wrap32;
    if node == NULL {
      OffSame(s.heap, s.heap - {p}, es);
    } else {
      var heap := s.heap[node := MemSession.NODE_SIZE];
      OffSame(s.heap, heap, es);
      OffPush(heap, Entry(node, p, size, site), es);
    }
  }

  lemma AllocateOff(s: MemSession.State, size: uint32, trueSize: nat, site: Site, p: Addr, node: Addr)
    requires MemSession.Inv(s) && Wrap32(trueSize) == size
    requires MemSession.Answer(s.heap.Keys, p) && MemSession.Answer(s.heap.Keys + {p}, node)
    ensures var t := MemSession.Allocate(s, size, trueSize, site, p, node).s;
            Off(t.heap, t.ledger.entries) == Off(s.heap, s.ledger.entries)
  {
    if p != NULL {
      var t := s.(heap := s.heap[p := trueSize]);
      PtrsLive(s);
      hide MemSession.Inv, Off, Wrap32;
      OffSame(s.heap, t.heap, s.ledger.entries);
      if s.on {
        EnterOff(t, p, size, site, node, [p], []);
      }
    }
  }

  lemma PtrsLive(s: MemSession.State)
    requires MemSession.Inv(s)
    ensures forall i :: 0 <= i < |s.ledger.entries| ==> s.ledger.entries[i].ptr in s.heap
  {
    forall i | 0 <= i < |s.ledger.entries| ensures s.ledger.entries[i].ptr in s.heap {
      assert MemSession.LiveEntry(s.heap, s.ledger.entries[i]);
    }
  }

  lemma ReallocOff(s: MemSession.State, p: Addr, size: uint32, site: Site, moved: Addr, node: Addr)
    requires MemSession.Inv(s) && MemSession.Legal(s, MemSession.Realloc(p, size, site, moved, node))
    requires p != NULL && size != 0 && moved != NULL
    ensures var op := MemSession.Realloc(p, size, site, moved, node); var t := MemSession.Step(s, op).s;
            Off(t.heap, t.ledger.entries) == Off(s.heap, s.ledger.entries) + MissOf(s, op)
  {
    var es := s.ledger.entries;
    var i := Find(es, p);
    var heap := (s.heap - {p})[moved := size];
    PtrsLive(s);
    if i == |es| {
      hide Off, MemSession.Inv, Wrap32;
      OffSame(s.heap, heap, es);
      if s.on {
        EnterOff(s.(heap := heap), moved, size, site, node, [moved], [p]);
      }
    } else {
      assert forall j :: 0 <= j < |es| && j != i ==> es[j].ptr != p;
      hide Off, MemSession.Inv;
      OffRetarget(s.heap, heap, es, i, Entry(es[i].node, moved, size, site));
    }
  }

  lemma FreeOff(s: MemSession.State, p: Addr)
    requires MemSession.Inv(s) && MemSession.Legal(s, MemSession.Free(p))
    ensures var op := MemSession.Free(p); var t := MemSession.Step(s, op).s;
            Off(t.heap, t.ledger.entries) == Off(s.heap, s.ledger.entries) + MissOf(s, op)
  {
    var es := s.ledger.entries;
    var i := Find(es, p);
    if p != NULL && i < |es| {
      var fs := es[..i] + es[i+1..];
      var heap := s.heap - {es[i].node} - {p};
      forall j | 0 <= j < |fs| ensures TrueSize(s.heap, fs[j].ptr) == TrueSize(heap, fs[j].ptr) {
        var k := if j < i then j else j + 1;
        assert fs[j] == es[k] && es[k].ptr != es[i].node && es[k].ptr != es[i].ptr;
      }
      hide Off, MemSession.Inv;
      OffUnlink(s.heap, es, i);
      OffSame(s.heap, heap, fs);
    } else if p != NULL && !s.on {
      OffSame(s.heap, s.heap - {p}, es);
    }
  }

  /** A call by a single thread changes the total by what its lookup misses, and by nothing else. */
  lemma StepOff(s: MemSession.State, op: MemSession.Op)
    requires MemSession.Inv(s) && MemSession.Legal(s, op)
    ensures var t := MemSession.Step(s, op).s;
            Off(t.heap, t.ledger.entries) == DriftAfter(s, Off(s.heap, s.ledger.entries), op)
  {
    match op
    case Malloc(size, site, p, node) =>
      hide MemSession.Inv, Off;
      if size != 0 { AllocateOff(s, size, size, site, p, node); }
    case Calloc(unit, count, site, p, node) =>
      hide MemSession.Inv, Off;
      if unit != 0 && count != 0 { AllocateOff(s, Wrap32(unit * count), unit * count, site, p, node); }
    case Realloc(p, size, site, moved, node) =>
      assert NULL !in s.heap;
      hide MemSession.Inv, Off;
      if size != 0 && p == NULL {
        assert s.heap.Keys - {NULL} == s.heap.Keys;
        AllocateOff(s, size, size, site, moved, node);
      } else if size != 0 && moved != NULL {
        ReallocOff(s, p, size, site, moved, node);
      }
    case Free(p) => FreeOff(s, p);
    case RawMalloc(p, bytes) =>
      PtrsLive(s);
      hide MemSession.Inv, Off;
      OffSame(s.heap, s.heap[p := bytes], s.ledger.entries);
    case RawFree(p) =>
      RecordsFind(s.ledger.entries, p);
      hide MemSession.Inv, Off;
      OffSame(s.heap, s.heap - {p}, s.ledger.entries);
    case _ =>
  }

  // ----- many threads: owned blocks and vacated ones -----

  ghost function OwnedBytes(heap: map<Addr, nat>, owned: set<Addr>): nat {
    if owned == {} then 0 else var p :| p in owned; TrueSize(heap, p) + OwnedBytes(heap, owned - {p})
  }

  lemma {:induction false} OwnedDrop(heap: map<Addr, nat>, owned: set<Addr>, p: Addr)
    requires p in owned
    ensures OwnedBytes(heap, owned) == TrueSize(heap, p) + OwnedBytes(heap, owned - {p})
    decreases |owned|
  {
    var q :| q in owned && OwnedBytes(heap, owned) == TrueSize(heap, q) + OwnedBytes(heap, owned - {q});
    if q != p {
      OwnedDrop(heap, owned - {q}, p);
      OwnedDrop(heap, owned - {p}, q);
      assert owned - {q} - {p} == owned - {p} - {q};
    }
  }

  lemma OwnedAdd(heap: map<Addr, nat>, owned: set<Addr>, p: Addr)
    requires p !in owned
    ensures OwnedBytes(heap, owned + {p}) == OwnedBytes(heap, owned) + TrueSize(heap, p)
  {
    OwnedDrop(heap, owned + {p}, p);
    assert owned + {p} - {p} == owned;
  }

  lemma {:induction false} OwnedSame(heap: map<Addr, nat>, heap': map<Addr, nat>, owned: set<Addr>)
    requires forall p :: p in owned ==> TrueSize(heap, p) == TrueSize(heap', p)
    ensures OwnedBytes(heap, owned) == OwnedBytes(heap', owned)
    decreases |owned|
  {
    if p :| p in owned {
      OwnedDrop(heap, owned, p);
      OwnedDrop(heap', owned, p);
      OwnedSame(heap, heap', owned - {p});
    }
  }

  function VacatedSize(pc: Pc): nat {
    if pc.Moved? then pc.oldSize else 0
  }

  function VacatedBytes(ts: seq<Pc>): nat {
    if ts == [] then 0 else VacatedSize(ts[0]) + VacatedBytes(ts[1..])
  }

  lemma {:induction false} VacatedMoves(ts: seq<Pc>, t: nat, pc: Pc)
    requires t < |ts|
    ensures VacatedBytes(ts[t := pc]) + VacatedSize(ts[t]) == VacatedBytes(ts) + VacatedSize(pc)
  {
    if t == 0 {
      assert ts[0 := pc][1..] == ts[1..];
    } else {
      VacatedMoves(ts[1..], t - 1, pc);
      assert ts[t := pc][1..] == ts[1..][t - 1 := pc];
    }
  }

  /** Recorded bytes less those that owned blocks and the addresses running reallocs gave up ought to have. */
  ghost function Error(s: Shared): int {
    Bytes(s.ledger.entries) - OwnedBytes(s.heap, s.owned) - VacatedBytes(s.threads)
  }

  /** The size a critical section ought to meet less the size it meets. */
  function MissBy(s: Shared, a: Action): int
    requires Enabled(s, a)
  {
    match a
    case LockedUnlink(_, p) => Miss(s.heap, s.ledger.entries, p)
    case LockedRetarget(t) =>
      var i := Find(s.ledger.entries, At(s, t).old_);
      if i < |s.ledger.entries| then At(s, t).oldSize - s.ledger.entries[i].size else 0
    case _ => 0
  }

  /** A step that leaves the entries alone: owned blocks keep their sizes and what is given up is remembered. */
  lemma HeapCallError(s: Shared, s': Shared, t: nat)
    requires t < |s.threads| == |s'.threads| && s'.threads == s.threads[t := s'.threads[t]]
    requires s'.ledger == s.ledger && s'.owned <= s.owned
    requires forall p :: p in s'.owned ==> TrueSize(s.heap, p) == TrueSize(s'.heap, p)
    requires || (s'.owned == s.owned && VacatedSize(s'.threads[t]) == VacatedSize(s.threads[t]))
             || (exists p :: p in s.owned && s'.owned == s.owned - {p} && !s.threads[t].Moved?
                          && VacatedSize(s'.threads[t]) == TrueSize(s.heap, p))
    ensures Error(s') == Error(s)
  {
    hide TrueSize, VacatedSize, Bytes;
    VacatedMoves(s.threads, t, s'.threads[t]);
    OwnedSame(s.heap, s'.heap, s'.owned);
    if s'.owned != s.owned {
      var p :| p in s.owned && s'.owned == s.owned - {p} && !s.threads[t].Moved?
               && VacatedSize(s'.threads[t]) == TrueSize(s.heap, p);
      OwnedDrop(s.heap, s.owned, p);
      NotVacated(s.threads[t]);
    }
  }

  lemma NotVacated(pc: Pc)
    requires !pc.Moved?
    ensures VacatedSize(pc) == 0
  {
  }

  lemma HeapCallKeepsError(s: Shared, foreign: set<Addr>, a: Action)
    requires Balanced(s, foreign) && Enabled(s, a)
    requires a.Malloc? || a.Calloc? || a.NodeMalloc? || a.RealFree? || a.Realloc?
    ensures Error(Apply(s, a)) == Error(s)
  {
    OwnedIsLive(s, foreign);
    if a.RealFree? {
      InFlightIsLive(s, foreign, a.t, s.threads[a.t].p);
    }
    hide Balanced, Error;
    if Apply(s, a) != s {
      if a.Realloc? {
        assert a.ptr in s.owned && Apply(s, a).owned == s.owned - {a.ptr};
        assert VacatedSize(Apply(s, a).threads[a.t]) == TrueSize(s.heap, a.ptr);
      }
      HeapCallError(s, Apply(s, a), a.t);
    }
  }

  lemma PushKeepsError(s: Shared, foreign: set<Addr>, t: nat)
    requires Balanced(s, foreign) && AllKnowSizes(s) && Enabled(s, LockedPush(t))
    ensures Error(Apply(s, LockedPush(t))) == Error(s)
  {
    var pc := s.threads[t];
    InFlightIsLive(s, foreign, t, pc.p);
    assert KnowsSize(s, pc);
    assert Apply(s, LockedPush(t)).ledger.entries[1..] == s.ledger.entries;
    VacatedMoves(s.threads, t, Idle);
    OwnedAdd(s.heap, s.owned, pc.p);
    hide Balanced, AllKnowSizes, OwnedBytes, VacatedBytes, Wrap32;
  }

  lemma UnlinkError(s: Shared, foreign: set<Addr>, a: Action)
    requires Balanced(s, foreign) && Enabled(s, a) && a.LockedUnlink?
    ensures Error(Apply(s, a)) == Error(s) + MissBy(s, a)
  {
    var es := s.ledger.entries;
    UnlinkFinds(s, foreign, a.ptr);
    var i := Find(es, a.ptr);
    NodeIsNotInFlight(s, foreign, i, a.t);
    var heap := s.heap - {es[i].node};
    hide Balanced, Bytes, OwnedBytes, VacatedBytes;
    BytesSplit(es, i);
    BytesAppend(es[..i], es[i+1..]);
    VacatedMoves(s.threads, a.t, Unlinked(a.ptr));
    OwnedDrop(s.heap, s.owned, a.ptr);
    OwnedSame(s.heap, heap, s.owned - {a.ptr});
  }

  lemma RetargetError(s: Shared, foreign: set<Addr>, a: Action)
    requires Balanced(s, foreign) && AllKnowSizes(s) && Enabled(s, a) && a.LockedRetarget?
    ensures Error(Apply(s, a)) == Error(s) + MissBy(s, a)
  {
    var es, pc := s.ledger.entries, s.threads[a.t];
    RetargetFinds(s, foreign, a.t);
    InFlightIsLive(s, foreign, a.t, pc.p);
    assert KnowsSize(s, pc);
    var i := Find(es, pc.old_);
    hide Balanced, AllKnowSizes, Bytes, OwnedBytes, VacatedBytes, Wrap32;
    BytesUpdate(es, i, Entry(es[i].node, pc.p, pc.size, pc.site));
    VacatedMoves(s.threads, a.t, Idle);
    OwnedAdd(s.heap, s.owned, pc.p);
  }

  lemma ActionError(s: Shared, foreign: set<Addr>, a: Action)
    requires Balanced(s, foreign) && AllKnowSizes(s) && Enabled(s, a)
    ensures Error(Apply(s, a)) == Error(s) + MissBy(s, a)
  {
    hide Balanced, AllKnowSizes, Error, Apply;
    match a
    case LockedPush(t) => PushKeepsError(s, foreign, t);
    case LockedUnlink(_, _) => UnlinkError(s, foreign, a);
    case LockedRetarget(_) => RetargetError(s, foreign, a);
    case _ => HeapCallKeepsError(s, foreign, a);
  }

  function Misses(s: Shared, actions: seq<Action>): int
    requires Schedule(s, actions)
    decreases |actions|
  {
    if actions == [] then 0 else MissBy(s, actions[0]) + Misses(Apply(s, actions[0]), actions[1..])
  }

  /** Over any schedule the total changes by what the lookups in it miss. */
  lemma {:induction false} ScheduleError(s: Shared, foreign: set<Addr>, actions: seq<Action>)
    requires Balanced(s, foreign) && AllKnowSizes(s) && Schedule(s, actions)
    ensures Error(Execute(s, actions)) == Error(s) + Misses(s, actions)
    decreases |actions|
  {
    if actions != [] {
      hide Balanced, AllKnowSizes, Error, Apply, Enabled, MissBy;
      ActionBalanced(s, foreign, actions[0]);
      KnowsSizesKept(s, foreign, actions[0]);
      ActionError(s, foreign, actions[0]);
      ScheduleError(Apply(s, actions[0]), foreign, actions[1..]);
    }
  }

  // ----- from one thread to many and back -----

  lemma {:induction false} OwnedIsCorrected(heap: map<Addr, nat>, es: seq<Entry>)
    requires DistinctPtrs(es)
    ensures OwnedBytes(heap, Records(es).Keys) == Bytes(Corrected(heap, es))
  {
    if es == [] {
      assert Records(es).Keys == {};
    } else {
      var p := es[0].ptr;
      RecordsFind(es[1..], p);
      OwnedIsCorrected(heap, es[1..]);
      OwnedAdd(heap, Records(es[1..]).Keys, p);
      assert Records(es).Keys == Records(es[1..]).Keys + {p};
      assert Corrected(heap, es)[0].size == TrueSize(heap, p) && Corrected(heap, es)[1..] == Corrected(heap, es[1..]);
      hide OwnedBytes, Corrected, Records, DistinctPtrs, TrueSize;
    }
  }

  lemma {:induction false} NoneVacated(ts: seq<Pc>)
    requires forall t :: 0 <= t < |ts| ==> ts[t].Idle?
    ensures VacatedBytes(ts) == 0
  {
    if ts != [] {
      NoneVacated(ts[1..]);
    }
  }

  /** With all threads in client code the two ways to add up agree. */
  lemma QuietError(s: Shared)
    requires Quiet(s) && DistinctPtrs(s.ledger.entries) && s.owned == Records(s.ledger.entries).Keys
    ensures Error(s) == Off(s.heap, s.ledger.entries)
  {
    NoneVacated(s.threads);
    hide Quiet, DistinctPtrs, Records, Corrected, OwnedBytes, VacatedBytes;
    OwnedIsCorrected(s.heap, s.ledger.entries);
  }
}
