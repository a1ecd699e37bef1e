/** The tracing allocator as it is written: a linked list of nodes spliced and overwritten in place. */
module MemTracer {
  import opened CTypes
  import opened MemLedger
  import opened MemSession
  import opened MemSessionProofs

  /** A MEM_NODE_T; `addr` is where the node itself lives in the C heap. */
  class Node {
    const addr: Addr
    var ptr: Addr
    var size: uint32
    var site: Site
    var next: Node?

    constructor (addr: Addr, ptr: Addr, size: uint32, site: Site)
      ensures this.addr == addr && this.ptr == ptr && this.size == size && this.site == site
    {
      this.addr, this.ptr, this.size, this.site, this.next := addr, ptr, size, site, null;
    }
  }

  class Tracer {
    var on: bool
    var head: Node?
    var blockCount: uint32
    var totalBytes: uint32
    // The C heap, and the addresses taken from it and given back to it so far.
    var heap: map<Addr, nat>
    ghost var taken: seq<Addr>
    ghost var freed: seq<Addr>
    // The nodes in list order.
    ghost var spine: seq<Node>

    ghost predicate Linked()
      reads this, spine
    {
      && head == (if spine == [] then null else spine[0])
      && (forall i {:trigger spine[i].next} ::
            0 <= i < |spine| ==> spine[i].next == if i + 1 < |spine| then spine[i+1] else null)
      && (forall i, j :: 0 <= i < j < |spine| ==> spine[i] != spine[j])
    }

    ghost function EntryOf(n: Node): Entry
      reads n
    {
      Entry(n.addr, n.ptr, n.size, n.site)
    }

    ghost function Entries(): seq<Entry>
      reads this, spine
    {
      seq(|spine|, i requires 0 <= i < |spine| reads this, spine => EntryOf(spine[i]))
    }

    /** The abstract state these fields stand for. */
    ghost function View(): State
      reads this, spine
    {
      State(on, Ledger(Entries(), blockCount, totalBytes), heap)
    }

    constructor ()
      ensures Linked() && View() == Start() && taken == [] && freed == []
    {
      on, head, blockCount, totalBytes, heap := false, null, 0, 0, map[];
      taken, freed, spine := [], [], [];
    }

    /** The two calls into the C heap. */
    method HeapTake(p: Addr, bytes: nat)
      requires p != NULL
      modifies this`heap, this`taken
      ensures heap == old(heap)[p := bytes] && taken == old(taken) + [p]
    {
      heap := heap[p := bytes];
      taken := taken + [p];
    }

    method HeapFree(p: Addr)
      modifies this`heap, this`freed
      ensures heap == old(heap) - {p} && freed == old(freed) + [p]
    {
      heap := heap - {p};
      freed := freed + [p];
    }

    /** Puts a node at the head of the list. */
    method LinkFirst(node: Node)
      requires Linked() && node !in spine
      modifies this`head, this`spine, node`next
      ensures Linked() && spine == [node] + old(spine)
      ensures EntryOf(node) == old(EntryOf(node)) && Entries() == [EntryOf(node)] + old(Entries())
    {
      node.next := head;
      head := node;
      spine := [node] + spine;
      assert Entries() == [EntryOf(node)] + old(Entries());
    }

    /** The tail shared by the allocating calls: make a node, put it at the head, bump the counters. */
    method EnterBlock(p: Addr, size: uint32, site: Site, nodeAddr: Addr) returns (q: Addr)
      requires Linked()
      modifies this
      ensures Linked() && forall n :: n in spine ==> n in old(spine) || fresh(n)
      ensures var e := Enter(old(View()), p, size, site, nodeAddr, [], []);
              && View() == e.s && e.out.ret == Pointer(q)
              && taken == old(taken) + e.out.taken && freed == old(freed) + e.out.freed
    {
      if nodeAddr == NULL {
        HeapFree(p);
        return NULL;
      }
      HeapTake(nodeAddr, NODE_SIZE);
      var node := new Node(nodeAddr, p, size, site);
      LinkFirst(node);
      blockCount := Wrap32(blockCount + 1);
      totalBytes := Wrap32(totalBytes + size);
      assert Entries() == [Entry(nodeAddr, p, size, site)] + old(Entries());
      return p;
    }

    method Allocated(size: uint32, trueSize: nat, site: Site, block: Addr, nodeAddr: Addr) returns (p: Addr)
      requires Linked()
      modifies this
      ensures Linked() && forall n :: n in spine ==> n in old(spine) || fresh(n)
      ensures var e := Allocate(old(View()), size, trueSize, site, block, nodeAddr);
              && View() == e.s && e.out.ret == Pointer(p)
              && taken == old(taken) + e.out.taken && freed == old(freed) + e.out.freed
    {
      if block == NULL {
        return NULL;
      }
      HeapTake(block, trueSize);
      assert Entries() == old(Entries());
      if on {
        p := EnterBlock(block, size, site, nodeAddr);
      } else {
        p := block;
      }
    }

    method Malloc(size: uint32, site: Site, block: Addr, nodeAddr: Addr) returns (p: Addr)
      requires Linked()
      modifies this
      ensures Linked() && forall n :: n in spine ==> n in old(spine) || fresh(n)
      ensures var e := Step(old(View()), Op.Malloc(size, site, block, nodeAddr));
              && View() == e.s && e.out.ret == Pointer(p)
              && taken == old(taken) + e.out.taken && freed == old(freed) + e.out.freed
    {
      if size == 0 {
        return NULL;
      }
      p := Allocated(size, size, site, block, nodeAddr);
    }

    method Calloc(unit: uint32, count: uint32, site: Site, block: Addr, nodeAddr: Addr) returns (p: Addr)
      requires Linked()
      modifies this
      ensures Linked() && forall n :: n in spine ==> n in old(spine) || fresh(n)
      ensures var e := Step(old(View()), Op.Calloc(unit, count, site, block, nodeAddr));
              && View() == e.s && e.out.ret == Pointer(p)
              && taken == old(taken) + e.out.taken && freed == old(freed) + e.out.freed
    {
      if unit == 0 || count == 0 {
        return NULL;
      }
      p := Allocated(Wrap32(unit * count), unit * count, site, block, nodeAddr);
    }

    /** Gives the i-th node a new block, size and call site. */
    method Overwrite(cur: Node, size: uint32, site: Site, moved: Addr, ghost i: nat)
      requires Linked() && i < |spine| && spine[i] == cur
      modifies this`totalBytes, cur
      ensures Linked()
      ensures View() == old(View()).(ledger := Retarget(old(View()).ledger, i, moved, size, site))
    {
      var oldSize := cur.size;
      totalBytes := Wrap32(totalBytes - oldSize);
      totalBytes := Wrap32(totalBytes + size);
      cur.ptr, cur.size, cur.site := moved, size, site;
      assert Entries() == old(Entries())[i := Entry(cur.addr, moved, size, site)];
    }

    /** Overwrites the first node for `ptr`, if there is one. */
    method RetargetFirst(ptr: Addr, size: uint32, site: Site, moved: Addr) returns (found: bool)
      requires Linked()
      modifies this`totalBytes, spine
      ensures Linked()
      ensures var es := old(Entries()); var i := Find(es, ptr);
              && found == (i < |es|)
              && View() == if found then old(View()).(ledger := Retarget(old(View()).ledger, i, moved, size, site))
                           else old(View())
    {
      var cur := head;
      ghost var i := 0;
      while cur != null
        invariant i <= |spine| && cur == if i < |spine| then spine[i] else null
        invariant forall j :: 0 <= j < i ==> spine[j].ptr != ptr
        invariant unchanged(this) && forall n :: n in spine ==> unchanged(n)
        decreases |spine| - i
      {
        if cur.ptr == ptr {
          assert Entries() == old(Entries());
          assert Find(Entries(), ptr) == i by { assert Entries()[i].ptr == ptr; }
          hide Retarget, Find;
          Overwrite(cur, size, site, moved, i);
          return true;
        }
        cur := cur.next;
        i := i + 1;
      }
      assert Entries() == old(Entries());
      return false;
    }

    /** realloc itself. */
    method HeapMove(ptr: Addr, moved: Addr, bytes: nat)
      requires moved != NULL
      modifies this`heap, this`taken, this`freed
      ensures heap == (old(heap) - {ptr})[moved := bytes]
      ensures taken == old(taken) + [moved] && freed == old(freed) + [ptr]
    {
      HeapFree(ptr);
      HeapTake(moved, bytes);
    }

    /** What rl_realloc does to the list once the block has moved. */
    method Retrack(ptr: Addr, size: uint32, site: Site, moved: Addr, nodeAddr: Addr) returns (p: Addr)
      requires Linked()
      modifies this, spine
      ensures Linked() && forall n :: n in spine ==> n in old(spine) || fresh(n)
      ensures var e := Retracked(old(View()), ptr, size, site, moved, nodeAddr);
              && View() == e.s && e.out.ret == Pointer(p)
              && taken == old(taken) + e.out.taken && freed == old(freed) + e.out.freed
    {
      hide Retarget, Find, Enter;
      var found := RetargetFirst(ptr, size, site, moved);
      if found {
        p := moved;
      } else {
        p := EnterBlock(moved, size, site, nodeAddr);
      }
    }

    method Realloc(ptr: Addr, size: uint32, site: Site, moved: Addr, nodeAddr: Addr) returns (p: Addr)
      requires Linked()
      modifies this, spine
      ensures Linked() && forall n :: n in spine ==> n in old(spine) || fresh(n)
      ensures var e := Step(old(View()), Op.Realloc(ptr, size, site, moved, nodeAddr));
              && View() == e.s && e.out.ret == Pointer(p)
              && taken == old(taken) + e.out.taken && freed == old(freed) + e.out.freed
    {
      if size == 0 {
        return NULL;
      }
      if ptr == NULL {
        p := Malloc(size, site, moved, nodeAddr);
        return;
      }
      if moved == NULL {
        return NULL;
      }
      ReallocIs(View(), ptr, size, site, moved, nodeAddr);
      hide Step, Retracked;
      HeapMove(ptr, moved, size);
      assert Entries() == old(Entries());
      if on {
        p := Retrack(ptr, size, site, moved, nodeAddr);
      } else {
        p := moved;
      }
    }

    /** Stores `cur.next` into the link that leads to `cur`: the list head when `prev` is null. */
    method Splice(prev: Node?, cur: Node, ghost i: nat)
      requires Linked() && i < |spine| && spine[i] == cur
      requires prev == if i == 0 then null else spine[i-1]
      modifies this`head, this`spine, spine
      ensures Linked() && forall n :: n in spine ==> n in old(spine)
      ensures EntryOf(cur) == old(EntryOf(cur))
      ensures Entries() == old(Entries())[..i] + old(Entries())[i+1..]
    {
      if prev == null {
        head := cur.next;
      } else {
        prev.next := cur.next;
      }
      spine := spine[..i] + spine[i+1..];
      assert Entries() == old(Entries())[..i] + old(Entries())[i+1..];
    }

    /** Walks the links to the first node for `ptr`; `prev` is the node whose link leads to it, null for the head. */
    method Locate(ptr: Addr) returns (prev: Node?, cur: Node?, ghost i: nat)
      requires Linked()
      ensures i == Find(Entries(), ptr) && i <= |spine|
      ensures cur == (if i < |spine| then spine[i] else null) && prev == (if i == 0 then null else spine[i-1])
    {
      prev, cur, i := null, head, 0;
      while cur != null
        invariant i <= |spine| && cur == if i < |spine| then spine[i] else null
        invariant prev == if i == 0 then null else spine[i-1]
        invariant forall j :: 0 <= j < i ==> Entries()[j].ptr != ptr
        decreases |spine| - i
      {
        if cur.ptr == ptr {
          assert Entries()[i].ptr == ptr;
          return;
        }
        prev, cur, i := cur, cur.next, i + 1;
      }
    }

    /** Splices out the first node for `ptr`. */
    method UnlinkFirst(ptr: Addr) returns (found: bool)
      requires Linked()
      modifies this, spine
      ensures Linked() && forall n :: n in spine ==> n in old(spine)
      ensures taken == old(taken)
      ensures var s := old(View()); var i := Find(s.ledger.entries, ptr);
              && found == (i < |s.ledger.entries|)
              && (found ==> View() == State(s.on, Unlink(s.ledger, i), s.heap - {s.ledger.entries[i].node})
                            && freed == old(freed) + [s.ledger.entries[i].node])
              && (!found ==> View() == s && freed == old(freed))
    {
      hide Find;
      var prev, cur, i := Locate(ptr);
      if cur == null {
        return false;
      }
      Splice(prev, cur, i);
      var tempSize := cur.size;
      HeapFree(cur.addr);
      blockCount := Wrap32(blockCount - 1);
      totalBytes := Wrap32(totalBytes - tempSize);
      assert Entries() == old(Entries())[..i] + old(Entries())[i+1..];
      return true;
    }

    method Free(ptr: Addr) returns (code: int32)
      requires Linked()
      modifies this, spine
      ensures Linked() && forall n :: n in spine ==> n in old(spine)
      ensures var e := Step(old(View()), Op.Free(ptr));
              && View() == e.s && e.out.ret == Code(code)
              && taken == old(taken) + e.out.taken && freed == old(freed) + e.out.freed
    {
      hide Push, Retarget, Unlink, Bytes, NodeSet, Nodes, Find;
      if ptr == NULL {
        return RL_FAILED;
      }
      if on {
        var found := UnlinkFirst(ptr);
        if !found {
          return RL_FAILED;
        }
      }
      label Unlinked:
      HeapFree(ptr);
      assert Entries() == old@Unlinked(Entries());
      return RL_SUCCESS;
    }

    method TraceInit(state: bool)
      requires Linked()
      modifies this
      ensures Linked() && forall n :: n in spine ==> n in old(spine)
      ensures View() == Step(old(View()), Init(state)).s && taken == old(taken) && freed == old(freed)
    {
      if on {
        return;
      }
      if state {
        head := null;
        spine := [];
        on := true;
      } else {
        on := false;
        assert Entries() == old(Entries());
      }
    }

    /** The report walk; `opens` says whether the report file could be opened. */
    method TraceDeinit(opens: bool) returns (code: int32, leakCount: uint32, leakBytes: uint32)
      requires Linked()
      modifies this
      ensures Linked() && forall n :: n in spine ==> n in old(spine)
      ensures var e := Step(old(View()), Deinit(opens));
              && View() == e.s
              && e.out.ret == (if code == RL_SUCCESS then Report(leakCount, leakBytes) else Code(code))
              && taken == old(taken) && freed == old(freed) + e.out.freed
    {
      hide NodeSet, Nodes, Bytes, Find, Push, Retarget, Unlink, Wrap32;
      leakCount, leakBytes := 0, 0;
      if !on || !opens {
        return RL_FAILED, 0, 0;
      }
      var node := head;
      ghost var i := 0;
      ghost var es := Entries();
      WalkNone(es);
      while node != null
        invariant i <= |spine| && node == if i < |spine| then spine[i] else null
        invariant Linked() && Entries() == es && spine == old(spine) && taken == old(taken)
        invariant blockCount == old(blockCount) && totalBytes == old(totalBytes)
        invariant leakCount == Wrap32(i) && leakBytes == Wrap32(Bytes(es[..i]))
        invariant heap == old(heap) - NodeSet(es[..i]) && freed == old(freed) + Nodes(es[..i])
        decreases |spine| - i
      {
        LeaksGrow(i, Bytes(es[..i]), node.size);
        leakCount := Wrap32(leakCount + 1);
        leakBytes := Wrap32(leakBytes + node.size);
        var temp := node;
        node := node.next;
        HeapFree(temp.addr);
        WalkOneMore(es, i);
        i := i + 1;
      }
      assert es[..i] == es;
      head := null;
      spine := [];
      on := false;
      code := RL_SUCCESS;
    }
  }

  /** The ledger part of a realloc: the entry for the old block is overwritten, or a new one is made. */
  function Retracked(s: State, ptr: Addr, size: uint32, site: Site, moved: Addr, node: Addr): Effect {
    var i := Find(s.ledger.entries, ptr);
    if i == |s.ledger.entries| then Enter(s, moved, size, site, node, [], [])
    else Effect(s.(ledger := Retarget(s.ledger, i, moved, size, site)), Outcome(Pointer(moved), [], []))
  }

  lemma ReallocIs(s: State, ptr: Addr, size: uint32, site: Site, moved: Addr, node: Addr)
    requires size != 0 && ptr != NULL && moved != NULL
    ensures var s' := s.(heap := (s.heap - {ptr})[moved := size]);
            var e := Retracked(s', ptr, size, site, moved, node);
            Step(s, Op.Realloc(ptr, size, site, moved, node))
              == if s.on then Effect(e.s, Outcome(e.out.ret, [moved] + e.out.taken, [ptr] + e.out.freed))
                 else Effect(s', Outcome(Pointer(moved), [moved], [ptr]))
  {
    hide Retarget, Find, Push;
  }

  lemma WalkNone(es: seq<Entry>)
    ensures Bytes(es[..0]) == 0 && NodeSet(es[..0]) == {} && Nodes(es[..0]) == []
    ensures Bytes([]) == 0 && Wrap32(0) == 0
  {
  }

  lemma LeaksGrow(i: nat, sum: nat, size: uint32)
    ensures Wrap32(i + 1) == Wrap32(Wrap32(i) + 1) && Wrap32(sum + size) == Wrap32(Wrap32(sum) + size)
  {
    Wrap32Sum(i, 1);
    Wrap32Sum(sum, size);
  }

  lemma WalkOneMore(es: seq<Entry>, i: nat)
    requires i < |es|
    ensures Bytes(es[..i+1]) == Bytes(es[..i]) + es[i].size
    ensures NodeSet(es[..i+1]) == NodeSet(es[..i]) + {es[i].node}
    ensures Nodes(es[..i+1]) == Nodes(es[..i]) + [es[i].node]
  {
    assert es[..i+1] == es[..i] + [es[i]];
    BytesAppend(es[..i], [es[i]]);
    forall n ensures n in NodeSet(es[..i+1]) <==> n in NodeSet(es[..i]) + {es[i].node} {
      NodeSetHas(es[..i+1], n);
      NodeSetHas(es[..i], n);
    }
  }
}
