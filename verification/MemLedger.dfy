/** The ledger of traced blocks: a list of records and two running 32-bit totals. */
module MemLedger {
  import opened CTypes

  /** Where in the client program an allocating call was made. */
  datatype Site = Site(file: string, func: string, line: int)

  /** One MEM_NODE_T: the address of the node itself and what it records. */
  datatype Entry = Entry(node: Addr, ptr: Addr, size: uint32, site: Site)

  datatype Ledger = Ledger(entries: seq<Entry>, blocks: uint32, bytes: uint32)

  /** What the ledger knows about one traced pointer. */
  datatype Record = Record(size: uint32, site: Site)

  // ----- the three critical sections -----

  /** Index of the first entry for `p`, or the length of the list. */
  function Find(es: seq<Entry>, p: Addr): (i: nat)
    ensures i <= |es|
    ensures i < |es| ==> es[i].ptr == p
    ensures forall j :: 0 <= j < i ==> es[j].ptr != p
  {
    if es == [] || es[0].ptr == p then 0 else 1 + Find(es[1..], p)
  }

  function Push(l: Ledger, e: Entry): Ledger {
    Ledger([e] + l.entries, Wrap32(l.blocks + 1), Wrap32(l.bytes + e.size))
  }

  function Unlink(l: Ledger, i: nat): Ledger
    requires i < |l.entries|
  {
    Ledger(l.entries[..i] + l.entries[i+1..], Wrap32(l.blocks - 1), Wrap32(l.bytes - l.entries[i].size))
  }

  function Retarget(l: Ledger, i: nat, p: Addr, size: uint32, site: Site): Ledger
    requires i < |l.entries|
  {
    var e := l.entries[i];
    Ledger(l.entries[i := Entry(e.node, p, size, site)], l.blocks, Wrap32(Wrap32(l.bytes - e.size) + size))
  }

  // ----- the totals agree with the list -----

  function Bytes(es: seq<Entry>): nat {
    if es == [] then 0 else es[0].size + Bytes(es[1..])
  }

  lemma {:induction false} BytesAppend(xs: seq<Entry>, ys: seq<Entry>)
    ensures Bytes(xs + ys) == Bytes(xs) + Bytes(ys)
  {
    if xs == [] {
      assert xs + ys == ys;
    } else {
      assert (xs + ys)[1..] == xs[1..] + ys;
      BytesAppend(xs[1..], ys);
    }
  }

  lemma BytesSplit(es: seq<Entry>, i: nat)
    requires i < |es|
    ensures Bytes(es) == Bytes(es[..i]) + es[i].size + Bytes(es[i+1..])
  {
    BytesAppend(es[..i], es[i..]);
    assert es == es[..i] + es[i..];
    assert es[i..][1..] == es[i+1..];
  }

  /** Both counters agree, modulo 2^32, with the list plus what earlier sessions dropped. */
  ghost predicate Counted(l: Ledger, droppedBlocks: nat, droppedBytes: nat) {
    && l.blocks == Wrap32(|l.entries| + droppedBlocks)
    && l.bytes == Wrap32(Bytes(l.entries) + droppedBytes)
  }

  lemma PushCounted(l: Ledger, e: Entry, db: nat, dB: nat)
    requires Counted(l, db, dB)
    ensures Counted(Push(l, e), db, dB)
  {
    var es := Push(l, e).entries;
    assert es[1..] == l.entries && Bytes(es) == e.size + Bytes(l.entries);
    hide Wrap32, Bytes;
    Wrap32Sum(|l.entries| + db, 1);
    Wrap32Sum(Bytes(l.entries) + dB, e.size);
  }

  lemma UnlinkCounted(l: Ledger, i: nat, db: nat, dB: nat)
    requires Counted(l, db, dB) && i < |l.entries|
    ensures Counted(Unlink(l, i), db, dB)
  {
    BytesSplit(l.entries, i);
    BytesAppend(l.entries[..i], l.entries[i+1..]);
    hide Wrap32, Bytes;
    Wrap32Sum(|l.entries| + db, -1);
    Wrap32Sum(Bytes(l.entries) + dB, 0 - l.entries[i].size);
  }

  lemma RetargetCounted(l: Ledger, i: nat, p: Addr, size: uint32, site: Site, db: nat, dB: nat)
    requires Counted(l, db, dB) && i < |l.entries|
    ensures Counted(Retarget(l, i, p, size, site), db, dB)
  {
    var es := Retarget(l, i, p, size, site).entries;
    BytesSplit(l.entries, i);
    BytesSplit(es, i);
    assert es[..i] == l.entries[..i] && es[i+1..] == l.entries[i+1..];
    hide Bytes, Wrap32;
    var sum := Bytes(l.entries) + dB;
    Wrap32Sum(sum, 0 - l.entries[i].size);
    Wrap32Sum(sum - l.entries[i].size, size);
  }

  // ----- the list as a finite map -----

  ghost predicate DistinctPtrs(es: seq<Entry>) {
    forall i, j :: 0 <= i < j < |es| ==> es[i].ptr != es[j].ptr
  }

  /** The finite map a ledger stands for; the first entry for a pointer is the one lookups see. */
  function Records(es: seq<Entry>): map<Addr, Record> {
    if es == [] then map[] else Records(es[1..])[es[0].ptr := Record(es[0].size, es[0].site)]
  }

  /** Lookup in the map is lookup of the first entry in the list. */
  lemma {:induction false} RecordsFind(es: seq<Entry>, p: Addr)
    ensures p in Records(es) <==> Find(es, p) < |es|
    ensures p in Records(es) ==> Records(es)[p] == Record(es[Find(es, p)].size, es[Find(es, p)].site)
  {
    if es != [] {
      RecordsFind(es[1..], p);
    }
  }

  lemma {:induction false} UnlinkRecords(l: Ledger, i: nat)
    requires i < |l.entries| && DistinctPtrs(l.entries)
    ensures Records(Unlink(l, i).entries) == Records(l.entries) - {l.entries[i].ptr}
    decreases i
  {
    var es := l.entries;
    var fs := Unlink(l, i).entries;
    if i == 0 {
      assert fs == es[1..];
      RecordsFind(es[1..], es[0].ptr);
    } else {
      var t := Ledger(es[1..], l.blocks, l.bytes);
      UnlinkRecords(t, i - 1);
      assert fs[0] == es[0] && fs[1..] == Unlink(t, i - 1).entries;
      assert es[0].ptr != es[i].ptr;
      hide Unlink, DistinctPtrs;
      MapDropInsert(Records(es[1..]), es[i].ptr, es[0].ptr, Record(es[0].size, es[0].site));
    }
  }

  lemma MapDropInsert(m: map<Addr, Record>, p: Addr, q: Addr, r: Record)
    requires p != q
    ensures (m - {p})[q := r] == m[q := r] - {p}
  {
  }

  lemma {:induction false} RetargetRecords(l: Ledger, i: nat, p: Addr, size: uint32, site: Site)
    requires i < |l.entries| && DistinctPtrs(l.entries)
    requires forall j :: 0 <= j < |l.entries| && j != i ==> l.entries[j].ptr != p
    ensures Records(Retarget(l, i, p, size, site).entries)
         == (Records(l.entries) - {l.entries[i].ptr})[p := Record(size, site)]
    ensures DistinctPtrs(Retarget(l, i, p, size, site).entries)
    decreases i
  {
    var es := l.entries;
    var fs := Retarget(l, i, p, size, site).entries;
    if i == 0 {
      assert fs[1..] == es[1..];
      RecordsFind(es[1..], es[0].ptr);
    } else {
      var t := Ledger(es[1..], l.blocks, l.bytes);
      RetargetRecords(t, i - 1, p, size, site);
      assert fs[0] == es[0] && fs[1..] == Retarget(t, i - 1, p, size, site).entries;
      assert es[0].ptr != es[i].ptr && es[0].ptr != p;
      MapMoveInsert(Records(es[1..]), es[i].ptr, p, Record(size, site), es[0].ptr, Record(es[0].size, es[0].site));
    }
  }

  lemma MapMoveInsert(m: map<Addr, Record>, p: Addr, q: Addr, r: Record, x: Addr, s: Record)
    requires x != p && x != q
    ensures (m - {p})[q := r][x := s] == (m[x := s] - {p})[q := r]
  {
  }
}
