/** Who owns which kernel block: the ring's entries, the line buffer, and blocks that were
    lost. Owns says the live blocks are exactly these, each held once. */
module Ownership {
  import opened Text
  import opened Positions
  import opened Ring

  type Heap = map<Ptr, Bytes>

  function Ptrs(es: seq<Entry>): set<Ptr> {
    set i | 0 <= i < |es| :: es[i].buffptr
  }

  /** Each stored entry points at its own live block, which holds exactly its line. */
  predicate Backed(heap: Heap, es: seq<Entry>, lines: seq<Bytes>) {
    && |es| == |lines|
    && (forall i :: 0 <= i < |es| ==> es[i].buffptr in heap && heap[es[i].buffptr] == lines[i])
    && (forall i :: 0 <= i < |es| ==> 0 < es[i].size == |lines[i]|)
    && (forall i, j :: 0 <= i < j < |es| ==> es[i].buffptr != es[j].buffptr)
  }

  /** The live blocks are the entries' blocks, buf and lost, and these do not overlap. */
  predicate Owns(heap: Heap, es: seq<Entry>, lines: seq<Bytes>, buf: set<Ptr>, lost: set<Ptr>) {
    && Backed(heap, es, lines)
    && heap.Keys == Ptrs(es) + buf + lost
    && Ptrs(es) !! buf && Ptrs(es) !! lost && buf !! lost
  }

  lemma PtrsSnoc(es: seq<Entry>, e: Entry)
    ensures Ptrs(es + [e]) == Ptrs(es) + {e.buffptr}
  {
    var all := es + [e];
    assert forall i :: 0 <= i < |es| ==> all[i] == es[i];
    forall p | p in Ptrs(es) + {e.buffptr}
      ensures p in Ptrs(all)
    {
      if p in Ptrs(es) {
        var i :| 0 <= i < |es| && es[i].buffptr == p;
        assert all[i].buffptr == p;
      } else {
        assert all[|es|].buffptr == p;
      }
    }
  }

  lemma OwnsAlloc(heap: Heap, es: seq<Entry>, lines: seq<Bytes>, buf: set<Ptr>, lost: set<Ptr>, p: Ptr, block: Bytes)
    requires Owns(heap, es, lines, buf, lost) && p !in heap
    ensures Owns(heap[p := block], es, lines, buf + {p}, lost)
  {
  }

  lemma OwnsStore(heap: Heap, es: seq<Entry>, lines: seq<Bytes>, buf: set<Ptr>, lost: set<Ptr>, p: Ptr, block: Bytes)
    requires Owns(heap, es, lines, buf, lost) && p in buf
    ensures Owns(heap[p := block], es, lines, buf, lost)
  {
  }

  lemma NotAnEntry(heap: Heap, es: seq<Entry>, lines: seq<Bytes>, buf: set<Ptr>, lost: set<Ptr>, p: Ptr)
    requires Owns(heap, es, lines, buf, lost) && p in buf
    ensures p in heap
    ensures forall i :: 0 <= i < |es| ==> es[i].buffptr != p
  {
  }

  lemma OwnsFreeBuf(heap: Heap, es: seq<Entry>, lines: seq<Bytes>, buf: set<Ptr>, lost: set<Ptr>, p: Ptr)
    requires Owns(heap, es, lines, buf, lost) && p in buf
    ensures Owns(heap - {p}, es, lines, buf - {p}, lost)
  {
  }

  /** A block handed to the ring as its newest entry. */
  lemma OwnsPush(heap: Heap, es: seq<Entry>, lines: seq<Bytes>, buf: set<Ptr>, lost: set<Ptr>, p: Ptr)
    requires Owns(heap, es, lines, buf, lost) && p in buf && |heap[p]| > 0
    ensures Owns(heap, es + [Entry(p, |heap[p]|)], lines + [heap[p]], buf - {p}, lost)
  {
    NotAnEntry(heap, es, lines, buf, lost, p);
    PtrsSnoc(es, Entry(p, |heap[p]|));
  }

  /** The oldest entry's block leaves the ring and waits to be freed. */
  lemma OwnsEvict(heap: Heap, es: seq<Entry>, lines: seq<Bytes>, buf: set<Ptr>, lost: set<Ptr>)
    requires Owns(heap, es, lines, buf, lost) && es != []
    ensures Owns(heap, es[1..], lines[1..], buf + {es[0].buffptr}, lost)
    ensures es[0].buffptr !in buf
  {
  }

  /** A line buffer whose pointer is overwritten becomes a lost block. */
  lemma OwnsLose(heap: Heap, es: seq<Entry>, lines: seq<Bytes>, buf: set<Ptr>, lost: set<Ptr>, p: Ptr)
    requires Owns(heap, es, lines, buf, lost) && p in buf
    ensures Owns(heap, es, lines, buf - {p}, lost + {p})
  {
  }

  /** Completing a line: the new block p joins the ring, and the block it displaces, if
      any, is freed. */
  lemma OwnsCommit(heap: Heap, es: seq<Entry>, history: seq<Bytes>, lb: Ptr, lost: set<Ptr>,
                   p: Ptr, line: Bytes, n: nat, evicted: Ptr)
    requires Owns(heap, es, LastN(history, n), {lb, p}, lost)
    requires n > 0 && |line| > 0 && p != lb && NULL !in heap
    requires p in heap && heap[p] == line
    requires evicted == if |es| == n then es[0].buffptr else NULL
    ensures evicted == NULL || evicted in heap
    ensures Owns(heap - {evicted}, LastN(es + [Entry(p, |line|)], n), LastN(history + [line], n), {lb}, lost)
  {
    var lines := LastN(history, n);
    var es1 := es + [Entry(p, |line|)];
    OwnsPush(heap, es, lines, {lb, p}, lost, p);
    assert {lb, p} - {p} == {lb};
    LastNPush(history, line, n);
    if |es| == n {
      assert LastN(es1, n) == es1[1..];
      assert (lines + [line])[1..] == lines[1..] + [line];
      OwnsEvict(heap, es1, lines + [line], {lb}, lost);
      OwnsFreeBuf(heap, es1[1..], (lines + [line])[1..], {lb} + {evicted}, lost, evicted);
      assert {lb} + {evicted} - {evicted} == {lb};
    } else {
      assert heap - {evicted} == heap;
    }
  }

  /** The entries' sizes are the lines' lengths, so positions in the ring are positions in
      the flat file. */
  lemma SizesAreLengths(heap: Heap, es: seq<Entry>, lines: seq<Bytes>)
    requires Backed(heap, es, lines)
    ensures Sizes(es) == Lengths(lines)
    ensures Sum(Sizes(es)) == |Flatten(lines)|
  {
    FlattenLength(lines);
    assert Sizes(es) == Lengths(lines);
  }

  /** The pointers the cleanup sweep frees in the first k slots. */
  function Swept(a: seq<Entry>, k: nat): set<Ptr>
    requires k <= |a|
  {
    set j | 0 <= j < k && a[j].size > 0 :: a[j].buffptr
  }

  lemma SweptStep(a: seq<Entry>, k: nat)
    requires k < |a|
    ensures Swept(a, k + 1) == Swept(a, k) + (if a[k].size > 0 then {a[k].buffptr} else {})
  {
  }

  /** A slot with a size is the slot of exactly one live entry. */
  lemma LiveSlot(a: seq<Entry>, in_offs: nat, out_offs: nat, full: bool, char_size: nat, es: seq<Entry>, j: nat)
    returns (i: nat)
    requires RingOk(a, in_offs, out_offs, full, char_size, es)
    requires j < |a| && a[j].size > 0
    ensures i < |es| && es[i] == a[j] && Slot(out_offs, i, |a|) == j
  {
    i := if j >= out_offs then j - out_offs else j - out_offs + |a|;
  }

  /** A slot not yet reached by the sweep holds a block the sweep has not freed. */
  lemma NotYetSwept(a: seq<Entry>, in_offs: nat, out_offs: nat, full: bool, char_size: nat,
                    heap: Heap, es: seq<Entry>, lines: seq<Bytes>, k: nat)
    requires RingOk(a, in_offs, out_offs, full, char_size, es)
    requires Backed(heap, es, lines)
    requires k < |a| && a[k].size > 0
    ensures a[k].buffptr in heap && a[k].buffptr !in Swept(a, k)
  {
    var i := LiveSlot(a, in_offs, out_offs, full, char_size, es, k);
    forall j | 0 <= j < k && a[j].size > 0
      ensures a[j].buffptr != a[k].buffptr
    {
      var i' := LiveSlot(a, in_offs, out_offs, full, char_size, es, j);
      assert i != i';
    }
  }

  /** The whole sweep frees exactly the entries' blocks. */
  lemma SweptAll(a: seq<Entry>, in_offs: nat, out_offs: nat, full: bool, char_size: nat,
                 heap: Heap, es: seq<Entry>, lines: seq<Bytes>)
    requires RingOk(a, in_offs, out_offs, full, char_size, es)
    requires Backed(heap, es, lines)
    ensures Swept(a, |a|) == Ptrs(es)
  {
    forall p | p in Swept(a, |a|)
      ensures p in Ptrs(es)
    {
      var j :| 0 <= j < |a| && a[j].size > 0 && a[j].buffptr == p;
      var i := LiveSlot(a, in_offs, out_offs, full, char_size, es, j);
    }
    forall p | p in Ptrs(es)
      ensures p in Swept(a, |a|)
    {
      var i :| 0 <= i < |es| && es[i].buffptr == p;
      assert a[Slot(out_offs, i, |a|)] == es[i];
    }
  }

  /** After the sweep only the line buffer and the lost blocks are live. */
  lemma SweepLeaves(a: seq<Entry>, in_offs: nat, out_offs: nat, full: bool, char_size: nat,
                    heap: Heap, es: seq<Entry>, lines: seq<Bytes>, buf: set<Ptr>, lost: set<Ptr>)
    requires RingOk(a, in_offs, out_offs, full, char_size, es)
    requires Owns(heap, es, lines, buf, lost)
    ensures heap - Swept(a, 0) == heap
    ensures (heap - Swept(a, |a|)).Keys == buf + lost
    ensures buf !! lost
  {
    SweptAll(a, in_offs, out_offs, full, char_size, heap, es, lines);
  }
}
