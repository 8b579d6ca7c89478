/** The circular buffer of aesd-circular-buffer.c: a fixed array of entries, two wrapping
    indices, a full flag and a running byte count. */
module Ring {
  import opened Text
  import opened Positions

  /** Identity of a kernel allocation; 0 is the null pointer. */
  type Ptr = nat
  const NULL: Ptr := 0

  datatype Entry = Entry(buffptr: Ptr, size: nat)

  function Sizes(es: seq<Entry>): seq<nat> {
    seq(|es|, i requires 0 <= i < |es| => es[i].size)
  }

  lemma SizesSnoc(es: seq<Entry>, e: Entry)
    ensures Sizes(es + [e]) == Sizes(es) + [e.size]
    ensures Sum(Sizes(es + [e])) == Sum(Sizes(es)) + e.size
  {
  }

  lemma SizesDropOldest(es: seq<Entry>)
    requires es != []
    ensures Sum(Sizes(es)) == es[0].size + Sum(Sizes(es[1..]))
  {
    assert Sizes(es) == [es[0].size] + Sizes(es[1..]);
    SumFront(es[0].size, Sizes(es[1..]));
  }

  /** (start + i) mod n, for both below n. */
  function Slot(start: nat, i: nat, n: nat): (k: nat)
    requires start < n && i < n
    ensures k < n
  {
    if start + i < n then start + i else start + i - n
  }

  lemma ModSmall(a: nat, n: nat)
    requires a < n
    ensures a % n == a
  {
  }

  lemma ModWrap(a: nat, n: nat)
    requires a < n
    ensures (a + n) % n == a
  {
  }

  function Next(i: nat, n: nat): nat
    requires i < n
  {
    if i + 1 == n then 0 else i + 1
  }

  /** es is what the array holds from slot start on, wrapping. */
  predicate Layout(a: seq<Entry>, start: nat, es: seq<Entry>)
    requires start < |a|
  {
    && |es| <= |a|
    && forall i :: 0 <= i < |es| ==> es[i] == a[Slot(start, i, |a|)]
  }

  lemma PushWithRoom(a: seq<Entry>, es: seq<Entry>, e: Entry)
    requires |es| < |a| && Layout(a, 0, es)
    ensures Layout(a[|es| := e], 0, es + [e])
  {
  }

  lemma PushOverOldest(a: seq<Entry>, start: nat, es: seq<Entry>, e: Entry)
    requires start < |a| && |es| == |a| && Layout(a, start, es)
    ensures Layout(a[start := e], Next(start, |a|), es[1..] + [e])
  {
  }

  /** What every reachable ring keeps: the indices stay in range, full means they meet,
      not full means the live slots are exactly those below in_offs and the others are
      still zero, and char_size is the sum of the live sizes. */
  predicate RingOk(a: seq<Entry>, in_offs: nat, out_offs: nat, full: bool, char_size: nat, es: seq<Entry>) {
    && 1 <= |a| <= 255
    && in_offs < |a| && out_offs < |a|
    && (full ==> in_offs == out_offs)
    && (!full ==> out_offs == 0)
    && |es| == (if full then |a| else in_offs)
    && Layout(a, out_offs, es)
    && (!full ==> forall j :: in_offs <= j < |a| ==> a[j] == Entry(NULL, 0))
    && char_size == Sum(Sizes(es))
  }

  /** In a full ring the slot at out_offs is the oldest entry, and subtracting its size
      from char_size cannot underflow. */
  lemma OldestIsOutOffs(a: seq<Entry>, in_offs: nat, out_offs: nat, full: bool, char_size: nat, es: seq<Entry>)
    requires RingOk(a, in_offs, out_offs, full, char_size, es)
    ensures full ==> a[out_offs] == es[0] && a[out_offs].size <= char_size
  {
    if full {
      assert es[0] == a[Slot(out_offs, 0, |a|)];
      SizesDropOldest(es);
    }
  }

  /** One addition keeps RingOk, holds the newest |a| entries, and never clears full. */
  lemma AddStep(a: seq<Entry>, in_offs: nat, out_offs: nat, full: bool, char_size: nat, es: seq<Entry>, e: Entry,
                a': seq<Entry>, in': nat, out': nat, full': bool, char_size': nat)
    requires RingOk(a, in_offs, out_offs, full, char_size, es)
    requires a' == a[in_offs := e]
    requires in' == Next(in_offs, |a|)
    requires out' == if full then Next(out_offs, |a|) else out_offs
    requires full' == (in' == out')
    requires char_size' == char_size + e.size - (if full then a[out_offs].size else 0)
    ensures RingOk(a', in', out', full', char_size', LastN(es + [e], |a|))
    ensures full ==> full'
  {
    if full {
      assert es[0] == a[Slot(out_offs, 0, |a|)];
      assert LastN(es + [e], |a|) == es[1..] + [e];
      PushOverOldest(a, out_offs, es, e);
      SizesDropOldest(es);
      SizesSnoc(es[1..], e);
    } else {
      PushWithRoom(a, es, e);
      SizesSnoc(es, e);
    }
  }

  /** The C code's i % capacity, for an index that has gone round at most once. */
  method Wrapped(i: nat, n: nat) returns (j: nat)
    requires i < 2 * n
    ensures j == if i < n then i else i - n
  {
    j := i % n;
    if i < n { ModSmall(i, n); } else { ModWrap(i - n, n); }
  }

  class CircularBuffer {
    const entry: array<Entry>
    var in_offs: nat
    var out_offs: nat
    var full: bool
    var char_size: nat

    /** The live entries, oldest first. */
    ghost var entries: seq<Entry>

    ghost predicate Valid()
      reads this, entry
    {
      RingOk(entry[..], in_offs, out_offs, full, char_size, entries)
    }

    /** Live entry i (oldest first) is the one stored in a given slot. */
    ghost predicate LivesIn(i: nat, slot: nat)
      requires Valid()
      reads this, entry
    {
      && i < |entries| && slot == Slot(out_offs, i, entry.Length)
      && entry[slot] == entries[i]
    }

    lemma InSlot(i: nat)
      requires Valid() && i < |entries|
      ensures out_offs + i < 2 * entry.Length && Slot(out_offs, i, entry.Length) < entry.Length
      ensures LivesIn(i, Slot(out_offs, i, entry.Length)) && Sizes(entries)[i] == entries[i].size
    {
    }

    lemma Total()
      requires Valid()
      ensures char_size == Sum(Sizes(entries)) && |Sizes(entries)| == |entries| && entry.Length > 0
    {
    }

    /** aesd_circular_buffer_init, for a capacity whose indices fit a uint8_t. */
    constructor (capacity: nat)
      requires 1 <= capacity <= 255
      ensures Valid() && fresh(entry)
      ensures entry.Length == capacity && entries == [] && !full
    {
      entry := new Entry[capacity](_ => Entry(NULL, 0));
      in_offs, out_offs, full, char_size := 0, 0, false, 0;
      entries := [];
    }

    /** The loop guard shared by both lookups. */
    method MoreEntries(i: nat) returns (more: bool)
      requires Valid() && i <= |entries|
      ensures more <==> i < |entries|
    {
      var n := entry.Length;
      if full {
        return i < n;
      }
      var s := Wrapped(out_offs + i, n);
      return s != in_offs;
    }

    /** aesd_circular_buffer_find_entry_offset_for_fpos: the slot holding a byte position
        and the offset in it, or -1 (C: NULL) exactly from the end of the file on. */
    method FindEntryOffsetForFpos(charOffset: nat) returns (slot: int, offset: nat)
      requires Valid()
      ensures -1 <= slot < entry.Length
      ensures slot == -1 <==> charOffset >= char_size
      ensures slot >= 0 ==> exists i: nat :: At(Sizes(entries), i, offset, charOffset) && LivesIn(i, slot)
    {
      hide RingOk, Sizes;
      Total();
      var count, i := 0, 0;
      ghost var sizes := Sizes(entries);
      var more := MoreEntries(i);
      while more
        invariant i <= |entries| && (more <==> i < |entries|)
        invariant count == Sum(sizes[..i]) && count <= charOffset
        decreases |entries| - i
      {
        InSlot(i);
        var s := Wrapped(out_offs + i, entry.Length);
        var currentSize := entry[s].size;
        SumStep(sizes, i);
        count := count + currentSize;
        if count > charOffset {
          offset := charOffset - (count - currentSize);
          slot := s;
          SumWhole(sizes, i + 1);
          assert At(sizes, i, offset, charOffset) && LivesIn(i, slot);
          return;
        }
        i := i + 1;
        more := MoreEntries(i);
      }
      assert sizes[..i] == sizes;
      slot, offset := -1, 0;
    }

    /** aesd_circular_buffer_find_fpos_for_entry_offset: the byte position of an offset in
        an entry, or -1 exactly when the entry is not live or the offset is past its end. */
    method FindFposForEntryOffset(entryOffset: nat, charOffset: nat) returns (fpos: int)
      requires Valid()
      ensures fpos == -1 <==> !(entryOffset < |entries| && charOffset < entries[entryOffset].size)
      ensures fpos != -1 ==> fpos >= 0 && At(Sizes(entries), entryOffset, charOffset, fpos)
    {
      hide RingOk, Sizes;
      Total();
      var count, i := 0, 0;
      ghost var sizes := Sizes(entries);
      var more := MoreEntries(i);
      while more
        invariant i <= |entries| && (more <==> i < |entries|)
        invariant i <= entryOffset
        invariant count == Sum(sizes[..i])
        decreases |entries| - i
      {
        InSlot(i);
        var s := Wrapped(out_offs + i, entry.Length);
        var currentSize := entry[s].size;
        if i == entryOffset {
          if charOffset >= currentSize {
            return -1;
          }
          return count + charOffset;
        }
        SumStep(sizes, i);
        count := count + currentSize;
        i := i + 1;
        more := MoreEntries(i);
      }
      return -1;
    }

    /** aesd_circular_buffer_add_entry: appends, and when full hands back the pointer of
        the oldest entry it overwrites. */
    method AddEntry(e: Entry) returns (evicted: Ptr)
      requires Valid()
      modifies this, entry
      ensures Valid()
      ensures entries == LastN(old(entries) + [e], entry.Length)
      ensures evicted == if |old(entries)| == entry.Length then old(entries)[0].buffptr else NULL
      ensures old(full) ==> full
    {
      var n := entry.Length;
      ghost var slots := entry[..];
      OldestIsOutOffs(slots, in_offs, out_offs, full, char_size, entries);
      evicted := NULL;
      if in_offs == out_offs && full {
        evicted := entry[out_offs].buffptr;
        char_size := char_size - entry[out_offs].size;
        out_offs := Wrapped(out_offs + 1, n);
      }
      entry[in_offs] := e;
      char_size := char_size + e.size;
      in_offs := Wrapped(in_offs + 1, n);
      full := in_offs == out_offs;
      AddStep(slots, old(in_offs), old(out_offs), old(full), old(char_size), entries, e,
              entry[..], in_offs, out_offs, full, char_size);
      entries := LastN(entries + [e], n);
    }
  }

  /** A (line, offset) pair taken to a file position is found again in that line's slot, at
      that offset. */
  method FposThenEntry(r: CircularBuffer, e: nat, o: nat) returns (fpos: int, slot: int, offset: nat)
    requires r.Valid()
    ensures fpos >= 0 <==> e < |r.entries| && o < r.entries[e].size
    ensures fpos >= 0 ==> slot == Slot(r.out_offs, e, r.entry.Length) && offset == o
  {
    fpos := r.FindFposForEntryOffset(e, o);
    if fpos < 0 {
      return fpos, -1, 0;
    }
    SumStep(Sizes(r.entries), e);
    SumWhole(Sizes(r.entries), e + 1);
    slot, offset := r.FindEntryOffsetForFpos(fpos);
    ghost var i: nat :| At(Sizes(r.entries), i, offset, fpos) && r.LivesIn(i, slot);
    AtUnique(Sizes(r.entries), e, o, i, offset, fpos);
  }

  /** A file position found in a slot is the position of that slot's line and offset. */
  method EntryThenFpos(r: CircularBuffer, pos: nat) returns (slot: int, fpos: int)
    requires r.Valid()
    ensures slot >= 0 <==> pos < r.char_size
    ensures slot >= 0 ==> fpos == pos
  {
    var offset: nat;
    slot, offset := r.FindEntryOffsetForFpos(pos);
    if slot < 0 {
      return slot, -1;
    }
    ghost var i: nat :| At(Sizes(r.entries), i, offset, pos) && r.LivesIn(i, slot);
    var e := if slot >= r.out_offs then slot - r.out_offs else slot - r.out_offs + r.entry.Length;
    fpos := r.FindFposForEntryOffset(e, offset);
  }
}
