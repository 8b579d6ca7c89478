/** The growable byte buffer of vector.c. */
module Vectors {
  import opened Text
  import opened Faults

  const VECTOR_BASE_SIZE: nat := 4096

  function Pow2(k: nat): nat {
    if k == 0 then 1 else 2 * Pow2(k - 1)
  }

  /** What growth has cost: the capacity is a doubling of the base size, all reallocations
      together have copied fewer bytes than it, and it is less than twice the largest
      length ever asked for unless it is still the base size. */
  predicate Amortised(cap: nat, copied: nat, peak: nat, doublings: nat) {
    && cap == VECTOR_BASE_SIZE * Pow2(doublings)
    && copied + VECTOR_BASE_SIZE <= cap
    && (cap == VECTOR_BASE_SIZE || cap < 2 * peak)
  }

  function Max(a: nat, b: nat): nat {
    if a < b then b else a
  }

  /** Diverges: the growth loop never ends. */
  datatype AppendResult = Appended | NoMemory | Diverges

  /** A vector as a value. Capacity 0 is a vector that is not initialised. */
  datatype Buf = Buf(data: Bytes, cap: nat)

  const CLOSED: Buf := Buf([], 0)
  const EMPTY: Buf := Buf([], VECTOR_BASE_SIZE)

  /** The growth loop of vector_append for a needed length: how it ends, the capacity
      reached and the script left. Doubling a capacity of 0 gives 0, so that the loop then
      ends only if malloc of no bytes comes to return NULL. */
  function Grow(cap: nat, need: nat, f: seq<bool>): (r: (AppendResult, nat, seq<bool>))
    ensures r.0 == Appended ==> need <= r.1
    ensures cap <= r.1 && (cap == 0 <==> r.1 == 0)
    ensures f == [] ==> r.0 != NoMemory && r.2 == []
    decreases if cap == 0 then |f| else if need > cap then need - cap else 0
  {
    if need <= cap then (Appended, cap, f)
    else if Fails(f) then (NoMemory, cap, Left(f))
    else if cap == 0 && f == [] then (Diverges, cap, f)
    else Grow(2 * cap, need, Left(f))
  }

  lemma GrowStep(cap: nat, need: nat, f: seq<bool>)
    ensures Grow(cap, need, f) ==
              if need <= cap then (Appended, cap, f)
              else if Fails(f) then (NoMemory, cap, Left(f))
              else if cap == 0 && f == [] then (Diverges, cap, f)
              else Grow(2 * cap, need, Left(f))
  {
  }

  /** The loop is endless exactly on a vector that is not initialised, when something is to
      be stored and no allocation to come fails. */
  lemma {:induction false} DivergesExactly(cap: nat, need: nat, f: seq<bool>)
    ensures Grow(cap, need, f).0 == Diverges <==> cap == 0 && need > 0 && true !in f
    decreases if cap == 0 then |f| else if need > cap then need - cap else 0
  {
    if need > cap && !Fails(f) && (cap > 0 || f != []) {
      DivergesExactly(2 * cap, need, Left(f));
      assert f != [] ==> f == [f[0]] + f[1..];
    }
  }

  /** A growth that ends well has made no failing allocation, and one that does not stops at
      the first. */
  lemma {:induction false} GrowBlames(cap: nat, need: nat, f: seq<bool>)
    ensures var (r, _, left) := Grow(cap, need, f);
            if r == NoMemory then Blamed(f, left) else Clean(f, left)
    decreases if cap == 0 then |f| else if need > cap then need - cap else 0
  {
    hide Clean, Blamed;
    OneCall(f);
    if need > cap && !Fails(f) && (cap > 0 || f != []) {
      GrowBlames(2 * cap, need, Left(f));
      MoreCalls(f, Left(f), Grow(2 * cap, need, Left(f)).2);
    }
  }

  function AppendOf(b: Buf, data: Bytes, f: seq<bool>): (AppendResult, Buf, seq<bool>) {
    var (r, cap, left) := Grow(b.cap, |b.data| + |data|, f);
    (r, Buf(if r == Appended then b.data + data else b.data, cap), left)
  }

  class Vector {
    var buf: array?<Byte>
    var len: nat
    var cap: nat

    /** Bytes copied by reallocation, largest length asked for, and doublings, all since
        the last Init. */
    ghost var copied: nat
    ghost var peak: nat
    ghost var doublings: nat

    ghost predicate Valid()
      reads this, buf
    {
      && (if buf == null then cap == 0 else buf.Length == cap)
      && len <= cap && (cap > 0 ==> len <= peak && Amortised(cap, copied, peak, doublings))
    }

    ghost function Contents(): (c: Bytes)
      requires Valid()
      reads this, buf
      ensures |c| == len
    {
      if buf == null then [] else buf[..len]
    }

    ghost function View(): Buf
      requires Valid()
      reads this, buf
    {
      Buf(Contents(), cap)
    }

    /** A vector before its first Init. */
    constructor ()
      ensures Valid() && buf == null && View() == CLOSED
    {
      buf, len, cap := null, 0, 0;
    }

    /** vector_init */
    method Init(libc: FaultScript) returns (ok: bool)
      requires Valid() && buf == null
      modifies this, libc
      ensures Valid() && (ok <==> buf != null) && (ok ==> fresh(buf))
      ensures ok == !Fails(old(libc.outcomes)) && libc.outcomes == Left(old(libc.outcomes))
      ensures View() == if ok then EMPTY else CLOSED
      ensures ok ==> copied == 0 && peak == 0
    {
      var failed := libc.Fault();
      if failed {
        return false;
      }
      buf := new Byte[VECTOR_BASE_SIZE](_ => 0);
      len := 0;
      cap := VECTOR_BASE_SIZE;
      copied, peak, doublings := 0, 0, 0;
      return true;
    }

    /** One round of the doubling loop: a block of twice the size takes over the bytes. */
    method Double(ghost need: nat)
      requires Valid() && cap < need
      modifies this
      ensures Valid() && buf != null && fresh(buf) && peak == Max(old(peak), need)
      ensures View() == Buf(old(Contents()), 2 * old(cap)) && len == old(len)
      ensures copied == old(copied) + len
    {
      var newBuf := new Byte[2 * cap](_ => 0);
      forall i | 0 <= i < len {
        newBuf[i] := buf[i];
      }
      assert buf != null ==> newBuf[..len] == buf[..len];
      cap := 2 * cap;
      buf := newBuf;
      copied := copied + len;
      doublings := doublings + 1;
      peak := Max(peak, need);
    }

    /** vector_append, under every combination of failures. */
    method Append(libc: FaultScript, data: Bytes) returns (r: AppendResult)
      requires Valid()
      modifies this, buf, libc
      ensures Valid()
      ensures (r, View(), libc.outcomes) == AppendOf(old(View()), data, old(libc.outcomes))
      ensures buf == old(buf) || fresh(buf)
      ensures peak <= Max(old(peak), old(len) + |data|)
    {
      hide Amortised, Grow;
      ghost var need := len + |data|;
      while cap < len + |data|
        invariant Valid() && (buf == old(buf) || fresh(buf))
        invariant peak <= Max(old(peak), need)
        invariant Contents() == old(Contents()) && len == old(len)
        invariant Grow(old(cap), need, old(libc.outcomes)) == Grow(cap, need, libc.outcomes)
        decreases if cap == 0 then |libc.outcomes| else need - cap
      {
        GrowStep(cap, need, libc.outcomes);
        if cap == 0 && libc.outcomes == [] {
          return Diverges;
        }
        var failed := libc.Fault();
        if failed {
          return NoMemory;
        }
        Double(len + |data|);
      }
      GrowStep(cap, need, libc.outcomes);
      Store(data);
      return Appended;
    }

    /** memcpy of the new bytes behind the old ones. */
    method Store(data: Bytes)
      requires Valid() && len + |data| <= cap
      modifies this`len, this`peak, buf
      ensures Valid() && Contents() == old(Contents()) + data
      ensures peak == Max(old(peak), len)
    {
      if buf != null {
        forall i | 0 <= i < |data| {
          buf[len + i] := data[i];
        }
        assert buf[..len + |data|] == old(buf[..len]) + data;
      }
      len := len + |data|;
      peak := Max(peak, len);
    }

    /** vector_carryover: drops the first `used` bytes, moving the rest down in place. */
    method CarryOver(used: nat)
      requires Valid() && used <= len
      modifies this`len, buf
      ensures Valid() && Contents() == old(Contents())[used..]
    {
      if buf == null {
        return;
      }
      var n := len - used;
      ghost var was := buf[..len];
      for i := 0 to n
        invariant buf[..i] == was[used..used + i]
        invariant forall k :: i <= k < |was| ==> buf[k] == was[k]
      {
        buf[i] := buf[used + i];
      }
      len := n;
    }

    /** vector_find: index of the first token from an offset on, or -1. */
    method Find(offset: nat, token: Byte) returns (at: int)
      requires Valid() && offset <= len
      ensures -1 <= at < len
      ensures at == -1 ==> token !in Contents()[offset..]
      ensures at >= 0 ==> offset <= at && Contents()[at] == token && token !in Contents()[offset..at]
    {
      var i := offset;
      while i < len
        invariant offset <= i <= len
        invariant token !in Contents()[offset..i]
      {
        if buf[i] == token {
          return i;
        }
        assert Contents()[offset..i + 1] == Contents()[offset..i] + [buf[i]];
        i := i + 1;
      }
      assert Contents()[offset..i] == Contents()[offset..];
      return -1;
    }

    /** The bytes at buf + from, up to buf + to, as handed to write and sscanf. */
    method Slice(from: nat, to: nat) returns (s: Bytes)
      requires Valid() && from <= to <= len
      ensures s == Contents()[from..to]
    {
      s := if buf == null then [] else buf[from..to];
    }

    /** The line that ends with the newline at `at`, as the pattern match sees it: the byte
        after the newline is made a NUL and then put back. That byte is inside the allocation
        unless the newline is the last byte of a full vector. */
    method LineAt(from: nat, at: nat) returns (s: Bytes, inside: bool)
      requires Valid() && from <= at < len
      modifies buf
      ensures Valid() && View() == old(View()) && s == Contents()[from..at + 1]
      ensures inside <==> !(at + 1 == len == cap)
    {
      inside := at + 1 < cap;
      ghost var was := buf[..];
      var temp: Byte := 0;
      if inside {
        temp := buf[at + 1];
        buf[at + 1] := 0;
      }
      s := buf[from..at + 1];
      if inside {
        buf[at + 1] := temp;
      }
      assert buf[..] == was;
      assert buf[..len] == was[..len] && s == was[..len][from..at + 1];
    }

    /** vector_close */
    method Close()
      modifies this
      ensures Valid() && buf == null && View() == CLOSED
    {
      buf, len, cap := null, 0, 0;
    }
  }

  datatype Op = Push(data: Bytes) | Drop(used: nat)

  /** One operation on the byte queue the vector stands for: a push whose growth fails adds
      nothing; dropping more than it holds empties it. */
  function After(q: Buf, f: seq<bool>, op: Op): (Buf, seq<bool>) {
    match op
    case Push(data) => var (r, q', left) := AppendOf(q, data, f); (q', left)
    case Drop(used) => (q.(data := if used < |q.data| then q.data[used..] else []), f)
  }

  function AfterAll(q: Buf, f: seq<bool>, ops: seq<Op>): Buf
    decreases |ops|
  {
    if ops == [] then q
    else
      var (q', left) := After(q, f, ops[0]);
      AfterAll(q', left, ops[1..])
  }

  /** The greatest length asked for, granted or not. */
  function Longest(q: Buf, f: seq<bool>, ops: seq<Op>): (n: nat)
    decreases |ops|
  {
    if ops == [] then 0
    else
      var (q', left) := After(q, f, ops[0]);
      Max(if ops[0].Push? then |q.data| + |ops[0].data| else 0, Longest(q', left, ops[1..]))
  }

  lemma UseStep(q: Buf, f: seq<bool>, ops: seq<Op>, i: nat)
    requires i < |ops|
    ensures var (q', left) := After(q, f, ops[i]);
            && AfterAll(q, f, ops[i..]) == AfterAll(q', left, ops[i + 1..])
            && Longest(q', left, ops[i + 1..]) <= Longest(q, f, ops[i..])
            && (ops[i].Push? ==> |q.data| + |ops[i].data| <= Longest(q, f, ops[i..]))
  {
  }

  /** The bytes held are those of the pushes that got room, less what was dropped: with no
      failures, of all pushes. */
  function Queue(q: Bytes, ops: seq<Op>): Bytes
    decreases |ops|
  {
    if ops == [] then q
    else
      Queue(match ops[0]
            case Push(data) => q + data
            case Drop(used) => if used < |q| then q[used..] else [], ops[1..])
  }

  lemma {:induction false} NoFailuresQueue(q: Buf, ops: seq<Op>)
    requires q.cap > 0
    ensures AfterAll(q, [], ops).data == Queue(q.data, ops)
    decreases |ops|
  {
    if ops != [] {
      DivergesExactly(q.cap, if ops[0].Push? then |q.data| + |ops[0].data| else 0, []);
      NoFailuresQueue(After(q, [], ops[0]).0, ops[1..]);
    }
  }

  method UseOne(v: Vector, libc: FaultScript, op: Op)
    requires v.Valid() && v.cap > 0
    modifies v, v.buf, libc
    ensures v.Valid() && v.cap > 0 && (v.buf == old(v.buf) || fresh(v.buf))
    ensures (v.View(), libc.outcomes) == After(old(v.View()), old(libc.outcomes), op)
    ensures v.peak <= Max(old(v.peak), if op.Push? then |old(v.View()).data| + |op.data| else 0)
  {
    hide Amortised, Grow;
    match op {
      case Push(data) =>
        var r := v.Append(libc, data);
      case Drop(used) =>
        v.CarryOver(if used < v.len then used else v.len);
        assert used >= old(v.len) ==> v.Contents() == [];
    }
  }

  /** A sequence of appends and carry-overs does to the vector what AfterAll says. */
  method UseAll(v: Vector, libc: FaultScript, ops: seq<Op>)
    requires v.Valid() && v.cap > 0
    modifies v, v.buf, libc
    ensures v.Valid() && v.cap > 0
    ensures v.View() == AfterAll(old(v.View()), old(libc.outcomes), ops)
    ensures v.peak <= Max(old(v.peak), Longest(old(v.View()), old(libc.outcomes), ops))
  {
    hide AfterAll, After, Longest, Amortised, Vector.Valid, Vector.View;
    Whole(ops);
    ghost var most := Max(v.peak, Longest(v.View(), libc.outcomes, ops));
    var i := 0;
    while i < |ops|
      invariant 0 <= i <= |ops|
      invariant v.Valid() && v.cap > 0 && (v.buf == old(v.buf) || v.buf == null || fresh(v.buf))
      invariant AfterAll(old(v.View()), old(libc.outcomes), ops) == AfterAll(v.View(), libc.outcomes, ops[i..])
      invariant v.peak <= most && Longest(v.View(), libc.outcomes, ops[i..]) <= most
    {
      UseStep(v.View(), libc.outcomes, ops, i);
      UseOne(v, libc, ops[i]);
      i := i + 1;
    }
    AllUsed(v.View(), libc.outcomes);
    assert ops[i..] == [];
  }

  /** Any sequence of appends and carry-overs, whichever allocations fail, once the
      initialisation has not: contents and capacity are AfterAll's, reallocation has copied
      fewer bytes in all than the final capacity, and that capacity is a doubling of the
      base size, less than twice the greatest length asked for unless it is the base size. */
  method AnyUse(faults: seq<bool>, ops: seq<Op>) returns (ok: bool, contents: Bytes, cap: nat, ghost copied: nat)
    ensures ok == !Fails(faults)
    ensures ok ==>
              && Buf(contents, cap) == AfterAll(EMPTY, Left(faults), ops)
              && copied + VECTOR_BASE_SIZE <= cap
              && (exists k: nat :: cap == VECTOR_BASE_SIZE * Pow2(k))
              && (cap == VECTOR_BASE_SIZE || cap < 2 * Longest(EMPTY, Left(faults), ops))
  {
    hide AfterAll, Longest, Amortised, Pow2;
    contents, cap, copied := [], 0, 0;
    var libc := new FaultScript(faults);
    var v := new Vector();
    ok := v.Init(libc);
    if ok {
      UseAll(v, libc, ops);
      Spent(v);
      contents := v.Slice(0, v.len);
      cap, copied := v.cap, v.copied;
    }
  }

  lemma AllUsed(q: Buf, f: seq<bool>)
    ensures AfterAll(q, f, []) == q
  {
  }

  lemma Spent(v: Vector)
    requires v.Valid() && v.cap > 0
    ensures v.copied + VECTOR_BASE_SIZE <= v.cap && v.cap == VECTOR_BASE_SIZE * Pow2(v.doublings)
    ensures v.cap == VECTOR_BASE_SIZE || v.cap < 2 * v.peak
  {
  }
}
