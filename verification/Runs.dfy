/** Whole runs of the driver, from the zeroed device on. */
module DriverRuns {
  import opened Text
  import opened Positions
  import opened Ring
  import opened LineAssembly
  import opened WriteOutcome
  import opened FlatFile
  import opened Seek64
  import opened Driver
  import DM = DriverMachine

  /** A sequence of successful writes does to the device what AbsorbAll says, and the counts
      returned add up to the length of the stream. */
  method WriteCalls(d: Device, calls: seq<Bytes>) returns (total: int)
    requires d.Valid() && d.kernel.script.outcomes == [] && !d.Orphaned()
    modifies d, d.ring, d.ring.entry, d.kernel, d.kernel.script
    ensures d.Valid() && d.kernel.script.outcomes == [] && !d.Orphaned()
    ensures d.State() == AbsorbAll(old(d.State()), calls)
    ensures d.lost == old(d.lost)
    ensures total == |Flatten(calls)|
  {
    hide Device.Inv, Device.Valid, EndOf, Flatten;
    FlattenNone();
    var i := 0;
    total := 0;
    ghost var start := d.State();
    while i < |calls|
      invariant 0 <= i <= |calls|
      invariant d.Valid() && d.kernel.script.outcomes == [] && !d.Orphaned()
      invariant AbsorbAll(start, calls) == AbsorbAll(d.State(), calls[i..])
      invariant d.lost == old(d.lost)
      invariant total == |Flatten(calls[..i])|
    {
      NoFailuresNoStop(calls[i]);
      var rv;
      ghost var e, before;
      rv, e, before := d.Write(calls[i]);
      AbsorbAllStep(calls, i);
      total := total + rv;
      i := i + 1;
    }
    assert calls[..i] == calls;
  }

  lemma AbsorbAllStep(calls: seq<Bytes>, i: nat)
    requires i < |calls|
    ensures calls[i..] != [] && calls[i..][0] == calls[i] && calls[i..][1..] == calls[i + 1..]
    ensures |Flatten(calls[..i + 1])| == |Flatten(calls[..i])| + |calls[i]|
  {
    assert calls[..i + 1] == calls[..i] + [calls[i]];
    FlattenSnoc(calls[..i], calls[i]);
  }

  /** Read to the end with any positive counts (count i is 1 + more(i)): the reads are a
      ReadRun that ends with the first empty one. */
  method ReadBack(d: Device, f: OpenFile, more: nat -> nat)
    returns (file: Bytes, ghost counts: seq<nat>, ghost pieces: seq<Bytes>)
    requires d.Valid() && d.kernel.script.outcomes == []
    requires 0 <= f.f_pos <= |Flatten(d.Stored())|
    modifies f, d.kernel.script
    ensures d.Valid() && d.kernel.script.outcomes == []
    ensures ReadRun(d.Stored(), old(f.f_pos), counts, pieces)
    ensures forall i :: 0 <= i < |counts| ==> counts[i] == 1 + more(i)
    ensures forall i :: 0 <= i < |pieces| ==> (pieces[i] == [] <==> i == |pieces| - 1)
    ensures file == Flatten(pieces) == Flatten(d.Stored())[old(f.f_pos)..]
    ensures f.f_pos == |Flatten(d.Stored())|
  {
    hide Device.Inv, Device.Valid, Flatten, IsPiece;
    file, counts, pieces := [], [], [];
    FlattenNone();
    ghost var start := f.f_pos;
    var i := 0;
    while true
      invariant d.Valid() && d.kernel.script.outcomes == []
      invariant start <= f.f_pos == start + |Flatten(pieces)| <= |Flatten(d.Stored())|
      invariant file == Flatten(pieces) && ReadRun(d.Stored(), start, counts, pieces)
      invariant i == |counts| && forall k :: 0 <= k < i ==> counts[k] == 1 + more(k)
      invariant forall k :: 0 <= k < |pieces| ==> pieces[k] != []
      decreases |Flatten(d.Stored())| - f.f_pos
    {
      var rv, piece;
      ghost var end;
      ghost var pos := f.f_pos;
      rv, piece, end := d.Read(f, 1 + more(i));
      PieceIsNext(d.Stored(), pos, 1 + more(i), piece);
      ReadRunSnoc(d.Stored(), start, counts, pieces, 1 + more(i), piece);
      FlattenSnoc(pieces, piece);
      counts, pieces := counts + [1 + more(i)], pieces + [piece];
      file := file + piece;
      if rv == 0 {
        ReadToEnd(d.Stored(), start, counts, pieces);
        return;
      }
      i := i + 1;
    }
  }

  /** The driver as a black box: however a stream is split into writes, and with whatever
      counts it is read back, the writes report all its bytes and the file is the last
      `capacity` complete lines of it. */
  method WriteThenRead(capacity: nat, calls: seq<Bytes>, more: nat -> nat) returns (total: int, file: Bytes)
    requires 1 <= capacity <= 255
    ensures total == |Flatten(calls)|
    ensures file == Flatten(LastN(Lines(Flatten(calls)), capacity))
  {
    hide Device.Inv, Device.Valid, Flatten, Lines, LastN;
    var d := new Device(capacity, []);
    total := WriteCalls(d, calls);
    var f := new OpenFile();
    ghost var counts, pieces;
    file, counts, pieces := ReadBack(d, f, more);
    CallsAbsorbStream(Assembly([], []), calls);
    Whole(Flatten(calls));
    Whole(Lines(Flatten(calls)));
    Whole(Flatten(d.Stored()));
  }

  /** The device and its open file are where the machine is, byte values apart. */
  ghost predicate Follows(d: Device, f: OpenFile, m: DM.Machine)
    reads d, d.kernel.script, f
  {
    && d.kernel.script.outcomes == m.faults
    && DM.SameShape(d.State(), m.asm)
    && d.Held() == m.held && f.f_pos == m.fpos
  }

  /** One write takes the device where the machine goes, and loses a block exactly when the
      machine says so. While the line under way is intact the bytes agree too. */
  method PerformWrite(d: Device, f: OpenFile, buf: Bytes, ghost m: DM.Machine)
    requires d.Valid() && f.f_pos >= 0 && Follows(d, f, m)
    modifies d, d.ring, d.ring.entry, d.kernel, d.kernel.script
    ensures d.Valid() && Follows(d, f, DM.AfterWrite(m, buf))
    ensures |d.lost| == |old(d.lost)| + if DM.Loses(m, DM.OpWrite(buf)) then 1 else 0
    ensures old(d.State() == m.asm && !d.Orphaned()) && !DM.Loses(m, DM.OpWrite(buf)) ==>
              d.State() == DM.AfterWrite(m, buf).asm && !d.Orphaned()
  {
    hide Device.Inv, Device.Valid, Absorb, EndOf, Lengths;
    d.PendingIsLineLen();
    if d.Held() { NotYetLost(d); }
    var rv;
    ghost var e, before;
    rv, e, before := d.Write(buf);
    d.PendingIsLineLen();
    DM.SameShapeOutcome(before, m.asm, buf, e);
  }

  /** A read, seek or ioctl takes the device where the machine goes; the lines stay. */
  method PerformOther(d: Device, f: OpenFile, op: DM.Op, ghost m: DM.Machine)
    requires d.Valid() && f.f_pos >= 0 && Follows(d, f, m) && !op.OpWrite?
    modifies d.kernel.script, f
    ensures d.Valid() && f.f_pos >= 0
    ensures Follows(d, f, DM.After(d.ring.entry.Length, m, op)) && DM.After(d.ring.entry.Length, m, op).asm == m.asm
  {
    hide Device.Inv, Device.Valid, Flatten, IsPiece, Sum, LeftInLine;
    DM.SameShapeFile(d.history, m.asm.done, d.ring.entry.Length);
    match op {
      case OpRead(count) =>
        var rv, out;
        ghost var end;
        ghost var pos := f.f_pos;
        rv, out, end := d.Read(f, count);
        if end.Delivered? {
          PieceLength(d.Stored(), pos, count, out);
        }
      case OpSeek(off, whence) =>
        d.SizesAreStored();
        if f.f_pos < TWO63 && IsLoff(off) && d.ring.char_size < TWO63 {
          var rv := d.Llseek(f, off, whence);
        }
      case OpIoctl(cmd) =>
        SameBytes(d.Stored(), DM.Stored(m, d.ring.entry.Length));
        var rv := d.Ioctl(f, cmd);
    }
  }

  /** One operation on the device and one step of the machine. */
  method Perform(d: Device, f: OpenFile, op: DM.Op, ghost m: DM.Machine)
    requires d.Valid() && f.f_pos >= 0 && Follows(d, f, m)
    modifies d, d.ring, d.ring.entry, d.kernel, d.kernel.script, f
    ensures d.Valid() && f.f_pos >= 0
    ensures Follows(d, f, DM.After(d.ring.entry.Length, m, op))
    ensures |d.lost| == |old(d.lost)| + if DM.Loses(m, op) then 1 else 0
    ensures old(d.State() == m.asm && !d.Orphaned()) && !DM.Loses(m, op) ==>
              d.State() == DM.After(d.ring.entry.Length, m, op).asm && !d.Orphaned()
  {
    hide Device.Inv, Device.Valid, DM.AfterWrite, EndOf;
    match op {
      case OpWrite(buf) => PerformWrite(d, f, buf, m);
      case _ => PerformOther(d, f, op, m);
    }
  }

  lemma SameBytes(a: seq<Bytes>, b: seq<Bytes>)
    requires Lengths(a) == Lengths(b)
    ensures |a| == |b| && forall i :: 0 <= i < |a| ==> |a[i]| == |b[i]|
  {
    assert |a| == |Lengths(a)| == |b|;
    assert forall i :: 0 <= i < |a| ==> |a[i]| == Lengths(a)[i] == Lengths(b)[i] == |b[i]|;
  }

  lemma NotYetLost(d: Device)
    requires d.Valid() && d.Held()
    ensures d.line_buf !in d.lost
  {
  }

  /** Whole runs that end in module unload, with any failures: the blocks still live are one
      for each write of the run whose krealloc fails over a live line buffer, so a run leaks
      nothing if and only if Losses is 0. Every other block was freed once, since KFree
      accepts live blocks only. Until a line is lost the stored bytes are the machine's. */
  method RunToUnload(capacity: nat, faults: seq<bool>, ops: seq<DM.Op>)
    returns (leaked: set<Ptr>, ghost lines: seq<Bytes>)
    requires 1 <= capacity <= 255
    ensures |leaked| == DM.Losses(capacity, faults, ops)
    ensures leaked == {} ==> lines == LastN(DM.Run(capacity, faults, ops).asm.done, capacity)
  {
    hide Device.Inv, Device.Valid, DM.Run, DM.Losses, DM.Loses, DM.After, LastN;
    DM.RunStart(capacity, faults);
    var d := new Device(capacity, faults);
    var f := new OpenFile();
    var i := 0;
    while i < |ops|
      invariant 0 <= i <= |ops|
      invariant d.Valid() && f.f_pos >= 0 && fresh(d.Repr())
      invariant Follows(d, f, DM.Run(capacity, faults, ops[..i]))
      invariant |d.lost| == DM.Losses(capacity, faults, ops[..i])
      invariant |d.lost| == 0 ==> d.State() == DM.Run(capacity, faults, ops[..i]).asm && !d.Orphaned()
    {
      Perform(d, f, ops[i], DM.Run(capacity, faults, ops[..i]));
      DM.RunSnoc(capacity, faults, ops[..i], ops[i]);
      assert ops[..i] + [ops[i]] == ops[..i + 1];
      i := i + 1;
    }
    assert ops[..i] == ops;
    lines := d.Stored();
    d.Cleanup();
    leaked := d.kernel.heap.Keys;
  }
}
