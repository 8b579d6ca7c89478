/** The aesdchar driver of main.c: line assembly into the ring, reading, seeking, freeing. */
module Driver {
  import opened Text
  import opened Positions
  import opened Ring
  import opened Faults
  import opened KernelCalls
  import opened Ownership
  import opened LineAssembly
  import opened WriteOutcome
  import opened FlatFile
  import opened Seek64

  const EBADF: int := 9
  const EFAULT: int := 14
  const EINVAL: int := 22
  const ENOMEM: int := 12
  const ENOTTY: int := 25
  const ERESTART: int := 85

  datatype IoctlCmd = ForeignMagic | SeekTo(write_cmd: nat, write_cmd_offset: nat) | UnknownCommand

  /** One open file description; read and write share its position. */
  class OpenFile {
    var f_pos: int
    constructor ()
      ensures f_pos == 0
    {
      f_pos := 0;
    }
  }

  class Device {
    const ring: CircularBuffer
    const kernel: Kernel
    var line_buf: Ptr
    var line_len: nat

    /** Every line completed since the device was zeroed, and the bytes of the next one. */
    ghost var history: seq<Bytes>
    ghost var pending: Bytes
    /** Blocks that stayed live after their last pointer was overwritten. */
    ghost var lost: set<Ptr>

    ghost function Repr(): set<object> {
      {this, ring, ring.entry, kernel, kernel.script}
    }

    ghost function Stored(): seq<Bytes>
      reads this
    {
      LastN(history, ring.entry.Length)
    }

    ghost function State(): Assembly
      reads this
    {
      Assembly(history, pending)
    }

    /** The invariant, told whether the line buffer's block is allocated at this point. */
    ghost predicate Inv(held: bool)
      reads this, ring, ring.entry, kernel
    {
      && kernel.Valid() && ring.Valid()
      && Owns(kernel.heap, ring.entries, Stored(), if held then {line_buf} else {}, lost)
      && |pending| == line_len
      && (held ==> line_buf in kernel.heap && pending <= kernel.heap[line_buf])
      && AllTerminated(history)
    }

    /** Between calls the line buffer is allocated exactly while a line is under way, except
        after a failed krealloc, which leaves a length without a buffer. */
    ghost predicate Valid()
      reads this, ring, ring.entry, kernel
    {
      Inv(Held())
    }

    /** A failed krealloc has dropped the buffer of the line under way. */
    predicate Orphaned()
      reads this
    {
      line_len > 0 && line_buf == NULL
    }

    /** A line is under way and its buffer is allocated. */
    predicate Held()
      reads this
    {
      line_len > 0 && line_buf != NULL
    }

    /** The next write will take the branch that overwrites line_buf with krealloc's NULL. */
    predicate LosesLine(buf: Bytes)
      reads this, kernel.script
    {
      Held() && EndOf(buf, kernel.script.outcomes).0.NoBuffer?
    }

    /** The line buffer has room for this many more bytes. */
    ghost predicate Fits(remaining: nat)
      requires Inv(true)
      reads this, ring, ring.entry, kernel
    {
      line_len + remaining <= |kernel.heap[line_buf]|
    }

    constructor (capacity: nat, faults: seq<bool>)
      requires 1 <= capacity <= 255
      ensures Valid() && fresh(Repr())
      ensures ring.entry.Length == capacity && kernel.script.outcomes == faults
      ensures State() == Assembly([], []) && lost == {} && line_len == 0
    {
      ring := new CircularBuffer(capacity);
      var script := new FaultScript(faults);
      kernel := new Kernel(script);
      line_buf, line_len := NULL, 0;
      history, pending, lost := [], [], {};
    }

    /** A fresh line buffer for n bytes. */
    method StartLine(n: nat) returns (ok: bool)
      requires Inv(false) && line_len == 0
      modifies this`line_buf, kernel, kernel.script
      ensures ok == !Fails(old(kernel.script.outcomes))
      ensures kernel.script.outcomes == Left(old(kernel.script.outcomes))
      ensures if ok then Inv(true) && Fits(n) else Inv(false) && line_buf == NULL
    {
      ghost var heap0 := kernel.heap;
      line_buf := kernel.KMalloc(n);
      if line_buf == NULL {
        return false;
      }
      OwnsAlloc(heap0, ring.entries, Stored(), {}, lost, line_buf, kernel.heap[line_buf]);
      assert {} + {line_buf} == {line_buf};
      return true;
    }

    /** krealloc of the line under way; its result overwrites line_buf even when NULL. */
    method WidenLine(count: nat) returns (ok: bool)
      requires Valid() && line_len > 0
      modifies this`line_buf, this`pending, this`lost, kernel, kernel.script
      ensures ok == !Fails(old(kernel.script.outcomes))
      ensures kernel.script.outcomes == Left(old(kernel.script.outcomes))
      ensures if ok then Inv(true) && Fits(count) else Valid() && line_buf == NULL
      ensures |pending| == line_len && (old(line_buf) != NULL || !ok ==> pending == old(pending))
      ensures lost == old(lost) + if !ok && old(line_buf) != NULL then {old(line_buf)} else {}
    {
      ghost var heap0, buf0 := kernel.heap, line_buf;
      line_buf := kernel.KRealloc(line_buf, line_len + count);
      ok := line_buf != NULL;
      if buf0 == NULL {
        if ok {
          pending := kernel.heap[line_buf][..line_len];
        }
      } else if ok {
        OwnsFreeBuf(heap0, ring.entries, Stored(), {buf0}, lost, buf0);
        assert {buf0} - {buf0} == {};
      } else {
        OwnsLose(heap0, ring.entries, Stored(), {buf0}, lost, buf0);
        assert {buf0} - {buf0} == {};
        lost := lost + {buf0};
      }
      if ok {
        assert buf0 == NULL ==> heap0 - {buf0} == heap0;
        OwnsAlloc(heap0 - {buf0}, ring.entries, Stored(), {}, lost, line_buf, kernel.heap[line_buf]);
        assert {} + {line_buf} == {line_buf};
      }
    }

    /** The allocation at the start of a write: widen the line under way or start one. */
    method GrowLine(count: nat) returns (ok: bool)
      requires Valid()
      modifies this`line_buf, this`pending, this`lost, kernel, kernel.script
      ensures ok == !Fails(old(kernel.script.outcomes))
      ensures kernel.script.outcomes == Left(old(kernel.script.outcomes))
      ensures if ok then Inv(true) && Fits(count) else Valid() && line_buf == NULL
      ensures |pending| == line_len && (!old(Orphaned()) || !ok ==> pending == old(pending))
      ensures lost == old(lost) + if !ok && old(Held()) then {old(line_buf)} else {}
    {
      if line_len != 0 {
        ok := WidenLine(count);
      } else {
        ok := StartLine(count);
      }
    }

    /** line_buf[line_len++] = b, inside the allocation. */
    method StoreByte(b: Byte, ghost remaining: nat)
      requires Inv(true) && remaining > 0 && Fits(remaining)
      modifies this`line_len, this`pending, kernel
      ensures Inv(true) && Fits(remaining - 1) && Valid() && !Orphaned()
      ensures pending == old(pending) + [b] && line_len > 0
    {
      ghost var heap0 := kernel.heap;
      ghost var block := Put(heap0[line_buf], line_len, b);
      kernel.Store(line_buf, line_len, b);
      OwnsStore(heap0, ring.entries, Stored(), {line_buf}, lost, line_buf, block);
      assert block[..line_len + 1] == heap0[line_buf][..line_len] + [b];
      assert pending == heap0[line_buf][..line_len];
      line_len := line_len + 1;
      pending := pending + [b];
    }

    /** Between the copy of a finished line and its push: the copy p is still loose. */
    ghost predicate Copied(p: Ptr)
      reads this, ring, ring.entry, kernel
    {
      && kernel.Valid() && ring.Valid()
      && Owns(kernel.heap, ring.entries, Stored(), {line_buf, p}, lost)
      && |pending| == line_len && p != line_buf
      && p in kernel.heap && kernel.heap[p] == pending
      && AllTerminated(history)
    }

    /** An exact-size copy of the line under way. */
    method CopyLine() returns (p: Ptr)
      requires Inv(true)
      modifies kernel, kernel.script
      ensures (p == NULL) == Fails(old(kernel.script.outcomes))
      ensures kernel.script.outcomes == Left(old(kernel.script.outcomes))
      ensures p == NULL ==> Inv(true) && line_buf != NULL
      ensures p != NULL ==> Copied(p)
    {
      ghost var heap0 := kernel.heap;
      p := kernel.KMalloc(line_len);
      if p != NULL {
        OwnsAlloc(heap0, ring.entries, Stored(), {line_buf}, lost, p, kernel.heap[p]);
        assert {line_buf} + {p} == {line_buf, p};
        assert pending == kernel.heap[line_buf][..line_len];
        ghost var heap1 := kernel.heap;
        kernel.CopyInto(p, line_buf, line_len);
        OwnsStore(heap1, ring.entries, Stored(), {line_buf, p}, lost, p, pending);
      }
    }

    /** The copy becomes the newest entry; the entry it displaces is freed. */
    method PushEntry(p: Ptr)
      requires Copied(p) && Terminated(pending)
      modifies this`history, ring, ring.entry, kernel
      ensures history == old(history) + [pending]
      ensures Pushed()
    {
      hide Owns, RingOk, LastN;
      ring.Total();
      ghost var heap0, es0 := kernel.heap, ring.entries;
      var evicted := ring.AddEntry(Entry(p, line_len));
      OwnsCommit(heap0, es0, history, line_buf, lost, p, pending, ring.entry.Length, evicted);
      kernel.KFree(evicted);
      history := history + [pending];
    }

    /** After the push: only the old line buffer is still to be freed. */
    ghost predicate Pushed()
      reads this, ring, ring.entry, kernel
    {
      && kernel.Valid() && ring.Valid()
      && Owns(kernel.heap, ring.entries, Stored(), {line_buf}, lost)
      && AllTerminated(history)
    }

    method ReleaseLine()
      requires Pushed()
      modifies this`line_len, this`pending, kernel
      ensures Inv(false) && line_len == 0 && pending == []
    {
      OwnsFreeBuf(kernel.heap, ring.entries, Stored(), {line_buf}, lost, line_buf);
      assert {line_buf} - {line_buf} == {};
      kernel.KFree(line_buf);
      line_len := 0;
      pending := [];
    }

    /** A newline was stored: copy the line into an exact-size entry, push it, free the
        entry it displaces and the line buffer. */
    method CommitLine() returns (ok: bool)
      requires Inv(true) && line_len > 0 && Terminated(pending)
      modifies this, ring, ring.entry, kernel, kernel.script
      ensures ok == !Fails(old(kernel.script.outcomes))
      ensures kernel.script.outcomes == Left(old(kernel.script.outcomes))
      ensures ok ==> Inv(false) && line_len == 0 && State() == Assembly(old(history) + [old(pending)], [])
      ensures !ok ==> Valid() && !Orphaned() && State() == old(State())
      ensures lost == old(lost)
    {
      hide Inv, Copied, Pushed;
      var p := CopyLine();
      if p == NULL {
        return false;
      }
      PushEntry(p);
      ReleaseLine();
      return true;
    }

    /** One round of the write loop, with this many bytes of the call still to come,
        this one included: the line buffer has room for all of them, before and after. */
    method WriteByte(b: Byte, remaining: nat) returns (rv: int, ghost r: Round)
      requires Inv(true) && remaining > 0 && Fits(remaining)
      modifies this, ring, ring.entry, kernel, kernel.script
      ensures (r, kernel.script.outcomes) == RoundOf(b, remaining == 1, old(kernel.script.outcomes))
      ensures State() == AfterRound(old(State()), b, r)
      ensures r.BadByte? <==> Fails(old(kernel.script.outcomes))
      ensures r.NoEntry? ==> b == NL && Fails(Left(old(kernel.script.outcomes)))
      ensures r.BadByte? ==> rv == -EFAULT && history == old(history) && pending == old(pending) + [0]
      ensures r.NoEntry? ==> rv == -ENOMEM && history == old(history) && pending == old(pending) + [NL]
      ensures r.NoNextBuffer? ==> rv == -ENOMEM && b == NL && remaining > 1
      ensures r.Accepted? ==> rv == 0
      ensures r.NoNextBuffer? || (r.Accepted? && b == NL) ==>
                history == old(history) + [old(pending) + [NL]] && pending == []
      ensures r.Accepted? && b != NL ==> history == old(history) && pending == old(pending) + [b]
      ensures r.Accepted? && remaining > 1 ==> Inv(true) && Fits(remaining - 1)
      ensures !r.Accepted? || remaining == 1 ==> Valid() && !Orphaned()
      ensures lost == old(lost)
    {
      hide Inv, Fits;
      var failed := kernel.script.Fault();
      StoreByte(if failed then 0 else b, remaining);
      if failed {
        return -EFAULT, BadByte;
      }
      if b == NL {
        var ok := CommitLine();
        if !ok {
          return -ENOMEM, NoEntry;
        }
        if remaining > 1 {
          ok := StartLine(remaining - 1);
          if !ok {
            return -ENOMEM, NoNextBuffer;
          }
        }
      }
      return 0, Accepted;
    }

    /** The write loop, once the line buffer has room for the whole call. */
    method WriteBytes(buf: Bytes) returns (rv: int, ghost e: End)
      requires Inv(true) && Fits(|buf|) && |buf| > 0
      modifies this, ring, ring.entry, kernel, kernel.script
      ensures Valid() && !Orphaned()
      ensures (e, kernel.script.outcomes) == LoopOf(buf, 0, old(kernel.script.outcomes))
      ensures State() == Outcome(old(State()), buf, e)
      ensures e.Done? ==> rv == |buf| && State() == Absorb(old(State()), buf)
      ensures e.Stopped? && e.round.BadByte? ==> rv == -EFAULT
      ensures e.Stopped? && !e.round.BadByte? ==> rv == -ENOMEM
      ensures lost == old(lost)
    {
      hide Inv, Valid, Orphaned, Fits, Absorb, Step, RoundOf;
      ghost var start, faults := State(), kernel.script.outcomes;
      AbsorbEnds(start, buf);
      var written := 0;
      while written < |buf|
        invariant 0 <= written <= |buf|
        invariant written < |buf| ==> Inv(true) && Fits(|buf| - written)
        invariant written == |buf| ==> Valid() && !Orphaned()
        invariant State() == Absorb(start, buf[..written])
        invariant LoopOf(buf, 0, faults) == LoopOf(buf, written, kernel.script.outcomes)
        invariant lost == old(lost)
      {
        ghost var r;
        rv, r := WriteByte(buf[written], |buf| - written);
        AbsorbNext(start, buf, written);
        if rv != 0 {
          return rv, Stopped(written, r);
        }
        written := written + 1;
      }
      return written, Done;
    }

    /** aesd_write, under every combination of failures: how the call ends, what is left of
        the script and what the device then holds are EndOf and Outcome. The count of all bytes
        is returned if and only if none of the calls made fails, and otherwise the error of the
        one that failed. After a failed krealloc the bytes of the line under way are unspecified
        (`before`), their number is not. A block is lost exactly when krealloc fails over it. */
    method Write(buf: Bytes) returns (rv: int, ghost e: End, ghost before: Assembly)
      requires Valid()
      modifies this, ring, ring.entry, kernel, kernel.script
      ensures Valid()
      ensures (e, kernel.script.outcomes) == EndOf(buf, old(kernel.script.outcomes))
      ensures State() == Outcome(before, buf, e)
      ensures old(kernel.script.outcomes) == [] ==> rv == |buf|
      ensures rv >= 0 <==> Clean(old(kernel.script.outcomes), kernel.script.outcomes)
      ensures rv < 0 <==> Blamed(old(kernel.script.outcomes), kernel.script.outcomes)
      ensures rv >= 0 <==> e.Done?
      ensures rv >= 0 ==> rv == |buf| && State() == Absorb(before, buf)
      ensures rv == -ERESTART <==> buf != [] && Fails(old(kernel.script.outcomes))
      ensures rv == -ERESTART || e.NoBuffer? ==> State() == before
      ensures e.NoBuffer? <==>
                buf != [] && !Fails(old(kernel.script.outcomes)) && Fails(Left(old(kernel.script.outcomes)))
      ensures rv == -EFAULT <==> e.Stopped? && e.round.BadByte?
      ensures rv == -ENOMEM <==> e.NoBuffer? || (e.Stopped? && !e.round.BadByte?)
      ensures before.done == old(history) && |before.pending| == old(line_len)
      ensures !old(Orphaned()) ==> before == old(State())
      ensures Held() <==> line_len > 0 && !e.NoBuffer? && (buf == [] || e.Interrupted? ==> old(Held()))
      ensures !old(Orphaned()) && !old(LosesLine(buf)) ==> !Orphaned()
      ensures lost == old(lost) + if old(LosesLine(buf)) then {old(line_buf)} else {}
    {
      hide Inv, Fits, Valid, Absorb, RoundOf, LoopOf, Clean, Blamed;
      PendingIsLineLen();
      EndBlames(buf, kernel.script.outcomes);
      before := State();
      AbsorbEnds(before, buf);
      if |buf| == 0 {
        return 0, Done, before;
      }
      var interrupted := kernel.script.Fault();
      if interrupted {
        return -ERESTART, Interrupted, before;
      }
      var ok := GrowLine(|buf|);
      before := State();
      if !ok {
        return -ENOMEM, NoBuffer, before;
      }
      rv, e := WriteBytes(buf);
    }

    lemma PendingIsLineLen()
      requires Valid()
      ensures |pending| == line_len
    {
    }

    /** Positions computed from the ring's sizes are positions in the stored lines. */
    lemma SizesAreStored()
      requires Valid()
      ensures ring.Valid() && Sizes(ring.entries) == Lengths(Stored())
      ensures ring.char_size == |Flatten(Stored())|
    {
      SizesAreLengths(kernel.heap, ring.entries, Stored());
    }

    lemma EntryHoldsLine(i: nat)
      requires Valid() && i < |ring.entries|
      ensures |Stored()| == |ring.entries| && ring.entries[i].buffptr in kernel.heap
      ensures kernel.heap[ring.entries[i].buffptr] == Stored()[i] && ring.entries[i].size == |Stored()[i]|
    {
    }

    /** The lookup and the slice of aesd_read: the bytes to copy out, if any. */
    method FindPiece(pos: nat, count: nat) returns (found: bool, piece: Bytes)
      requires Valid() && count > 0
      ensures found <==> pos < |Flatten(Stored())|
      ensures IsPiece(Stored(), pos, count, piece)
    {
      hide Inv, Valid, Stored, Flatten, RingOk, CircularBuffer.Valid, Sum;
      SizesAreStored();
      var slot, offset := ring.FindEntryOffsetForFpos(pos);
      if slot == -1 {
        return false, [];
      }
      ghost var i: nat :| At(Sizes(ring.entries), i, offset, pos) && ring.LivesIn(i, slot);
      EntryHoldsLine(i);
      var e := ring.entry[slot];
      var n := if count < e.size - offset then count else e.size - offset;
      piece := kernel.heap[e.buffptr][offset..offset + n];
      assert PieceOf(Stored()[i], offset, count, piece);
      return true, piece;
    }

    /** aesd_read, under every combination of failures: bytes are returned if and only if no
        call made fails, and then they are the next ones of the line that holds the position,
        none from the end of the file on. */
    method Read(f: OpenFile, count: nat) returns (rv: int, out: Bytes, ghost end: ReadEnd)
      requires Valid() && f.f_pos >= 0
      modifies f, kernel.script
      ensures Valid()
      ensures (end, kernel.script.outcomes)
           == ReadEndOf(|Flatten(Stored())|, old(f.f_pos), count, old(kernel.script.outcomes))
      ensures old(kernel.script.outcomes) == [] ==> rv >= 0
      ensures rv >= 0 <==> Clean(old(kernel.script.outcomes), kernel.script.outcomes)
      ensures rv < 0 <==> Blamed(old(kernel.script.outcomes), kernel.script.outcomes)
      ensures rv >= 0 ==> rv == |out| && (count > 0 ==> IsPiece(Stored(), old(f.f_pos), count, out))
      ensures count == 0 ==> rv == 0 && kernel.script.outcomes == old(kernel.script.outcomes)
      ensures rv < 0 ==> out == []
      ensures rv == -ERESTART <==> count > 0 && Fails(old(kernel.script.outcomes))
      ensures rv == -EFAULT <==> count > 0 && !Fails(old(kernel.script.outcomes))
                                 && old(f.f_pos) < |Flatten(Stored())| && Fails(Left(old(kernel.script.outcomes)))
      ensures rv >= 0 || rv in {-ERESTART, -EFAULT}
      ensures end.Delivered? <==> rv > 0
      ensures f.f_pos == old(f.f_pos) + |out|
    {
      hide Inv, Valid, At, Clean, Blamed, IsPiece;
      ReadBlames(|Flatten(Stored())|, f.f_pos, count, kernel.script.outcomes);
      if count == 0 {
        return 0, [], NothingAsked;
      }
      var interrupted := kernel.script.Fault();
      if interrupted {
        return -ERESTART, [], ReadInterrupted;
      }
      var found, piece := FindPiece(f.f_pos, count);
      PieceIsNext(Stored(), f.f_pos, count, piece);
      if !found {
        return 0, [], AtEnd;
      }
      var failed := kernel.script.Fault();
      if failed {
        return -EFAULT, [], BadCopy;
      }
      f.f_pos := f.f_pos + |piece|;
      return |piece|, piece, Delivered;
    }

    /** The switch and the range test of aesd_llseek, in 64-bit arithmetic: from a position
        that is not negative they accept exactly the mathematical targets inside the file. */
    method SeekTarget(pos: int, off: int, whence: int) returns (ok: bool, newpos: int)
      requires Valid() && 0 <= pos < TWO63 && IsLoff(off) && |Flatten(Stored())| < TWO63
      ensures ok <==> InFile(whence, pos, off)
      ensures ok ==> newpos == Base(whence, pos) + off
    {
      hide Inv, Valid, Flatten, Rejected, S64;
      SizesAreStored();
      newpos := 0;
      match whence {
        case 0 => newpos := off; InRange(off);
        case 1 => newpos := S64(pos + off);
        case 2 => newpos := S64(ring.char_size + off);
        case _ => return false, newpos;
      }
      SeekTest(Base(whence, pos), off, ring.char_size);
      ok := !Rejected(newpos, ring.char_size);
    }

    /** aesd_llseek. */
    method Llseek(f: OpenFile, off: int, whence: int) returns (rv: int)
      requires Valid() && 0 <= f.f_pos < TWO63 && IsLoff(off) && |Flatten(Stored())| < TWO63
      modifies f, kernel.script
      ensures Valid() && 0 <= f.f_pos < TWO63
      ensures kernel.script.outcomes == Left(old(kernel.script.outcomes))
      ensures rv == if Fails(old(kernel.script.outcomes)) then -ERESTART
                    else if InFile(whence, old(f.f_pos), off) then Base(whence, old(f.f_pos)) + off
                    else -EINVAL
      ensures f.f_pos == if rv >= 0 then rv else old(f.f_pos)
      ensures !Fails(old(kernel.script.outcomes)) ==>
                var size, pos := |Flatten(Stored())|, old(f.f_pos);
                && (whence == 0 ==> rv == if 0 <= off <= size then off else -EINVAL)
                && (whence == 1 ==> rv == if 0 <= pos + off <= size then pos + off else -EINVAL)
                && (whence == 2 ==> rv == if -size <= off <= 0 then size + off else -EINVAL)
                && (whence !in {0, 1, 2} ==> rv == -EINVAL)
    {
      hide Inv, Valid;
      var interrupted := kernel.script.Fault();
      if interrupted {
        return -ERESTART;
      }
      var ok, newpos := SeekTarget(f.f_pos, off, whence);
      if !ok {
        return -EINVAL;
      }
      f.f_pos := newpos;
      return newpos;
    }

    ghost function Base(whence: int, pos: int): int
      reads this
    {
      if whence == 0 then 0 else if whence == 1 then pos else |Flatten(Stored())|
    }

    /** The mathematical target of a seek lies in 0..size. */
    ghost predicate InFile(whence: int, pos: int, off: int)
      reads this
    {
      whence in {0, 1, 2} && 0 <= Base(whence, pos) + off <= |Flatten(Stored())|
    }

    /** The lookup of aesd_ioctl, in terms of the stored lines. */
    method LineFpos(e: nat, o: nat) returns (newpos: int)
      requires Valid()
      ensures newpos < 0 <==> !IsByte(e, o)
      ensures newpos >= 0 ==> At(Lengths(Stored()), e, o, newpos)
    {
      SizesAreStored();
      newpos := ring.FindFposForEntryOffset(e, o);
      assert e < |ring.entries| ==> ring.entries[e].size == Sizes(ring.entries)[e];
    }

    /** Offset o exists in stored line e. */
    ghost predicate IsByte(e: nat, o: nat)
      reads this
    {
      e < |Stored()| && o < |Stored()[e]|
    }

    /** What an ioctl returns, and the script it leaves. */
    static function IoctlEndOf(cmd: IoctlCmd, isByte: bool, f: seq<bool>): (r: (int, seq<bool>))
      ensures r.0 == 0 ==> cmd.SeekTo? && isByte
    {
      match cmd
      case ForeignMagic => (-EINVAL, f)
      case UnknownCommand => (-ENOTTY, f)
      case SeekTo(_, _) =>
        if Fails(f) then (-EFAULT, Left(f))
        else if Fails(Left(f)) then (-ERESTART, Left(Left(f)))
        else (if isByte then 0 else -EINVAL, Left(Left(f)))
    }

    /** aesd_ioctl: AESDCHAR_IOCSEEKTO moves to a byte of a stored line, and to no other place;
        each refusal has its own error. */
    method Ioctl(f: OpenFile, cmd: IoctlCmd) returns (rv: int)
      requires Valid() && f.f_pos >= 0
      modifies f, kernel.script
      ensures Valid() && f.f_pos >= 0
      ensures (rv, kernel.script.outcomes) ==
                IoctlEndOf(cmd, cmd.SeekTo? && IsByte(cmd.write_cmd, cmd.write_cmd_offset), old(kernel.script.outcomes))
      ensures if rv == 0 then At(Lengths(Stored()), cmd.write_cmd, cmd.write_cmd_offset, f.f_pos)
              else f.f_pos == old(f.f_pos)
      ensures rv <= 0 && (cmd.ForeignMagic? ==> rv == -EINVAL) && (cmd.UnknownCommand? ==> rv == -ENOTTY)
      ensures !cmd.SeekTo? ==> kernel.script.outcomes == old(kernel.script.outcomes)
      ensures cmd.SeekTo? ==>
                var f0, stored := old(kernel.script.outcomes), IsByte(cmd.write_cmd, cmd.write_cmd_offset);
                && (rv == -EFAULT <==> Fails(f0))
                && (rv == -ERESTART <==> !Fails(f0) && Fails(Left(f0)))
                && (rv == 0 <==> !Fails(f0) && !Fails(Left(f0)) && stored)
                && (rv == -EINVAL <==> !Fails(f0) && !Fails(Left(f0)) && !stored)
    {
      hide Inv, Valid, IsByte, At;
      match cmd {
        case ForeignMagic => return -EINVAL;
        case UnknownCommand => return -ENOTTY;
        case SeekTo(e, o) =>
          var failed := kernel.script.Fault();
          if failed {
            return -EFAULT;
          }
          var interrupted := kernel.script.Fault();
          if interrupted {
            return -ERESTART;
          }
          var newpos := LineFpos(e, o);
          if newpos < 0 {
            return -EINVAL;
          }
          f.f_pos := newpos;
          return 0;
      }
    }

    /** The FOREACH sweep over all slots: afterwards only the line buffer, if one is
        allocated, and the lost blocks are live. */
    method SweepEntries()
      requires Valid()
      modifies kernel
      ensures kernel.Valid()
      ensures kernel.heap.Keys == (if line_len > 0 && line_buf != NULL then {line_buf} else {}) + lost
      ensures line_len > 0 && line_buf != NULL ==> line_buf !in lost
    {
      hide RingOk, Swept, Stored, AllTerminated;
      ghost var heap0, a := kernel.heap, ring.entry[..];
      SweepLeaves(a, ring.in_offs, ring.out_offs, ring.full, ring.char_size, heap0, ring.entries, Stored(),
                  if line_len > 0 && line_buf != NULL then {line_buf} else {}, lost);
      for i := 0 to ring.entry.Length
        invariant kernel.Valid() && kernel.heap == heap0 - Swept(a, i)
      {
        SweptStep(a, i);
        if ring.entry[i].size > 0 {
          NotYetSwept(a, ring.in_offs, ring.out_offs, ring.full, ring.char_size, heap0, ring.entries, Stored(), i);
          kernel.KFree(ring.entry[i].buffptr);
        }
      }
    }

    /** aesd_cleanup_module: every block that was not lost is freed, each exactly once. */
    method Cleanup()
      requires Valid()
      modifies kernel
      ensures kernel.Valid()
      ensures kernel.heap.Keys == lost
    {
      hide Inv;
      SweepEntries();
      if line_len > 0 {
        kernel.KFree(line_buf);
      }
    }
  }
}
