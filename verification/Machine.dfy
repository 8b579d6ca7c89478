/** The driver as a pure machine: what a run of operations does, given which foreign calls
    fail, computed without a heap. */
module DriverMachine {
  import opened Text
  import opened Positions
  import opened Faults
  import opened LineAssembly
  import opened WriteOutcome
  import opened FlatFile
  import opened Seek64
  import opened Driver

  datatype Op = OpWrite(buf: Bytes) | OpRead(count: nat) | OpSeek(off: int, whence: int) | OpIoctl(cmd: IoctlCmd)

  /** The script left, the lines, whether the line under way has its buffer, and the
      position of the open file. */
  datatype Machine = Machine(faults: seq<bool>, asm: Assembly, held: bool, fpos: nat)

  function Stored(m: Machine, n: nat): seq<Bytes> {
    LastN(m.asm.done, n)
  }

  function Size(m: Machine, n: nat): nat {
    |Flatten(Stored(m, n))|
  }

  function AfterWrite(m: Machine, buf: Bytes): Machine {
    var (e, left) := EndOf(buf, m.faults);
    var asm := Outcome(m.asm, buf, e);
    Machine(left, asm, asm.pending != [] && !e.NoBuffer? && (buf == [] || e.Interrupted? ==> m.held), m.fpos)
  }

  function AfterRead(m: Machine, n: nat, count: nat): Machine {
    var (end, left) := ReadEndOf(Size(m, n), m.fpos, count, m.faults);
    var inLine := LeftInLine(Lengths(Stored(m, n)), m.fpos);
    m.(faults := left, fpos := m.fpos + if !end.Delivered? then 0 else if count < inLine then count else inLine)
  }

  function Target(m: Machine, n: nat, off: int, whence: int): int {
    off + if whence == 0 then 0 else if whence == 1 then m.fpos else Size(m, n)
  }

  function AfterSeek(m: Machine, n: nat, off: int, whence: int): Machine {
    var target := Target(m, n, off, whence);
    var ok := !Fails(m.faults) && whence in {0, 1, 2} && 0 <= target <= Size(m, n);
    m.(faults := Left(m.faults), fpos := if ok then target else m.fpos)
  }

  function AfterIoctl(m: Machine, n: nat, cmd: IoctlCmd): Machine {
    var ls := Stored(m, n);
    var isByte := cmd.SeekTo? && cmd.write_cmd < |ls| && cmd.write_cmd_offset < |ls[cmd.write_cmd]|;
    var (rv, left) := Device.IoctlEndOf(cmd, isByte, m.faults);
    var line := if isByte then cmd.write_cmd else 0;
    m.(faults := left, fpos := if rv == 0 then Sum(Lengths(ls)[..line]) + cmd.write_cmd_offset else m.fpos)
  }

  /** The ranges of loff_t and size_t that aesd_llseek's caller keeps. */
  predicate InWidth(m: Machine, n: nat, off: int) {
    m.fpos < TWO63 && IsLoff(off) && Size(m, n) < TWO63
  }

  function After(n: nat, m: Machine, op: Op): Machine {
    match op
    case OpWrite(buf) => AfterWrite(m, buf)
    case OpRead(count) => AfterRead(m, n, count)
    case OpSeek(off, whence) => if InWidth(m, n, off) then AfterSeek(m, n, off, whence) else m
    case OpIoctl(cmd) => AfterIoctl(m, n, cmd)
  }

  function Run(n: nat, faults: seq<bool>, ops: seq<Op>): Machine {
    if ops == [] then Machine(faults, Assembly([], []), false, 0)
    else After(n, Run(n, faults, ops[..|ops| - 1]), ops[|ops| - 1])
  }

  /** An operation whose krealloc fails over a live line buffer. */
  predicate Loses(m: Machine, op: Op) {
    op.OpWrite? && m.held && EndOf(op.buf, m.faults).0.NoBuffer?
  }

  /** How many operations of a run are such. */
  function Losses(n: nat, faults: seq<bool>, ops: seq<Op>): nat {
    if ops == [] then 0
    else
      var before := ops[..|ops| - 1];
      Losses(n, faults, before) + if Loses(Run(n, faults, before), ops[|ops| - 1]) then 1 else 0
  }

  lemma RunStart(n: nat, faults: seq<bool>)
    ensures Run(n, faults, []) == Machine(faults, Assembly([], []), false, 0)
    ensures Losses(n, faults, []) == 0
  {
  }

  lemma RunSnoc(n: nat, faults: seq<bool>, ops: seq<Op>, op: Op)
    ensures Run(n, faults, ops + [op]) == After(n, Run(n, faults, ops), op)
    ensures Losses(n, faults, ops + [op])
         == Losses(n, faults, ops) + if Loses(Run(n, faults, ops), op) then 1 else 0
  {
  }

  /** With no failures nothing is lost. */
  lemma {:induction false} NoFailuresNoLoss(n: nat, ops: seq<Op>)
    ensures Losses(n, [], ops) == 0 && Run(n, [], ops).faults == []
  {
    if ops != [] {
      var before, op := ops[..|ops| - 1], ops[|ops| - 1];
      NoFailuresNoLoss(n, before);
      if op.OpWrite? {
        NoFailuresNoStop(op.buf);
      }
    }
  }

  /** One byte written, then a write whose lock succeeds and whose krealloc fails. */
  lemma FailedWideningLoses(n: nat)
    ensures Losses(n, [false, false, false, false, true], [OpWrite([65]), OpWrite([66])]) == 1
  {
    var faults, first := [false, false, false, false, true], [OpWrite([65])];
    assert first == [] + first && [OpWrite([65]), OpWrite([66])] == first + [OpWrite([66])];
    RunSnoc(n, faults, [], OpWrite([65]));
    RunSnoc(n, faults, first, OpWrite([66]));
    assert EndOf([65], faults) == (Done, [false, true]);
    AbsorbNext(Assembly([], []), [65], 0);
    AbsorbEnds(Assembly([], []), [65]);
  }

  /** Two assemblies that differ at most in the values of their bytes. */
  predicate SameShape(a: Assembly, b: Assembly) {
    Lengths(a.done) == Lengths(b.done) && |a.pending| == |b.pending|
  }

  lemma SameShapeStep(a: Assembly, b: Assembly, x: Byte)
    requires SameShape(a, b)
    ensures SameShape(Step(a, x), Step(b, x))
  {
    assert |a.done| == |Lengths(a.done)| == |b.done|;
    LengthsSnoc(a.done, a.pending + [x]);
    LengthsSnoc(b.done, b.pending + [x]);
  }

  lemma {:induction false} SameShapeAbsorb(a: Assembly, b: Assembly, s: Bytes)
    requires SameShape(a, b)
    ensures SameShape(Absorb(a, s), Absorb(b, s))
  {
    if s != [] {
      SameShapeAbsorb(a, b, s[..|s| - 1]);
      SameShapeStep(Absorb(a, s[..|s| - 1]), Absorb(b, s[..|s| - 1]), s[|s| - 1]);
    }
  }

  /** How many lines a write completes, and how long they are, does not depend on the
      values of the bytes already pending. */
  lemma SameShapeOutcome(a: Assembly, b: Assembly, buf: Bytes, e: End)
    requires SameShape(a, b) && (e.Stopped? ==> e.at < |buf|)
    ensures SameShape(Outcome(a, buf, e), Outcome(b, buf, e))
  {
    if e.Done? {
      SameShapeAbsorb(a, b, buf);
    } else if e.Stopped? {
      SameShapeAbsorb(a, b, buf[..e.at]);
      SameShapeStep(Absorb(a, buf[..e.at]), Absorb(b, buf[..e.at]), buf[e.at]);
    }
  }

  lemma SameShapeFile(a: seq<Bytes>, b: seq<Bytes>, n: nat)
    requires Lengths(a) == Lengths(b)
    ensures Lengths(LastN(a, n)) == Lengths(LastN(b, n))
    ensures |Flatten(LastN(a, n))| == |Flatten(LastN(b, n))|
  {
    assert |a| == |Lengths(a)| == |b|;
    assert Lengths(LastN(a, n)) == LastN(Lengths(a), n);
    assert Lengths(LastN(b, n)) == LastN(Lengths(b), n);
    FlattenLength(LastN(a, n));
    FlattenLength(LastN(b, n));
  }

  lemma LengthsSnoc(ls: seq<Bytes>, l: Bytes)
    ensures Lengths(ls + [l]) == Lengths(ls) + [|l|]
  {
  }
}
