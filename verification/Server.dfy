/** handle_connection as a pure machine: what a client is sent and what the device then
    holds, given the client's chunks and which allocations, sends and device calls fail. */
module ServerModel {
  import opened Text
  import opened Positions
  import opened Faults
  import opened LineAssembly
  import opened WriteOutcome
  import opened FlatFile
  import opened Vectors
  import opened Framing
  import Driver
  import DM = DriverMachine

  datatype Exit = Closed | Signalled | RecvFailed | SendFailed | DeviceFailed | MemoryFailed | Hung

  datatype Received = Newline | PeerClosed | RecvError | OutOfMemory | Stuck

  /** One connection between rounds: the receive buffer, the chunks to come and whether an
      error follows them, the device with its own script of failures, whether data_file.fd
      is open, everything sent, and the scripts left for allocations and for sends. */
  datatype Server = Server(recv: Buf, chunks: seq<Bytes>, failAtEnd: bool, dev: DM.Machine, open: bool,
                           sent: seq<Bytes>, libc: seq<bool>, net: seq<bool>)

  /** The device as the specification of a session sees it. */
  function SessionOf(d: DM.Machine): Session {
    Session(d.asm.done, d.fpos)
  }

  /** The inner receive loop. */
  function Receive(b: Buf, chunks: seq<Bytes>, failAtEnd: bool, f: seq<bool>): (Received, Buf, seq<Bytes>, seq<bool>)
    decreases |chunks|
  {
    if chunks == [] then (if failAtEnd then RecvError else PeerClosed, b, chunks, f)
    else
      var (a, b', left) := AppendOf(b, chunks[0], f);
      match a
      case NoMemory => (OutOfMemory, b', chunks[1..], left)
      case Diverges => (Stuck, b', chunks[1..], left)
      case Appended =>
        if NL in chunks[0] then (Newline, b', chunks[1..], left) else Receive(b', chunks[1..], failAtEnd, left)
  }

  lemma ReceiveStep(b: Buf, chunks: seq<Bytes>, failAtEnd: bool, f: seq<bool>)
    ensures chunks == [] ==>
              Receive(b, chunks, failAtEnd, f) == (if failAtEnd then RecvError else PeerClosed, b, chunks, f)
    ensures chunks != [] ==>
              var (a, b', left) := AppendOf(b, chunks[0], f);
              Receive(b, chunks, failAtEnd, f) ==
              match a
              case NoMemory => (OutOfMemory, b', chunks[1..], left)
              case Diverges => (Stuck, b', chunks[1..], left)
              case Appended =>
                if NL in chunks[0] then (Newline, b', chunks[1..], left) else Receive(b', chunks[1..], failAtEnd, left)
  {
  }

  /** The read-back loop: the bytes still to be read, the send vector, everything sent, and
      the scripts, disk for the device. */
  datatype Echo = Echo(rest: Bytes, held: Buf, sent: seq<Bytes>, libc: seq<bool>, net: seq<bool>, disk: seq<bool>)

  /** What is done with a byte that has been read. */
  function EchoStep(r: Echo): (Option<Exit>, Echo)
    requires r.rest != []
  {
    var (a, held, left) := AppendOf(r.held, r.rest[..1], r.libc);
    var r' := r.(rest := r.rest[1..], held := held, libc := left);
    if a != Appended then (Some(MemoryFailed), r')
    else if r.rest[0] != NL then (None, r')
    else if Fails(r.net) then (Some(SendFailed), r'.(net := Left(r.net)))
    else
      var r'' := r'.(sent := r.sent + [held.data], net := Left(r.net), libc := Left(left));
      if Fails(left) then (Some(MemoryFailed), r''.(held := CLOSED)) else (None, r''.(held := EMPTY))
  }

  /** A read that returns no byte, at the end of the file or failing, ends the loop. */
  function EchoAll(r: Echo): (x: (Option<Exit>, Echo))
    ensures |x.1.rest| <= |r.rest| && x.0 in {None, Some(MemoryFailed), Some(SendFailed)}
    decreases |r.rest|
  {
    var (end, left) := ReadEndOf(|r.rest|, 0, 1, r.disk);
    if !end.Delivered? then (None, r.(disk := left))
    else
      var (e, r') := EchoStep(r.(disk := left));
      if e == None then EchoAll(r') else (e, r')
  }

  /** Keep the undrained bytes, or start over with an empty vector, if it can be had. */
  function Compacted(b: Buf, f: seq<bool>): (Buf, seq<bool>) {
    if b.data != [] then (b, f) else (if Fails(f) then CLOSED else EMPTY, Left(f))
  }

  /** Close and open again: the position is that of a new descriptor, if there is one. */
  function Reopened(m: Server): Server {
    m.(open := !Fails(m.dev.faults), dev := m.dev.(faults := Left(m.dev.faults), fpos := 0))
  }

  function ReadBack(m: Server, n: nat): (Option<Exit>, Server) {
    if !m.open then (None, m)
    else
      var rest := Rest(Flatten(LastN(m.dev.asm.done, n)), m.dev.fpos);
      var (e, r) := EchoAll(Echo(rest, EMPTY, m.sent, m.libc, m.net, m.dev.faults));
      (e, m.(dev := m.dev.(fpos := m.dev.fpos + |rest| - |r.rest|, faults := r.disk),
             sent := r.sent, libc := r.libc, net := r.net))
  }

  /** Start a send vector and read the file back, from its start or from where a seek went. */
  function Echoed(m: Server, n: nat, seek: bool): (Option<Exit>, Server) {
    var m' := m.(libc := Left(m.libc));
    if Fails(m.libc) then (Some(MemoryFailed), m') else ReadBack(if seek then m' else Reopened(m'), n)
  }

  function Answered(m: Server, n: nat, seek: bool): (Option<Exit>, Server) {
    var (b, f) := Compacted(m.recv, m.libc);
    Echoed(m.(recv := b, libc := f), n, seek)
  }

  /** One drained line at the device, and whether the loop goes on: a data line is written,
      and anything but a whole write ends the connection; a seek line goes to the ioctl,
      whose result is not looked at. */
  function Handled(open: bool, d: DM.Machine, n: nat, parse: Parser, line: Bytes): (bool, DM.Machine) {
    match parse(line)
    case Some(Seek(e, o)) => (true, if open then DM.AfterIoctl(d, n, Driver.IoctlCmd.SeekTo(e, o)) else d)
    case None => if open then (EndOf(line, d.faults).0.Done?, DM.AfterWrite(d, line)) else (false, d)
  }

  function HandledAll(open: bool, d: DM.Machine, n: nat, parse: Parser, lines: seq<Bytes>): (bool, DM.Machine) {
    if lines == [] then (true, d)
    else
      var (ok, d') := HandledAll(open, d, n, parse, lines[..|lines| - 1]);
      if ok then Handled(open, d', n, parse, lines[|lines| - 1]) else (false, d')
  }

  function Filled(m: Server): (Received, Server) {
    var (r, b, chunks, f) := Receive(m.recv, m.chunks, m.failAtEnd, m.libc);
    (r, m.(recv := b, chunks := chunks, libc := f))
  }

  function ExitOf(r: Received): Exit {
    match r
    case PeerClosed => Closed
    case RecvError => RecvFailed
    case OutOfMemory => MemoryFailed
    case _ => Hung
  }

  /** Drain the buffered lines and answer the round. */
  function Worked(m: Server, n: nat, parse: Parser): (Option<Exit>, Server) {
    var lines := Lines(m.recv.data);
    var (ok, d) := HandledAll(m.open, m.dev, n, parse, lines);
    if !ok then (Some(DeviceFailed), m.(dev := d))
    else Answered(m.(dev := d, recv := m.recv.(data := Tail(m.recv.data))), n, HasSeek(Commands(parse, lines)))
  }

  /** One turn of the outer loop; None means another turn. */
  function Turn(m: Server, n: nat, parse: Parser): (Option<Exit>, Server) {
    var (r, m') := Filled(m);
    if r != Newline then (Some(ExitOf(r)), m') else Worked(m', n, parse)
  }

  /** The outer loop; `polls` is the number of signal tests until the signal is seen. */
  function Rounds(m: Server, polls: nat, n: nat, parse: Parser): (Exit, Server)
    decreases polls
  {
    if polls == 0 then (Signalled, m)
    else
      var (e, m') := Turn(m, n, parse);
      if e == None then Rounds(m', polls - 1, n, parse) else (e.value, m')
  }

  function Serve(m: Server, polls: nat, n: nat, parse: Parser): (Exit, Server) {
    var m' := m.(libc := Left(m.libc));
    if Fails(m.libc) then (MemoryFailed, m') else Rounds(m'.(recv := EMPTY), polls, n, parse)
  }

  /** What the receive loop hands on: the buffer of the next round, if there is one. */
  lemma {:induction false} ReceiveIsBatch(b: Buf, chunks: seq<Bytes>, failAtEnd: bool, f: seq<bool>)
    requires NL !in b.data
    ensures var (r, b', rest, left) := Receive(b, chunks, failAtEnd, f);
            && (r == Newline ==>
                  Batches(b.data, chunks) == [Lines(b'.data)] + Batches(Tail(b'.data), rest) && |rest| < |chunks|)
            && (r in {PeerClosed, RecvError} ==> Batches(b.data, chunks) == [] && r.RecvError? == failAtEnd)
            && (b.cap == 0 <==> b'.cap == 0)
            && (b.cap > 0 && f == [] ==> left == [] && r !in {OutOfMemory, Stuck})
    decreases |chunks|
  {
    hide Lines, Tail;
    if chunks != [] {
      var (a, b', left) := AppendOf(b, chunks[0], f);
      DivergesExactly(b.cap, |b.data| + |chunks[0]|, f);
      if a == Appended && NL !in chunks[0] {
        ReceiveIsBatch(b', chunks[1..], failAtEnd, left);
      }
    }
  }

  lemma HandledSnoc(open: bool, d: DM.Machine, n: nat, parse: Parser, lines: seq<Bytes>, line: Bytes)
    ensures var (ok, d') := HandledAll(open, d, n, parse, lines);
            HandledAll(open, d, n, parse, lines + [line]) ==
            if ok then Handled(open, d', n, parse, line) else (false, d')
  {
  }

  /** A line that ends the loop is the last one the device sees. */
  lemma {:induction false} HandledStops(open: bool, d: DM.Machine, n: nat, parse: Parser,
                                        lines: seq<Bytes>, all: seq<Bytes>)
    requires lines <= all && !HandledAll(open, d, n, parse, lines).0
    ensures HandledAll(open, d, n, parse, all) == HandledAll(open, d, n, parse, lines)
  {
    if lines != all {
      HandledStops(open, d, n, parse, lines, all[..|all| - 1]);
    }
  }

  /** A write of one line either completes that line alone or, failing, none. */
  lemma WriteOfLine(d: DM.Machine, line: Bytes)
    requires IsLine(line) && d.asm.pending == []
    ensures var d' := DM.AfterWrite(d, line);
            && d.asm.done <= d'.asm.done <= d.asm.done + [line]
            && (EndOf(line, d.faults).0.Done? ==> d'.asm == Assembly(d.asm.done + [line], []))
  {
    hide EndOf, Absorb, IsLine;
    var (e, left) := EndOf(line, d.faults);
    WholeLine(d.asm.done, line);
    StoppedIsPrefix(d.asm, line, e);
    var k: nat :| k <= |line| && Outcome(d.asm, line, e).done == Absorb(d.asm, line[..k]).done;
    if k < |line| {
      PartOfLine(d.asm, line, k);
    } else {
      assert line[..k] == line;
    }
  }

  lemma PartOfLine(a: Assembly, line: Bytes, k: nat)
    requires IsLine(line) && k < |line| && a.pending == []
    ensures Absorb(a, line[..k]).done == a.done
  {
    hide Absorb, Lines, Tail;
    AbsorbIsLines(a, line[..k]);
    Whole(line[..k]);
    assert forall i :: 0 <= i < k ==> line[i] == line[..|line| - 1][i];
    NoNewline(line[..k]);
  }

  /** Whatever fails, the device completes first data lines of those drained, and all of them
      if the loop runs through. */
  lemma {:induction false} HandledStores(open: bool, d: DM.Machine, n: nat, parse: Parser, lines: seq<Bytes>)
    requires AllLines(lines) && d.asm.pending == []
    ensures var (ok, d') := HandledAll(open, d, n, parse, lines);
            && d.asm.done <= d'.asm.done <= d.asm.done + Data(parse, lines)
            && (ok ==> d'.asm == Assembly(d.asm.done + Data(parse, lines), []))
  {
    hide IsLine, DM.AfterWrite, DM.AfterIoctl, EndOf;
    if lines != [] {
      var before, last := lines[..|lines| - 1], lines[|lines| - 1];
      HandledStores(open, d, n, parse, before);
      var (ok, d') := HandledAll(open, d, n, parse, before);
      Assoc(d.asm.done, Data(parse, before), [last]);
      if ok && parse(last) == None {
        WriteOfLine(d', last);
      } else if ok {
        SeekKeepsLines(d', n, parse(last).value);
      }
    }
  }

  lemma SeekKeepsLines(d: DM.Machine, n: nat, seek: Seek)
    ensures DM.AfterIoctl(d, n, Driver.IoctlCmd.SeekTo(seek.cmd, seek.offset)).asm == d.asm
  {
  }

  lemma HandledPerformsOne(d: DM.Machine, n: nat, parse: Parser, line: Bytes)
    requires IsLine(line) && d.asm.pending == [] && d.faults == []
    ensures var (ok, d') := Handled(true, d, n, parse, line);
            && ok && d'.faults == [] && d'.asm.pending == []
            && SessionOf(d') == Perform(SessionOf(d), n, CommandOf(parse, line))
  {
    hide EndOf, Absorb, IsLine, Sum, LastN;
    NoFailuresNoStop(line);
    WholeLine(d.asm.done, line);
  }

  /** With no failing device call the commands of the lines are performed, one for one. */
  lemma {:induction false} HandledPerforms(d: DM.Machine, n: nat, parse: Parser, lines: seq<Bytes>)
    requires AllLines(lines) && d.asm.pending == [] && d.faults == []
    ensures var (ok, d') := HandledAll(true, d, n, parse, lines);
            && ok && d'.faults == [] && d'.asm.pending == []
            && SessionOf(d') == PerformAll(SessionOf(d), n, Commands(parse, lines))
  {
    hide Handled, Perform;
    if lines != [] {
      var before, last := lines[..|lines| - 1], lines[|lines| - 1];
      HandledPerforms(d, n, parse, before);
      HandledPerformsOne(HandledAll(true, d, n, parse, before).1, n, parse, last);
      HandledSnoc(true, d, n, parse, before, last);
      assert lines == before + [last];
      CommandsSnoc(parse, before, last);
      PerformSnoc(SessionOf(d), n, Commands(parse, before), CommandOf(parse, last));
    }
  }

  /** One round of the read-back loop sends the lines it completes, in front of the others. */
  lemma EchoStepSends(r: Echo) returns (done: seq<Bytes>, others: seq<Bytes>)
    requires NL !in r.held.data && r.rest != []
    ensures var (e, r') := EchoStep(r);
            && Lines(r.held.data + r.rest) == done + others && r'.sent == r.sent + done
            && (e == None ==> others == Lines(r'.held.data + r'.rest) && NL !in r'.held.data)
            && (e == None ==> Tail(r.held.data + r.rest) == Tail(r'.held.data + r'.rest))
            && (r.libc == [] && r.net == [] && r.held.cap > 0 ==>
                  e == None && r'.libc == [] && r'.net == [] && r'.held.cap > 0)
  {
    hide Lines, Tail;
    var (e, r') := EchoStep(r);
    DivergesExactly(r.held.cap, |r.held.data| + 1, r.libc);
    EchoLines(r.held.data, r.rest);
    var lines := Lines(r.held.data + r.rest);
    if r'.sent == r.sent {
      done, others := [], lines;
      assert r.sent + [] == r.sent && [] + lines == lines;
    } else {
      done, others := [r.held.data + r.rest[..1]], Lines([] + r.rest[1..]);
    }
  }

  lemma EchoLines(held: Bytes, rest: Bytes)
    requires NL !in held && rest != []
    ensures Lines(held + rest) == if rest[0] == NL then [held + rest[..1]] + Lines([] + rest[1..])
                                  else Lines(held + rest[..1] + rest[1..])
    ensures Tail(held + rest) == if rest[0] == NL then Tail([] + rest[1..]) else Tail(held + rest[..1] + rest[1..])
  {
    var line := held + rest[..1];
    assert held + rest == line + rest[1..] && [] + rest[1..] == rest[1..];
    if rest[0] == NL {
      assert line[..|held|] == held;
      LineInFront(line, rest[1..]);
    }
  }

  /** Whatever fails, what is sent are first lines of the rest of the file, cut at newlines. A
      loop that reads to the end without an exit has sent them all and holds back what
      follows the last newline, which is nothing when the file ends in one; with no failing
      call it does. */
  lemma {:induction false} EchoSends(r: Echo)
    requires NL !in r.held.data
    ensures var (e, r') := EchoAll(r);
            var all := r.held.data + r.rest;
            && r.sent <= r'.sent <= r.sent + Lines(all)
            && (e == None && r'.rest == [] ==> r'.sent == r.sent + Lines(all) && r'.held.data == Tail(all))
            && (e == None && r.disk == [] ==> r'.rest == [])
            && (r.disk == [] ==> r'.disk == [])
            && (r.libc == [] && r.net == [] && r.held.cap > 0 ==> e == None && r'.libc == [] && r'.net == [])
    decreases |r.rest|
  {
    hide Lines, Tail, EchoStep;
    if r.rest == [] {
      NoNewline(r.held.data);
      assert r.held.data + r.rest == r.held.data && r.sent + [] == r.sent;
    } else {
      var (end, left) := ReadEndOf(|r.rest|, 0, 1, r.disk);
      EchoNothing(r);
      if end.Delivered? {
        var r1 := r.(disk := left);
        var (e, r') := EchoStep(r1);
        EchoTakes(r1);
        var done, others := EchoStepSends(r1);
        Assoc(r.sent, done, others);
        if e == None {
          EchoSends(r');
        }
      }
    }
  }

  lemma EchoNothing(r: Echo)
    ensures r.sent <= r.sent + Lines(r.held.data + r.rest)
  {
  }

  lemma EchoTakes(r: Echo)
    requires r.rest != []
    ensures |EchoStep(r).1.rest| + 1 == |r.rest| && EchoStep(r).1.disk == r.disk
    ensures EchoStep(r).0 in {None, Some(MemoryFailed), Some(SendFailed)}
  {
  }

  lemma ReadBackSends(m: Server, n: nat)
    ensures var (e, m') := ReadBack(m, n);
            var rest := Rest(Flatten(LastN(m.dev.asm.done, n)), m.dev.fpos);
            && m.sent <= m'.sent <= m.sent + Lines(rest)
            && (e == None && m.open && m.dev.faults == [] ==>
                  && m'.sent == m.sent + Lines(rest) && m'.dev == m.dev.(fpos := m.dev.fpos + |rest|))
            && m'.dev.asm == m.dev.asm && m'.open == m.open
            && (m.dev.faults == [] ==> m'.dev.faults == [])
            && m'.chunks == m.chunks && m'.recv == m.recv && m'.failAtEnd == m.failAtEnd
            && e in {None, Some(MemoryFailed), Some(SendFailed)}
            && (m.libc == [] && m.net == [] ==> e == None && m'.libc == [] && m'.net == [])
  {
    hide Lines, Flatten, LastN, EchoAll, Rest;
    var rest := Rest(Flatten(LastN(m.dev.asm.done, n)), m.dev.fpos);
    var r := Echo(rest, EMPTY, m.sent, m.libc, m.net, m.dev.faults);
    EchoSends(r);
    EchoNothing(r);
    assert EMPTY.data + rest == rest;
  }

  /** The answer to a round sends first lines of the rest of the file and leaves lines and
      buffered bytes alone; with no failing device call it sends all of them unless it exits. */
  lemma AnswerSends(m: Server, n: nat, seek: bool)
    ensures var (e, m') := Answered(m, n, seek);
            var start := if seek then m.dev.fpos else 0;
            var rest := Rest(Flatten(LastN(m.dev.asm.done, n)), start);
            && m.sent <= m'.sent <= m.sent + Lines(rest)
            && (e == None && m.open && m.dev.faults == [] ==>
                  && m'.sent == m.sent + Lines(rest) && m'.dev == m.dev.(fpos := start + |rest|) && m'.open)
            && m'.dev.asm == m.dev.asm && (m.dev.faults == [] ==> m'.dev.faults == [])
            && m'.chunks == m.chunks && m'.recv.data == m.recv.data && m'.failAtEnd == m.failAtEnd
            && e in {None, Some(MemoryFailed), Some(SendFailed)}
            && (m.recv.cap > 0 && m.libc == [] && m.net == [] ==>
                  e == None && m'.recv.cap > 0 && m'.libc == [] && m'.net == [])
  {
    hide Lines, Flatten, LastN, ReadBack, Rest;
    var (b, f) := Compacted(m.recv, m.libc);
    var m1 := m.(recv := b, libc := Left(f));
    ReadBackSends(if seek then m1 else Reopened(m1), n);
    Gains(m.sent, Lines(Rest(Flatten(LastN(m.dev.asm.done, n)), if seek then m.dev.fpos else 0)));
  }

  /** No device call fails from here on, the descriptor is open and no line is half written. */
  predicate Sound(m: Server) {
    m.open && m.dev.faults == [] && m.dev.asm.pending == []
  }

  /** One turn against the specification, over such a device: a turn that goes on is exactly
      one round of it; one that exits has sent first lines of what it should, and performed
      all the round's commands or none. With nothing failing it exits only when no round is
      left. */
  lemma TurnIsRound(m: Server, n: nat, parse: Parser)
    requires NL !in m.recv.data && Sound(m)
    ensures var bs := Batches(m.recv.data, m.chunks);
            var (e, m') := Turn(m, n, parse);
            var before, after := SessionOf(m.dev), SessionOf(m'.dev);
            && m'.failAtEnd == m.failAtEnd && e != Some(Signalled) && m'.dev.faults == []
            && (e == None ==>
                  && bs != [] && bs[1..] == Batches(m'.recv.data, m'.chunks) && NL !in m'.recv.data && Sound(m')
                  && var (s, sent) := RunBatch(before, n, Commands(parse, bs[0]));
                  && after == s && m'.sent == m.sent + sent)
            && (bs == [] ==> e != None)
            && (e != None ==>
                  || (after == before && m'.sent == m.sent)
                  || (&& bs != [] && var (s, sent) := RunBatch(before, n, Commands(parse, bs[0]));
                      && m.sent <= m'.sent <= m.sent + sent && after.history == s.history))
            && (e in {Some(Closed), Some(RecvFailed)} ==> bs == [] && e.value.RecvFailed? == m.failAtEnd)
            && (m.recv.cap > 0 && m.libc == [] && m.net == [] ==>
                  && e in {None, Some(Closed), Some(RecvFailed)}
                  && m'.recv.cap > 0 && m'.libc == [] && m'.net == [])
  {
    hide Lines, Tail, Flatten, LastN, Commands, HasSeek, PerformAll, Receive, Answered, Batches, Rest, HandledAll;
    ReceiveIsBatch(m.recv, m.chunks, m.failAtEnd, m.libc);
    var (r, m1) := Filled(m);
    if r == Newline {
      var lines := Lines(m1.recv.data);
      LinesAreLines(m1.recv.data);
      HandledPerforms(m.dev, n, parse, lines);
      var d := HandledAll(true, m.dev, n, parse, lines).1;
      var m2 := m1.(dev := d, recv := m1.recv.(data := Tail(m1.recv.data)));
      AnswerSends(m2, n, HasSeek(Commands(parse, lines)));
    }
  }

  /** A whole connection against the specification, whatever allocations and sends fail: the
      client is sent first messages of what the rounds of its stream prescribe, and the device
      is left with first lines of theirs. A connection that ends because the client does has
      gone through all rounds, one that the signal ends through as many as it polled; with
      nothing failing there is no other end. */
  lemma {:induction false} RunMeans(m: Server, polls: nat, n: nat, parse: Parser)
    requires NL !in m.recv.data && Sound(m)
    ensures var bs := Batches(m.recv.data, m.chunks);
            var (e, m') := Rounds(m, polls, n, parse);
            var before, after := SessionOf(m.dev), SessionOf(m'.dev);
            var (s, sent) := RunBatches(before, n, parse, bs);
            && m.sent <= m'.sent <= m.sent + sent && after.history <= s.history && m'.dev.faults == []
            && (e in {Closed, RecvFailed} ==>
                  polls > |bs| && after == s && m'.sent == m.sent + sent && e.RecvFailed? == m.failAtEnd)
            && (e == Signalled ==>
                  && polls <= |bs|
                  && var (t, some) := RunBatches(before, n, parse, bs[..polls]);
                  && after == t && m'.sent == m.sent + some)
            && (m.recv.cap > 0 && m.libc == [] && m.net == [] ==> e in {Closed, RecvFailed, Signalled})
    decreases polls
  {
    hide Batches, RunBatch, Commands, Data, Concat, Turn;
    var bs, before := Batches(m.recv.data, m.chunks), SessionOf(m.dev);
    BatchesHistory(before, n, parse, bs);
    Nothing(m, n, parse, bs);
    if polls > 0 {
      TurnIsRound(m, n, parse);
      var (e, m') := Turn(m, n, parse);
      if bs != [] {
        var (s, first) := RunBatch(before, n, Commands(parse, bs[0]));
        var others := RunBatches(s, n, parse, bs[1..]).1;
        BatchesHistory(s, n, parse, bs[1..]);
        Assoc(m.sent, first, others);
        if e == None {
          RunMeans(m', polls - 1, n, parse);
          if polls <= |bs| {
            assert bs[..polls][1..] == bs[1..][..polls - 1];
            Assoc(m.sent, first, RunBatches(s, n, parse, bs[1..][..polls - 1]).1);
          }
        }
      }
    }
  }

  lemma Nothing(m: Server, n: nat, parse: Parser, bs: seq<seq<Bytes>>)
    ensures RunBatches(SessionOf(m.dev), n, parse, []) == (SessionOf(m.dev), []) && m.sent + [] == m.sent
    ensures m.sent <= m.sent + RunBatches(SessionOf(m.dev), n, parse, bs).1 && bs[..0] == []
  {
  }

  /** One turn under any failures, those of device calls and of the reopen included: the
      device completes first data lines of the round, all of them if the turn goes on. */
  lemma TurnStores(m: Server, n: nat, parse: Parser)
    requires NL !in m.recv.data && m.dev.asm.pending == []
    ensures var bs := Batches(m.recv.data, m.chunks);
            var (e, m') := Turn(m, n, parse);
            && m.dev.asm.done <= m'.dev.asm.done
            && (bs == [] ==> e != None && m'.dev == m.dev)
            && (bs != [] ==> m'.dev.asm.done <= m.dev.asm.done + Data(parse, bs[0]))
            && (e == None ==>
                  && m'.dev.asm == Assembly(m.dev.asm.done + Data(parse, bs[0]), [])
                  && bs[1..] == Batches(m'.recv.data, m'.chunks) && NL !in m'.recv.data)
            && (e in {Some(Closed), Some(RecvFailed)} ==> bs == [])
  {
    hide Lines, Tail, Commands, HasSeek, Receive, Answered, Batches, HandledAll, Data;
    ReceiveIsBatch(m.recv, m.chunks, m.failAtEnd, m.libc);
    var (r, m1) := Filled(m);
    if r == Newline {
      var lines := Lines(m1.recv.data);
      LinesAreLines(m1.recv.data);
      HandledStores(m.open, m.dev, n, parse, lines);
      var d := HandledAll(m.open, m.dev, n, parse, lines).1;
      var m2 := m1.(dev := d, recv := m1.recv.(data := Tail(m1.recv.data)));
      AnswerSends(m2, n, HasSeek(Commands(parse, lines)));
    }
  }

  /** Under any failures at all, from a line boundary on, the device gains first data lines of
      the client's stream, whole and in order, and all of them when the client ends the
      connection. */
  lemma {:induction false} StoredUnderFailures(m: Server, polls: nat, n: nat, parse: Parser)
    requires NL !in m.recv.data && m.dev.asm.pending == []
    ensures var data := Data(parse, Concat(Batches(m.recv.data, m.chunks)));
            var (e, m') := Rounds(m, polls, n, parse);
            && m.dev.asm.done <= m'.dev.asm.done <= m.dev.asm.done + data
            && (e in {Closed, RecvFailed} ==> m'.dev.asm.done == m.dev.asm.done + data)
    decreases polls
  {
    hide Batches, Data, Turn;
    var bs := Batches(m.recv.data, m.chunks);
    Gains(m.dev.asm.done, Data(parse, Concat(bs)));
    if polls > 0 {
      TurnStores(m, n, parse);
      var (e, m') := Turn(m, n, parse);
      if bs != [] {
        DataAppend(parse, bs[0], Concat(bs[1..]));
        Assoc(m.dev.asm.done, Data(parse, bs[0]), Data(parse, Concat(bs[1..])));
        if e == None {
          StoredUnderFailures(m', polls - 1, n, parse);
        }
      } else {
        DataNone(parse);
      }
    }
  }

  /** The end of some line, from one of its bytes on. */
  predicate IsEnd(x: Bytes, lines: seq<Bytes>) {
    exists i :: 0 <= i < |lines| && 0 < |x| <= |lines[i]| && x == lines[i][|lines[i]| - |x|..]
  }

  predicate AllEnds(sent: seq<Bytes>, lines: seq<Bytes>) {
    forall i :: 0 <= i < |sent| ==> IsEnd(sent[i], lines)
  }

  /** What is read back from any position on is cut into ends of stored lines. */
  lemma RestEnds(ls: seq<Bytes>, pos: nat)
    requires AllLines(ls)
    ensures AllEnds(Lines(Rest(Flatten(ls), pos)), ls)
  {
    hide Flatten, Lines, Sum, IsLine;
    FlattenLength(ls);
    AtExists(Lengths(ls), pos);
    if e: nat, o: nat :| At(Lengths(ls), e, o, pos) {
      SeekEcho(ls, e, o, pos);
      var sent := [ls[e][o..]] + ls[e + 1..];
      forall i | 0 <= i < |sent|
        ensures IsEnd(sent[i], ls)
      {
        var l := ls[e + i];
        assert IsLine(l);
        LineNotEmpty(l);
        assert sent[i] == l[|l| - |sent[i]|..];
      }
    } else {
      NoNewline([]);
      assert Rest(Flatten(ls), pos) == [];
    }
  }

  lemma LineNotEmpty(l: Bytes)
    requires IsLine(l)
    ensures |l| > 0
  {
  }

  lemma EndsOfNewest(done: seq<Bytes>, n: nat, pos: nat, all: seq<Bytes>)
    requires AllLines(done) && done <= all
    ensures AllEnds(Lines(Rest(Flatten(LastN(done, n)), pos)), all)
  {
    hide Flatten, Lines, IsLine, Rest;
    var ls := LastN(done, n);
    RestEnds(ls, pos);
    var sent := Lines(Rest(Flatten(ls), pos));
    forall i | 0 <= i < |sent|
      ensures IsEnd(sent[i], all)
    {
      var j :| 0 <= j < |ls| && 0 < |sent[i]| <= |ls[j]| && sent[i] == ls[j][|ls[j]| - |sent[i]|..];
      assert ls[j] == all[|done| - |ls| + j];
    }
  }

  lemma EndsJoin(a: seq<Bytes>, b: seq<Bytes>, sent: seq<Bytes>, all: seq<Bytes>)
    requires AllEnds(a, all) && AllEnds(b, all) && sent <= a + b
    ensures AllEnds(sent, all)
  {
    forall i | 0 <= i < |sent|
      ensures IsEnd(sent[i], all)
    {
      assert sent[i] == (a + b)[i];
    }
  }

  lemma {:induction false} DataAreLines(parse: Parser, lines: seq<Bytes>)
    requires AllLines(lines)
    ensures AllLines(Data(parse, lines))
  {
    if lines != [] {
      DataAreLines(parse, lines[..|lines| - 1]);
    }
  }

  lemma TurnSends(m: Server, n: nat, parse: Parser, all: seq<Bytes>)
    requires NL !in m.recv.data && m.dev.asm.pending == [] && AllLines(m.dev.asm.done)
    requires m.dev.asm.done + Data(parse, Concat(Batches(m.recv.data, m.chunks))) == all && AllEnds(m.sent, all)
    ensures var (e, m') := Turn(m, n, parse);
            AllEnds(m'.sent, all) && (e == None ==> AllLines(m'.dev.asm.done))
  {
    hide Lines, Tail, Commands, HasSeek, Receive, Answered, Batches, HandledAll, Data, AllEnds, IsLine, Flatten, LastN,
      Rest;
    ReceiveIsBatch(m.recv, m.chunks, m.failAtEnd, m.libc);
    var (r, m1) := Filled(m);
    if r == Newline {
      var lines := Lines(m1.recv.data);
      LinesAreLines(m1.recv.data);
      HandledStores(m.open, m.dev, n, parse, lines);
      DataAreLines(parse, lines);
      DataAppend(parse, lines, Concat(Batches(Tail(m1.recv.data), m1.chunks)));
      var (ok, d) := HandledAll(m.open, m.dev, n, parse, lines);
      if ok {
        var m2 := m1.(dev := d, recv := m1.recv.(data := Tail(m1.recv.data)));
        var seek := HasSeek(Commands(parse, lines));
        AnswerSends(m2, n, seek);
        var start := if seek then d.fpos else 0;
        FrontOf(m.dev.asm.done, Data(parse, lines), Data(parse, Concat(Batches(Tail(m1.recv.data), m1.chunks))));
        EndsOfNewest(d.asm.done, n, start, all);
        EndsJoin(m.sent, Lines(Rest(Flatten(LastN(d.asm.done, n)), start)), Answered(m2, n, seek).1.sent, all);
      }
    }
  }

  lemma FrontOf(a: seq<Bytes>, b: seq<Bytes>, c: seq<Bytes>)
    ensures a + b <= a + (b + c)
    ensures AllLines(a) && AllLines(b) ==> AllLines(a + b)
  {
  }

  /** Under any failures at all every message sent is the end of a line that was on the device
      before or of a data line of the client's stream. */
  lemma {:induction false} SentUnderFailures(m: Server, polls: nat, n: nat, parse: Parser, all: seq<Bytes>)
    requires NL !in m.recv.data && m.dev.asm.pending == [] && AllLines(m.dev.asm.done)
    requires m.dev.asm.done + Data(parse, Concat(Batches(m.recv.data, m.chunks))) == all && AllEnds(m.sent, all)
    ensures AllEnds(Rounds(m, polls, n, parse).1.sent, all)
    decreases polls
  {
    hide Batches, Data, Turn, AllEnds, IsLine;
    if polls > 0 {
      var bs := Batches(m.recv.data, m.chunks);
      TurnSends(m, n, parse, all);
      TurnStores(m, n, parse);
      var (e, m') := Turn(m, n, parse);
      if e == None {
        DataAppend(parse, bs[0], Concat(bs[1..]));
        Assoc(m.dev.asm.done, Data(parse, bs[0]), Data(parse, Concat(bs[1..])));
        SentUnderFailures(m', polls - 1, n, parse, all);
      }
    }
  }

  lemma Gains(done: seq<Bytes>, data: seq<Bytes>)
    ensures done <= done + data && done + [] == done
  {
  }

  lemma DataNone(parse: Parser)
    ensures Data(parse, Concat([])) == []
  {
  }

  lemma {:induction false} ReceiveBlames(b: Buf, chunks: seq<Bytes>, failAtEnd: bool, f: seq<bool>)
    ensures var (r, _, _, left) := Receive(b, chunks, failAtEnd, f);
            if r == OutOfMemory then Blamed(f, left) else Clean(f, left)
    decreases |chunks|
  {
    hide Clean, Blamed, Grow;
    OneCall(f);
    if chunks != [] {
      var (a, b', left) := AppendOf(b, chunks[0], f);
      GrowBlames(b.cap, |b.data| + |chunks[0]|, f);
      if a == Appended && NL !in chunks[0] {
        ReceiveBlames(b', chunks[1..], failAtEnd, left);
        MoreCalls(f, left, Receive(b', chunks[1..], failAtEnd, left).3);
      }
    }
  }

  /** A write of a drained line goes on if and only if there is a descriptor and none of its
      calls fails; a seek line always goes on and changes no line. */
  lemma HandledBlames(open: bool, d: DM.Machine, n: nat, parse: Parser, line: Bytes)
    ensures var (ok, d') := Handled(open, d, n, parse, line);
            && (parse(line) == None ==> (ok <==> open && Clean(d.faults, d'.faults)))
            && (parse(line) == None && open && !ok ==> Blamed(d.faults, d'.faults))
            && (parse(line) != None ==> ok && d'.asm == d.asm)
  {
    hide EndOf, Clean, Blamed;
    EndBlames(line, d.faults);
    match parse(line) {
      case Some(seek) => SeekKeepsLines(d, n, seek);
      case None =>
    }
  }

  lemma StepBlames(r: Echo)
    requires r.rest != [] && r.held.cap > 0
    ensures var (e, r') := EchoStep(r);
            && (if e == Some(MemoryFailed) then Blamed(r.libc, r'.libc) else Clean(r.libc, r'.libc))
            && (if e == Some(SendFailed) then Blamed(r.net, r'.net) else Clean(r.net, r'.net))
            && (e == None ==> r'.held.cap > 0)
  {
    hide Clean, Blamed, Grow;
    var (a, held, left) := AppendOf(r.held, r.rest[..1], r.libc);
    GrowBlames(r.held.cap, |r.held.data| + 1, r.libc);
    DivergesExactly(r.held.cap, |r.held.data| + 1, r.libc);
    OneCall(r.net);
    OneCall(left);
    if a == Appended {
      MoreCalls(r.libc, left, Left(left));
    }
  }

  /** The read-back loop exits at the first allocation or send that fails, and only there; it
      ends before the end of the file only at a read that fails. */
  lemma {:induction false} EchoBlames(r: Echo)
    requires r.held.cap > 0
    ensures var (e, r') := EchoAll(r);
            && (if e == Some(MemoryFailed) then Blamed(r.libc, r'.libc) else Clean(r.libc, r'.libc))
            && (if e == Some(SendFailed) then Blamed(r.net, r'.net) else Clean(r.net, r'.net))
            && (e != None ==> Clean(r.disk, r'.disk))
            && (e == None && r'.rest != [] ==> Blamed(r.disk, r'.disk))
    decreases |r.rest|
  {
    hide Clean, Blamed, EchoStep;
    var (end, left) := ReadEndOf(|r.rest|, 0, 1, r.disk);
    ReadBlames(|r.rest|, 0, 1, r.disk);
    OneCall(r.libc);
    OneCall(r.net);
    if end.Delivered? {
      var r1 := r.(disk := left);
      var (e, r') := EchoStep(r1);
      EchoTakes(r1);
      StepBlames(r1);
      if e == None {
        EchoBlames(r');
        var r'' := EchoAll(r').1;
        MoreCalls(r.libc, r'.libc, r''.libc);
        MoreCalls(r.net, r'.net, r''.net);
        MoreCalls(r.disk, r'.disk, r''.disk);
      }
    }
  }

  lemma ReadBackBlames(m: Server, n: nat)
    ensures var (e, m') := ReadBack(m, n);
            && (if e == Some(MemoryFailed) then Blamed(m.libc, m'.libc) else Clean(m.libc, m'.libc))
            && (if e == Some(SendFailed) then Blamed(m.net, m'.net) else Clean(m.net, m'.net))
            && e in {None, Some(MemoryFailed), Some(SendFailed)}
  {
    hide Clean, Blamed, EchoAll, Flatten, LastN, Rest;
    OneCall(m.libc);
    OneCall(m.net);
    EchoBlames(Echo(Rest(Flatten(LastN(m.dev.asm.done, n)), m.dev.fpos), EMPTY, m.sent, m.libc, m.net, m.dev.faults));
  }

  lemma AnswerBlames(m: Server, n: nat, seek: bool)
    ensures var (e, m') := Answered(m, n, seek);
            var f := if m.recv.data == [] then Left(m.libc) else m.libc;
            && (if e == Some(MemoryFailed) then Blamed(f, m'.libc) else Clean(f, m'.libc))
            && (if e == Some(SendFailed) then Blamed(m.net, m'.net) else Clean(m.net, m'.net))
            && e in {None, Some(MemoryFailed), Some(SendFailed)}
  {
    hide Clean, Blamed, ReadBack;
    var (b, f) := Compacted(m.recv, m.libc);
    var m1 := m.(recv := b, libc := Left(f));
    var m2 := if seek then m1 else Reopened(m1);
    OneCall(f);
    OneCall(m.net);
    ReadBackBlames(m2, n);
    if !Fails(f) {
      MoreCalls(f, Left(f), ReadBack(m2, n).1.libc);
    }
  }

  /** A turn exits for want of memory at the first failing allocation it looks at and only
      there, the one of the compaction not being looked at, and likewise for a send. */
  lemma TurnBlames(m: Server, n: nat, parse: Parser)
    ensures var (e, m') := Turn(m, n, parse);
            var (r, m1) := Filled(m);
            var f := if Tail(m1.recv.data) == [] then Left(m1.libc) else m1.libc;
            && (if r == OutOfMemory then Blamed(m.libc, m1.libc) else Clean(m.libc, m1.libc))
            && (r == OutOfMemory ==> e == Some(MemoryFailed)) && e != Some(Signalled)
            && (e == Some(DeviceFailed) <==>
                  r == Newline && !HandledAll(m1.open, m1.dev, n, parse, Lines(m1.recv.data)).0)
            && (r != Newline ==> m' == m1 && (e == Some(MemoryFailed) ==> r == OutOfMemory))
            && (r == Newline && e != Some(DeviceFailed) ==>
                  if e == Some(MemoryFailed) then Blamed(f, m'.libc) else Clean(f, m'.libc))
            && (if e == Some(SendFailed) then Blamed(m.net, m'.net) else Clean(m.net, m'.net))
  {
    hide Clean, Blamed, Receive, Answered, HandledAll, Lines, Tail, HasSeek, Commands;
    ReceiveBlames(m.recv, m.chunks, m.failAtEnd, m.libc);
    OneCall(m.net);
    var (r, m1) := Filled(m);
    var lines := Lines(m1.recv.data);
    var d := HandledAll(m1.open, m1.dev, n, parse, lines).1;
    var unread := m1.recv.(data := Tail(m1.recv.data));
    AnswerBlames(m1.(dev := d, recv := unread), n, HasSeek(Commands(parse, lines)));
  }

  /** A connection ends with a failed send exactly when a send has failed, its last. */
  lemma {:induction false} RunBlames(m: Server, polls: nat, n: nat, parse: Parser)
    ensures var (e, m') := Rounds(m, polls, n, parse);
            if e == SendFailed then Blamed(m.net, m'.net) else Clean(m.net, m'.net)
    decreases polls
  {
    hide Clean, Blamed, Turn;
    OneCall(m.net);
    if polls > 0 {
      TurnBlames(m, n, parse);
      var (e, m') := Turn(m, n, parse);
      if e == None {
        RunBlames(m', polls - 1, n, parse);
        MoreCalls(m.net, m'.net, Rounds(m', polls - 1, n, parse).1.net);
      }
    }
  }

  /** The state after k rounds, unless the connection has ended before. */
  function AfterRounds(m: Server, k: nat, n: nat, parse: Parser): Option<Server>
    decreases k
  {
    if k == 0 then Some(m)
    else
      var (e, m') := Turn(m, n, parse);
      if e == None then AfterRounds(m', k - 1, n, parse) else None
  }

  /** In this round the received bytes end in a newline and the second initialisation of the
      receive vector, whose result the server does not look at, fails. */
  predicate DropsBuffer(m: Server) {
    var (r, m') := Filled(m);
    r == Newline && Tail(m'.recv.data) == [] && Fails(m'.libc)
  }

  /** Such a round is over, the client sends on, and no allocation to come fails. */
  predicate Hangs(m: Server) {
    m.recv.cap == 0 && m.chunks != [] && true !in m.libc
  }

  predicate HangsAfter(m: Server, k: nat, n: nat, parse: Parser) {
    var s, t := AfterRounds(m, k, n, parse), AfterRounds(m, k + 1, n, parse);
    s.Some? && t.Some? && DropsBuffer(s.value) && t.value.chunks != [] && true !in t.value.libc
  }

  predicate Wellformed(m: Server) {
    && (forall i :: 0 <= i < |m.chunks| ==> |m.chunks[i]| > 0)
    && NL !in m.recv.data && |m.recv.data| <= m.recv.cap
  }

  /** The receive loop gets stuck exactly on a vector that is not initialised. */
  lemma {:induction false} StuckExactly(m: Server)
    requires Wellformed(m)
    ensures var (r, m') := Filled(m);
            && (r == Stuck <==> Hangs(m))
            && (m.recv.cap == 0 ==> r != Newline) && (m.recv.cap > 0 <==> m'.recv.cap > 0)
            && |m'.recv.data| <= m'.recv.cap && (forall i :: 0 <= i < |m'.chunks| ==> |m'.chunks[i]| > 0)
    decreases |m.chunks|
  {
    if m.chunks != [] {
      var (a, b, left) := AppendOf(m.recv, m.chunks[0], m.libc);
      DivergesExactly(m.recv.cap, |m.recv.data| + |m.chunks[0]|, m.libc);
      if a == Appended && NL !in m.chunks[0] {
        StuckExactly(m.(recv := b, chunks := m.chunks[1..], libc := left));
      }
    }
  }

  lemma TurnHangs(m: Server, n: nat, parse: Parser)
    requires Wellformed(m)
    ensures var (e, m') := Turn(m, n, parse);
            && (e == Some(Hung) <==> Hangs(m))
            && (m.recv.cap == 0 ==> e != None && !DropsBuffer(m))
            && (e == None ==> Wellformed(m') && (m'.recv.cap == 0 <==> DropsBuffer(m)))
  {
    hide Lines, Flatten, LastN, Commands, HasSeek, HandledAll, Receive, EchoAll, Rest, Hangs;
    StuckExactly(m);
    var (r, m1) := Filled(m);
    LinesAreLines(m1.recv.data);
    TailShorter(m1.recv.data);
  }

  lemma {:induction false} TailShorter(s: Bytes)
    ensures |Tail(s)| <= |s|
  {
    if s != [] {
      TailShorter(s[..|s| - 1]);
    }
  }

  lemma HangsLater(m: Server, n: nat, parse: Parser, k: nat)
    requires Wellformed(m) && Turn(m, n, parse).0 == None
    ensures var m' := Turn(m, n, parse).1;
            && (HangsAfter(m, 0, n, parse) <==> Hangs(m'))
            && (HangsAfter(m, k + 1, n, parse) <==> HangsAfter(m', k, n, parse))
  {
    hide Turn, DropsBuffer;
    TurnHangs(m, n, parse);
    var m' := Turn(m, n, parse).1;
    assert AfterRounds(m', 0, n, parse) == Some(m') == AfterRounds(m, 1, n, parse);
    assert AfterRounds(m, k + 1, n, parse) == AfterRounds(m', k, n, parse);
    assert AfterRounds(m, k + 2, n, parse) == AfterRounds(m', k + 1, n, parse);
  }

  lemma HangsNever(m: Server, n: nat, parse: Parser, k: nat)
    requires Turn(m, n, parse).0 != None
    ensures !HangsAfter(m, k, n, parse)
  {
  }

  /** A connection hangs if and only if in some round the unchecked second initialisation
      fails, a later chunk arrives, and no allocation after that fails. */
  lemma {:induction false} HungExactly(m: Server, polls: nat, n: nat, parse: Parser)
    requires Wellformed(m)
    ensures Rounds(m, polls, n, parse).0 == Hung <==>
              || (polls > 0 && Hangs(m))
              || exists k: nat :: k + 1 < polls && HangsAfter(m, k, n, parse)
    decreases polls
  {
    hide Turn, HangsAfter, Hangs, Wellformed;
    if polls > 0 {
      TurnHangs(m, n, parse);
      var (e, m') := Turn(m, n, parse);
      if e == None {
        HungExactly(m', polls - 1, n, parse);
        HangsLater(m, n, parse, 0);
        if k: nat :| k + 1 < polls && HangsAfter(m, k, n, parse) {
          if k > 0 {
            HangsLater(m, n, parse, k - 1);
            assert (k - 1) + 1 < polls - 1;
          }
        }
        if k: nat :| k + 1 < polls - 1 && HangsAfter(m', k, n, parse) {
          HangsLater(m, n, parse, k);
          assert (k + 1) + 1 < polls;
        }
        if polls > 1 && Hangs(m') {
          var k: nat := 0;
          assert k + 1 < polls && HangsAfter(m, k, n, parse);
        }
      } else {
        forall k: nat
          ensures !HangsAfter(m, k, n, parse)
        {
          HangsNever(m, n, parse, k);
        }
      }
    }
  }

  /** The same for a whole connection, from its first allocation on. */
  lemma ServeHangs(m: Server, polls: nat, n: nat, parse: Parser)
    requires m.recv == CLOSED && Wellformed(m)
    ensures var m' := m.(recv := EMPTY, libc := Left(m.libc));
            Serve(m, polls, n, parse).0 == Hung <==>
              !Fails(m.libc) && exists k: nat :: k + 1 < polls && HangsAfter(m', k, n, parse)
  {
    hide Rounds, HangsAfter;
    HungExactly(m.(recv := EMPTY, libc := Left(m.libc)), polls, n, parse);
  }

  /** A client whose first chunk is one newline and whose second chunk is any other byte
      hangs its thread when the second allocation fails and the later ones do not. */
  lemma HungRun(n: nat, parse: Parser, polls: nat)
    requires polls > 1
    ensures var dev := DM.Machine([], Assembly([], []), false, 0);
            var m := Server(CLOSED, [[10], [120]], false, dev, true, [], [false, true], []);
            Serve(m, polls, n, parse).0 == Hung
  {
    hide Lines, LastN, Flatten, EchoAll, HandledAll, Commands, HasSeek, Rest;
    var dev := DM.Machine([], Assembly([], []), false, 0);
    var m := Server(EMPTY, [[10], [120]], false, dev, true, [], [true], []);
    var (r, m1) := Filled(m);
    assert m1 == m.(recv := Buf([] + [10], VECTOR_BASE_SIZE), chunks := [[120]]);
    assert Tail([] + [10]) == [];
    var lines := Lines(m1.recv.data);
    LinesAreLines(m1.recv.data);
    HandledPerforms(dev, n, parse, lines);
    var d := HandledAll(true, dev, n, parse, lines).1;
    var start := if HasSeek(Commands(parse, lines)) then d.fpos else 0;
    EchoSends(Echo(Rest(Flatten(LastN(d.asm.done, n)), start), EMPTY, [], [], [], []));
    assert HangsAfter(m, 0, n, parse);
    ServeHangs(m.(recv := CLOSED, libc := [false, true]), polls, n, parse);
  }

  /** Every NUL that ends a line of this buffer is inside it. */
  predicate NulsInside(b: Buf) {
    !(|b.data| == b.cap > 0 && b.data[|b.data| - 1] == NL)
  }

  /** The NUL that ends a line for the pattern match stays inside the receive vector, for
      every line of a round, unless the bytes fill the vector and end in a newline. */
  lemma NulByteInside(b: Buf)
    requires |b.data| <= b.cap
    ensures (forall at :: 0 <= at < |b.data| && b.data[at] == NL ==> at + 1 < b.cap)
       <==> NulsInside(b)
  {
  }

  /** Chunks that fit the vector are received one behind the other up to the first newline. */
  lemma {:induction false} ReceivesWithin(b: Buf, chunks: seq<Bytes>, last: Bytes, failAtEnd: bool, f: seq<bool>)
    requires |b.data| + |Flatten(chunks)| + |last| <= b.cap
    requires NL in last && forall i :: 0 <= i < |chunks| ==> NL !in chunks[i]
    ensures Receive(b, chunks + [last], failAtEnd, f) == (Newline, Buf(b.data + Flatten(chunks) + last, b.cap), [], f)
    decreases |chunks|
  {
    ReceiveStep(b, chunks + [last], failAtEnd, f);
    if chunks == [] {
      assert chunks + [last] == [last] && b.data + Flatten(chunks) == b.data;
    } else {
      assert (chunks + [last])[1..] == chunks[1..] + [last];
      ReceivesWithin(Buf(b.data + chunks[0], b.cap), chunks[1..], last, failAtEnd, f);
      Assoc(b.data, chunks[0], Flatten(chunks[1..]));
    }
  }

  /** Such a round can come about: twenty whole chunks without a newline and then 96 bytes
      that end in one fill the vector of the base size. */
  lemma FullVectorRun(full: seq<Bytes>, last: Bytes, failAtEnd: bool, f: seq<bool>)
    requires |full| == 20 && |last| == 96 && IsLine(last)
    requires forall i :: 0 <= i < |full| ==> |full[i]| == 200 && NL !in full[i]
    ensures var (r, b, _, _) := Receive(EMPTY, full + [last], failAtEnd, f);
            r == Newline && !NulsInside(b)
  {
    SameLength(full, 200);
    ReceivesWithin(EMPTY, full, last, failAtEnd, f);
  }

  lemma {:induction false} SameLength(ls: seq<Bytes>, k: nat)
    requires forall i :: 0 <= i < |ls| ==> |ls[i]| == k
    ensures |Flatten(ls)| == |ls| * k
  {
    if ls != [] {
      SameLength(ls[1..], k);
    }
  }
}
