/** Many clients at once: a transition system whose steps are one client's recv, one
    client's drained line (its write is atomic under the file mutex), the close and the
    reopen of the shared descriptor after a round (neither under the mutex), or a stop. */
module Interleaving {
  import opened Text
  import opened LineAssembly
  import opened Framing

  type Id = nat

  /** A client thread: everything received, the lines drained from it, and the buffer. */
  datatype Client = Client(received: Bytes, drained: seq<Bytes>, buf: Bytes, live: bool)

  /** What the number in data_file.fd names: the device, nothing between a close and a
      reopen, or, if a connection is accepted just then and gets the number, its socket. */
  datatype Descriptor = OnDevice | OnNothing | OnSocket

  /** A write that returned a count: by whom, of which line, and whether it went astray. */
  datatype Write = Write(writer: Id, line: Bytes, stray: bool)

  /** log has every such write; dev is what the driver makes of those that reach it. */
  datatype State = State(clients: map<Id, Client>, fd: Descriptor, log: seq<Write>, dev: Assembly)

  datatype Step =
    | Connect(c: Id, sameNumber: bool)
    | Receive(c: Id, chunk: Bytes)
    | Drain(c: Id)
    | Close(c: Id)
    | Reopen(c: Id)
    | Stop(c: Id)

  const INIT := State(map[], OnDevice, [], Assembly([], []))

  /** A step that is not enabled leaves the state as it is: a thread receives and reopens
      while its buffer has no newline and drains while it has one. */
  function Exec(parse: Parser, s: State, step: Step): State {
    if step.Connect? then
      if step.c in s.clients then s
      else s.(clients := s.clients[step.c := Client([], [], [], true)],
              fd := if s.fd == OnNothing && step.sameNumber then OnSocket else s.fd)
    else if step.c !in s.clients || !s.clients[step.c].live then s
    else
      var cl := s.clients[step.c];
      match step
      case Stop(c) => s.(clients := s.clients[c := cl.(live := false)])
      case Receive(c, chunk) =>
        if NL in cl.buf then s
        else s.(clients := s.clients[c := cl.(received := cl.received + chunk, buf := cl.buf + chunk)])
      case Close(c) => if NL in cl.buf then s else s.(fd := OnNothing)
      case Reopen(c) => if NL in cl.buf then s else s.(fd := OnDevice)
      case Drain(c) => if NL in cl.buf then DrainLine(parse, s, c) else s
  }

  /** A seek line goes to the ioctl, whose failure is not looked at. A data line is written:
      on no descriptor this fails and ends the thread, on a socket it succeeds. */
  function DrainLine(parse: Parser, s: State, c: Id): State
    requires c in s.clients && NL in s.clients[c].buf
  {
    var cl := s.clients[c];
    var k := FirstNL(cl.buf);
    var line := cl.buf[..k + 1];
    var s1 := s.(clients := s.clients[c := cl.(drained := cl.drained + [line], buf := cl.buf[k + 1..])]);
    if parse(line).Some? then s1
    else if s.fd == OnNothing then s.(clients := s.clients[c := cl.(live := false)])
    else s1.(log := s.log + [Write(c, line, s.fd == OnSocket)],
             dev := if s.fd == OnSocket then s.dev else Absorb(s.dev, line))
  }

  function FirstNL(s: Bytes): (k: nat)
    requires NL in s
    ensures k < |s| && s[k] == NL && NL !in s[..k]
  {
    if s[0] == NL then 0
    else
      assert s == [s[0]] + s[1..];
      var k := 1 + FirstNL(s[1..]);
      assert s[..k] == [s[0]] + s[1..][..k - 1];
      k
  }

  function Run(parse: Parser, steps: seq<Step>): State {
    if steps == [] then INIT else Exec(parse, Run(parse, steps[..|steps| - 1]), steps[|steps| - 1])
  }

  /** The lines a client has written, wherever they went. */
  function Writes(log: seq<Write>, c: Id): seq<Bytes> {
    if log == [] then []
    else
      var before, last := log[..|log| - 1], log[|log| - 1];
      if last.writer == c then Writes(before, c) + [last.line] else Writes(before, c)
  }

  /** The writes that reached the device. */
  function Reached(log: seq<Write>): seq<Write> {
    if log == [] then []
    else
      var before, last := log[..|log| - 1], log[|log| - 1];
      if last.stray then Reached(before) else Reached(before) + [last]
  }

  function LinesOf(log: seq<Write>): seq<Bytes> {
    seq(|log|, i requires 0 <= i < |log| => log[i].line)
  }

  predicate NoStrays(log: seq<Write>, c: Id) {
    forall i :: 0 <= i < |log| && log[i].writer == c ==> !log[i].stray
  }

  /** One client's view: its buffer is what it received minus what it drained, and its
      writes are the data lines it drained, in order. */
  predicate ClientOk(parse: Parser, cl: Client, c: Id, log: seq<Write>) {
    && cl.received == Flatten(cl.drained) + cl.buf
    && AllLines(cl.drained)
    && Writes(log, c) == Data(parse, cl.drained)
  }

  /** The device has only ever seen whole lines, one write each. */
  predicate Ok(parse: Parser, s: State) {
    && (forall c :: c in s.clients ==> ClientOk(parse, s.clients[c], c, s.log))
    && (forall i :: 0 <= i < |s.log| ==> s.log[i].writer in s.clients && IsLine(s.log[i].line))
    && s.dev == Assembly(LinesOf(Reached(s.log)), [])
  }

  lemma WritesSnoc(log: seq<Write>, w: Write, d: Id)
    ensures Writes(log + [w], d) == if w.writer == d then Writes(log, d) + [w.line] else Writes(log, d)
    ensures Reached(log + [w]) == if w.stray then Reached(log) else Reached(log) + [w]
  {
  }

  lemma {:induction false} WritesNone(log: seq<Write>, c: Id)
    requires forall i :: 0 <= i < |log| ==> log[i].writer != c
    ensures Writes(log, c) == []
  {
    if log != [] {
      WritesNone(log[..|log| - 1], c);
    }
  }

  lemma CutLine(buf: Bytes)
    requires NL in buf
    ensures var k := FirstNL(buf);
            IsLine(buf[..k + 1]) && buf == buf[..k + 1] + buf[k + 1..]
  {
  }

  /** Handling the first line of a client's buffer keeps the client's own account. */
  lemma DrainClient(parse: Parser, s: State, c: Id)
    requires Ok(parse, s) && c in s.clients && NL in s.clients[c].buf
    ensures var s' := DrainLine(parse, s, c);
            ClientOk(parse, s'.clients[c], c, s'.log)
    ensures IsLine(s.clients[c].buf[..FirstNL(s.clients[c].buf) + 1])
  {
    hide Data, Writes, Reached, Absorb, FirstNL, Flatten, LinesOf, IsLine;
    var cl := s.clients[c];
    var k := FirstNL(cl.buf);
    var line, rest := cl.buf[..k + 1], cl.buf[k + 1..];
    CutLine(cl.buf);
    FlattenSnoc(cl.drained, line);
    Assoc(Flatten(cl.drained), line, rest);
    DataSnoc(parse, cl.drained, line);
    WritesSnoc(s.log, Write(c, line, s.fd == OnSocket), c);
  }

  /** The write of one client's line is nothing in any other client's account. */
  lemma DrainOthers(parse: Parser, s: State, c: Id, d: Id)
    requires Ok(parse, s) && c in s.clients && NL in s.clients[c].buf && d in s.clients && d != c
    ensures var s' := DrainLine(parse, s, c);
            d in s'.clients && ClientOk(parse, s'.clients[d], d, s'.log)
  {
  }

  /** A whole line that reaches the device is a whole line completed there; a stray one is
      nothing to it. */
  lemma DrainDevice(log: seq<Write>, dev: Assembly, w: Write)
    requires dev == Assembly(LinesOf(Reached(log)), []) && IsLine(w.line)
    ensures Assembly(LinesOf(Reached(log + [w])), []) == if w.stray then dev else Absorb(dev, w.line)
  {
    hide Absorb, Lines, Tail, Reached, LinesOf, IsLine;
    WholeLine(dev.done, w.line);
    WritesSnoc(log, w, w.writer);
    LinesOfSnoc(Reached(log), w);
  }

  lemma LinesOfSnoc(log: seq<Write>, w: Write)
    ensures LinesOf(log + [w]) == LinesOf(log) + [w.line]
  {
  }

  lemma DrainKeepsOk(parse: Parser, s: State, c: Id)
    requires Ok(parse, s) && c in s.clients && NL in s.clients[c].buf
    ensures Ok(parse, DrainLine(parse, s, c))
  {
    hide LinesOf, Reached, Absorb, Data, Flatten, IsLine, FirstNL, ClientOk;
    var s' := DrainLine(parse, s, c);
    DrainClient(parse, s, c);
    DrainDevice(s.log, s.dev, Write(c, s.clients[c].buf[..FirstNL(s.clients[c].buf) + 1], s.fd == OnSocket));
    forall d | d in s'.clients
      ensures ClientOk(parse, s'.clients[d], d, s'.log)
    {
      if d != c {
        DrainOthers(parse, s, c, d);
      }
    }
  }

  lemma StepKeepsOk(parse: Parser, s: State, step: Step)
    requires Ok(parse, s)
    ensures Ok(parse, Exec(parse, s, step))
  {
    match step {
      case Connect(c, _) =>
        if c !in s.clients {
          WritesNone(s.log, c);
        }
      case Stop(c) =>
      case Close(c) =>
      case Reopen(c) =>
      case Receive(c, chunk) =>
        if c in s.clients {
          Assoc(Flatten(s.clients[c].drained), s.clients[c].buf, chunk);
        }
      case Drain(c) =>
        if c in s.clients && s.clients[c].live && NL in s.clients[c].buf {
          DrainKeepsOk(parse, s, c);
        }
    }
  }

  lemma RunSnoc(parse: Parser, steps: seq<Step>, step: Step)
    ensures Run(parse, steps + [step]) == Exec(parse, Run(parse, steps), step)
  {
  }

  lemma {:induction false} RunKeepsOk(parse: Parser, steps: seq<Step>)
    ensures Ok(parse, Run(parse, steps))
  {
    if steps != [] {
      RunKeepsOk(parse, steps[..|steps| - 1]);
      StepKeepsOk(parse, Run(parse, steps[..|steps| - 1]), steps[|steps| - 1]);
    }
  }

  /** A client's stream under a schedule: the chunks of its Receive steps, in order, that
      come while it is connected, running and done draining. */
  function Stream(parse: Parser, steps: seq<Step>, c: Id): Bytes {
    if steps == [] then []
    else
      var before, last := steps[..|steps| - 1], steps[|steps| - 1];
      var s := Run(parse, before);
      if last.Receive? && last.c == c && c in s.clients && s.clients[c].live && NL !in s.clients[c].buf
      then Stream(parse, before, c) + last.chunk
      else Stream(parse, before, c)
  }

  lemma {:induction false} ReceivedIsStream(parse: Parser, steps: seq<Step>, c: Id)
    ensures c in Run(parse, steps).clients ==> Run(parse, steps).clients[c].received == Stream(parse, steps, c)
    ensures c !in Run(parse, steps).clients ==> Stream(parse, steps, c) == []
  {
    hide FirstNL, Absorb;
    if steps != [] {
      ReceivedIsStream(parse, steps[..|steps| - 1], c);
    }
  }

  /** For any number of clients, any chunking and any interleaving, also with writes between
      a close and a reopen: the device's completed lines are the writes that reached it and
      nothing is half written; each client's writes are, in order, a prefix of the data lines
      of its stream, and all of them once its buffer holds no newline. */
  lemma AnyInterleaving(parse: Parser, steps: seq<Step>, c: Id)
    ensures var s := Run(parse, steps);
            && s.dev == Assembly(LinesOf(Reached(s.log)), [])
            && (c in s.clients ==>
                  && Writes(s.log, c) <= Data(parse, Lines(Stream(parse, steps, c)))
                  && (NL !in s.clients[c].buf ==>
                        Writes(s.log, c) == Data(parse, Lines(Stream(parse, steps, c)))))
  {
    RunKeepsOk(parse, steps);
    ReceivedIsStream(parse, steps, c);
    hide Run, Stream;
    var s := Run(parse, steps);
    if c in s.clients {
      var cl := s.clients[c];
      SplitUnique(cl.drained, []);
      assert Flatten(cl.drained) + [] == Flatten(cl.drained);
      LinesAppend(Flatten(cl.drained), cl.buf);
      Whole(cl.buf);
      DataAppend(parse, cl.drained, Lines(cl.buf));
      if NL !in cl.buf {
        NoNewline(cl.buf);
      }
    }
  }

  lemma {:induction false} StraysAreLost(log: seq<Write>, c: Id)
    ensures Writes(Reached(log), c) == Writes(log, c) <==> NoStrays(log, c)
    ensures |Writes(Reached(log), c)| == |Writes(log, c)| <==> NoStrays(log, c)
    ensures |Writes(Reached(log), c)| <= |Writes(log, c)|
  {
    hide NoStrays, Writes, Reached;
    if log == [] {
      NoWrites(c);
    } else {
      var before, last := log[..|log| - 1], log[|log| - 1];
      StraysAreLost(before, c);
      WritesSnoc(before, last, c);
      WritesSnoc(Reached(before), last, c);
      NoStraysSnoc(before, last, c);
      SameSnoc(Writes(Reached(before), c), Writes(before, c), last.line);
      assert log == before + [last];
    }
  }

  lemma NoWrites(c: Id)
    ensures Writes([], c) == [] && Reached([]) == [] && NoStrays([], c)
  {
  }

  lemma SameSnoc(a: seq<Bytes>, b: seq<Bytes>, x: Bytes)
    ensures a + [x] == b + [x] <==> a == b
    ensures |a| < |b| ==> a != b + [x]
  {
    assert (a + [x])[..|a|] == a && (b + [x])[..|b|] == b;
  }

  lemma NoStraysSnoc(log: seq<Write>, w: Write, c: Id)
    ensures NoStrays(log + [w], c) <==> NoStrays(log, c) && (w.writer == c ==> !w.stray)
  {
    assert (log + [w])[|log|] == w;
    assert forall i :: 0 <= i < |log| ==> (log + [w])[i] == log[i];
  }

  /** The step writes a data line of client c while the shared descriptor names a socket. */
  predicate Astray(parse: Parser, s: State, step: Step, c: Id) {
    && step == Drain(c) && c in s.clients && s.clients[c].live && s.fd == OnSocket
    && var buf := s.clients[c].buf;
    && NL in buf && parse(buf[..FirstNL(buf) + 1]).None?
  }

  /** A schedule in which no step of client c is such. */
  predicate Safe(parse: Parser, steps: seq<Step>, c: Id) {
    steps == []
    || (&& Safe(parse, steps[..|steps| - 1], c)
        && !Astray(parse, Run(parse, steps[..|steps| - 1]), steps[|steps| - 1], c))
  }

  lemma StepStrays(parse: Parser, s: State, step: Step, c: Id)
    ensures NoStrays(Exec(parse, s, step).log, c) <==> NoStrays(s.log, c) && !Astray(parse, s, step, c)
  {
    hide FirstNL, Absorb, NoStrays;
    if step.Drain? && step.c in s.clients && s.clients[step.c].live && NL in s.clients[step.c].buf {
      var buf := s.clients[step.c].buf;
      NoStraysSnoc(s.log, Write(step.c, buf[..FirstNL(buf) + 1], s.fd == OnSocket), c);
    }
  }

  lemma {:induction false} SafeIsNoStrays(parse: Parser, steps: seq<Step>, c: Id)
    ensures NoStrays(Run(parse, steps).log, c) <==> Safe(parse, steps, c)
  {
    if steps != [] {
      SafeIsNoStrays(parse, steps[..|steps| - 1], c);
      StepStrays(parse, Run(parse, steps[..|steps| - 1]), steps[|steps| - 1], c);
    }
  }

  /** Every write of a client reaches the device if and only if the schedule is safe for it,
      whatever other clients, and its own seek lines, do in the gaps; otherwise fewer do. */
  lemma AllReachExactly(parse: Parser, steps: seq<Step>, c: Id)
    ensures var log := Run(parse, steps).log;
            && (Writes(Reached(log), c) == Writes(log, c) <==> Safe(parse, steps, c))
            && (|Writes(Reached(log), c)| < |Writes(log, c)| <==> !Safe(parse, steps, c))
  {
    hide Run, Safe;
    SafeIsNoStrays(parse, steps, c);
    StraysAreLost(Run(parse, steps).log, c);
  }

  /** Under a schedule that is safe for a client its lines on the device are, in order, a
      prefix of the data lines of its stream, and all of them once its buffer holds no
      newline. */
  lemma SafeLinesOnDevice(parse: Parser, steps: seq<Step>, c: Id)
    requires Safe(parse, steps, c)
    ensures var s := Run(parse, steps);
            && s.dev == Assembly(LinesOf(Reached(s.log)), [])
            && (c in s.clients ==>
                  && Writes(Reached(s.log), c) <= Data(parse, Lines(Stream(parse, steps, c)))
                  && (NL !in s.clients[c].buf ==>
                        Writes(Reached(s.log), c) == Data(parse, Lines(Stream(parse, steps, c)))))
  {
    hide Run, Safe, Stream;
    AnyInterleaving(parse, steps, c);
    AllReachExactly(parse, steps, c);
  }

  /** Whoever connects is there, and a live client without a newline in its buffer receives. */
  lemma StepsTake(parse: Parser, steps: seq<Step>, c: Id, sameNumber: bool, chunk: Bytes)
    ensures c in Run(parse, steps + [Connect(c, sameNumber)]).clients
    ensures var s := Run(parse, steps);
            c in s.clients && s.clients[c].live && NL !in s.clients[c].buf ==>
              Stream(parse, steps + [Receive(c, chunk)], c) == Stream(parse, steps, c) + chunk
  {
    RunSnoc(parse, steps, Connect(c, sameNumber));
    assert (steps + [Receive(c, chunk)])[..|steps|] == steps;
  }

  /** The step ends client c's thread: it stops, or it writes a data line while the shared
      descriptor names nothing. */
  predicate Kills(parse: Parser, s: State, step: Step, c: Id) {
    && c in s.clients && s.clients[c].live
    && (step == Stop(c)
        || (&& step == Drain(c) && s.fd == OnNothing
            && var buf := s.clients[c].buf;
            && NL in buf && parse(buf[..FirstNL(buf) + 1]).None?))
  }

  predicate Spared(parse: Parser, steps: seq<Step>, c: Id) {
    steps == []
    || (&& Spared(parse, steps[..|steps| - 1], c)
        && !Kills(parse, Run(parse, steps[..|steps| - 1]), steps[|steps| - 1], c))
  }

  /** A connected client is live if and only if no step has ended its thread. */
  lemma {:induction false} LiveExactly(parse: Parser, steps: seq<Step>, c: Id)
    ensures var s := Run(parse, steps);
            if c in s.clients then s.clients[c].live <==> Spared(parse, steps, c) else Spared(parse, steps, c)
  {
    hide FirstNL, Absorb;
    if steps != [] {
      LiveExactly(parse, steps[..|steps| - 1], c);
    }
  }

  /** Nobody stops, and each close is followed at once by the same thread's reopen, a last
      close excepted. */
  predicate Pairing(steps: seq<Step>) {
    && (forall i :: 0 <= i < |steps| ==> !steps[i].Stop?)
    && (forall i :: 0 < i < |steps| && steps[i - 1].Close? ==> steps[i] == Reopen(steps[i - 1].c))
  }

  predicate Paired(steps: seq<Step>) {
    Pairing(steps) && (steps != [] ==> !steps[|steps| - 1].Close?)
  }

  /** All threads run, and the descriptor names the device unless the last step closed it. */
  predicate AllWell(s: State, steps: seq<Step>) {
    && (forall c :: c in s.clients ==> s.clients[c].live)
    && (s.fd == OnDevice
        || (&& s.fd == OnNothing && steps != [] && steps[|steps| - 1].Close?
            && var c := steps[|steps| - 1].c; c in s.clients && NL !in s.clients[c].buf))
  }

  lemma {:induction false} PairingKeepsAllWell(parse: Parser, steps: seq<Step>, c: Id)
    requires Pairing(steps)
    ensures AllWell(Run(parse, steps), steps) && Safe(parse, steps, c)
  {
    hide FirstNL, Absorb;
    if steps != [] {
      PairingKeepsAllWell(parse, steps[..|steps| - 1], c);
    }
  }

  function Drains(c: Id, k: nat): seq<Step> {
    if k == 0 then [] else Drains(c, k - 1) + [Drain(c)]
  }

  /** Draining takes the first line out of a live client's buffer and leaves its stream. */
  lemma DrainMoves(parse: Parser, steps: seq<Step>, c: Id)
    requires var s := Run(parse, steps);
             c in s.clients && s.clients[c].live && s.fd == OnDevice && NL in s.clients[c].buf
    ensures var s, t := Run(parse, steps), Run(parse, steps + [Drain(c)]);
            && c in t.clients && t.clients[c].live && t.fd == OnDevice
            && Lines(s.clients[c].buf) != [] && Lines(t.clients[c].buf) == Lines(s.clients[c].buf)[1..]
            && Stream(parse, steps + [Drain(c)], c) == Stream(parse, steps, c)
  {
    hide FirstNL, Absorb, Lines, Run, IsLine;
    var s := Run(parse, steps);
    var buf := s.clients[c].buf;
    RunSnoc(parse, steps, Drain(c));
    CutLine(buf);
    LineInFront(buf[..FirstNL(buf) + 1], buf[FirstNL(buf) + 1..]);
    assert (steps + [Drain(c)])[..|steps|] == steps;
  }

  lemma {:induction false} DrainOut(parse: Parser, steps: seq<Step>, c: Id, k: nat)
    requires var s := Run(parse, steps);
             c in s.clients && s.clients[c].live && s.fd == OnDevice && k <= |Lines(s.clients[c].buf)|
    ensures var s, t := Run(parse, steps), Run(parse, steps + Drains(c, k));
            && c in t.clients && t.clients[c].live && t.fd == OnDevice
            && Lines(t.clients[c].buf) == Lines(s.clients[c].buf)[k..]
            && Stream(parse, steps + Drains(c, k), c) == Stream(parse, steps, c)
  {
    hide Run, Stream, Lines;
    if k == 0 {
      assert steps + Drains(c, k) == steps;
    } else {
      DrainOut(parse, steps, c, k - 1);
      var before := steps + Drains(c, k - 1);
      SomeNewline(Run(parse, before).clients[c].buf);
      DrainMoves(parse, before, c);
      assert steps + Drains(c, k) == before + [Drain(c)];
    }
  }

  lemma SomeNewline(s: Bytes)
    ensures Lines(s) != [] <==> NL in s
  {
    if NL in s { SomeLine(s); } else { NoNewline(s); }
  }

  lemma {:induction false} DrainsOnly(c: Id, k: nat)
    ensures |Drains(c, k)| == k && forall i :: 0 <= i < k ==> Drains(c, k)[i] == Drain(c)
  {
    if k > 0 {
      DrainsOnly(c, k - 1);
    }
  }

  /** Nothing is stuck: under a schedule in which each thread reopens the device right after
      it closes it and nobody stops, every client stays live, and once it has drained the
      lines in its buffer its lines on the device are all data lines of its stream. */
  lemma PairedDelivers(parse: Parser, steps: seq<Step>, c: Id)
    requires Paired(steps) && c in Run(parse, steps).clients
    ensures Run(parse, steps).clients[c].live
    ensures var k := |Lines(Run(parse, steps).clients[c].buf)|;
            var s := Run(parse, steps + Drains(c, k));
            && c in s.clients && s.clients[c].live && NL !in s.clients[c].buf
            && s.dev == Assembly(LinesOf(Reached(s.log)), [])
            && Writes(Reached(s.log), c) == Data(parse, Lines(Stream(parse, steps, c)))
  {
    hide Run, Safe, Stream, Lines, Data, Reached, Writes;
    PairingKeepsAllWell(parse, steps, c);
    var k := |Lines(Run(parse, steps).clients[c].buf)|;
    DrainOut(parse, steps, c, k);
    DrainsOnly(c, k);
    var all := steps + Drains(c, k);
    assert Pairing(all);
    PairingKeepsAllWell(parse, all, c);
    SomeNewline(Run(parse, all).clients[c].buf);
    SafeLinesOnDevice(parse, all, c);
  }

  /** A run of more steps from a state. */
  function After(parse: Parser, s: State, steps: seq<Step>): State
    decreases |steps|
  {
    if steps == [] then s else After(parse, Exec(parse, s, steps[0]), steps[1..])
  }

  lemma {:induction false} RunThen(parse: Parser, before: seq<Step>, steps: seq<Step>)
    ensures Run(parse, before + steps) == After(parse, Run(parse, before), steps)
    decreases |steps|
  {
    if steps == [] {
      assert before + steps == before;
    } else {
      assert before + steps == (before + [steps[0]]) + steps[1..];
      RunThen(parse, before + [steps[0]], steps[1..]);
      RunSnoc(parse, before, steps[0]);
    }
  }

  lemma AfterStep(parse: Parser, s: State, step: Step, steps: seq<Step>)
    ensures After(parse, s, [step] + steps) == After(parse, Exec(parse, s, step), steps)
    ensures After(parse, s, []) == s
  {
  }

  lemma AfterFour(parse: Parser, s: State, a: Step, b: Step, c: Step, d: Step)
    ensures After(parse, s, [a, b, c, d]) == Exec(parse, Exec(parse, Exec(parse, Exec(parse, s, a), b), c), d)
  {
    hide Exec, After;
    var s1 := Exec(parse, s, a);
    var s2 := Exec(parse, s1, b);
    var s3 := Exec(parse, s2, c);
    assert [a, b, c, d] == [a] + [b, c, d] && [b, c, d] == [b] + [c, d] && [c, d] == [c] + [d] && [d] == [d] + [];
    AfterStep(parse, s, a, [b, c, d]);
    AfterStep(parse, s1, b, [c, d]);
    AfterStep(parse, s2, c, [d]);
    AfterStep(parse, s3, d, []);
    AfterStep(parse, Exec(parse, s3, d), d, []);
  }

  /** A schedule that is not safe for client 0. It has a line a to write while client 1 closes
      the descriptor after a round and client 2 is accepted on its number; it writes a, client
      1 reopens, it writes b. Both writes succeed and only b is on the device. */
  lemma StrayRun(parse: Parser, a: Bytes, b: Bytes)
    requires IsLine(a) && IsLine(b) && parse(a) == parse(b) == None
    ensures var s := Run(parse, [Connect(0, false), Connect(1, false), Receive(0, a), Close(1)]
                                + [Connect(2, true), Drain(0), Reopen(1), Receive(0, b)] + [Drain(0)]);
            && 0 in s.clients && s.clients[0] == Client(a + b, [a, b], [], true)
            && Writes(s.log, 0) == [a, b] && s.dev == Assembly([b], [])
  {
    hide Run, Exec, Writes;
    StrayStart(parse, a);
    StrayMiddle(parse, a, b);
    var before := [Connect(0, false), Connect(1, false), Receive(0, a), Close(1)]
                  + [Connect(2, true), Drain(0), Reopen(1), Receive(0, b)];
    RunSnoc(parse, before, Drain(0));
    StrayEnd(parse, Run(parse, before), a, b);
  }

  lemma StrayEnd(parse: Parser, s: State, a: Bytes, b: Bytes)
    requires IsLine(b) && parse(b) == None
    requires 0 in s.clients && s.clients[0] == Client(a + b, [a], b, true)
    requires s.fd == OnDevice && s.log == [Write(0, a, true)] && s.dev == Assembly([], [])
    ensures var t := Exec(parse, s, Drain(0));
            && 0 in t.clients && t.clients[0] == Client(a + b, [a, b], [], true)
            && Writes(t.log, 0) == [a, b] && t.dev == Assembly([b], [])
  {
    hide Exec, IsLine, Writes, Absorb;
    DrainWhole(parse, s, 0);
    WholeLine([], b);
    NoWrites(0);
    WritesSnoc([Write(0, a, true)], Write(0, b, false), 0);
    WritesSnoc([], Write(0, a, true), 0);
    assert [] + [Write(0, a, true)] == [Write(0, a, true)];
    assert [] + [b] == [b];
  }

  /** Draining a buffer that is one data line. */
  lemma DrainWhole(parse: Parser, s: State, c: Id)
    requires c in s.clients && s.clients[c].live && IsLine(s.clients[c].buf) && parse(s.clients[c].buf) == None
    requires s.fd != OnNothing
    ensures var cl, stray := s.clients[c], s.fd == OnSocket;
            Exec(parse, s, Drain(c)) ==
            s.(clients := s.clients[c := cl.(drained := cl.drained + [cl.buf], buf := [])],
               log := s.log + [Write(c, cl.buf, stray)],
               dev := if stray then s.dev else Absorb(s.dev, cl.buf))
  {
    hide Absorb, FirstNL, IsLine;
    WholeBuffer(s.clients[c].buf);
  }

  predicate Gap(s: State, a: Bytes) {
    && 0 in s.clients && s.clients[0] == Client(a, [], a, true)
    && 1 in s.clients && s.clients[1] == Client([], [], [], true) && 2 !in s.clients
    && s.fd == OnNothing && s.log == [] && s.dev == Assembly([], [])
  }

  lemma StrayStart(parse: Parser, a: Bytes)
    ensures Gap(Run(parse, [Connect(0, false), Connect(1, false), Receive(0, a), Close(1)]), a)
  {
    var start := [Connect(0, false), Connect(1, false), Receive(0, a), Close(1)];
    RunThen(parse, [], start);
    Whole(start);
    AfterFour(parse, INIT, start[0], start[1], start[2], start[3]);
    Whole(a);
  }

  lemma StrayMiddle(parse: Parser, a: Bytes, b: Bytes)
    requires IsLine(a) && parse(a) == None
    requires Gap(Run(parse, [Connect(0, false), Connect(1, false), Receive(0, a), Close(1)]), a)
    ensures var s := Run(parse, [Connect(0, false), Connect(1, false), Receive(0, a), Close(1)]
                                + [Connect(2, true), Drain(0), Reopen(1), Receive(0, b)]);
            && 0 in s.clients && s.clients[0] == Client(a + b, [a], b, true)
            && s.fd == OnDevice && s.log == [Write(0, a, true)] && s.dev == Assembly([], [])
  {
    hide Absorb, FirstNL, IsLine, Run;
    var start := [Connect(0, false), Connect(1, false), Receive(0, a), Close(1)];
    var more := [Connect(2, true), Drain(0), Reopen(1), Receive(0, b)];
    RunThen(parse, start, more);
    AfterFour(parse, Run(parse, start), more[0], more[1], more[2], more[3]);
    Whole(b);
    var s := Exec(parse, Run(parse, start), more[0]);
    assert s.clients[0] == Client(a, [], a, true) && s.clients[1] == Client([], [], [], true) && s.fd == OnSocket;
    DrainWhole(parse, s, 0);
    var t := Exec(parse, s, more[1]);
    assert t.clients[0] == Client(a, [a], [], true) && t.log == [Write(0, a, true)] && t.dev == Assembly([], []);
  }

  lemma WholeBuffer(line: Bytes)
    requires IsLine(line)
    ensures NL in line && line[..FirstNL(line) + 1] == line && line[FirstNL(line) + 1..] == []
  {
  }

  /** Every line in the ring, whatever its capacity, is one whole data line of one client. */
  lemma StoredLineHasOneWriter(parse: Parser, steps: seq<Step>, n: nat, i: nat) returns (c: Id)
    requires i < |LastN(Run(parse, steps).dev.done, n)|
    ensures var s := Run(parse, steps);
            var line := LastN(s.dev.done, n)[i];
            && c in s.clients && IsLine(line)
            && line in Data(parse, Lines(Stream(parse, steps, c)))
  {
    hide Run, Stream, Data, Lines, Writes, ClientOk, IsLine, Reached;
    RunKeepsOk(parse, steps);
    var s := Run(parse, steps);
    var reached := Reached(s.log);
    var j := ReachedAt(s.log, if |reached| <= n then i else |reached| - n + i);
    c := s.log[j].writer;
    InWrites(s.log, j);
    AnyInterleaving(parse, steps, c);
    InPrefix(Writes(s.log, c), Data(parse, Lines(Stream(parse, steps, c))), s.log[j].line);
  }

  lemma InPrefix(p: seq<Bytes>, d: seq<Bytes>, x: Bytes)
    requires p <= d && x in p
    ensures x in d
  {
  }

  lemma {:induction false} ReachedAt(log: seq<Write>, i: nat) returns (j: nat)
    requires i < |Reached(log)|
    ensures j < |log| && log[j] == Reached(log)[i]
  {
    var before := log[..|log| - 1];
    if i < |Reached(before)| {
      j := ReachedAt(before, i);
    } else {
      j := |before|;
    }
  }

  lemma {:induction false} InWrites(log: seq<Write>, j: nat)
    requires j < |log|
    ensures log[j].line in Writes(log, log[j].writer)
  {
    var before := log[..|log| - 1];
    if j < |before| {
      InWrites(before, j);
    }
  }
}
