/** What a client's byte stream means to the server, as functions of the stream. */
module Framing {
  import opened Text
  import opened Positions

  datatype Seek = Seek(cmd: nat, offset: nat)

  /** The sscanf match of one line: Some for a seek command, None for data. */
  type Parser = Bytes -> Option<Seek>

  datatype Command = WriteLine(line: Bytes) | SeekTo(seek: Seek)

  function CommandOf(parse: Parser, line: Bytes): Command {
    match parse(line)
    case Some(seek) => SeekTo(seek)
    case None => WriteLine(line)
  }

  function Commands(parse: Parser, lines: seq<Bytes>): seq<Command> {
    if lines == [] then []
    else Commands(parse, lines[..|lines| - 1]) + [CommandOf(parse, lines[|lines| - 1])]
  }

  lemma CommandsSnoc(parse: Parser, lines: seq<Bytes>, line: Bytes)
    ensures Commands(parse, lines + [line]) == Commands(parse, lines) + [CommandOf(parse, line)]
  {
  }

  /** The lines handled at each round of the server loop: a round ends with the first
      received chunk that has a newline, and what follows its last newline is carried on. */
  function Batches(carry: Bytes, chunks: seq<Bytes>): seq<seq<Bytes>>
    decreases |chunks|
  {
    if chunks == [] then []
    else
      var s := carry + chunks[0];
      if NL in chunks[0] then [Lines(s)] + Batches(Tail(s), chunks[1..]) else Batches(s, chunks[1..])
  }

  function Concat(bs: seq<seq<Bytes>>): seq<Bytes> {
    if bs == [] then [] else bs[0] + Concat(bs[1..])
  }

  /** Framing does not depend on chunking: the rounds together handle exactly the lines of
      the stream, in order. */
  lemma {:induction false} BatchesAreLines(carry: Bytes, chunks: seq<Bytes>)
    requires NL !in carry
    ensures Concat(Batches(carry, chunks)) == Lines(carry + Flatten(chunks))
    decreases |chunks|
  {
    if chunks == [] {
      NoNewline(carry);
      assert carry + Flatten(chunks) == carry;
    } else {
      var s, rest := carry + chunks[0], chunks[1..];
      Assoc(carry, chunks[0], Flatten(rest));
      if NL in chunks[0] {
        LinesTail(s);
        BatchesAreLines(Tail(s), rest);
        LinesAppend(s, Flatten(rest));
        assert ([Lines(s)] + Batches(Tail(s), rest))[1..] == Batches(Tail(s), rest);
      } else {
        BatchesAreLines(s, rest);
      }
    }
  }

  /** The device seen from one connection: all lines ever completed, and the position of
      the shared file description. */
  datatype Session = Session(history: seq<Bytes>, fpos: nat)

  function Perform(s: Session, n: nat, c: Command): Session {
    match c
    case WriteLine(line) => s.(history := s.history + [line])
    case SeekTo(Seek(e, o)) =>
      var ls := LastN(s.history, n);
      if e < |ls| && o < |ls[e]| then s.(fpos := Sum(Lengths(ls)[..e]) + o) else s
  }

  function PerformAll(s: Session, n: nat, cs: seq<Command>): Session {
    if cs == [] then s else Perform(PerformAll(s, n, cs[..|cs| - 1]), n, cs[|cs| - 1])
  }

  lemma PerformSnoc(s: Session, n: nat, cs: seq<Command>, c: Command)
    ensures PerformAll(s, n, cs + [c]) == Perform(PerformAll(s, n, cs), n, c)
    ensures HasSeek(cs + [c]) == (HasSeek(cs) || c.SeekTo?)
  {
  }

  predicate HasSeek(cs: seq<Command>)
    ensures HasSeek(cs) <==> exists i :: 0 <= i < |cs| && cs[i].SeekTo?
  {
    if cs == [] then false else cs[|cs| - 1].SeekTo? || HasSeek(cs[..|cs| - 1])
  }

  /** What is left of the flat file from a position on. */
  function Rest(file: Bytes, pos: nat): Bytes {
    if pos <= |file| then file[pos..] else []
  }

  /** One round: perform the commands, go back to the start of the file unless there was a
      seek, echo the rest of the file line by line. */
  function RunBatch(s: Session, n: nat, cs: seq<Command>): (Session, seq<Bytes>) {
    var s1 := PerformAll(s, n, cs);
    var start := if HasSeek(cs) then s1.fpos else 0;
    var file := Flatten(LastN(s1.history, n));
    (s1.(fpos := start + |Rest(file, start)|), Lines(Rest(file, start)))
  }

  function RunBatches(s: Session, n: nat, parse: Parser, bs: seq<seq<Bytes>>): (Session, seq<Bytes>)
    decreases |bs|
  {
    if bs == [] then (s, [])
    else
      var (s1, sent) := RunBatch(s, n, Commands(parse, bs[0]));
      var (s2, more) := RunBatches(s1, n, parse, bs[1..]);
      (s2, sent + more)
  }

  /** The data lines among some lines, in order. */
  function Data(parse: Parser, lines: seq<Bytes>): seq<Bytes> {
    if lines == [] then []
    else
      var before, last := lines[..|lines| - 1], lines[|lines| - 1];
      if parse(last).None? then Data(parse, before) + [last] else Data(parse, before)
  }

  lemma DataSnoc(parse: Parser, lines: seq<Bytes>, line: Bytes)
    ensures Data(parse, lines + [line]) == if parse(line).None? then Data(parse, lines) + [line] else Data(parse, lines)
  {
  }

  lemma {:induction false} DataAppend(parse: Parser, a: seq<Bytes>, b: seq<Bytes>)
    ensures Data(parse, a + b) == Data(parse, a) + Data(parse, b)
  {
    if b == [] {
      assert a + b == a;
    } else {
      var front, last := b[..|b| - 1], b[|b| - 1];
      DataAppend(parse, a, front);
      assert b == front + [last];
      Assoc(a, front, [last]);
      DataSnoc(parse, a + front, last);
      DataSnoc(parse, front, last);
      Assoc(Data(parse, a), Data(parse, front), [last]);
    }
  }

  lemma {:induction false} PerformHistory(s: Session, n: nat, parse: Parser, lines: seq<Bytes>)
    ensures PerformAll(s, n, Commands(parse, lines)).history == s.history + Data(parse, lines)
  {
    if lines != [] {
      var before, last := lines[..|lines| - 1], lines[|lines| - 1];
      PerformHistory(s, n, parse, before);
      assert lines == before + [last];
      CommandsSnoc(parse, before, last);
      PerformSnoc(s, n, Commands(parse, before), CommandOf(parse, last));
      Assoc(s.history, Data(parse, before), [last]);
    }
  }

  /** Whatever the rounds, the device ends up with the data lines of all of them, in order. */
  lemma {:induction false} BatchesHistory(s: Session, n: nat, parse: Parser, bs: seq<seq<Bytes>>)
    ensures RunBatches(s, n, parse, bs).0.history == s.history + Data(parse, Concat(bs))
    decreases |bs|
  {
    if bs != [] {
      var s1 := RunBatch(s, n, Commands(parse, bs[0])).0;
      PerformHistory(s, n, parse, bs[0]);
      BatchesHistory(s1, n, parse, bs[1..]);
      DataAppend(parse, bs[0], Concat(bs[1..]));
      Assoc(s.history, Data(parse, bs[0]), Data(parse, Concat(bs[1..])));
    }
  }

  /** Two ways to chunk one stream leave the device with the same lines. */
  lemma ChunkingKeepsHistory(s: Session, n: nat, parse: Parser, a: seq<Bytes>, b: seq<Bytes>)
    requires Flatten(a) == Flatten(b)
    ensures RunBatches(s, n, parse, Batches([], a)).0.history == RunBatches(s, n, parse, Batches([], b)).0.history
  {
    BatchesHistory(s, n, parse, Batches([], a));
    BatchesHistory(s, n, parse, Batches([], b));
    BatchesAreLines([], a);
    BatchesAreLines([], b);
  }

  /** The flat file from byte o of line e on, cut at newlines: the rest of that line, then
      the whole lines after it. */
  lemma SeekEcho(ls: seq<Bytes>, e: nat, o: nat, pos: nat)
    requires AllLines(ls) && At(Lengths(ls), e, o, pos)
    ensures pos <= |Flatten(ls)|
    ensures Lines(Rest(Flatten(ls), pos)) == [ls[e][o..]] + ls[e + 1..]
  {
    hide Flatten, Lines, Sum, IsLine;
    var first, after := ls[e][o..], ls[e + 1..];
    FlattenAround(ls, e);
    DropInto(Flatten(ls[..e]), ls[e], Flatten(after), o);
    LineSuffix(ls[e], o);
    FlattenCons(first, after);
    SplitUnique([first] + after, []);
    assert Flatten([first] + after) + [] == first + Flatten(after);
  }

  lemma LineSuffix(l: Bytes, o: nat)
    requires IsLine(l) && o < |l|
    ensures IsLine(l[o..])
  {
  }

  lemma DropInto(before: Bytes, l: Bytes, after: Bytes, o: nat)
    requires o <= |l|
    ensures (before + (l + after))[|before| + o..] == l[o..] + after
  {
  }

  /** A round that is one successful seek sends the rest of the addressed line and then
      every later line whole. */
  lemma SeekRound(s: Session, n: nat, e: nat, o: nat)
    requires AllLines(LastN(s.history, n))
    requires e < |LastN(s.history, n)| && o < |LastN(s.history, n)[e]|
    ensures var ls := LastN(s.history, n);
            RunBatch(s, n, [SeekTo(Seek(e, o))]) ==
            (s.(fpos := |Flatten(ls)|), [ls[e][o..]] + ls[e + 1..])
  {
    hide Flatten, Lines, Sum, LastN;
    var ls := LastN(s.history, n);
    var c, pos := SeekTo(Seek(e, o)), Sum(Lengths(ls)[..e]) + o;
    SeekEcho(ls, e, o, pos);
    PerformSnoc(s, n, [], c);
    assert [] + [c] == [c];
    assert PerformAll(s, n, [c]) == s.(fpos := pos);
  }

  lemma {:induction false} PerformAppend(s: Session, n: nat, a: seq<Command>, b: seq<Command>)
    ensures PerformAll(s, n, a + b) == PerformAll(PerformAll(s, n, a), n, b)
  {
    hide PerformAll, Perform, HasSeek;
    if b == [] {
      assert a + b == a;
      PerformNone(PerformAll(s, n, a), n);
    } else {
      var front, last := b[..|b| - 1], b[|b| - 1];
      PerformAppend(s, n, a, front);
      assert b == front + [last];
      Assoc(a, front, [last]);
      PerformSnoc(s, n, a + front, last);
      PerformSnoc(PerformAll(s, n, a), n, front, last);
    }
  }

  lemma {:induction false} WritesKeepPosition(s: Session, n: nat, cs: seq<Command>)
    requires !HasSeek(cs)
    ensures PerformAll(s, n, cs).fpos == s.fpos
  {
    if cs != [] {
      assert forall i :: 0 <= i < |cs| - 1 ==> cs[..|cs| - 1][i] == cs[i];
      assert cs[|cs| - 1] in cs;
      WritesKeepPosition(s, n, cs[..|cs| - 1]);
    }
  }

  /** In a round of any commands the last seek decides where the read-back starts: where its
      byte lay when it came, if it was stored then, and otherwise where the position was. What
      is read is the file as the whole round leaves it. */
  lemma LastSeekDecides(s: Session, n: nat, before: seq<Command>, e: nat, o: nat, after: seq<Command>)
    requires !HasSeek(after)
    ensures var cs := before + [SeekTo(Seek(e, o))] + after;
            var s0 := PerformAll(s, n, before);
            var ls := LastN(s0.history, n);
            var start := if e < |ls| && o < |ls[e]| then Sum(Lengths(ls)[..e]) + o else s0.fpos;
            RunBatch(s, n, cs).1 == Lines(Rest(Flatten(LastN(PerformAll(s, n, cs).history, n)), start))
  {
    hide Lines, Flatten, LastN, Sum, Rest;
    var c := SeekTo(Seek(e, o));
    var cs := before + [c] + after;
    PerformAppend(s, n, before + [c], after);
    PerformSnoc(s, n, before, c);
    WritesKeepPosition(PerformAll(s, n, before + [c]), n, after);
    assert cs[|before|] == c;
  }

  /** A refused seek leaves the position alone and the round reads on from it. Every round
      ends at or past the end of the file, so after any round this sends nothing. */
  lemma RefusedSeekRound(s: Session, n: nat, before: seq<Command>, e: nat, o: nat)
    requires var s1 := RunBatch(s, n, before).0;
             e >= |LastN(s1.history, n)| || o >= |LastN(s1.history, n)[e]|
    ensures var s1 := RunBatch(s, n, before).0;
            RunBatch(s1, n, [SeekTo(Seek(e, o))]) == (s1, [])
  {
    hide Flatten, Sum, LastN, PerformAll;
    var s1 := RunBatch(s, n, before).0;
    var c := SeekTo(Seek(e, o));
    PerformSnoc(s1, n, [], c);
    Whole([c]);
    PerformNone(s1, n);
    NoNewline([]);
  }

  lemma PerformNone(s: Session, n: nat)
    ensures PerformAll(s, n, []) == s
  {
  }

  /** A round without a seek sends every stored line, whole and in order. */
  lemma PlainRound(s: Session, n: nat, cs: seq<Command>)
    requires !HasSeek(cs)
    requires AllLines(LastN(PerformAll(s, n, cs).history, n))
    ensures RunBatch(s, n, cs).1 == LastN(PerformAll(s, n, cs).history, n)
  {
    var ls := LastN(PerformAll(s, n, cs).history, n);
    SplitUnique(ls, []);
    assert Flatten(ls) + [] == Flatten(ls) == Flatten(ls)[0..];
  }

  /** How many chunks hold a newline: each of them ends a round. */
  function NewlineChunks(chunks: seq<Bytes>): (k: nat)
    ensures k <= |chunks|
  {
    if chunks == [] then 0 else NewlineChunks(chunks[1..]) + if NL in chunks[0] then 1 else 0
  }

  lemma {:induction false} RoundsAreNewlineChunks(carry: Bytes, chunks: seq<Bytes>)
    ensures |Batches(carry, chunks)| == NewlineChunks(chunks)
    decreases |chunks|
  {
    if chunks != [] {
      var s := carry + chunks[0];
      RoundsAreNewlineChunks(if NL in chunks[0] then Tail(s) else s, chunks[1..]);
    }
  }

  /** Every round handles at least one line. */
  lemma {:induction false} RoundsNotEmpty(carry: Bytes, chunks: seq<Bytes>)
    ensures forall i :: 0 <= i < |Batches(carry, chunks)| ==> Batches(carry, chunks)[i] != []
    decreases |chunks|
  {
    if chunks != [] {
      var s := carry + chunks[0];
      RoundsNotEmpty(if NL in chunks[0] then Tail(s) else s, chunks[1..]);
      if NL in chunks[0] {
        SomeLine(s);
      }
    }
  }

  lemma SomeLine(s: Bytes)
    requires NL in s
    ensures Lines(s) != []
  {
  }

  /** Lines that the pattern does not match. */
  predicate AllData(parse: Parser, lines: seq<Bytes>) {
    forall i :: 0 <= i < |lines| ==> parse(lines[i]).None?
  }

  /** A round of data lines sends the newest n lines of the history they complete. */
  lemma DataRound(s: Session, n: nat, parse: Parser, lines: seq<Bytes>)
    requires AllData(parse, lines) && AllLines(s.history) && AllLines(lines)
    ensures RunBatch(s, n, Commands(parse, lines)).1 == LastN(s.history + lines, n)
    ensures RunBatch(s, n, Commands(parse, lines)).0.history == s.history + lines
  {
    DataIsAll(parse, lines);
    PerformHistory(s, n, parse, lines);
    PlainRound(s, n, Commands(parse, lines));
  }

  lemma {:induction false} DataIsAll(parse: Parser, lines: seq<Bytes>)
    requires AllData(parse, lines)
    ensures Data(parse, lines) == lines && !HasSeek(Commands(parse, lines))
  {
    if lines != [] {
      var before, last := lines[..|lines| - 1], lines[|lines| - 1];
      DataIsAll(parse, before);
      assert lines == before + [last];
      DataSnoc(parse, before, last);
      CommandsSnoc(parse, before, last);
      PerformSnoc(Session([], 0), 0, Commands(parse, before), CommandOf(parse, last));
    }
  }

  /** Rounds of data lines send, in all, at least one line more for each round after the
      first than the newest n lines of the final history. */
  lemma {:induction false} SendsAtLeast(s: Session, n: nat, parse: Parser, bs: seq<seq<Bytes>>)
    requires n > 0 && bs != [] && AllLines(s.history)
    requires forall i :: 0 <= i < |bs| ==> bs[i] != [] && AllData(parse, bs[i]) && AllLines(bs[i])
    ensures |RunBatches(s, n, parse, bs).1| >= |LastN(s.history + Concat(bs), n)| + |bs| - 1
    decreases |bs|
  {
    hide RunBatch, Commands, IsLine, AllData;
    DataRound(s, n, parse, bs[0]);
    var (s1, sent) := RunBatch(s, n, Commands(parse, bs[0]));
    MoreLines(s.history, bs[0]);
    if |bs| == 1 {
      assert bs[1..] == [] && bs[0] + [] == bs[0];
    } else {
      SendsAtLeast(s1, n, parse, bs[1..]);
      Assoc(s.history, bs[0], Concat(bs[1..]));
    }
  }

  lemma MoreLines(a: seq<Bytes>, b: seq<Bytes>)
    requires AllLines(a) && AllLines(b)
    ensures AllLines(a + b)
  {
  }

  lemma RunStep(s: Session, n: nat, parse: Parser, lines: seq<Bytes>, bs: seq<seq<Bytes>>)
    ensures var (s1, sent) := RunBatch(s, n, Commands(parse, lines));
            var (s2, more) := RunBatches(s1, n, parse, bs);
            RunBatches(s, n, parse, [lines] + bs) == (s2, sent + more)
    ensures bs == [] ==> RunBatches(s, n, parse, [lines] + bs) == RunBatch(s, n, Commands(parse, lines))
  {
    assert ([lines] + bs)[1..] == bs;
    var sent := RunBatch(s, n, Commands(parse, lines)).1;
    assert sent + [] == sent;
  }

  /** A stream in one chunk is one round, or none when no line is complete. */
  lemma OneChunk(all: Bytes)
    ensures Batches([], [all]) == if Lines(all) == [] then [] else [Lines(all)]
  {
    Whole(all);
    if NL in all {
      SomeLine(all);
      assert [all][1..] == [] && Batches(Tail(all), []) == [];
      assert [Lines(all)] + [] == [Lines(all)];
    } else {
      NoNewline(all);
      assert [all][1..] == [];
    }
  }

  lemma {:induction false} PartsOfConcat(parse: Parser, bs: seq<seq<Bytes>>)
    requires AllLines(Concat(bs)) && AllData(parse, Concat(bs))
    ensures forall i :: 0 <= i < |bs| ==> AllLines(bs[i]) && AllData(parse, bs[i])
    ensures |bs| == 1 ==> Concat(bs) == bs[0]
  {
    if bs != [] {
      var rest := Concat(bs[1..]);
      assert forall i :: 0 <= i < |bs[0]| ==> bs[0][i] == Concat(bs)[i];
      assert forall i :: 0 <= i < |rest| ==> rest[i] == Concat(bs)[|bs[0]| + i];
      PartsOfConcat(parse, bs[1..]);
    }
  }

  lemma RunOne(s: Session, n: nat, parse: Parser, lines: seq<Bytes>)
    ensures RunBatches(s, n, parse, [lines]) == RunBatch(s, n, Commands(parse, lines))
    ensures RunBatches(s, n, parse, []).1 == []
  {
    assert [lines] == [lines] + [];
    RunStep(s, n, parse, lines, []);
  }

  /** A stream with at most one chunk that holds a newline fares as it would in one chunk,
      in what is sent and in what it leaves, seek lines included. */
  lemma OneRoundFits(s: Session, n: nat, parse: Parser, chunks: seq<Bytes>)
    requires NewlineChunks(chunks) <= 1
    ensures RunBatches(s, n, parse, Batches([], chunks)) == RunBatches(s, n, parse, Batches([], [Flatten(chunks)]))
  {
    hide Flatten, Lines, Tail, RunBatches;
    var all, bs := Flatten(chunks), Batches([], chunks);
    RoundsAreNewlineChunks([], chunks);
    RoundsNotEmpty([], chunks);
    BatchesAreLines([], chunks);
    Whole(all);
    OneChunk(all);
    if bs != [] {
      assert bs[1..] == [] && Concat(bs) == bs[0] + [] == bs[0];
      assert bs == [Lines(all)];
    }
  }

  /** For a stream of data lines that is exactly the condition for its sends to be those of
      the stream in one chunk: every further round sends more. */
  lemma EchoOfOneRound(s: Session, n: nat, parse: Parser, chunks: seq<Bytes>)
    requires n > 0 && AllLines(s.history) && AllData(parse, Lines(Flatten(chunks)))
    ensures RunBatches(s, n, parse, Batches([], chunks)).1 == RunBatches(s, n, parse, Batches([], [Flatten(chunks)])).1
       <==> NewlineChunks(chunks) <= 1
  {
    hide Flatten, Lines, Tail, RunBatches, Batches, LastN;
    var all, bs := Flatten(chunks), Batches([], chunks);
    RoundsAreNewlineChunks([], chunks);
    if |bs| <= 1 {
      OneRoundFits(s, n, parse, chunks);
    } else {
      BatchesAreLines([], chunks);
      Whole(all);
      LinesTail(all);
      OneChunk(all);
      RoundsNotEmpty([], chunks);
      PartsOfConcat(parse, bs);
      SendsAtLeast(s, n, parse, bs);
      DataRound(s, n, parse, Lines(all));
      RunOne(s, n, parse, Lines(all));
      assert bs[0] != [] && Concat(bs) != [];
    }
  }

  /** The simplest case: two lines in two chunks are echoed in two rounds, the first of them
      twice; in one chunk they are echoed once each. */
  lemma EchoDependsOnChunking(n: nat, parse: Parser, a: Bytes, b: Bytes)
    requires n > 1 && IsLine(a) && IsLine(b) && parse(a) == parse(b) == None
    ensures RunBatches(Session([], 0), n, parse, Batches([], [a, b])).1 == [a, a, b]
    ensures RunBatches(Session([], 0), n, parse, Batches([], [a + b])).1 == [a, b]
  {
    hide Flatten, Lines, Tail, RunBatch, RunBatches, Batches, IsLine, Commands, Data;
    var s0 := Session([], 0);
    BatchesOf(a, b);
    assert [] + [a] == [a] && [] + [a, b] == [a, b] && [a] + [b] == [a, b];
    DataRound(s0, n, parse, [a]);
    var s1 := RunBatch(s0, n, Commands(parse, [a])).0;
    DataRound(s1, n, parse, [b]);
    DataRound(s0, n, parse, [a, b]);
    RunStep(s0, n, parse, [a], [[b]]);
    RunOne(s1, n, parse, [b]);
    RunOne(s0, n, parse, [a, b]);
    assert [[a]] + [[b]] == [[a], [b]];
    assert [a] + [a, b] == [a, a, b];
  }

  lemma BatchesOf(a: Bytes, b: Bytes)
    requires IsLine(a) && IsLine(b)
    ensures Batches([], [a, b]) == [[a], [b]]
    ensures Batches([], [a + b]) == [[a, b]]
  {
    LineAlone(a);
    LineAlone(b);
    LineInFront(a, b);
    assert [a] + [b] == [a, b] && (a + b)[|a + b| - 1] == NL;
    BatchWhole(b, []);
    BatchWhole(a, [b]);
    BatchWhole(a + b, []);
    assert [b] + [] == [b] && [a + b] + [] == [a + b];
  }

  lemma BatchWhole(c: Bytes, rest: seq<Bytes>)
    requires |c| > 0 && c[|c| - 1] == NL
    ensures Batches([], [c] + rest) == [Lines(c)] + Batches([], rest)
    ensures Batches([], []) == []
  {
    Whole(c);
    assert ([c] + rest)[1..] == rest;
  }
}
