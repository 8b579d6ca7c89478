/** The server over the driver: one client, from its chunks to what the device then holds. */
module EndToEnd {
  import opened Text
  import opened Faults
  import opened Driver
  import DriverRuns
  import opened Framing
  import opened ServerModel
  import opened Connections
  import LineAssembly
  import Vectors
  import DM = DriverMachine

  /** A client that has just connected to a device in this state. */
  function Client(chunks: seq<Bytes>, dev: DM.Machine, memory: seq<bool>, net: seq<bool>): Server {
    Server(Vectors.CLOSED, chunks, false, dev, true, [], memory, net)
  }

  /** One client, from its first to its last byte, whatever fails. */
  method ServeClient(d: Device, chunks: seq<Bytes>, parse: Parser, memory: seq<bool>, net: seq<bool>)
    returns (exit: Exit, sent: seq<Bytes>)
    requires d.Valid() && !d.Orphaned()
    requires forall i :: 0 <= i < |chunks| ==> 0 < |chunks[i]| <= CHUNK_SIZE
    modifies d, d.ring, d.ring.entry, d.kernel, d.kernel.script
    ensures d.Valid()
    ensures var dev := DM.Machine(old(d.kernel.script.outcomes), old(d.State()), old(d.Held()), 0);
            var (e, m) := Serve(Client(chunks, dev, memory, net), |chunks| + 1, d.ring.entry.Length, parse);
            && exit == e && sent == m.sent
            && d.State() == m.dev.asm && d.kernel.script.outcomes == m.dev.faults
  {
    hide Device.Inv, Device.Valid, Device.Orphaned, Device.Held, Serve, Connection.Idle, Connection.Model,
      Connection.Framed, Vectors.Vector.Valid, Vectors.Vector.Contents;
    var f := new OpenFile();
    var sends := new FaultScript(net);
    var s := new Socket(chunks, false, sends);
    var libc := new FaultScript(memory);
    var c := new Connection(s, d, f, true, libc, parse);
    assert c.Model() == Client(chunks, c.DevNow(), memory, net);
    exit := c.Handle(|chunks| + 1);
    sent := s.sent;
  }

  /** A client served over a fresh device whose calls succeed, whichever of the server's
      allocations and sends fail. A later open of the device reads the newest of the first
      data lines of the client's stream, and what the client was sent is the front of what
      RunBatches says of its rounds. When the client's close ends the connection both are
      complete, whatever the chunking; with nothing failing it does. */
  method ServeAndInspect(capacity: nat, chunks: seq<Bytes>, parse: Parser, memory: seq<bool>, net: seq<bool>,
                         more: nat -> nat)
    returns (exit: Exit, sent: seq<Bytes>, file: Bytes)
    requires 1 <= capacity <= 255
    requires forall i :: 0 <= i < |chunks| ==> 0 < |chunks[i]| <= CHUNK_SIZE
    ensures var data := Data(parse, Lines(Flatten(chunks)));
            var echo := RunBatches(Session([], 0), capacity, parse, Batches([], chunks)).1;
            && (exists k: nat :: k <= |data| && file == Flatten(LastN(data[..k], capacity)))
            && sent <= echo
            && (exit == Closed ==> file == Flatten(LastN(data, capacity)) && sent == echo)
            && (memory == [] && net == [] ==> exit == Closed)
  {
    hide Device.Inv, Device.Valid, LastN, RunBatches, Batches, Flatten, Lines, Data, Serve;
    var d := new Device(capacity, []);
    exit, sent := ServeClient(d, chunks, parse, memory, net);
    StreamMeans(Client(chunks, DM.Machine([], LineAssembly.Assembly([], []), false, 0), memory, net),
                |chunks| + 1, capacity, parse);
    Whole(Flatten(d.Stored()));
    var reopened := new OpenFile();
    ghost var counts, pieces;
    file, counts, pieces := DriverRuns.ReadBack(d, reopened, more);
    ghost var k := |d.history|;
    assert d.history == Data(parse, Lines(Flatten(chunks)))[..k];
  }

  /** The same service with any failures of device calls and reopens too: the device is left
      with first data lines of the stream, whole and in order, all of them when the client's
      close ends the connection, and each message sent is the end of a data line. */
  method ServeUnderFailures(capacity: nat, chunks: seq<Bytes>, parse: Parser,
                            disk: seq<bool>, memory: seq<bool>, net: seq<bool>)
    returns (exit: Exit, sent: seq<Bytes>, ghost stored: seq<Bytes>)
    requires 1 <= capacity <= 255
    requires forall i :: 0 <= i < |chunks| ==> 0 < |chunks[i]| <= CHUNK_SIZE
    ensures var data := Data(parse, Lines(Flatten(chunks)));
            && AllEnds(sent, data)
            && (exists k: nat :: k <= |data| && stored == LastN(data[..k], capacity))
            && (exit == Closed ==> stored == LastN(data, capacity))
  {
    hide Device.Inv, Device.Valid, LastN, Batches, Flatten, Lines, Data, Serve, AllEnds;
    var d := new Device(capacity, disk);
    exit, sent := ServeClient(d, chunks, parse, memory, net);
    AnyStreamMeans(Client(chunks, DM.Machine(disk, LineAssembly.Assembly([], []), false, 0), memory, net),
                   |chunks| + 1, capacity, parse);
    stored := d.Stored();
    ghost var k := |d.history|;
    assert d.history == Data(parse, Lines(Flatten(chunks)))[..k];
  }

  /** RunMeans for a whole connection from a fresh session. */
  lemma StreamMeans(m: Server, polls: nat, n: nat, parse: Parser)
    requires m.recv == Vectors.CLOSED && SessionOf(m.dev) == Session([], 0) && m.sent == [] && Sound(m)
    requires !m.failAtEnd && polls > |m.chunks|
    ensures var data := Data(parse, Lines(Flatten(m.chunks)));
            var echo := RunBatches(Session([], 0), n, parse, Batches([], m.chunks)).1;
            var (e, m') := Serve(m, polls, n, parse);
            && m'.sent <= echo && m'.dev.asm.done <= data && m'.dev.faults == []
            && (e == Closed ==> m'.dev.asm.done == data && m'.sent == echo)
            && (m.libc == [] && m.net == [] ==> e == Closed)
  {
    hide RunBatches, Batches, Flatten, Lines, Data, Rounds;
    var bs := Batches([], m.chunks);
    RunMeans(m.(recv := Vectors.EMPTY, libc := Left(m.libc)), polls, n, parse);
    BatchesHistory(Session([], 0), n, parse, bs);
    BatchesAreLines([], m.chunks);
    RoundsAreNewlineChunks([], m.chunks);
    Whole(Flatten(m.chunks));
    Whole(Data(parse, Lines(Flatten(m.chunks))));
    Whole(RunBatches(Session([], 0), n, parse, bs).1);
  }

  /** StoredUnderFailures and SentUnderFailures for a whole connection to a fresh device. */
  lemma AnyStreamMeans(m: Server, polls: nat, n: nat, parse: Parser)
    requires m.recv == Vectors.CLOSED && m.dev.asm == LineAssembly.Assembly([], []) && m.sent == []
    ensures var data := Data(parse, Lines(Flatten(m.chunks)));
            var (e, m') := Serve(m, polls, n, parse);
            && AllEnds(m'.sent, data) && m'.dev.asm.done <= data
            && (e == Closed ==> m'.dev.asm.done == data)
  {
    hide Batches, Flatten, Lines, Data, Rounds;
    var m1 := m.(recv := Vectors.EMPTY, libc := Left(m.libc));
    BatchesAreLines([], m.chunks);
    Whole(Flatten(m.chunks));
    var data := Data(parse, Lines(Flatten(m.chunks)));
    Whole(data);
    StoredUnderFailures(m1, polls, n, parse);
    SentUnderFailures(m1, polls, n, parse, data);
  }
}
