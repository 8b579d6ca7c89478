/** One client connection of aesdsocket.c: framing the received bytes into lines, sending
    lines and seeks to the device, and echoing the device back. */
module Connections {
  import opened Text
  import opened Positions
  import opened Faults
  import opened LineAssembly
  import opened WriteOutcome
  import opened FlatFile
  import opened Driver
  import opened Vectors
  import opened Framing
  import opened ServerModel
  import DM = DriverMachine

  const CHUNK_SIZE: nat := 200

  /** The client's socket: the chunks recv will return, then end of stream or an error; which
      sends fail; and everything sent. */
  class Socket {
    var incoming: seq<Bytes>
    const failAtEnd: bool
    const net: FaultScript
    var sent: seq<Bytes>

    ghost predicate Valid()
      reads this`incoming
    {
      forall i :: 0 <= i < |incoming| ==> 0 < |incoming[i]| <= CHUNK_SIZE
    }

    constructor (chunks: seq<Bytes>, failAtEnd: bool, net: FaultScript)
      requires forall i :: 0 <= i < |chunks| ==> 0 < |chunks[i]| <= CHUNK_SIZE
      ensures Valid() && incoming == chunks && this.failAtEnd == failAtEnd && this.net == net && sent == []
    {
      incoming, sent := chunks, [];
      this.failAtEnd, this.net := failAtEnd, net;
    }

    method Recv() returns (n: int, data: Bytes)
      requires Valid()
      modifies this`incoming
      ensures Valid()
      ensures if old(incoming) == [] then n == (if failAtEnd then -1 else 0) && incoming == []
              else n == |data| > 0 && data == old(incoming)[0] && incoming == old(incoming)[1..]
    {
      if incoming == [] {
        return if failAtEnd then -1 else 0, [];
      }
      data := incoming[0];
      incoming := incoming[1..];
      n := |data|;
    }

    method Send(data: Bytes) returns (failed: bool)
      modifies this`sent, net
      ensures failed == Fails(old(net.outcomes)) && net.outcomes == Left(old(net.outcomes))
      ensures sent == old(sent) + if failed then [] else [data]
    {
      failed := net.Fault();
      sent := sent + if failed then [] else [data];
    }
  }

  class Connection {
    const sock: Socket
    const dev: Device
    const file: OpenFile
    const libc: FaultScript
    const recv_vec: Vector
    const send_vec: Vector
    const parse: Parser
    /** data_file.fd names an open description of the device, which is then `file`. */
    var fd_open: bool
    /** thread_data.complete, for the accept loop to see. */
    var complete: bool

    /** All bytes received, all lines taken out of them, and the commands these became. */
    ghost var received: Bytes
    ghost var drained: seq<Bytes>
    ghost var trace: seq<Command>

    /** Nothing received is lost or reordered: `unread` is what is still to be drained. */
    ghost predicate Framed(unread: Bytes)
      reads this
    {
      && received == Flatten(drained) + unread
      && AllLines(drained)
      && trace == Commands(parse, drained)
    }

    /** The scripts and vectors are separate objects. */
    ghost predicate Apart() {
      && recv_vec != send_vec
      && libc != dev.kernel.script && sock.net != dev.kernel.script && libc != sock.net
    }

    constructor (sock: Socket, dev: Device, file: OpenFile, isOpen: bool, libc: FaultScript, parse: Parser)
      ensures fd_open == isOpen
      ensures this.sock == sock && this.dev == dev && this.file == file && this.libc == libc && this.parse == parse
      ensures fresh(recv_vec) && fresh(send_vec) && recv_vec != send_vec
      ensures recv_vec.Valid() && recv_vec.buf == null && recv_vec.View() == CLOSED
      ensures send_vec.Valid() && send_vec.buf == null
      ensures received == [] && drained == [] && trace == [] && Framed([])
      ensures sock.Valid() && dev.Valid() && file.f_pos >= 0 && Apart() ==> Idle()
      ensures file.f_pos >= 0 ==>
                Model() == Server(CLOSED, sock.incoming, sock.failAtEnd, DevNow(), isOpen, sock.sent, libc.outcomes,
                                  sock.net.outcomes)
    {
      this.sock, this.dev, this.file, this.libc, this.parse := sock, dev, file, libc, parse;
      recv_vec := new Vector();
      send_vec := new Vector();
      fd_open := isOpen;
      received, drained, trace := [], [], [];
      complete := false;
    }

    /** vector_append of one received chunk. */
    method TakeChunk(data: Bytes) returns (a: AppendResult)
      requires recv_vec.Valid() && Framed(recv_vec.Contents())
      modifies recv_vec, recv_vec.buf, libc, this`received
      ensures recv_vec.Valid() && Framed(recv_vec.Contents())
      ensures (a, recv_vec.View(), libc.outcomes) == AppendOf(old(recv_vec.View()), data, old(libc.outcomes))
      ensures received == old(received) + if a == Appended then data else []
      ensures a == Appended ==> recv_vec.Contents() == old(recv_vec.Contents()) + data
      ensures recv_vec.buf == old(recv_vec.buf) || fresh(recv_vec.buf)
    {
      ghost var before := recv_vec.Contents();
      a := recv_vec.Append(libc, data);
      if a == Appended {
        received := received + data;
        Assoc(Flatten(drained), before, data);
      } else {
        assert received + [] == received;
      }
    }

    /** What the receive loop would come to from here. */
    ghost function Receiving(): (Received, Buf, seq<Bytes>, seq<bool>)
      requires recv_vec.Valid()
      reads recv_vec, recv_vec.buf, sock, libc
    {
      Receive(recv_vec.View(), sock.incoming, sock.failAtEnd, libc.outcomes)
    }

    /** One round of the receive loop: recv, append, search the newest bytes. None means that
        a chunk was appended. */
    method ReceiveOnce() returns (r: Option<Received>, n: int, at: int)
      requires sock.Valid() && recv_vec.Valid() && Framed(recv_vec.Contents()) && NL !in recv_vec.Contents()
      modifies sock`incoming, recv_vec, recv_vec.buf, libc, this`received
      ensures sock.Valid() && recv_vec.Valid() && Framed(recv_vec.Contents())
      ensures recv_vec.buf == old(recv_vec.buf) || fresh(recv_vec.buf)
      ensures received <= old(received + Flatten(sock.incoming))
      ensures r !in {Some(OutOfMemory), Some(Stuck)} ==>
                received + Flatten(sock.incoming) == old(received + Flatten(sock.incoming))
      ensures at == -1 <==> r.Some? || NL !in recv_vec.Contents()
      ensures r == None ==> n > 0 && |sock.incoming| < |old(sock.incoming)|
      ensures r == Some(PeerClosed) <==> n == 0
      ensures r in {Some(PeerClosed), Some(RecvError)} ==>
                sock.incoming == [] && NL !in recv_vec.Contents() && sock.failAtEnd == (r == Some(RecvError))
      ensures old(Receiving()) ==
                if r == None && at == -1 then Receiving()
                else (if r == None then Newline else r.value, recv_vec.View(), sock.incoming, libc.outcomes)
      ensures r != Some(Newline)
    {
      hide Framed, Flatten, Vector.Valid, Vector.Contents, Socket.Valid, AppendOf, Receive;
      ReceiveStep(recv_vec.View(), sock.incoming, sock.failAtEnd, libc.outcomes);
      ReceivedNext(received, sock.incoming);
      ghost var held := recv_vec.Contents();
      var data;
      n, data := sock.Recv();
      if n <= 0 {
        return Some(if n < 0 then RecvError else PeerClosed), n, -1;
      }
      var a := TakeChunk(data);
      if a != Appended {
        return Some(if a == NoMemory then OutOfMemory else Stuck), n, -1;
      }
      at := recv_vec.Find(recv_vec.len - n, NL);
      NewestSuffices(held, data, at);
      r := None;
    }

    /** The inner receive loop does what Receive says, and leaves with no byte received
        exactly when the peer has closed. */
    method ReceiveBatch() returns (r: Received)
      requires sock.Valid() && recv_vec.Valid() && Framed(recv_vec.Contents()) && NL !in recv_vec.Contents()
      modifies sock`incoming, recv_vec, recv_vec.buf, libc, this`received
      ensures sock.Valid() && recv_vec.Valid() && Framed(recv_vec.Contents())
      ensures recv_vec.buf == old(recv_vec.buf) || fresh(recv_vec.buf)
      ensures (r, recv_vec.View(), sock.incoming, libc.outcomes) == old(Receiving())
      ensures received <= old(received + Flatten(sock.incoming))
      ensures r !in {OutOfMemory, Stuck} ==> received + Flatten(sock.incoming) == old(received + Flatten(sock.incoming))
      ensures r in {PeerClosed, RecvError} ==>
                sock.incoming == [] && NL !in recv_vec.Contents() && sock.failAtEnd == r.RecvError?
    {
      hide Framed, Flatten, Vector.Valid, Vector.Contents, Socket.Valid, Receive;
      ghost var total := received + Flatten(sock.incoming);
      var n := 0;
      var at := recv_vec.Find(recv_vec.len - n, NL);
      NothingNew(recv_vec.Contents());
      while at == -1
        invariant sock.Valid() && recv_vec.Valid() && Framed(recv_vec.Contents())
        invariant recv_vec.buf == old(recv_vec.buf) || fresh(recv_vec.buf)
        invariant received + Flatten(sock.incoming) == total
        invariant at == -1 <==> NL !in recv_vec.Contents()
        invariant at != -1 ==> n > 0
        invariant old(Receiving()) == if at == -1 then Receiving()
                                      else (Newline, recv_vec.View(), sock.incoming, libc.outcomes)
        decreases at == -1, |sock.incoming|
      {
        var x;
        x, n, at := ReceiveOnce();
        if x.Some? {
          if x.value == PeerClosed {
            break;
          }
          return x.value;
        }
      }
      if n == 0 {
        return PeerClosed;
      }
      return Newline;
    }

    /** The device as the machine of DriverMachine. */
    ghost function DevNow(): DM.Machine
      requires file.f_pos >= 0
      reads dev, dev.kernel.script, file
    {
      DM.Machine(dev.kernel.script.outcomes, dev.State(), dev.Held(), file.f_pos)
    }

    /** One drained line: a seek command goes to ioctl, anything else is written whole.
        A seek counts as handled even when the device refuses it. */
    method HandleLine(line: Bytes) returns (rv: int, seek: bool)
      requires dev.Valid() && file.f_pos >= 0 && IsLine(line)
      modifies file, dev, dev.ring, dev.ring.entry, dev.kernel, dev.kernel.script
      ensures dev.Valid() && file.f_pos >= 0
      ensures seek == parse(line).Some?
      ensures rv < 0 || rv == |line|
      ensures seek ==> rv == |line| && dev.State() == old(dev.State())
      ensures !seek && rv >= 0 && old(!dev.Orphaned() && dev.pending == []) ==>
                dev.State() == Assembly(old(dev.history) + [line], [])
      ensures !seek ==> (rv >= 0 <==> fd_open && Clean(old(dev.kernel.script.outcomes), dev.kernel.script.outcomes))
      ensures !old(dev.Orphaned()) ==>
                && (rv >= 0, DevNow()) == Handled(fd_open, old(DevNow()), dev.ring.entry.Length, parse, line)
                && (rv >= 0 ==> !dev.Orphaned())
    {
      hide Device.Inv, Device.Valid, LastN, EndOf, Absorb, Sum, Flatten, Clean, Blamed;
      match parse(line) {
        case Some(s) =>
          if fd_open {
            var err := dev.Ioctl(file, IoctlCmd.SeekTo(s.cmd, s.offset));
          }
          return |line|, true;
        case None =>
          if !fd_open {
            return -EBADF, false;
          }
          ghost var e, before;
          dev.PendingIsLineLen();
          rv, e, before := dev.Write(line);
          dev.PendingIsLineLen();
          WholeLine(old(dev.history), line);
          seek := false;
      }
    }

    /** The device has taken the lines of `done` from the state `start`. */
    ghost predicate Followed(start: DM.Machine, done: seq<Bytes>)
      requires file.f_pos >= 0
      reads this`fd_open, dev, dev.kernel.script, file
    {
      (true, DevNow()) == HandledAll(fd_open, start, dev.ring.entry.Length, parse, done) && !dev.Orphaned()
    }

    /** The state at each test of the drain loop over the buffer c of this capacity: the first
        `written` bytes are the lines `done`, which the device has taken from the state
        `start`, unless it was orphaned there. */
    ghost predicate Drains(c: Bytes, cap: nat, start: DM.Machine, orphaned: bool,
                           written: nat, done: seq<Bytes>, seekDone: bool, inside: bool)
      requires file.f_pos >= 0
      reads this, dev, dev.kernel.script, file
    {
      && Draining(parse, c, written, done, seekDone, received, drained, trace)
      && Nuls(c, cap, written, inside)
      && (orphaned || Followed(start, done))
    }

    /** What the drain loop leaves, by whether it ran through. */
    ghost predicate Drained(c: Bytes, cap: nat, start: DM.Machine, orphaned: bool,
                            ok: bool, written: nat, seekDone: bool, inside: bool)
      requires file.f_pos >= 0
      reads this, dev, dev.kernel.script, file
    {
      && written <= |c| && Framed(c[written..])
      && (ok ==> c[written..] == Tail(c) && seekDone == HasSeek(Commands(parse, Lines(c))))
      && (if ok then inside == NulsInside(Buf(c, cap)) else NulsInside(Buf(c, cap)) ==> inside)
      && (!orphaned ==>
            && (ok, DevNow()) == HandledAll(fd_open, start, dev.ring.entry.Length, parse, Lines(c))
            && (ok ==> !dev.Orphaned()))
    }

    /** One round of the drain loop, for the line from `written` up to the newline at `at`. */
    method DrainOne(ghost c: Bytes, ghost start: DM.Machine, ghost orphaned: bool,
                    written: nat, at: nat, ghost done: seq<Bytes>, seekDone: bool, inside: bool)
      returns (rv: int, seek: bool, inside': bool)
      requires recv_vec.Valid() && recv_vec.Contents() == c && dev.Valid() && file.f_pos >= 0
      requires Drains(c, recv_vec.cap, start, orphaned, written, done, seekDone, inside)
      requires NextNewline(c, written, at)
      modifies file, dev, dev.ring, dev.ring.entry, dev.kernel, dev.kernel.script
      modifies this`drained, this`trace, recv_vec.buf
      ensures dev.Valid() && file.f_pos >= 0 && recv_vec.Valid() && recv_vec.View() == old(recv_vec.View())
      ensures rv < 0 || rv == at + 1 - written
      ensures if rv < 0 then Drained(c, recv_vec.cap, start, orphaned, false, written, seekDone || seek, inside')
              else Drains(c, recv_vec.cap, start, orphaned, at + 1, done + [c[written..at + 1]], seekDone || seek,
                          inside')
    {
      hide Device.Inv, Device.Valid, Device.Orphaned, Vector.Valid, Vector.Contents, Draining, Handled, HandledAll,
        Commands, CommandOf, IsLine, Lines, Tail, HasSeek, Nuls, NulsInside, Clean, Device.State, Device.Held,
        Flatten, AllLines;
      ghost var line, n := c[written..at + 1], dev.ring.entry.Length;
      DrainNext(parse, c, written, done, seekDone, received, drained, trace, at, line);
      DrainFront(parse, c, at + 1, done + [line], seekDone || parse(line).Some?,
                 received, drained + [line], trace + [CommandOf(parse, line)]);
      HandledSnoc(fd_open, start, n, parse, done, line);
      var bytes, here := recv_vec.LineAt(written, at);
      inside' := inside && here;
      NulsNext(c, recv_vec.cap, written, at, inside, here);
      rv, seek := HandleLine(bytes);
      if rv >= 0 {
        drained := drained + [line];
        trace := trace + [CommandOf(parse, line)];
      } else {
        DrainEnd(parse, c, written, done, seekDone, received, drained, trace);
        NulsEnd(c, recv_vec.cap, at + 1, inside');
        if !orphaned {
          HandledStops(fd_open, start, n, parse, done + [line], Lines(c));
        }
      }
    }

    /** The drain loop: every line in the buffer is handled, in order, up to one whose write
        fails. `inside` says whether every temporary NUL was stored inside the buffer. */
    method DrainLines() returns (ok: bool, written: nat, seekDone: bool, inside: bool)
      requires recv_vec.Valid() && Framed(recv_vec.Contents())
      requires dev.Valid() && file.f_pos >= 0
      modifies file, dev, dev.ring, dev.ring.entry, dev.kernel, dev.kernel.script
      modifies this`drained, this`trace, recv_vec.buf
      ensures dev.Valid() && file.f_pos >= 0 && recv_vec.Valid() && recv_vec.View() == old(recv_vec.View())
      ensures Drained(recv_vec.Contents(), recv_vec.cap, old(DevNow()), old(dev.Orphaned()),
                      ok, written, seekDone, inside)
    {
      hide Device.Inv, Device.Valid, Device.Orphaned, Vector.Valid, Vector.Contents, Lines, Tail, Drains, Drained;
      ghost var done: seq<Bytes>, c, start, orphaned := [], recv_vec.Contents(), DevNow(), dev.Orphaned();
      DrainsFrom(c, recv_vec.cap);
      written, seekDone, inside := 0, false, true;
      var at := recv_vec.Find(written, NL);
      while at != -1
        invariant dev.Valid() && file.f_pos >= 0
        invariant recv_vec.Valid() && recv_vec.View() == old(recv_vec.View())
        invariant Drains(c, recv_vec.cap, start, orphaned, written, done, seekDone, inside)
        invariant NextNewline(c, written, at)
        decreases recv_vec.len - written
      {
        ghost var line := c[written..at + 1];
        var rv, seek;
        rv, seek, inside := DrainOne(c, start, orphaned, written, at, done, seekDone, inside);
        seekDone := seekDone || seek;
        if rv < 0 {
          return false, written, seekDone, inside;
        }
        done := done + [line];
        written := written + rv;
        at := recv_vec.Find(written, NL);
      }
      DrainsEnd(c, recv_vec.cap, start, orphaned, written, done, seekDone, inside);
      ok := true;
    }

    lemma DrainsFrom(c: Bytes, cap: nat)
      requires file.f_pos >= 0 && Framed(c)
      ensures Drains(c, cap, DevNow(), dev.Orphaned(), 0, [], false, true)
    {
      DrainStart(parse, c, received, drained, trace);
    }

    lemma DrainsEnd(c: Bytes, cap: nat, start: DM.Machine, orphaned: bool,
                    written: nat, done: seq<Bytes>, seekDone: bool, inside: bool)
      requires file.f_pos >= 0 && Drains(c, cap, start, orphaned, written, done, seekDone, inside)
      requires NextNewline(c, written, -1)
      ensures Drained(c, cap, start, orphaned, true, written, seekDone, inside)
    {
      hide Device.Orphaned, Lines, Tail, HandledAll, HasSeek, Commands, Draining, Nuls, NulsInside;
      DrainEnd(parse, c, written, done, seekDone, received, drained, trace);
      NulsEnd(c, cap, written, inside);
    }

    /** A complete line has been read back: send it and start over with an empty vector. */
    method SendLine() returns (exit: Option<Exit>)
      requires send_vec.Valid() && libc != sock.net
      modifies send_vec, libc, sock`sent, sock.net
      ensures send_vec.Valid() && (send_vec.buf == old(send_vec.buf) || send_vec.buf == null || fresh(send_vec.buf))
      ensures sock.net.outcomes == Left(old(sock.net.outcomes))
      ensures if Fails(old(sock.net.outcomes)) then
                && exit == Some(SendFailed) && send_vec.View() == old(send_vec.View())
                && sock.sent == old(sock.sent) && libc.outcomes == old(libc.outcomes)
              else
                && sock.sent == old(sock.sent) + [old(send_vec.Contents())]
                && libc.outcomes == Left(old(libc.outcomes))
                && (exit, send_vec.View())
                   == if Fails(old(libc.outcomes)) then (Some(MemoryFailed), CLOSED) else (None, EMPTY)
    {
      var bytes := send_vec.Slice(0, send_vec.len);
      Whole(send_vec.Contents());
      assert bytes == send_vec.Contents();
      var failed := sock.Send(bytes);
      if failed {
        return Some(SendFailed);
      }
      send_vec.Close();
      var ok := send_vec.Init(libc);
      exit := if ok then None else Some(MemoryFailed);
    }

    /** The read-back loop stands where r does, over the file `all`. */
    ghost predicate Echoes(all: Bytes, r: Echo)
      requires file.f_pos >= 0
      reads file, send_vec, send_vec.buf, libc, sock, sock.net, dev.kernel.script
    {
      && send_vec.Valid()
      && r == Echo(Rest(all, file.f_pos), send_vec.View(), sock.sent, libc.outcomes, sock.net.outcomes,
                   dev.kernel.script.outcomes)
    }

    /** One round of the read-back loop: read one byte, append it, send at a newline. `more`
        says that a byte was read. */
    method EchoOne(ghost all: Bytes, ghost r: Echo) returns (more: bool, exit: Option<Exit>, ghost r': Echo)
      requires dev.Valid() && file.f_pos >= 0 && all == Flatten(dev.Stored())
      requires Apart() && Echoes(all, r)
      modifies file, dev.kernel.script, send_vec, send_vec.buf, libc, sock`sent, sock.net
      ensures dev.Valid() && file.f_pos >= 0 && Echoes(all, r')
      ensures send_vec.buf == old(send_vec.buf) || send_vec.buf == null || fresh(send_vec.buf)
      ensures var (end, left) := ReadEndOf(|r.rest|, 0, 1, r.disk);
              && more == end.Delivered?
              && if more then (exit, r') == EchoStep(r.(disk := left)) && file.f_pos == old(file.f_pos) + 1
                 else exit == None && r' == r.(disk := left) && file.f_pos == old(file.f_pos)
    {
      hide Device.Inv, Device.Valid, Device.Stored, Vector.Valid, Vector.Contents, Flatten, IsPiece, AppendOf;
      ghost var pos := file.f_pos;
      var rv, out;
      ghost var end;
      rv, out, end := dev.Read(file, 1);
      if rv >= 0 {
        PieceIsNext(dev.Stored(), pos, 1, out);
      }
      RestNext(all, pos);
      r' := r.(disk := dev.kernel.script.outcomes);
      if rv != 1 {
        return false, None, r';
      }
      assert out == r.rest[..1];
      var a := send_vec.Append(libc, out);
      r' := r'.(rest := r.rest[1..], held := send_vec.View(), libc := libc.outcomes);
      if a != Appended {
        return true, Some(MemoryFailed), r';
      }
      if out[0] != NL {
        return true, None, r';
      }
      exit := SendLine();
      r' := r'.(held := send_vec.View(), sent := sock.sent, libc := libc.outcomes, net := sock.net.outcomes);
      more := true;
    }

    /** The read-back loop does what EchoAll says, whatever fails, and the file position moves
        by the bytes read. */
    method ReadBackLoop(ghost all: Bytes, ghost r0: Echo) returns (exit: Option<Exit>, ghost r: Echo)
      requires dev.Valid() && file.f_pos >= 0 && all == Flatten(dev.Stored())
      requires Apart() && Echoes(all, r0)
      modifies file, dev.kernel.script, send_vec, send_vec.buf, libc, sock`sent, sock.net
      ensures dev.Valid() && file.f_pos >= 0 && Echoes(all, r)
      ensures send_vec.buf == old(send_vec.buf) || send_vec.buf == null || fresh(send_vec.buf)
      ensures file.f_pos + |r.rest| == old(file.f_pos) + |r0.rest|
      ensures (exit, r) == EchoAll(r0)
    {
      hide Device.Inv, Device.Valid, Device.Stored, Flatten, EchoStep, Echoes;
      r, exit := r0, None;
      var more := true;
      while more
        invariant dev.Valid() && file.f_pos >= 0 && Echoes(all, r) && exit == None
        invariant send_vec.buf == old(send_vec.buf) || send_vec.buf == null || fresh(send_vec.buf)
        invariant file.f_pos + |r.rest| == old(file.f_pos) + |r0.rest|
        invariant EchoAll(r0) == if more then EchoAll(r) else (None, r)
        decreases more, |r.rest|
      {
        ghost var before, left := r, ReadEndOf(|r.rest|, 0, 1, r.disk).1;
        more, exit, r := EchoOne(all, before);
        if more {
          EchoTakes(before.(disk := left));
        }
        if exit != None {
          return;
        }
      }
    }

    /** After the drain: keep the undrained bytes, or start over with an empty vector. The
        result of that second initialisation is not looked at. */
    method Compact(written: nat)
      requires recv_vec.Valid() && written <= recv_vec.len
      modifies recv_vec, recv_vec.buf, libc
      ensures recv_vec.Valid()
      ensures (recv_vec.View(), libc.outcomes)
           == Compacted(Buf(old(recv_vec.Contents()[written..]), old(recv_vec.cap)), old(libc.outcomes))
      ensures recv_vec.buf == old(recv_vec.buf) || recv_vec.buf == null || fresh(recv_vec.buf)
    {
      if written < recv_vec.len {
        recv_vec.CarryOver(written);
      } else {
        recv_vec.Close();
        var ignored := recv_vec.Init(libc);
      }
    }

    /** The connection as the machine of ServerModel. */
    ghost function Model(): Server
      requires recv_vec.Valid() && file.f_pos >= 0
      reads this`fd_open, recv_vec, recv_vec.buf, sock, dev, dev.kernel.script, file, libc, sock.net
    {
      Server(recv_vec.View(), sock.incoming, sock.failAtEnd, DevNow(), fd_open, sock.sent, libc.outcomes,
             sock.net.outcomes)
    }

    /** close and open of the device; the result of open is not looked at. */
    method Reopen()
      requires file.f_pos >= 0 && recv_vec.Valid() && Apart()
      modifies this`fd_open, file, dev.kernel.script
      ensures file.f_pos == 0 && fd_open == !Fails(old(dev.kernel.script.outcomes))
      ensures recv_vec.Valid() && Model() == Reopened(old(Model()))
    {
      var failed := dev.kernel.script.Fault();
      fd_open := !failed;
      file.f_pos := 0;
    }

    /** The read-back of a round: go back to the start of the file unless a seek came, then
        echo. */
    method EchoRound(seekDone: bool) returns (exit: Option<Exit>)
      requires dev.Valid() && file.f_pos >= 0 && Apart() && recv_vec.Valid()
      requires send_vec.Valid() && send_vec.buf == null
      modifies this`fd_open, file, dev.kernel.script, send_vec, libc, sock`sent, sock.net
      ensures dev.Valid() && file.f_pos >= 0 && recv_vec.Valid()
      ensures send_vec.Valid() && (exit == None ==> send_vec.buf == null)
      ensures exit in {None, Some(MemoryFailed), Some(SendFailed)}
      ensures (exit, Model()) == Echoed(old(Model()), dev.ring.entry.Length, seekDone)
    {
      hide Device.Inv, Device.Valid, Device.Held, Device.State, Vector.Valid, Vector.Contents, ReadBack;
      var ok := send_vec.Init(libc);
      if !ok {
        return Some(MemoryFailed);
      }
      if !seekDone {
        Reopen();
      }
      exit := EchoFile();
      if exit == None {
        send_vec.Close();
      }
    }

    /** The read-back with an empty send vector; without a descriptor the first read fails. */
    method EchoFile() returns (exit: Option<Exit>)
      requires dev.Valid() && file.f_pos >= 0 && Apart() && recv_vec.Valid()
      requires send_vec.Valid() && send_vec.View() == EMPTY && send_vec.buf != recv_vec.buf
      modifies file, dev.kernel.script, send_vec, send_vec.buf, libc, sock`sent, sock.net
      ensures dev.Valid() && file.f_pos >= 0 && recv_vec.Valid() && send_vec.Valid()
      ensures send_vec.buf == old(send_vec.buf) || send_vec.buf == null || fresh(send_vec.buf)
      ensures exit in {None, Some(MemoryFailed), Some(SendFailed)}
      ensures (exit, Model()) == ReadBack(old(Model()), dev.ring.entry.Length)
    {
      hide Device.Inv, Device.Valid, Device.Held, Vector.Valid, Vector.Contents, Flatten, LastN, Rest, EchoAll;
      exit := None;
      if fd_open {
        ghost var all := Flatten(dev.Stored());
        ghost var r := Echo(Rest(all, file.f_pos), EMPTY, sock.sent, libc.outcomes, sock.net.outcomes,
                            dev.kernel.script.outcomes);
        exit, r := ReadBackLoop(all, r);
      }
    }

    /** Compaction, then the read-back. */
    method AnswerRound(written: nat, seekDone: bool) returns (exit: Option<Exit>)
      requires dev.Valid() && file.f_pos >= 0 && Apart()
      requires recv_vec.Valid() && written <= recv_vec.len
      requires send_vec.Valid() && send_vec.buf == null
      modifies this`fd_open, file, dev.kernel.script, recv_vec, recv_vec.buf, send_vec, libc, sock`sent, sock.net
      ensures dev.Valid() && file.f_pos >= 0
      ensures recv_vec.Valid() && recv_vec.Contents() == old(recv_vec.Contents()[written..])
      ensures recv_vec.buf == old(recv_vec.buf) || recv_vec.buf == null || fresh(recv_vec.buf)
      ensures send_vec.Valid() && (exit == None ==> send_vec.buf == null)
      ensures exit in {None, Some(MemoryFailed), Some(SendFailed)}
      ensures var unread := Buf(old(recv_vec.Contents()[written..]), old(recv_vec.cap));
              (exit, Model()) == Answered(old(Model()).(recv := unread), dev.ring.entry.Length, seekDone)
    {
      hide Device.Inv, Device.Valid, Vector.Valid, Vector.Contents, Echoed;
      Compact(written);
      exit := EchoRound(seekDone);
    }

    /** What holds between rounds. */
    ghost predicate Idle()
      reads this, sock, dev, dev.ring, dev.ring.entry, dev.kernel, file, recv_vec, recv_vec.buf, send_vec, send_vec.buf
    {
      && sock.Valid() && dev.Valid() && file.f_pos >= 0 && Apart()
      && recv_vec.Valid() && Framed(recv_vec.Contents()) && NL !in recv_vec.Contents()
      && send_vec.Valid() && send_vec.buf == null
    }

    /** The commands issued so far are those of the lines drained so far, and these lines
        are the front of what was received. */
    ghost predicate Traced()
      reads this
    {
      trace == Commands(parse, drained) && drained <= Lines(received)
    }

    /** Draining and answering, once the buffer has a newline. */
    method WorkRound() returns (exit: Option<Exit>)
      requires sock.Valid() && dev.Valid() && file.f_pos >= 0 && Apart()
      requires recv_vec.Valid() && Framed(recv_vec.Contents())
      requires send_vec.Valid() && send_vec.buf == null
      modifies this`drained, this`trace, this`fd_open, sock`sent, sock.net, file, libc, recv_vec, recv_vec.buf, send_vec
      modifies dev, dev.ring, dev.ring.entry, dev.kernel, dev.kernel.script
      ensures sock.Valid() && dev.Valid() && file.f_pos >= 0 && recv_vec.Valid() && Traced()
      ensures recv_vec.buf == old(recv_vec.buf) || recv_vec.buf == null || fresh(recv_vec.buf)
      ensures exit == None ==> Idle()
      ensures exit !in {Some(Closed), Some(RecvFailed)}
      ensures !old(dev.Orphaned()) ==>
                && (exit, Model()) == Worked(old(Model()), dev.ring.entry.Length, parse)
                && (exit == None ==> !dev.Orphaned())
    {
      hide Device.Inv, Device.Valid, Device.Orphaned, Vector.Valid, Vector.Contents, Socket.Valid, Flatten, Lines, Tail,
        Commands, HasSeek, Answered, HandledAll, NulsInside, Device.State, Device.Held;
      TailHasNoNewline(recv_vec.Contents());
      var ok, written, seekDone, inside := DrainLines();
      FramedIsTraced(recv_vec.Contents()[written..]);
      if !ok {
        return Some(DeviceFailed);
      }
      exit := AnswerRound(written, seekDone);
    }

    /** One turn of the outer loop, after the signal test. None means another turn. */
    method HandleRound() returns (exit: Option<Exit>)
      requires Idle()
      modifies this`received, this`drained, this`trace, this`fd_open
      modifies sock, sock.net, file, libc, recv_vec, recv_vec.buf, send_vec
      modifies dev, dev.ring, dev.ring.entry, dev.kernel, dev.kernel.script
      ensures dev.Valid() && file.f_pos >= 0 && recv_vec.Valid() && Traced()
      ensures received <= old(received + Flatten(sock.incoming))
      ensures recv_vec.buf == old(recv_vec.buf) || recv_vec.buf == null || fresh(recv_vec.buf)
      ensures exit == None ==> Idle() && received + Flatten(sock.incoming) == old(received + Flatten(sock.incoming))
      ensures exit in {Some(Closed), Some(RecvFailed)} ==>
                && drained == Lines(received) && received == old(received + Flatten(sock.incoming))
                && sock.failAtEnd == (exit == Some(RecvFailed))
      ensures !old(dev.Orphaned()) ==>
                && (exit, Model()) == Turn(old(Model()), dev.ring.entry.Length, parse)
                && (exit == None ==> !dev.Orphaned())
    {
      hide Device.Inv, Device.Valid, Device.Orphaned, Vector.Valid, Vector.Contents, Socket.Valid, Flatten, Lines, Tail,
        Commands, Receive, Worked;
      var r := ReceiveBatch();
      if r != Newline {
        FramedIsTraced(recv_vec.Contents());
        FlattenNone();
        assert received + [] == received;
        return Some(ExitOf(r));
      }
      exit := WorkRound();
    }

    /** The outer loop: `polls` is the number of signal tests until the signal is seen. */
    method HandleRounds(polls: nat) returns (exit: Exit)
      requires Idle() && Traced()
      modifies this`received, this`drained, this`trace, this`fd_open
      modifies sock, sock.net, file, libc, recv_vec, recv_vec.buf, send_vec
      modifies dev, dev.ring, dev.ring.entry, dev.kernel, dev.kernel.script
      ensures dev.Valid() && file.f_pos >= 0 && recv_vec.Valid() && Traced()
      ensures received <= old(received + Flatten(sock.incoming))
      ensures exit in {Closed, RecvFailed} ==>
                drained == Lines(old(received + Flatten(sock.incoming))) && sock.failAtEnd == exit.RecvFailed?
      ensures !old(dev.Orphaned()) ==>
                (exit, Model()) == Rounds(old(Model()), polls, dev.ring.entry.Length, parse)
    {
      hide Device.Inv, Device.Valid, Device.Orphaned, Vector.Valid, Vector.Contents, Socket.Valid, Flatten, Traced,
        Turn, Idle;
      FromIdle();
      ghost var stream, n, start := received + Flatten(sock.incoming), dev.ring.entry.Length, Model();
      for k := 0 to polls
        invariant Idle() && Traced() && file.f_pos >= 0 && recv_vec.Valid()
        invariant recv_vec.buf == old(recv_vec.buf) || recv_vec.buf == null || fresh(recv_vec.buf)
        invariant received + Flatten(sock.incoming) == stream
        invariant !old(dev.Orphaned()) ==>
                    !dev.Orphaned() && Rounds(start, polls, n, parse) == Rounds(Model(), polls - k, n, parse)
      {
        var r := HandleRound();
        if r != None {
          return r.value;
        }
      }
      FromIdle();
      exit := Signalled;
    }

    lemma FromIdle()
      requires Idle()
      ensures dev.Valid() && file.f_pos >= 0 && recv_vec.Valid() && Traced()
      ensures received <= received + Flatten(sock.incoming)
    {
      FramedIsTraced(recv_vec.Contents());
    }

    /** The first allocation and the outer loop. */
    method HandleStream(polls: nat) returns (exit: Exit)
      requires Idle() && recv_vec.buf == null && recv_vec.View() == CLOSED
      modifies this`received, this`drained, this`trace, this`fd_open
      modifies sock, sock.net, file, libc, recv_vec, send_vec
      modifies dev, dev.ring, dev.ring.entry, dev.kernel, dev.kernel.script
      ensures dev.Valid() && file.f_pos >= 0 && recv_vec.Valid() && Traced()
      ensures received <= old(received + Flatten(sock.incoming))
      ensures exit in {Closed, RecvFailed} ==>
                drained == Lines(old(received + Flatten(sock.incoming))) && sock.failAtEnd == exit.RecvFailed?
      ensures Fails(old(libc.outcomes)) ==>
                && exit == MemoryFailed && sock.sent == old(sock.sent)
                && received == old(received) && dev.State() == old(dev.State())
      ensures !old(dev.Orphaned()) ==>
                (exit, Model()) == Serve(old(Model()), polls, dev.ring.entry.Length, parse)
    {
      hide Device.Inv, Device.Valid, Device.Orphaned, Socket.Valid, Flatten, Lines, Traced, Rounds;
      FromIdle();
      var ok := recv_vec.Init(libc);
      exit := MemoryFailed;
      if ok {
        exit := HandleRounds(polls);
      }
    }

    /** handle_connection. On every exit the connection is marked complete and its vectors are
        closed, and the commands issued are those of the first lines of the stream, of all of
        them when the client ends the stream. Exit, device, file position and everything sent
        are what Serve says, whatever allocations, sends and device calls fail, from any device
        that has not lost the buffer of a line under way. */
    method Handle(polls: nat) returns (exit: Exit)
      requires Idle() && recv_vec.buf == null && recv_vec.View() == CLOSED && received == []
      modifies this, sock, sock.net, file, libc, recv_vec, send_vec
      modifies dev, dev.ring, dev.ring.entry, dev.kernel, dev.kernel.script
      ensures complete && recv_vec.buf == null && send_vec.buf == null && dev.Valid() && file.f_pos >= 0
      ensures received <= old(Flatten(sock.incoming))
      ensures trace == Commands(parse, drained) && drained <= Lines(received)
      ensures exit in {Closed, RecvFailed} ==>
                drained == Lines(old(Flatten(sock.incoming))) && sock.failAtEnd == exit.RecvFailed?
      ensures Fails(old(libc.outcomes)) ==>
                && exit == MemoryFailed && sock.sent == old(sock.sent)
                && received == [] && dev.State() == old(dev.State())
      ensures !old(dev.Orphaned()) ==>
                var (e, m) := Serve(old(Model()), polls, dev.ring.entry.Length, parse);
                exit == e && DevNow() == m.dev && fd_open == m.open && sock.sent == m.sent
    {
      hide Device.Inv, Device.Valid, Device.Orphaned, Flatten, Lines, Commands, Serve;
      assert [] + Flatten(sock.incoming) == Flatten(sock.incoming);
      exit := HandleStream(polls);
      recv_vec.Close();
      send_vec.Close();
      complete := true;
    }

    lemma FramedIsTraced(unread: Bytes)
      requires Framed(unread)
      ensures Traced()
      ensures NL !in unread ==> drained == Lines(received)
    {
      FramedLines(drained, unread);
    }
  }

  lemma NothingNew(c: Bytes)
    ensures c[|c|..] == []
  {
  }

  lemma ReceivedNext(received: Bytes, incoming: seq<Bytes>)
    ensures received <= received + Flatten(incoming) && received + [] == received
    ensures incoming != [] ==>
              (received + incoming[0]) + Flatten(incoming[1..]) == received + Flatten(incoming)
  {
  }

  /** The next byte of the file, and what is left after it. */
  lemma RestNext(all: Bytes, pos: nat)
    ensures pos >= |all| ==> Rest(all, pos) == []
    ensures pos < |all| ==> Rest(all, pos) != [] && Rest(all, pos)[..1] == all[pos..pos + 1]
    ensures pos < |all| ==> Rest(all, pos)[1..] == Rest(all, pos + 1)
    ensures pos < |all| <==> 0 < |Rest(all, pos)|
  {
  }

  lemma FramedLines(ls: seq<Bytes>, unread: Bytes)
    requires AllLines(ls)
    ensures ls <= Lines(Flatten(ls) + unread)
    ensures NL !in unread ==> ls == Lines(Flatten(ls) + unread)
  {
    SplitUnique(ls, []);
    assert Flatten(ls) + [] == Flatten(ls);
    LinesAppend(Flatten(ls), unread);
    if NL !in unread {
      SplitUnique(ls, unread);
    }
  }

  lemma TailHasNoNewline(c: Bytes)
    ensures NL !in Tail(c)
  {
  }

  /** The result of searching a buffer for a newline from an offset on. */
  ghost predicate NextNewline(c: Bytes, from: nat, at: int) {
    && from <= |c|
    && (at == -1 ==> NL !in c[from..])
    && (at != -1 ==> from <= at < |c| && c[at] == NL && NL !in c[from..at])
  }

  /** The state at each test of the drain loop: `done` are the lines of this round handled
      so far, which are exactly the first `written` bytes of the buffer c. */
  ghost predicate Draining(parse: Parser, c: Bytes, written: nat, done: seq<Bytes>, seekDone: bool,
                           received: Bytes, drained: seq<Bytes>, trace: seq<Command>) {
    && written <= |c|
    && AllLines(done) && Flatten(done) == c[..written]
    && received == Flatten(drained) + c[written..]
    && AllLines(drained) && trace == Commands(parse, drained)
    && seekDone == HasSeek(Commands(parse, done))
  }

  lemma DrainStart(parse: Parser, c: Bytes, received: Bytes, drained: seq<Bytes>, trace: seq<Command>)
    requires received == Flatten(drained) + c && AllLines(drained) && trace == Commands(parse, drained)
    ensures Draining(parse, c, 0, [], false, received, drained, trace)
  {
  }

  lemma DrainNext(parse: Parser, c: Bytes, written: nat, done: seq<Bytes>, seekDone: bool,
                  received: Bytes, drained: seq<Bytes>, trace: seq<Command>, at: nat, line: Bytes)
    requires Draining(parse, c, written, done, seekDone, received, drained, trace)
    requires NextNewline(c, written, at) && line == c[written..at + 1]
    ensures IsLine(line)
    ensures Draining(parse, c, at + 1, done + [line], seekDone || parse(line).Some?,
                     received, drained + [line], trace + [CommandOf(parse, line)])
  {
    CutLine(c, written, at);
    FlattenSnoc(done, line);
    FlattenSnoc(drained, line);
    Assoc(Flatten(drained), line, c[at + 1..]);
    CommandsSnoc(parse, done, line);
    CommandsSnoc(parse, drained, line);
    PerformSnoc(Session([], 0), 0, Commands(parse, done), CommandOf(parse, line));
    AllLinesSnoc(done, line);
    AllLinesSnoc(drained, line);
    hide Flatten, IsLine, AllLines, Commands, HasSeek;
  }

  /** The lines handled are the first lines of the buffer. */
  lemma DrainFront(parse: Parser, c: Bytes, written: nat, done: seq<Bytes>, seekDone: bool,
                   received: Bytes, drained: seq<Bytes>, trace: seq<Command>)
    requires Draining(parse, c, written, done, seekDone, received, drained, trace)
    ensures done <= Lines(c)
  {
    FramedLines(done, c[written..]);
    assert c[..written] + c[written..] == c;
  }

  lemma AllLinesSnoc(ls: seq<Bytes>, l: Bytes)
    requires AllLines(ls) && IsLine(l)
    ensures AllLines(ls + [l])
  {
  }

  lemma CutLine(c: Bytes, from: nat, at: nat)
    requires NextNewline(c, from, at)
    ensures var line := c[from..at + 1];
            IsLine(line) && c[..at + 1] == c[..from] + line && c[from..] == line + c[at + 1..]
  {
    assert c[from..at + 1][..at - from] == c[from..at];
  }

  /** The NULs stored for the first `written` bytes of c, in a vector of this capacity. */
  ghost predicate Nuls(c: Bytes, cap: nat, written: nat, inside: bool) {
    && written <= |c| && (written > 0 ==> c[written - 1] == NL)
    && (inside <==> !(written == |c| == cap > 0))
  }

  lemma NulsNext(c: Bytes, cap: nat, written: nat, at: nat, inside: bool, in1: bool)
    requires Nuls(c, cap, written, inside) && NextNewline(c, written, at)
    requires in1 <==> !(at + 1 == |c| == cap)
    ensures Nuls(c, cap, at + 1, inside && in1)
  {
  }

  lemma NulsEnd(c: Bytes, cap: nat, written: nat, inside: bool)
    requires Nuls(c, cap, written, inside)
    ensures NulsInside(Buf(c, cap)) ==> inside
    ensures NL !in c[written..] ==> inside == NulsInside(Buf(c, cap))
  {
  }

  /** With no newline left, the round has handled Lines(c) and leaves Tail(c). */
  lemma DrainEnd(parse: Parser, c: Bytes, written: nat, done: seq<Bytes>, seekDone: bool,
                 received: Bytes, drained: seq<Bytes>, trace: seq<Command>)
    requires Draining(parse, c, written, done, seekDone, received, drained, trace)
    ensures written <= |c| && AllLines(drained) && trace == Commands(parse, drained)
    ensures received == Flatten(drained) + c[written..]
    ensures NL !in c[written..] ==> done == Lines(c) && c[written..] == Tail(c)
    ensures NL !in c[written..] ==> seekDone == HasSeek(Commands(parse, Lines(c)))
  {
    if NL !in c[written..] {
      SplitUnique(done, c[written..]);
      assert Flatten(done) + c[written..] == c;
    }
  }

  /** Searching the newest chunk alone finds a newline exactly when the whole buffer has one. */
  lemma NewestSuffices(held: Bytes, data: Bytes, at: int)
    requires NL !in held && |data| > 0
    requires at == -1 || |held| <= at < |held + data|
    requires if at == -1 then NL !in (held + data)[|held|..] else (held + data)[at] == NL
    ensures at == -1 <==> NL !in held + data
    ensures at == -1 <==> NL !in data
  {
  }
}
