/** How one aesd_write call ends, as a function of its bytes and of which foreign calls
    fail, and what it leaves behind. */
module WriteOutcome {
  import opened Text
  import opened Faults
  import opened LineAssembly

  /** One byte of the write loop: stored, or the user copy failed, or it ended a line whose
      entry could not be allocated, or the line was stored but no buffer for the rest was. */
  datatype Round = Accepted | BadByte | NoEntry | NoNextBuffer

  function RoundOf(b: Byte, last: bool, f: seq<bool>): (Round, seq<bool>) {
    if Fails(f) then (BadByte, Left(f))
    else if b != NL then (Accepted, Left(f))
    else if Fails(Left(f)) then (NoEntry, Left(Left(f)))
    else if last then (Accepted, Left(Left(f)))
    else (if Fails(Left(Left(f))) then NoNextBuffer else Accepted, Left(Left(Left(f))))
  }

  /** A failed user copy leaves a zero byte behind; a failed entry leaves the finished line
      in the buffer, where later bytes join it. */
  function AfterRound(a: Assembly, b: Byte, r: Round): Assembly {
    match r
    case Accepted => Step(a, b)
    case NoNextBuffer => Step(a, b)
    case BadByte => Assembly(a.done, a.pending + [0])
    case NoEntry => Assembly(a.done, a.pending + [b])
  }

  /** The whole call: all bytes stored, lock interrupted, no room at the start, or stopped
      at the byte `at`. */
  datatype End = Done | Interrupted | NoBuffer | Stopped(at: nat, round: Round)

  function LoopOf(buf: Bytes, k: nat, f: seq<bool>): (r: (End, seq<bool>))
    requires k <= |buf|
    ensures r.0.Done? || (r.0.Stopped? && r.0.at < |buf| && !r.0.round.Accepted?)
    decreases |buf| - k
  {
    if k == |buf| then (Done, f)
    else
      var (r, left) := RoundOf(buf[k], k + 1 == |buf|, f);
      if r.Accepted? then LoopOf(buf, k + 1, left) else (Stopped(k, r), left)
  }

  function EndOf(buf: Bytes, f: seq<bool>): (r: (End, seq<bool>))
    ensures r.0.Stopped? ==> r.0.at < |buf| && !r.0.round.Accepted?
  {
    if buf == [] then (Done, f)
    else if Fails(f) then (Interrupted, Left(f))
    else if Fails(Left(f)) then (NoBuffer, Left(Left(f)))
    else LoopOf(buf, 0, Left(Left(f)))
  }

  function Outcome(a: Assembly, buf: Bytes, e: End): Assembly
    requires e.Stopped? ==> e.at < |buf|
  {
    match e
    case Done => Absorb(a, buf)
    case Interrupted => a
    case NoBuffer => a
    case Stopped(at, r) => AfterRound(Absorb(a, buf[..at]), buf[at], r)
  }

  /** A round is accepted if and only if none of its calls fails, and makes none after one
      that does. */
  lemma RoundBlames(b: Byte, last: bool, f: seq<bool>)
    ensures var (r, left) := RoundOf(b, last, f);
            if r.Accepted? then Clean(f, left) else Blamed(f, left)
  {
    hide Clean, Blamed;
    OneCall(f);
    OneCall(Left(f));
    OneCall(Left(Left(f)));
    MoreCalls(f, f, Left(f));
    if !Fails(f) {
      MoreCalls(f, Left(f), Left(Left(f)));
      if !Fails(Left(f)) {
        MoreCalls(f, Left(Left(f)), Left(Left(Left(f))));
      }
    }
  }

  lemma {:induction false} LoopBlames(buf: Bytes, k: nat, f: seq<bool>)
    requires k <= |buf|
    ensures var (e, left) := LoopOf(buf, k, f);
            if e.Done? then Clean(f, left) else Blamed(f, left)
    decreases |buf| - k
  {
    hide Clean, Blamed, RoundOf;
    OneCall(f);
    if k < |buf| {
      var (r, left) := RoundOf(buf[k], k + 1 == |buf|, f);
      RoundBlames(buf[k], k + 1 == |buf|, f);
      if r.Accepted? {
        LoopBlames(buf, k + 1, left);
        MoreCalls(f, left, LoopOf(buf, k + 1, left).1);
      }
    }
  }

  /** A call stores all its bytes if and only if none of the foreign calls it makes fails,
      and it makes none after one that does. An empty call makes none; the first is the
      lock, the second the allocation for the line. */
  lemma EndBlames(buf: Bytes, f: seq<bool>)
    ensures var (e, left) := EndOf(buf, f);
            && (if e.Done? then Clean(f, left) && !Blamed(f, left) else Blamed(f, left) && !Clean(f, left))
            && (buf == [] ==> e.Done? && left == f)
            && (e.Interrupted? <==> buf != [] && Fails(f))
            && (e.NoBuffer? <==> buf != [] && !Fails(f) && Fails(Left(f)))
            && (f == [] ==> e.Done? && left == [])
  {
    hide Clean, Blamed, LoopOf;
    var (e, left) := EndOf(buf, f);
    OneCall(f);
    OneCall(Left(f));
    Blamable(f, left);
    NoFailuresNoStop(buf);
    if buf != [] && !Fails(f) {
      MoreCalls(f, Left(f), Left(Left(f)));
      if !Fails(Left(f)) {
        LoopBlames(buf, 0, Left(Left(f)));
        MoreCalls(f, Left(Left(f)), left);
      }
    }
  }

  lemma {:induction false} LoopWithoutFailures(buf: Bytes, k: nat)
    requires k <= |buf|
    ensures LoopOf(buf, k, []) == (Done, [])
    decreases |buf| - k
  {
    if k < |buf| {
      LoopWithoutFailures(buf, k + 1);
    }
  }

  /** With no failures left every call stores all its bytes. */
  lemma NoFailuresNoStop(buf: Bytes)
    ensures EndOf(buf, []) == (Done, [])
  {
    LoopWithoutFailures(buf, 0);
  }

  /** Whatever fails, the completed lines are those of a prefix of the call. */
  lemma StoppedIsPrefix(a: Assembly, buf: Bytes, e: End)
    requires e.Stopped? ==> e.at < |buf|
    ensures exists k: nat :: k <= |buf| && Outcome(a, buf, e).done == Absorb(a, buf[..k]).done
  {
    AbsorbEnds(a, buf);
    if e.Stopped? {
      AbsorbNext(a, buf, e.at);
      var k := if e.round in {NoNextBuffer, Accepted} then e.at + 1 else e.at;
      assert Outcome(a, buf, e).done == Absorb(a, buf[..k]).done;
    } else {
      var k := if e.Done? then |buf| else 0;
      assert Outcome(a, buf, e).done == Absorb(a, buf[..k]).done;
    }
  }
}
