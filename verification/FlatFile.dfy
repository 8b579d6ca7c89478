/** The ring seen as one flat file: what reads return, where seeks land. */
module FlatFile {
  import opened Text
  import opened Positions
  import opened Faults

  /** The result of one read: empty from the end of the file on, and otherwise up to count
      bytes of the line that holds pos, from pos on, never going past that line. */
  ghost predicate IsPiece(ls: seq<Bytes>, pos: nat, count: nat, piece: Bytes) {
    if pos >= |Flatten(ls)| then piece == []
    else exists e: nat, o: nat :: At(Lengths(ls), e, o, pos) && PieceOf(ls[e], o, count, piece)
  }

  predicate PieceOf(line: Bytes, o: nat, count: nat, piece: Bytes) {
    o < |line| && piece == line[o..if o + count <= |line| then o + count else |line|]
  }

  /** A read of a positive count returns the next bytes of the file; it returns none exactly
      at the end. */
  lemma PieceIsNext(ls: seq<Bytes>, pos: nat, count: nat, piece: Bytes)
    requires count > 0 && IsPiece(ls, pos, count, piece)
    ensures piece == [] <==> pos >= |Flatten(ls)|
    ensures piece != [] ==> pos + |piece| <= |Flatten(ls)| && piece == Flatten(ls)[pos..pos + |piece|]
    ensures |piece| <= count
  {
    hide Flatten, Sum;
    if pos < |Flatten(ls)| {
      var e: nat, o: nat :| At(Lengths(ls), e, o, pos) && PieceOf(ls[e], o, count, piece);
      FlattenAt(ls, e, o, pos, |piece|);
    }
  }

  /** Successive reads from a position, with no write between them. */
  ghost predicate ReadRun(ls: seq<Bytes>, pos: nat, counts: seq<nat>, pieces: seq<Bytes>)
    decreases |pieces|
  {
    && |counts| == |pieces|
    && (pieces != [] ==>
          && counts[0] > 0 && IsPiece(ls, pos, counts[0], pieces[0])
          && ReadRun(ls, pos + |pieces[0]|, counts[1..], pieces[1..]))
  }

  /** Whatever the counts, reads return consecutive stretches of the file: non-empty until
      the end is reached, then empty, so reads up to the first empty one return the file
      from the start position on, in at most as many reads as bytes. */
  lemma {:induction false} ReadsReconstruct(ls: seq<Bytes>, pos: nat, counts: seq<nat>, pieces: seq<Bytes>)
    requires pos <= |Flatten(ls)| && ReadRun(ls, pos, counts, pieces)
    ensures pos + |Flatten(pieces)| <= |Flatten(ls)|
    ensures Flatten(pieces) == Flatten(ls)[pos..pos + |Flatten(pieces)|]
    ensures forall i :: 0 <= i < |pieces| ==>
              (pieces[i] == [] <==> pos + |Flatten(pieces[..i])| == |Flatten(ls)|)
    ensures (forall i :: 0 <= i < |pieces| ==> pieces[i] != []) ==> |pieces| <= |Flatten(pieces)|
    decreases |pieces|
  {
    hide Flatten, IsPiece;
    if pieces != [] {
      var next, rest := pos + |pieces[0]|, pieces[1..];
      PieceIsNext(ls, pos, counts[0], pieces[0]);
      ReadsReconstruct(ls, next, counts[1..], rest);
      assert pieces == [pieces[0]] + rest;
      FlattenCons(pieces[0], rest);
      JoinSlices(Flatten(ls), pos, next, next + |Flatten(rest)|);
      forall i | 0 <= i < |pieces|
        ensures pieces[i] == [] <==> pos + |Flatten(pieces[..i])| == |Flatten(ls)|
      {
        PrefixLength(pieces, i);
      }
    }
    FlattenNone();
  }

  lemma FlattenNone()
    ensures Flatten([]) == []
  {
  }

  lemma JoinSlices(f: Bytes, i: nat, j: nat, k: nat)
    requires i <= j <= k <= |f|
    ensures f[i..j] + f[j..k] == f[i..k]
  {
  }

  lemma PrefixLength(pieces: seq<Bytes>, i: nat)
    requires i < |pieces|
    ensures i == 0 ==> Flatten(pieces[..i]) == []
    ensures i > 0 ==> pieces[i] == pieces[1..][i - 1]
    ensures i > 0 ==> |Flatten(pieces[..i])| == |pieces[0]| + |Flatten(pieces[1..][..i - 1])|
  {
    if i > 0 {
      assert pieces[..i] == [pieces[0]] + pieces[1..][..i - 1];
      FlattenCons(pieces[0], pieces[1..][..i - 1]);
    }
  }

  /** One more read extends a run. */
  lemma {:induction false} ReadRunSnoc(ls: seq<Bytes>, pos: nat, counts: seq<nat>, pieces: seq<Bytes>,
                                       count: nat, piece: Bytes)
    requires ReadRun(ls, pos, counts, pieces)
    requires count > 0 && IsPiece(ls, pos + |Flatten(pieces)|, count, piece)
    ensures ReadRun(ls, pos, counts + [count], pieces + [piece])
    decreases |pieces|
  {
    hide IsPiece;
    if pieces == [] {
      assert (pieces + [piece])[1..] == [] && (counts + [count])[1..] == [];
    } else {
      ReadRunSnoc(ls, pos + |pieces[0]|, counts[1..], pieces[1..], count, piece);
      assert (pieces + [piece])[1..] == pieces[1..] + [piece];
      assert (counts + [count])[1..] == counts[1..] + [count];
    }
  }

  /** Reading until the first empty piece returns everything from the position on. */
  lemma ReadToEnd(ls: seq<Bytes>, pos: nat, counts: seq<nat>, pieces: seq<Bytes>)
    requires pos <= |Flatten(ls)| && ReadRun(ls, pos, counts, pieces)
    requires pieces != [] && pieces[|pieces| - 1] == []
    ensures Flatten(pieces) == Flatten(ls)[pos..]
  {
    ReadsReconstruct(ls, pos, counts, pieces);
    var n := |pieces| - 1;
    assert pieces == pieces[..n] + [pieces[n]];
    FlattenSnoc(pieces[..n], []);
  }

  /** How a read ends: nothing asked for, lock interrupted, end of the file, failed user
      copy, or bytes copied; and the script it leaves. */
  datatype ReadEnd = NothingAsked | ReadInterrupted | AtEnd | BadCopy | Delivered

  function ReadEndOf(size: nat, pos: nat, count: nat, f: seq<bool>): (ReadEnd, seq<bool>) {
    if count == 0 then (NothingAsked, f)
    else if Fails(f) then (ReadInterrupted, Left(f))
    else if pos >= size then (AtEnd, Left(f))
    else (if Fails(Left(f)) then BadCopy else Delivered, Left(Left(f)))
  }

  /** A read ends well if and only if none of its calls fails, and makes none after one that
      does. */
  lemma ReadBlames(size: nat, pos: nat, count: nat, f: seq<bool>)
    ensures var (end, left) := ReadEndOf(size, pos, count, f);
            && (if end in {ReadInterrupted, BadCopy} then Blamed(f, left) && !Clean(f, left)
                else Clean(f, left) && !Blamed(f, left))
            && (f == [] ==> left == [] && end !in {ReadInterrupted, BadCopy})
  {
    hide Clean, Blamed;
    OneCall(f);
    OneCall(Left(f));
    Blamable(f, ReadEndOf(size, pos, count, f).1);
    if !Fails(f) {
      MoreCalls(f, Left(f), Left(Left(f)));
    }
  }

  /** Bytes from a position to the end of the line that holds it. */
  function LeftInLine(sizes: seq<nat>, pos: nat): nat {
    if sizes == [] then 0
    else if pos < sizes[0] then sizes[0] - pos
    else LeftInLine(sizes[1..], pos - sizes[0])
  }

  lemma {:induction false} LeftAt(sizes: seq<nat>, e: nat, o: nat, pos: nat)
    requires At(sizes, e, o, pos)
    ensures LeftInLine(sizes, pos) == sizes[e] - o
  {
    if e > 0 {
      assert sizes[..e] == [sizes[0]] + sizes[1..][..e - 1];
      SumFront(sizes[0], sizes[1..][..e - 1]);
      LeftAt(sizes[1..], e - 1, o, pos - sizes[0]);
    }
  }

  /** The length of a read's result depends on the sizes of the lines only. */
  lemma PieceLength(ls: seq<Bytes>, pos: nat, count: nat, piece: Bytes)
    requires IsPiece(ls, pos, count, piece) && pos < |Flatten(ls)|
    ensures var left := LeftInLine(Lengths(ls), pos);
            |piece| == if count < left then count else left
  {
    var e: nat, o: nat :| At(Lengths(ls), e, o, pos) && PieceOf(ls[e], o, count, piece);
    LeftAt(Lengths(ls), e, o, pos);
  }

  /** Adding a line to a full ring: the file loses its oldest line at the front and gains
      the new one at the end, and every surviving byte moves down by the size of the oldest. */
  lemma EvictionShiftsFile(ls: seq<Bytes>, line: Bytes, e: nat, o: nat, pos: nat)
    requires |ls| > 0
    ensures var ls' := LastN(ls + [line], |ls|);
            && Flatten(ls') == Flatten(ls)[|ls[0]|..] + line
            && (e + 1 < |ls| ==>
                  (At(Lengths(ls), e + 1, o, pos)
                   <==> pos >= |ls[0]| && At(Lengths(ls'), e, o, pos - |ls[0]|)))
  {
    assert LastN(ls + [line], |ls|) == ls[1..] + [line];
    FlattenSnoc(ls[1..], line);
    assert Flatten(ls)[|ls[0]|..] == Flatten(ls[1..]);
    if e + 1 < |ls| {
      assert Lengths(ls[1..] + [line]) == Lengths(ls)[1..] + [|line|];
      EvictionShift(Lengths(ls), |line|, e, o, pos);
    }
  }
}

/** The 64-bit arithmetic of aesd_llseek. */
module Seek64 {
  const TWO63: int := 0x8000_0000_0000_0000
  const TWO64: int := 0x1_0000_0000_0000_0000

  predicate IsLoff(x: int) {
    -TWO63 <= x < TWO63
  }

  /** Reinterpreted as unsigned 64-bit. */
  function U64(x: int): (r: int)
    ensures 0 <= r < TWO64
  {
    x % TWO64
  }

  /** Wrapped into signed 64-bit. */
  function S64(x: int): (r: int)
    ensures IsLoff(r)
  {
    if U64(x) < TWO63 then U64(x) else U64(x) - TWO64
  }

  /** newpos > char_size, the comparison made unsigned. */
  predicate Rejected(newpos: int, charSize: nat) {
    U64(newpos) > charSize
  }

  /** The single wrapped, unsigned comparison accepts exactly the sums in 0..charSize, plus
      those that wrap round from below into that range. */
  lemma SeekTest(base: int, off: int, charSize: nat)
    requires IsLoff(base) && IsLoff(off) && charSize < TWO63
    ensures !Rejected(S64(base + off), charSize)
       <==> 0 <= base + off <= charSize || base + off + TWO64 <= charSize
    ensures 0 <= base + off <= charSize ==> S64(base + off) == base + off
  {
  }

  /** SEEK_SET stores the offset as it is: a value in range wraps to itself. */
  lemma InRange(x: int)
    requires IsLoff(x)
    ensures S64(x) == x
  {
  }

  /** The test is right for exactly the offsets that do not wrap; from a position that is
      not negative, none does. */
  lemma SeekTestExact(base: int, off: int, charSize: nat)
    requires IsLoff(base) && IsLoff(off) && charSize < TWO63
    ensures (!Rejected(S64(base + off), charSize) <==> 0 <= base + off <= charSize)
       <==> base + off + TWO64 > charSize
    ensures base >= 0 ==> base + off + TWO64 > charSize
  {
  }
}
