/** The two position maps of the flat file, as mathematics over the sizes of the stored
    lines: (line, offset in line) to file position and back. */
module Positions {
  import opened Text

  function Sum(sizes: seq<nat>): nat {
    if sizes == [] then 0 else Sum(sizes[..|sizes| - 1]) + sizes[|sizes| - 1]
  }

  function Lengths(ls: seq<Bytes>): (sizes: seq<nat>) {
    seq(|ls|, i requires 0 <= i < |ls| => |ls[i]|)
  }

  /** Offset o of line e names file position pos. */
  predicate At(sizes: seq<nat>, e: nat, o: nat, pos: nat) {
    e < |sizes| && o < sizes[e] && pos == Sum(sizes[..e]) + o
  }

  lemma SumSnoc(sizes: seq<nat>, x: nat)
    ensures Sum(sizes + [x]) == Sum(sizes) + x
  {
  }

  lemma SumStep(sizes: seq<nat>, i: nat)
    requires i < |sizes|
    ensures Sum(sizes[..i + 1]) == Sum(sizes[..i]) + sizes[i]
  {
    assert sizes[..i + 1] == sizes[..i] + [sizes[i]];
    SumSnoc(sizes[..i], sizes[i]);
  }

  lemma {:induction false} SumFront(x: nat, sizes: seq<nat>)
    ensures Sum([x] + sizes) == x + Sum(sizes)
  {
    var n := |sizes|;
    if n == 0 {
      assert [x] + sizes == [] + [x];
      SumSnoc([], x);
    } else {
      SumFront(x, sizes[..n - 1]);
      assert [x] + sizes == ([x] + sizes[..n - 1]) + [sizes[n - 1]];
      SumSnoc([x] + sizes[..n - 1], sizes[n - 1]);
    }
  }

  lemma {:induction false} SumMonotone(sizes: seq<nat>, i: nat, j: nat)
    requires i <= j <= |sizes|
    ensures Sum(sizes[..i]) <= Sum(sizes[..j])
    decreases j - i
  {
    if i < j {
      SumMonotone(sizes, i, j - 1);
      SumStep(sizes, j - 1);
    }
  }

  lemma SumWhole(sizes: seq<nat>, i: nat)
    requires i <= |sizes|
    ensures Sum(sizes[..i]) <= Sum(sizes)
  {
    SumMonotone(sizes, i, |sizes|);
    assert sizes[..|sizes|] == sizes;
  }

  /** A position lies in at most one line, at one offset. */
  lemma AtUnique(sizes: seq<nat>, e: nat, o: nat, e': nat, o': nat, pos: nat)
    requires At(sizes, e, o, pos) && At(sizes, e', o', pos)
    ensures e == e' && o == o'
  {
    if e < e' {
      SumStep(sizes, e);
      SumMonotone(sizes, e + 1, e');
    } else if e' < e {
      SumStep(sizes, e');
      SumMonotone(sizes, e' + 1, e);
    }
  }

  /** Every position below the total lies in some line, and no other position does. */
  lemma {:induction false} AtExists(sizes: seq<nat>, pos: nat)
    ensures pos < Sum(sizes) <==> exists e: nat, o: nat :: At(sizes, e, o, pos)
  {
    if e: nat, o: nat :| At(sizes, e, o, pos) {
      SumStep(sizes, e);
      SumWhole(sizes, e + 1);
    }
    if pos < Sum(sizes) {
      var n := |sizes| - 1;
      var front := sizes[..n];
      if pos < Sum(front) {
        AtExists(front, pos);
        var e: nat, o: nat :| At(front, e, o, pos);
        assert front[..e] == sizes[..e];
        assert At(sizes, e, o, pos);
      } else {
        assert At(sizes, n, pos - Sum(front), pos);
      }
    }
  }

  /** The total of the sizes is the length of the flat file. */
  lemma {:induction false} FlattenLength(ls: seq<Bytes>)
    ensures |Flatten(ls)| == Sum(Lengths(ls))
  {
    if ls != [] {
      FlattenLength(ls[1..]);
      assert Lengths(ls) == [|ls[0]|] + Lengths(ls[1..]);
      SumFront(|ls[0]|, Lengths(ls[1..]));
    }
  }

  lemma FlattenAround(ls: seq<Bytes>, e: nat)
    requires e < |ls|
    ensures Flatten(ls) == Flatten(ls[..e]) + (ls[e] + Flatten(ls[e + 1..]))
    ensures |Flatten(ls[..e])| == Sum(Lengths(ls)[..e])
  {
    assert ls == ls[..e] + ([ls[e]] + ls[e + 1..]);
    FlattenAppend(ls[..e], [ls[e]] + ls[e + 1..]);
    FlattenCons(ls[e], ls[e + 1..]);
    FlattenLength(ls[..e]);
    assert Lengths(ls[..e]) == Lengths(ls)[..e];
  }

  lemma SliceMiddle(before: Bytes, l: Bytes, after: Bytes, o: nat, n: nat)
    requires o + n <= |l|
    ensures (before + (l + after))[|before| + o..|before| + o + n] == l[o..o + n]
  {
  }

  /** A position that At assigns to (e, o) holds byte o of line e: a slice of the line is a
      slice of the flat file. */
  lemma FlattenAt(ls: seq<Bytes>, e: nat, o: nat, pos: nat, n: nat)
    requires At(Lengths(ls), e, o, pos) && o + n <= |ls[e]|
    ensures pos + n <= |Flatten(ls)|
    ensures Flatten(ls)[pos..pos + n] == ls[e][o..o + n]
  {
    FlattenAround(ls, e);
    SliceMiddle(Flatten(ls[..e]), ls[e], Flatten(ls[e + 1..]), o, n);
  }

  /** Dropping the oldest line and adding one at the end moves every surviving position
      down by the size of the dropped line. */
  lemma EvictionShift(sizes: seq<nat>, added: nat, e: nat, o: nat, pos: nat)
    requires e + 1 < |sizes|
    ensures At(sizes, e + 1, o, pos)
       <==> pos >= sizes[0] && At(sizes[1..] + [added], e, o, pos - sizes[0])
  {
    var shifted := sizes[1..] + [added];
    assert shifted[..e] == sizes[1..][..e];
    assert sizes[..e + 1] == [sizes[0]] + sizes[1..][..e];
    SumFront(sizes[0], sizes[1..][..e]);
  }
}
