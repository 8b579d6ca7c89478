/** Which foreign calls fail: a script of outcomes that the calls read from the front. */
module Faults {
  /** The next fallible call fails. Past the end of the script every call succeeds. */
  predicate Fails(outcomes: seq<bool>) {
    |outcomes| > 0 && outcomes[0]
  }

  /** The script after one fallible call. */
  function Left(outcomes: seq<bool>): seq<bool> {
    if outcomes == [] then [] else outcomes[1..]
  }

  /** Between the two scripts no call failed. */
  predicate Clean(before: seq<bool>, after: seq<bool>) {
    before == after || (before != [] && !before[0] && Clean(before[1..], after))
  }

  /** Between the two scripts the last call failed and no other did. */
  predicate Blamed(before: seq<bool>, after: seq<bool>) {
    before != [] && if before[0] then after == before[1..] else Blamed(before[1..], after)
  }

  lemma OneCall(f: seq<bool>)
    ensures if Fails(f) then Blamed(f, Left(f)) else Clean(f, Left(f))
    ensures Clean(f, f)
  {
    if f != [] && !f[0] {
      assert Clean(f[1..], f[1..]);
    }
  }

  lemma {:induction false} MoreCalls(f: seq<bool>, g: seq<bool>, h: seq<bool>)
    requires Clean(f, g)
    ensures Clean(g, h) ==> Clean(f, h)
    ensures Blamed(g, h) ==> Blamed(f, h)
  {
    if f != g {
      MoreCalls(f[1..], g, h);
    }
  }

  lemma {:induction false} Blamable(f: seq<bool>, g: seq<bool>)
    ensures Blamed(f, g) ==> !Clean(f, g) && |g| < |f|
  {
    if f != [] && !f[0] {
      Blamable(f[1..], g);
    }
  }

  lemma NothingFails(g: seq<bool>)
    ensures Clean([], g) <==> g == []
    ensures !Blamed([], g)
  {
  }

  class FaultScript {
    var outcomes: seq<bool>

    constructor (outcomes: seq<bool>)
      ensures this.outcomes == outcomes
    {
      this.outcomes := outcomes;
    }

    /** One fallible foreign call: an allocation, a user copy, a lock that may be
        interrupted, a send. */
    method Fault() returns (failed: bool)
      modifies this
      ensures failed == Fails(old(outcomes)) && outcomes == Left(old(outcomes))
    {
      failed := Fails(outcomes);
      outcomes := Left(outcomes);
    }
  }
}
