/** main's accept loop and exit loop over the registry of client threads. */
module AcceptLoop {
  import opened Faults
  import opened Reaping
  import Text

  /** The loop as a pure machine: the ids on the list, newest first, those among them whose
      threads have finished, and the ids closed so far, in order. */
  datatype Desk = Desk(list: seq<nat>, done: set<nat>, closed: seq<nat>)

  const START := Desk([], {}, [])

  /** The ids that stay, and those that go, among the first k of a pass. */
  function KeptIds(ids: seq<nat>, done: set<nat>, flips: seq<set<nat>>, k: nat): seq<nat>
    requires k <= |ids|
  {
    if k == 0 then []
    else if ids[k - 1] in done + DoneBy(flips, k) then KeptIds(ids, done, flips, k - 1)
    else KeptIds(ids, done, flips, k - 1) + [ids[k - 1]]
  }

  function GoneIds(ids: seq<nat>, done: set<nat>, flips: seq<set<nat>>, k: nat): seq<nat>
    requires k <= |ids|
  {
    if k == 0 then []
    else if ids[k - 1] in done + DoneBy(flips, k) then GoneIds(ids, done, flips, k - 1) + [ids[k - 1]]
    else GoneIds(ids, done, flips, k - 1)
  }

  /** A new record heads the list, its flag clear. */
  function AfterAccept(m: Desk, i: nat): Desk {
    m.(list := [i] + m.list, done := m.done - {i})
  }

  function AfterPass(m: Desk, flips: seq<set<nat>>): Desk {
    Desk(KeptIds(m.list, m.done, flips, |m.list|),
         m.done + (set i | i in m.list && i in Everyone(flips)),
         m.closed + GoneIds(m.list, m.done, flips, |m.list|))
  }

  /** k turns of the accept loop. */
  function Turns(passes: seq<seq<set<nat>>>, k: nat): Desk
    requires k <= |passes|
  {
    if k == 0 then START else AfterPass(AfterAccept(Turns(passes, k - 1), k - 1), passes[k - 1])
  }

  /** The exit loop from pass q on; after the last pass in which threads finish, one more. */
  function Ending(m: Desk, passes: seq<seq<set<nat>>>, q: nat): Desk
    decreases |passes| + 1 - q
  {
    if m.list == [] || q > |passes| then m
    else Ending(AfterPass(m, if q < |passes| then passes[q] else []), passes, q + 1)
  }

  /** Every id of a list stays or goes, and those done go. */
  lemma {:induction false} KeptOrGone(ids: seq<nat>, done: set<nat>, flips: seq<set<nat>>, k: nat, i: nat)
    requires k <= |ids|
    ensures i in KeptIds(ids, done, flips, k) || i in GoneIds(ids, done, flips, k) <==> i in ids[..k]
    ensures i in KeptIds(ids, done, flips, k) ==> i in ids && i !in done
  {
    if k > 0 {
      KeptOrGone(ids, done, flips, k - 1, i);
      assert ids[..k] == ids[..k - 1] + [ids[k - 1]];
    }
  }

  lemma PassMembers(m: Desk, flips: seq<set<nat>>, i: nat)
    ensures var m' := AfterPass(m, flips);
            && (i in m'.list || i in m'.closed <==> i in m.list || i in m.closed)
            && (i in m'.list ==> i in m.list && i !in m.done && (i in Everyone(flips) ==> i in m'.done))
            && m.closed <= m'.closed
  {
    KeptOrGone(m.list, m.done, flips, |m.list|, i);
    assert m.list[..|m.list|] == m.list;
  }

  lemma AcceptMembers(m: Desk, k: nat, i: nat)
    ensures i in AfterAccept(m, k).list <==> i == k || i in m.list
    ensures AfterAccept(m, k).closed == m.closed
  {
  }

  /** Exactly the clients accepted are on the list or closed. */
  lemma {:induction false} AllAccounted(passes: seq<seq<set<nat>>>, k: nat, i: nat)
    requires k <= |passes|
    ensures var m := Turns(passes, k); (i in m.list || i in m.closed) <==> i < k
  {
    hide AfterPass, AfterAccept;
    if k > 0 {
      AllAccounted(passes, k - 1, i);
      AcceptMembers(Turns(passes, k - 1), k - 1, i);
      PassMembers(AfterAccept(Turns(passes, k - 1), k - 1), passes[k - 1], i);
    }
  }

  /** Client i has finished in some pass before q that it lived to see. */
  predicate FinishedBefore(passes: seq<seq<set<nat>>>, q: nat, i: nat)
    requires q <= |passes|
  {
    exists p :: i <= p < q && i in Everyone(passes[p])
  }

  /** The threads on the list that have finished before pass q are marked. */
  predicate Marked(m: Desk, passes: seq<seq<set<nat>>>, q: nat)
    requires q <= |passes|
  {
    forall i :: i in m.list && FinishedBefore(passes, q, i) ==> i in m.done
  }

  /** A pass leaves nobody on the list who had finished before it, and marks who finishes in
      it. */
  lemma PassMarks(m: Desk, passes: seq<seq<set<nat>>>, q: nat)
    requires q < |passes| && Marked(m, passes, q)
    ensures var m' := AfterPass(m, passes[q]);
            && Marked(m', passes, q + 1)
            && forall i :: i in m'.list ==> !FinishedBefore(passes, q, i)
  {
    hide KeptIds, GoneIds, Everyone;
    var m' := AfterPass(m, passes[q]);
    forall i | i in m'.list
      ensures !FinishedBefore(passes, q, i)
      ensures FinishedBefore(passes, q + 1, i) ==> i in m'.done
    {
      PassMembers(m, passes[q], i);
    }
  }

  lemma StartMarked(passes: seq<seq<set<nat>>>)
    ensures Marked(START, passes, 0)
  {
  }

  lemma AcceptMarked(m: Desk, passes: seq<seq<set<nat>>>, k: nat)
    requires k <= |passes| && Marked(m, passes, k)
    ensures Marked(AfterAccept(m, k), passes, k)
  {
    forall i | i in AfterAccept(m, k).list && FinishedBefore(passes, k, i)
      ensures i in AfterAccept(m, k).done
    {
      assert i != k;
    }
  }

  /** The accept loop reaps: a client that has finished before the newest pass is closed by
      then, and off the list. */
  lemma {:induction false} FinishedAreClosed(passes: seq<seq<set<nat>>>, k: nat)
    requires k <= |passes|
    ensures var m := Turns(passes, k);
            && Marked(m, passes, k)
            && (k > 0 ==> forall i :: FinishedBefore(passes, k - 1, i) ==> i in m.closed && i !in m.list)
  {
    hide Marked, AfterPass, AfterAccept;
    if k == 0 {
      StartMarked(passes);
    } else {
      FinishedAreClosed(passes, k - 1);
      var m0 := AfterAccept(Turns(passes, k - 1), k - 1);
      AcceptMarked(Turns(passes, k - 1), passes, k - 1);
      PassMarks(m0, passes, k - 1);
      forall i | FinishedBefore(passes, k - 1, i)
        ensures i in Turns(passes, k).closed && i !in Turns(passes, k).list
      {
        AllAccounted(passes, k, i);
      }
    }
  }

  /** The thread of client i finishes in the course of some pass that it lives to see. */
  predicate Finishes(passes: seq<seq<set<nat>>>, i: nat) {
    FinishedBefore(passes, |passes|, i)
  }

  /** If all clients on the list finish, the exit loop ends with an empty list, and everybody
      who was on it is closed. */
  lemma {:induction false} EndingEmpties(m: Desk, passes: seq<seq<set<nat>>>, q: nat)
    requires q <= |passes| && Marked(m, passes, q) && forall i :: i in m.list ==> Finishes(passes, i)
    ensures var m' := Ending(m, passes, q);
            m'.list == [] && forall i :: i in m'.closed <==> i in m.list || i in m.closed
    decreases |passes| - q
  {
    hide AfterPass;
    if m.list != [] {
      var flips := if q < |passes| then passes[q] else [];
      var m' := AfterPass(m, flips);
      assert m'.list != [] ==> m'.list[0] in m'.list;
      forall i
        ensures i in m'.list ==> i in m.list && i !in m.done
        ensures i in m'.list || i in m'.closed <==> i in m.list || i in m.closed
      {
        PassMembers(m, flips, i);
      }
      if q < |passes| {
        PassMarks(m, passes, q);
        EndingEmpties(m', passes, q + 1);
      }
    }
  }

  /** Two clients that finish in their own passes are closed in the order they came. */
  lemma InOrderRun()
    ensures Turns([[{0}], [{1}]], 2).closed == [0, 1]
  {
  }

  /** One that finishes after its visit stays for the next pass. */
  lemma LateRun()
    ensures Turns([[{}, {0}]], 1) == Desk([0], {0}, [])
  {
    hide DoneBy;
    var flips: seq<set<nat>> := [{}, {0}];
    DoneByStep(flips, 0);
    DoneByStep(flips, 1);
    PassStart([], {}, flips);
    var m := AfterAccept(START, 0);
    assert m.list == [0] && KeptIds(m.list, m.done, flips, 1) == [0];
    assert AfterPass(m, flips).done == {0};
  }

  /** Two that finish together are closed newest first. */
  lemma TogetherRun()
    ensures Turns([[], [{0, 1}]], 2).closed == [1, 0]
  {
  }

  /** The registry stands where the machine does. */
  ghost predicate Follows(r: Registry, m: Desk)
    requires r.Valid()
    reads r, r.threads
  {
    && Ids(r.list) == m.list && Ids(r.joined) == m.closed
    && forall n :: n in r.list ==> (n.complete <==> n.id in m.done)
  }

  /** A pass over nodes is a pass over their ids. */
  lemma {:induction false} PassOfIds(ns: seq<Node>, complete: set<Node>, done: set<nat>, flips: seq<set<nat>>, k: nat)
    requires k <= |ns| && forall n :: n in ns ==> (n in complete <==> n.id in done)
    ensures Ids(Kept(ns, complete, flips, k)) == KeptIds(Ids(ns), done, flips, k)
    ensures Ids(Gone(ns, complete, flips, k)) == GoneIds(Ids(ns), done, flips, k)
  {
    hide DoneBy;
    if k > 0 {
      PassOfIds(ns, complete, done, flips, k - 1);
      assert ns[k - 1] in ns;
      IdsSnoc(Kept(ns, complete, flips, k - 1), ns[k - 1]);
      IdsSnoc(Gone(ns, complete, flips, k - 1), ns[k - 1]);
    }
  }

  lemma IdsSnoc(ns: seq<Node>, n: Node)
    ensures Ids(ns + [n]) == Ids(ns) + [n.id]
  {
  }

  lemma SurvivorsListed(ns: seq<Node>, done: set<Node>, flips: seq<set<nat>>)
    ensures forall n :: n in Kept(ns, done, flips, |ns|) ==> n in ns && n !in done
  {
    forall n | n in Kept(ns, done, flips, |ns|)
      ensures n in ns && n !in done
    {
      KeptExactly(ns, done, flips, |ns|, n);
    }
  }

  /** One pass of the accept loop or the exit loop. */
  method OnePass(r: Registry, flips: seq<set<nat>>, ghost m: Desk) returns (closed: seq<nat>)
    requires r.Valid() && Follows(r, m)
    modifies r`head, r`active_conns, r`list, r`joined, r`freed, r.threads
    ensures r.Valid() && Follows(r, AfterPass(m, flips))
    ensures closed == GoneIds(m.list, m.done, flips, |m.list|)
  {
    hide Registry.Valid, Kept, Gone, KeptIds, GoneIds, Everyone, Ids;
    ghost var was, complete := r.list, r.Complete();
    ListIds(was);
    PassOfIds(was, complete, m.done, flips, |was|);
    SurvivorsListed(was, complete, flips);
    ghost var visited;
    closed, visited := r.Reap(flips);
  }

  lemma ListIds(ns: seq<Node>)
    ensures |Ids(ns)| == |ns| && forall n :: n in ns ==> n.id in Ids(ns)
  {
    forall n | n in ns
      ensures n.id in Ids(ns)
    {
      var i :| 0 <= i < |ns| && ns[i] == n;
      assert Ids(ns)[i] == n.id;
    }
  }

  /** Threads have different ids, all below k. */
  ghost predicate Numbered(threads: set<Node>, k: nat) {
    && (forall n :: n in threads ==> n.id < k)
    && (forall m, n :: m in threads && n in threads && m.id == n.id ==> m == n)
  }

  /** One turn of the accept loop: accept, insert, reap. */
  method AcceptAndReap(r: Registry, libc: FaultScript, flips: seq<set<nat>>, i: nat, ghost m: Desk)
    returns (ok: bool, closed: seq<nat>)
    requires r.Valid() && Numbered(r.threads, i) && Follows(r, m)
    modifies r, libc, r.threads
    ensures r.Valid() && forall n :: n in r.threads ==> n in old(r.threads) || fresh(n)
    ensures ok == !Fails(old(libc.outcomes)) && libc.outcomes == Left(old(libc.outcomes))
    ensures if ok then Numbered(r.threads, i + 1) && Follows(r, AfterPass(AfterAccept(m, i), flips))
            else Numbered(r.threads, i) && Follows(r, m)
    ensures closed == if ok then GoneIds([i] + m.list, m.done - {i}, flips, |m.list| + 1) else []
  {
    hide Linked, Books, Distinct, AfterPass, GoneIds;
    closed := [];
    ghost var before, was := r.threads, r.list;
    BooksFacts(r.threads, r.list, r.joined);
    ok := r.Accept(i, libc);
    if ok {
      ghost var n: Node :| fresh(n) && n.id == i && !n.complete && r.list == [n] + was && r.threads == before + {n};
      ListedBelow(r, was, before, i);
      assert Ids(r.list) == [i] + Ids(was);
      closed := OnePass(r, flips, AfterAccept(m, i));
    }
  }

  lemma ListedBelow(r: Registry, was: seq<Node>, threads: set<Node>, i: nat)
    requires Numbered(threads, i) && forall n :: n in was ==> n in threads
    ensures forall n :: n in was ==> n.id != i
  {
  }

  /** The exit loop: passes until no connection is left. */
  method ReapAll(r: Registry, passes: seq<seq<set<nat>>>, k: nat, ghost m: Desk) returns (ids: seq<nat>)
    requires r.Valid() && k <= |passes| && Follows(r, m) && Marked(m, passes, k)
    requires forall i :: i in m.list ==> Finishes(passes, i)
    modifies r`head, r`active_conns, r`list, r`joined, r`freed, r.threads
    ensures r.Valid() && r.active_conns <= 0 && Follows(r, Ending(m, passes, k))
    ensures Ending(m, passes, k).closed == m.closed + ids
  {
    hide AfterPass, Follows, Finishes, Ending, Marked, GoneIds, Registry.Valid;
    EndingEmpties(m, passes, k);
    ids := [];
    assert m.closed + [] == m.closed;
    var q := k;
    ghost var now := m;
    Lengths(r, now);
    while r.active_conns > 0
      invariant r.Valid() && k <= q <= |passes| + 1 && Follows(r, now) && r.active_conns == |now.list|
      invariant Ending(m, passes, k) == Ending(now, passes, q) && now.closed == m.closed + ids
      decreases |passes| + 1 - q
    {
      EndingStep(now, passes, q);
      var flips := if q < |passes| then passes[q] else [];
      var closed := OnePass(r, flips, now);
      PassCloses(now, flips);
      Text.Assoc(m.closed, ids, closed);
      now := AfterPass(now, flips);
      Lengths(r, now);
      ids := ids + closed;
      q := q + 1;
    }
    EndingStep(now, passes, q);
  }

  lemma EndingStep(m: Desk, passes: seq<seq<set<nat>>>, q: nat)
    ensures Ending(m, passes, q) ==
            if m.list == [] || q > |passes| then m
            else Ending(AfterPass(m, if q < |passes| then passes[q] else []), passes, q + 1)
  {
  }

  lemma PassCloses(m: Desk, flips: seq<set<nat>>)
    ensures AfterPass(m, flips).closed == m.closed + GoneIds(m.list, m.done, flips, |m.list|)
  {
  }

  lemma Lengths(r: Registry, m: Desk)
    requires r.Valid() && Follows(r, m)
    ensures r.active_conns == |m.list|
  {
  }

  /** main's life with one client per element of arrivals: accept, insert, reap; then on exit
      reap until no connection is left. arrivals and finals say which threads finish before
      which visit of which pass, or between passes; memory which record cannot be allocated.
      The ids closed, in order, are the machine's. If every thread finishes in the end and
      every record is allocated, the loop ends and the join calls and free calls made are one
      for each client; in any case a client that has finished before the newest pass has been
      joined and freed in it at the latest. */
  method Serve(arrivals: seq<seq<set<nat>>>, finals: seq<seq<set<nat>>>, memory: seq<bool>)
    returns (ok: bool, accepted: nat, ids: seq<nat>, ghost freed: set<nat>)
    requires forall i :: 0 <= i < |arrivals| ==> Finishes(arrivals + finals, i)
    ensures accepted <= |arrivals| && forall i :: 0 <= i < accepted && i < |memory| ==> !memory[i]
    ensures ok <==> accepted == |arrivals|
    ensures !ok ==> accepted < |memory| && memory[accepted]
    ensures forall a, b :: 0 <= a < b < |ids| ==> ids[a] != ids[b]
    ensures freed == (set i | i in ids)
    ensures ok ==> forall i :: i in ids <==> 0 <= i < |arrivals|
    ensures forall j, p :: 0 <= j <= p && p + 1 < accepted && j in Everyone(arrivals[p]) ==> j in ids
    ensures var passes := arrivals + finals; var m := Turns(passes, accepted);
            ids == if ok then Ending(m, passes, accepted).closed else m.closed
  {
    hide Linked, Books, Distinct, AfterPass, AfterAccept, Turns, Ending, Follows, Everyone, Numbered, Finishes;
    var passes := arrivals + finals;
    var libc := new FaultScript(memory);
    var r := new Registry();
    ids := [];
    FromStart(r, passes);
    for i := 0 to |arrivals|
      invariant r.Valid() && fresh(r) && fresh(libc) && (forall n :: n in r.threads ==> fresh(n))
      invariant Numbered(r.threads, i) && Follows(r, Turns(passes, i)) && Turns(passes, i).closed == ids
      invariant libc.outcomes == Later(memory, i) && forall k :: 0 <= k < i && k < |memory| ==> !memory[k]
    {
      var closed;
      ok, closed := AcceptAndReap(r, libc, passes[i], i, Turns(passes, i));
      if !ok {
        accepted := i;
        freed := Accounted(r, i, Turns(passes, i));
        PromptlyClosed(arrivals, finals, i);
        return;
      }
      TurnCloses(passes, i);
      ids := ids + closed;
    }
    accepted := |arrivals|;
    ghost var m := Turns(passes, accepted);
    FinishedAreClosed(passes, accepted);
    PromptlyClosed(arrivals, finals, accepted);
    forall i | i in m.list
      ensures Finishes(passes, i)
    {
      AllAccounted(passes, accepted, i);
    }
    var closed := ReapAll(r, passes, accepted, m);
    ids := ids + closed;
    EndingEmpties(m, passes, accepted);
    forall i: nat
      ensures i in ids <==> i < |arrivals|
    {
      AllAccounted(passes, accepted, i);
    }
    freed := Accounted(r, accepted, Ending(m, passes, accepted));
    ok := true;
  }

  lemma FromStart(r: Registry, passes: seq<seq<set<nat>>>)
    requires r.Valid() && r.threads == {} && r.list == [] && r.joined == []
    ensures Numbered(r.threads, 0) && Follows(r, Turns(passes, 0)) && Turns(passes, 0).closed == []
  {
  }

  lemma TurnCloses(passes: seq<seq<set<nat>>>, i: nat)
    requires i < |passes|
    ensures var m := Turns(passes, i);
            && Turns(passes, i + 1) == AfterPass(AfterAccept(m, i), passes[i])
            && Turns(passes, i + 1).closed == m.closed + GoneIds([i] + m.list, m.done - {i}, passes[i], |m.list| + 1)
  {
  }

  lemma PromptlyClosed(arrivals: seq<seq<set<nat>>>, finals: seq<seq<set<nat>>>, k: nat)
    requires k <= |arrivals|
    ensures forall j: nat, p: nat :: j <= p && p + 1 < k && j in Everyone(arrivals[p]) ==>
              j in Turns(arrivals + finals, k).closed
  {
    var passes := arrivals + finals;
    FinishedAreClosed(passes, k);
    forall j: nat, p: nat | j <= p && p + 1 < k && j in Everyone(arrivals[p])
      ensures j in Turns(passes, k).closed
    {
      assert passes[p] == arrivals[p];
      assert FinishedBefore(passes, k - 1, j);
    }
  }

  /** A script after i calls. */
  function Later(f: seq<bool>, i: nat): seq<bool> {
    if i < |f| then f[i..] else []
  }

  /** Whatever is joined is joined once and freed. */
  lemma Accounted(r: Registry, k: nat, m: Desk) returns (freed: set<nat>)
    requires r.Valid() && Numbered(r.threads, k) && Follows(r, m)
    ensures forall a, b :: 0 <= a < b < |m.closed| ==> m.closed[a] != m.closed[b]
    ensures freed == (set n | n in r.freed :: n.id) == (set i | i in m.closed)
  {
    freed := set n | n in r.freed :: n.id;
    var ids := Ids(r.joined);
    forall i | i in ids
      ensures i in freed
    {
      var a :| 0 <= a < |ids| && ids[a] == i;
      assert r.joined[a] in r.freed;
    }
    forall i | i in freed
      ensures i in ids
    {
      var n :| n in r.freed && n.id == i;
      var a :| 0 <= a < |r.joined| && r.joined[a] == n;
      assert ids[a] == i;
    }
  }
}
