/** The accept loop's singly linked list of client threads, and its reaping. */
module Reaping {
  import opened Faults
  import Text

  /** An slist_data_s: one client thread's record. The thread sets complete as its last act;
      the accept loop owns the link. */
  class Node {
    const id: nat
    var complete: bool
    var next: Node?

    constructor (id: nat)
      ensures this.id == id && !complete && next == null
    {
      this.id, complete, next := id, false, null;
    }
  }

  ghost function First(ns: seq<Node>): Node? {
    if ns == [] then null else ns[0]
  }

  ghost function After(ns: seq<Node>, i: nat): Node? {
    if i + 1 < |ns| then ns[i + 1] else null
  }

  ghost predicate Distinct(ns: seq<Node>) {
    forall i, j :: 0 <= i < j < |ns| ==> ns[i] != ns[j]
  }

  function Drop(ns: seq<Node>, k: nat): seq<Node>
    requires k < |ns|
  {
    ns[..k] + ns[k + 1..]
  }

  lemma DropAt(ns: seq<Node>, k: nat)
    requires k < |ns|
    ensures |Drop(ns, k)| == |ns| - 1
    ensures forall i :: 0 <= i < |ns| - 1 ==> Drop(ns, k)[i] == (if i < k then ns[i] else ns[i + 1])
  {
  }

  /** The chain of next links from head visits exactly ns. */
  ghost predicate Linked(head: Node?, ns: seq<Node>)
    reads ns
  {
    && head == First(ns)
    && forall i {:trigger ns[i]} :: 0 <= i < |ns| ==> ns[i].next == After(ns, i)
  }

  /** Ids of the threads that have finished by visit k of a pass. */
  function DoneBy(flips: seq<set<nat>>, k: nat): set<nat> {
    if k == 0 || flips == [] then {} else flips[0] + DoneBy(flips[1..], k - 1)
  }

  /** All that finish in the course of a pass, up to the next one. */
  function Everyone(flips: seq<set<nat>>): set<nat> {
    DoneBy(flips, |flips|)
  }

  lemma {:induction false} DoneByMost(flips: seq<set<nat>>, k: nat)
    ensures DoneBy(flips, k) <= Everyone(flips)
  {
    if k > 0 && flips != [] {
      DoneByMost(flips[1..], k - 1);
    }
  }

  lemma {:induction false} DoneByStep(flips: seq<set<nat>>, k: nat)
    ensures DoneBy(flips, k + 1) == DoneBy(flips, k) + if k < |flips| then flips[k] else {}
  {
    if k > 0 && flips != [] {
      DoneByStep(flips[1..], k - 1);
    }
  }

  /** The nodes among the first k that are not complete when the pass reaches them. */
  ghost function Kept(ns: seq<Node>, complete: set<Node>, flips: seq<set<nat>>, k: nat): seq<Node>
    requires k <= |ns|
  {
    if k == 0 then []
    else
      var n := ns[k - 1];
      if n in complete || n.id in DoneBy(flips, k) then Kept(ns, complete, flips, k - 1)
      else Kept(ns, complete, flips, k - 1) + [n]
  }

  /** The nodes among the first k that are, in the order of the visits. */
  ghost function Gone(ns: seq<Node>, complete: set<Node>, flips: seq<set<nat>>, k: nat): seq<Node>
    requires k <= |ns|
  {
    if k == 0 then []
    else
      var n := ns[k - 1];
      if n in complete || n.id in DoneBy(flips, k) then Gone(ns, complete, flips, k - 1) + [n]
      else Gone(ns, complete, flips, k - 1)
  }

  ghost function Ids(ns: seq<Node>): seq<nat> {
    seq(|ns|, i requires 0 <= i < |ns| => ns[i].id)
  }

  /** Every thread started is in exactly one place, once: on the list, or joined and freed. */
  ghost predicate Books(threads: set<Node>, list: seq<Node>, joined: seq<Node>) {
    && (forall i :: 0 <= i < |list| ==> list[i] in threads)
    && (forall i :: 0 <= i < |joined| ==> joined[i] in threads)
    && (forall n :: n in threads ==> n in list || n in joined)
    && Distinct(list) && Distinct(joined)
    && (forall n :: n in list ==> n !in joined)
  }

  lemma BooksFacts(threads: set<Node>, list: seq<Node>, joined: seq<Node>)
    requires Books(threads, list, joined)
    ensures Distinct(list)
    ensures forall i :: 0 <= i < |list| ==> list[i] in threads && list[i] !in joined
    ensures forall i :: 0 <= i < |joined| ==> joined[i] in threads
  {
  }

  lemma BooksInsert(threads: set<Node>, list: seq<Node>, joined: seq<Node>, n: Node)
    requires Books(threads, list, joined) && n !in threads
    ensures Books(threads + {n}, [n] + list, joined)
  {
  }

  lemma BooksRelease(threads: set<Node>, list: seq<Node>, joined: seq<Node>, k: nat)
    requires Books(threads, list, joined) && k < |list|
    ensures Books(threads, Drop(list, k), joined + [list[k]])
  {
  }

  class Registry {
    var head: Node?
    var active_conns: int

    /** Every client thread ever started. */
    ghost var threads: set<Node>
    /** The list's nodes, in order. */
    ghost var list: seq<Node>
    /** The threads joined, in order, and the records freed. */
    ghost var joined: seq<Node>
    ghost var freed: set<Node>

    ghost predicate Valid()
      reads this, threads
    {
      && Books(threads, list, joined)
      && Linked(head, list)
      && freed == (set n | n in joined)
      && active_conns == |list|
    }

    /** SLIST_INIT */
    constructor ()
      ensures Valid() && threads == {} && list == [] && joined == []
    {
      head, active_conns := null, 0;
      threads, list, joined, freed := {}, [], [], {};
    }

    /** SLIST_INSERT_HEAD */
    method InsertHead(n: Node)
      requires Linked(head, list) && n !in list
      modifies this`head, this`list, n`next
      ensures list == [n] + old(list) && Linked(head, list)
    {
      n.next := head;
      head := n;
      ghost var was := list;
      list := [n] + list;
      forall i | 0 <= i < |list|
        ensures list[i].next == After(list, i)
      {
        assert i > 0 ==> list[i] == was[i - 1];
        assert i + 1 < |list| ==> list[i + 1] == was[i];
      }
    }

    /** A new client's record joins the list. The result of malloc is not looked at: when it
        is NULL the next statement stores through it, and main does not get any further. */
    method Accept(id: nat, libc: FaultScript) returns (ok: bool)
      requires Valid()
      modifies this, libc
      ensures Valid() && joined == old(joined)
      ensures ok == !Fails(old(libc.outcomes)) && libc.outcomes == Left(old(libc.outcomes))
      ensures !ok ==> list == old(list) && threads == old(threads)
      ensures ok ==> exists n: Node ::
                && fresh(n) && n.id == id && !n.complete
                && list == [n] + old(list) && threads == old(threads) + {n}
    {
      hide Books, Distinct, Linked;
      BooksFacts(threads, list, joined);
      var failed := libc.Fault();
      if failed {
        return false;
      }
      var n := new Node(id);
      BooksInsert(threads, list, joined, n);
      InsertHead(n);
      active_conns := active_conns + 1;
      threads := threads + {n};
      ok := true;
    }

    /** SLIST_REMOVE: walks to the node before elm and bypasses elm. Only nodes on the list
        are touched, and only one link changes. */
    method Remove(elm: Node, ghost k: nat)
      requires k < |list| && list[k] == elm && Linked(head, list) && Distinct(list)
      modifies this`head, this`list, list
      ensures list == Drop(old(list), k) && Linked(head, list)
      ensures forall n :: n in old(list) ==> n.complete == old(n.complete)
    {
      if head == elm {
        assert k == 0;
        head := elm.next;
      } else {
        var cur := head;
        ghost var i := 0;
        while cur.next != elm
          invariant 0 <= i < k && cur == list[i]
          decreases k - i
        {
          cur := cur.next;
          i := i + 1;
        }
        assert i + 1 == k;
        cur.next := cur.next.next;
      }
      ghost var was := list;
      list := Drop(list, k);
      DropAt(was, k);
      forall i | 0 <= i < |list|
        ensures list[i].next == After(list, i)
      {
        assert list[i] == (if i < k then was[i] else was[i + 1]);
        assert i + 1 < |list| ==> list[i + 1] == (if i + 1 < k then was[i + 1] else was[i + 2]);
      }
    }

    /** Some running threads finish. Only threads of listed clients still run, and each
        writes its flag once. */
    method Finish(ids: set<nat>)
      requires Valid()
      modifies threads`complete
      ensures Valid()
      ensures forall n :: n in list ==> (n.complete <==> old(n.complete) || n.id in ids)
    {
      hide Books;
      BooksFacts(threads, list, joined);
      var cur := head;
      ghost var k := 0;
      while cur != null
        invariant 0 <= k <= |list| && cur == if k < |list| then list[k] else null
        invariant forall i :: 0 <= i < k ==> (list[i].complete <==> old(list[i].complete) || list[i].id in ids)
        invariant forall i :: k <= i < |list| ==> list[i].complete == old(list[i].complete)
        decreases |list| - k
      {
        if cur.id in ids {
          cur.complete := true;
        }
        cur := cur.next;
        k := k + 1;
      }
    }

    /** pthread_join of a thread that has not been joined and has set complete. */
    method Join(n: Node)
      requires n !in joined && n.complete
      modifies this`joined
      ensures joined == old(joined) + [n]
    {
      joined := joined + [n];
    }

    /** free of a record that has not been freed: nothing it holds can be relied on afterwards. */
    method Free(n: Node)
      requires n !in freed
      modifies this`freed, n
      ensures freed == old(freed) + {n}
    {
      n.complete, n.next := *, *;
      freed := freed + {n};
    }

    /** join, SLIST_REMOVE and free of a node seen complete. */
    method Release(n: Node, ghost k: nat)
      requires Valid() && k < |list| && list[k] == n && n.complete
      modifies this`head, this`active_conns, this`list, this`joined, this`freed, threads
      ensures Valid()
      ensures list == Drop(old(list), k) && joined == old(joined) + [n] && freed == old(freed) + {n}
      ensures forall m :: m in list ==> m.complete == old(m.complete)
    {
      hide Books, Linked, Distinct, Drop;
      ghost var was := list;
      BooksFacts(threads, list, joined);
      BooksRelease(threads, list, joined, k);
      DropAt(was, k);
      Join(n);
      Remove(n, k);
      Free(n);
      active_conns := active_conns - 1;
    }

    ghost function Complete(): set<Node>
      reads this, threads
      requires Valid()
    {
      set n | n in list && n.complete
    }

    /** On the list the complete flags are those of `done` plus what has finished as `ids`. */
    ghost predicate Flags(done: set<Node>, ids: set<nat>)
      requires Valid()
      reads this, threads
    {
      forall n :: n in list ==> (n.complete <==> n in done || n.id in ids)
    }

    /** One visit of a pass: threads may finish first; a complete node goes. */
    method Visit(datap: Node, k: nat, flips: seq<set<nat>>, ghost was: seq<Node>, ghost done: set<Node>)
      returns (nextp: Node?, closed: seq<nat>)
      requires Valid() && k < |was| && datap == was[k]
      requires list == Kept(was, done, flips, k) + was[k..] && Flags(done, DoneBy(flips, k))
      modifies this`head, this`active_conns, this`list, this`joined, this`freed, threads
      ensures Valid() && nextp == After(was, k)
      ensures list == Kept(was, done, flips, k + 1) + was[k + 1..] && Flags(done, DoneBy(flips, k + 1))
      ensures Ids(joined) == Ids(old(joined)) + closed
      ensures Ids(Gone(was, done, flips, k + 1)) == Ids(Gone(was, done, flips, k)) + closed
    {
      hide Valid, Drop, Distinct, Linked, Kept, Gone, DoneBy;
      ghost var kept := Kept(was, done, flips, k);
      DoneByStep(flips, k);
      KeptStep(was, done, flips, k);
      AtFront(kept, was[k..]);
      Finish(if k < |flips| then flips[k] else {});
      LinkFrom(|kept|);
      nextp, closed := datap.next, [];
      if datap.complete {
        closed := [datap.id];
        Release(datap, |kept|);
      }
    }

    lemma PassFlags()
      requires Valid()
      ensures Flags(Complete(), {})
    {
    }

    /** After the last visit the other threads of the pass finish. */
    method FinishPass(flips: seq<set<nat>>, k: nat, ghost done: set<Node>)
      requires Valid() && Flags(done, DoneBy(flips, k))
      modifies threads`complete
      ensures Valid() && Flags(done, Everyone(flips))
    {
      hide Valid, DoneBy, Everyone;
      DoneByMost(flips, k);
      Finish(Everyone(flips));
    }

    lemma HeadOfList()
      requires Valid()
      ensures head == First(list)
    {
    }

    lemma LinkFrom(i: nat)
      requires Valid() && i < |list|
      ensures list[i] in threads && list[i].next == After(list, i)
    {
    }

    /** The FOREACH_SAFE pass: each node is visited once, in order, though nodes are unlinked
        and freed on the way, and though threads finish while it runs (flips[k] just before
        visit k, the rest of flips when it is over). Exactly the nodes complete at their visit
        go, each joined and freed; the others stay, in order. The result are the clients whose
        connections were closed. */
    method Reap(flips: seq<set<nat>>) returns (closed: seq<nat>, ghost visited: seq<Node>)
      requires Valid()
      modifies this`head, this`active_conns, this`list, this`joined, this`freed, threads
      ensures Valid()
      ensures visited == old(list)
      ensures list == Kept(old(list), old(Complete()), flips, |old(list)|)
      ensures Flags(old(Complete()), Everyone(flips))
      ensures closed == Ids(Gone(old(list), old(Complete()), flips, |old(list)|))
      ensures Ids(joined) == Ids(old(joined)) + closed
    {
      hide Valid, Kept, Gone, DoneBy, Ids, Flags, Complete;
      ghost var was, done := list, Complete();
      PassStart(was, done, flips);
      PassFlags();
      HeadOfList();
      var datap := head;
      var k := 0;
      visited, closed := [], [];
      assert Ids(joined) + [] == Ids(joined);
      while datap != null
        invariant 0 <= k <= |was| && Valid() && visited == was[..k]
        invariant datap == if k < |was| then was[k] else null
        invariant list == Kept(was, done, flips, k) + was[k..] && Flags(done, DoneBy(flips, k))
        invariant Ids(joined) == Ids(old(joined)) + closed
        invariant closed == Ids(Gone(was, done, flips, k))
        decreases |was| - k
      {
        visited := visited + [datap];
        var ids;
        datap, ids := Visit(datap, k, flips, was, done);
        Text.Assoc(Ids(old(joined)), closed, ids);
        closed := closed + ids;
        k := k + 1;
      }
      FinishPass(flips, k, done);
    }
  }

  lemma PassStart(ns: seq<Node>, done: set<Node>, flips: seq<set<nat>>)
    ensures Kept(ns, done, flips, 0) + ns[0..] == ns && DoneBy(flips, 0) == {}
    ensures Ids(Gone(ns, done, flips, 0)) == []
  {
  }

  lemma KeptStep(ns: seq<Node>, done: set<Node>, flips: seq<set<nat>>, k: nat)
    requires k < |ns|
    ensures ns[k..] != [] && ns[k..][0] == ns[k] && ns[k..][1..] == ns[k + 1..]
    ensures After(ns, k) == if |ns[k..]| > 1 then ns[k..][1] else null
    ensures Kept(ns, done, flips, k + 1) ==
              if ns[k] in done || ns[k].id in DoneBy(flips, k + 1) then Kept(ns, done, flips, k)
              else Kept(ns, done, flips, k) + [ns[k]]
    ensures Gone(ns, done, flips, k + 1) ==
              if ns[k] in done || ns[k].id in DoneBy(flips, k + 1) then Gone(ns, done, flips, k) + [ns[k]]
              else Gone(ns, done, flips, k)
  {
  }

  lemma AtFront(a: seq<Node>, b: seq<Node>)
    requires b != []
    ensures (a + b)[|a|] == b[0]
    ensures Drop(a + b, |a|) == a + b[1..]
    ensures a + b == (a + [b[0]]) + b[1..]
    ensures After(a + b, |a|) == if |b| > 1 then b[1] else null
  {
  }

  /** Node i of the list was not complete before the pass and has not finished by its visit. */
  ghost predicate Survives(ns: seq<Node>, done: set<Node>, flips: seq<set<nat>>, i: nat)
    requires i < |ns|
  {
    ns[i] !in done && ns[i].id !in DoneBy(flips, i + 1)
  }

  /** The nodes kept are exactly those that survive. */
  lemma {:induction false} KeptExactly(ns: seq<Node>, done: set<Node>, flips: seq<set<nat>>, k: nat, n: Node)
    requires k <= |ns|
    ensures n in Kept(ns, done, flips, k) <==> exists i: nat :: i < k && ns[i] == n && Survives(ns, done, flips, i)
  {
    if k > 0 {
      hide Kept, Survives;
      KeptExactly(ns, done, flips, k - 1, n);
      KeptLast(ns, done, flips, k - 1, n);
      if i: nat :| i < k && ns[i] == n && Survives(ns, done, flips, i) {
        assert i < k - 1 || i == k - 1;
      }
      if ns[k - 1] == n && Survives(ns, done, flips, k - 1) {
        var i: nat := k - 1;
        assert i < k && ns[i] == n && Survives(ns, done, flips, i);
      }
    }
  }

  lemma KeptLast(ns: seq<Node>, done: set<Node>, flips: seq<set<nat>>, k: nat, n: Node)
    requires k < |ns|
    ensures n in Kept(ns, done, flips, k + 1) <==>
              n in Kept(ns, done, flips, k) || (ns[k] == n && Survives(ns, done, flips, k))
  {
  }

  /** Survivors stay in list order. */
  lemma {:induction false} KeptInOrder(ns: seq<Node>, done: set<Node>, flips: seq<set<nat>>, k: nat, a: nat, b: nat)
    returns (i: nat, j: nat)
    requires k <= |ns| && a < b < |Kept(ns, done, flips, k)|
    ensures i < j < k && ns[i] == Kept(ns, done, flips, k)[a] && ns[j] == Kept(ns, done, flips, k)[b]
  {
    var before := Kept(ns, done, flips, k - 1);
    if b < |before| {
      i, j := KeptInOrder(ns, done, flips, k - 1, a, b);
    } else {
      i := KeptAt(ns, done, flips, k - 1, a);
      j := k - 1;
    }
  }

  lemma {:induction false} KeptAt(ns: seq<Node>, done: set<Node>, flips: seq<set<nat>>, k: nat, a: nat)
    returns (i: nat)
    requires k <= |ns| && a < |Kept(ns, done, flips, k)|
    ensures i < k && ns[i] == Kept(ns, done, flips, k)[a]
  {
    if a < |Kept(ns, done, flips, k - 1)| {
      i := KeptAt(ns, done, flips, k - 1, a);
    } else {
      i := k - 1;
    }
  }

  /** The nodes closed are exactly those that do not survive, in list order. */
  lemma {:induction false} GoneInOrder(ns: seq<Node>, done: set<Node>, flips: seq<set<nat>>, k: nat, a: nat, b: nat)
    returns (i: nat, j: nat)
    requires k <= |ns| && a < b < |Gone(ns, done, flips, k)|
    ensures i < j < k && ns[i] == Gone(ns, done, flips, k)[a] && ns[j] == Gone(ns, done, flips, k)[b]
  {
    if b < |Gone(ns, done, flips, k - 1)| {
      i, j := GoneInOrder(ns, done, flips, k - 1, a, b);
    } else {
      i := GoneAt(ns, done, flips, k - 1, a);
      j := k - 1;
    }
  }

  lemma {:induction false} GoneAt(ns: seq<Node>, done: set<Node>, flips: seq<set<nat>>, k: nat, a: nat)
    returns (i: nat)
    requires k <= |ns| && a < |Gone(ns, done, flips, k)|
    ensures i < k && ns[i] == Gone(ns, done, flips, k)[a] && !Survives(ns, done, flips, i)
  {
    if a < |Gone(ns, done, flips, k - 1)| {
      i := GoneAt(ns, done, flips, k - 1, a);
    } else {
      i := k - 1;
    }
  }

  lemma {:induction false} GoneExactly(ns: seq<Node>, done: set<Node>, flips: seq<set<nat>>, k: nat, n: Node)
    requires k <= |ns|
    ensures n in Gone(ns, done, flips, k) <==> exists i: nat :: i < k && ns[i] == n && !Survives(ns, done, flips, i)
  {
    var gone := Gone(ns, done, flips, k);
    if n in gone {
      var a :| 0 <= a < |gone| && gone[a] == n;
      var i := GoneAt(ns, done, flips, k, a);
    } else if k > 0 {
      GoneExactly(ns, done, flips, k - 1, n);
    }
  }

  function Remaining(ns: seq<Node>, done: set<Node>): seq<Node> {
    if ns == [] then []
    else if ns[|ns| - 1] in done then Remaining(ns[..|ns| - 1], done)
    else Remaining(ns[..|ns| - 1], done) + [ns[|ns| - 1]]
  }

  /** When no thread finishes during the pass, reaping is filtering by the complete flag. */
  lemma {:induction false} QuietReapIsFilter(ns: seq<Node>, done: set<Node>, k: nat)
    requires k <= |ns|
    ensures Kept(ns, done, [], k) == Remaining(ns[..k], done)
  {
    if k > 0 {
      QuietReapIsFilter(ns, done, k - 1);
      assert ns[..k][..k - 1] == ns[..k - 1];
    }
  }
}
