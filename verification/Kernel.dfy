/** The foreign calls the driver makes, as an explicit heap: a map from live allocation
    identities to block contents, and the allocations that may fail. */
module KernelCalls {
  import opened Text
  import opened Ring
  import opened Faults

  function Put(block: Bytes, i: nat, b: Byte): Bytes
    requires i < |block|
  {
    block[i := b]
  }

  class Kernel {
    var heap: map<Ptr, Bytes>
    /** Identities handed out so far are 1..next; none is handed out twice. */
    var next: Ptr
    const script: FaultScript
    /** Every identity ever passed to KFree. */
    ghost var freed: set<Ptr>

    /** Each identity handed out is either live or freed, and never both. */
    ghost predicate Valid()
      reads this
    {
      && next > 0
      && (forall p :: p in heap ==> 0 < p < next)
      && (forall p :: p in freed ==> 0 < p < next)
      && (forall p :: 0 < p < next ==> (p in heap <==> p !in freed))
    }

    constructor (script: FaultScript)
      ensures Valid() && heap == map[] && freed == {}
      ensures this.script == script
    {
      heap, next, freed := map[], 1, {};
      this.script := script;
    }

    /** kmalloc: a fresh block of n unspecified bytes, or NULL. */
    method KMalloc(n: nat) returns (p: Ptr)
      requires Valid()
      modifies this, script
      ensures Valid() && freed == old(freed)
      ensures (p == NULL) == Fails(old(script.outcomes))
      ensures script.outcomes == Left(old(script.outcomes))
      ensures p == NULL ==> heap == old(heap)
      ensures p != NULL ==> p !in old(heap) && p in heap && |heap[p]| == n && heap == old(heap)[p := heap[p]]
    {
      var failed := script.Fault();
      if failed {
        return NULL;
      }
      p := next;
      heap := heap[p := seq(n, _ => 0)];
      next := next + 1;
    }

    /** krealloc: on success the old block is gone and the new one keeps the common prefix;
        on failure the old block stays live. A NULL block makes it a kmalloc. */
    method KRealloc(p: Ptr, n: nat) returns (q: Ptr)
      requires Valid()
      requires p == NULL || p in heap
      modifies this, script
      ensures Valid()
      ensures (q == NULL) == Fails(old(script.outcomes))
      ensures script.outcomes == Left(old(script.outcomes))
      ensures q == NULL ==> heap == old(heap) && freed == old(freed)
      ensures q != NULL ==> q !in old(heap) && q in heap && |heap[q]| == n
      ensures q != NULL ==> heap == (old(heap) - {p})[q := heap[q]]
      ensures q != NULL ==> freed == old(freed) + (if p == NULL then {} else {p})
      ensures q != NULL && p != NULL && |old(heap)[p]| <= n ==> old(heap)[p] <= heap[q]
      ensures q != NULL && p != NULL && n <= |old(heap)[p]| ==> heap[q] == old(heap)[p][..n]
    {
      var block := if p == NULL then [] else heap[p];
      q := KMalloc(n);
      if q != NULL {
        heap := heap[q := if n <= |block| then block[..n] else block + seq(n - |block|, _ => 0)];
        if p != NULL {
          KFree(p);
        }
      }
      assert p == NULL ==> heap - {p} == heap;
    }

    /** kfree: its precondition forbids freeing a block twice; NULL is ignored. */
    method KFree(p: Ptr)
      requires Valid()
      requires p == NULL || p in heap
      modifies this
      ensures Valid()
      ensures heap == old(heap) - {p}
      ensures freed == old(freed) + (if p == NULL then {} else {p})
    {
      if p != NULL {
        freed := freed + {p};
      }
      heap := heap - {p};
    }

    /** One byte stored in a live block, inside its bounds. */
    method Store(p: Ptr, i: nat, b: Byte)
      requires Valid()
      requires p in heap && i < |heap[p]|
      modifies this
      ensures Valid()
      ensures heap == old(heap)[p := Put(old(heap)[p], i, b)]
    {
      heap := heap[p := Put(heap[p], i, b)];
    }

    /** memcpy of a whole block from the front of another. */
    method CopyInto(dst: Ptr, src: Ptr, n: nat)
      requires Valid()
      requires dst in heap && src in heap && |heap[dst]| == n <= |heap[src]|
      modifies this
      ensures Valid()
      ensures heap == old(heap)[dst := old(heap)[src][..n]]
    {
      heap := heap[dst := heap[src][..n]];
    }
  }
}
