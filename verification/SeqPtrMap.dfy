/**
 Sequential pointer maps on an elastic queue (datastruct/seqptrmap.c): a map from
 consecutive numbers to pointers, which are kept as eight octets each.
 */
module SeqPtrMap {
  import opened Octets
  import opened ElasticQueue

  const INT64_MAX: nat := 0x7fff_ffff_ffff_ffff

  type Ptr = p: seq<Octet> | |p| == 8 witness [0, 0, 0, 0, 0, 0, 0, 0]

  const NULL: Ptr := [0, 0, 0, 0, 0, 0, 0, 0]

  /** What a map without the key i holds there. */
  function Lookup(m: map<int, Ptr>, i: int): Ptr {
    if i in m then m[i] else NULL
  }

  /** The queue shows the map, from number base on. */
  ghost predicate Shows(items: seq<seq<Octet>>, base: int, m: map<int, Ptr>) {
    (forall i :: base <= i < base + |items| ==> Lookup(m, i) == items[i - base])
    && forall i :: i in m ==> base <= i < base + |items| && m[i] != NULL
  }

  lemma ShowsAdd(items: seq<seq<Octet>>, base: int, m: map<int, Ptr>, p: Ptr)
    requires Shows(items, base, m)
    ensures Shows(items + [p], base, if p == NULL then m else m[base + |items| := p])
  {
    var m' := if p == NULL then m else m[base + |items| := p];
    forall i | base <= i < base + |items| + 1
      ensures Lookup(m', i) == (items + [p])[i - base]
    {
      assert i < base + |items| ==> Lookup(m, i) == items[i - base];
    }
  }

  lemma ShowsDelete(items: seq<seq<Octet>>, base: int, m: map<int, Ptr>, k: nat)
    requires Shows(items, base, m) && k < |items|
    ensures Shows(items[k := NULL], base, m - {base + k})
  {
    var m' := m - {base + k};
    forall i | base <= i < base + |items|
      ensures Lookup(m', i) == items[k := NULL][i - base]
    {
      assert Lookup(m, i) == items[i - base];
    }
  }

  /** A leading NULL carries no information. */
  lemma ShowsRest(items: seq<seq<Octet>>, base: int, m: map<int, Ptr>)
    requires Shows(items, base, m) && |items| > 0 && items[0] == NULL
    ensures Shows(items[1..], base + 1, m)
  {
    assert Lookup(m, base) == NULL;
  }

  lemma Extended(a: seq<Ptr>, p: Ptr)
    ensures (a + [p])[|a|] == p && forall i :: 0 <= i < |a| ==> (a + [p])[i] == a[i]
  {
  }

  class SeqPtrMap {
    const ptrs: ElasticQueue
    var offset: int
    var len: nat
    ghost var added: seq<Ptr>       // every pointer ever added
    ghost var live: map<int, Ptr>   // the pointers not deleted, by number

    /** No NULL was added. */
    ghost predicate Clean()
      reads this
    {
      forall i :: 0 <= i < |added| ==> added[i] != NULL
    }

    ghost predicate Valid()
      reads this, ptrs, ptrs.EA
    {
      Queued() && offset + len == |added|
      && (forall i :: i in live ==> 0 <= i < |added| && live[i] == added[i])
      && (len > 0 ==> offset in live || added[offset] == NULL)
    }

    /** seqptrmap_init() */
    constructor ()
      ensures Valid() && added == [] && live == map[] && fresh(ptrs) && fresh(ptrs.EA)
    {
      ptrs := new ElasticQueue(8);
      offset, len, added, live := 0, 0, [], map[];
    }

    /** Queue a pointer under the next number. */
    method Enqueue(ptr: Ptr, memory: bool) returns (ok: bool)
      requires Queued()
      modifies this`len, this`live, ptrs, ptrs.EA
      ensures Queued() && len == old(len) + if ok then 1 else 0
      ensures live == if ok && ptr != NULL then old(live)[offset + old(len) := ptr] else old(live)
      ensures ok <==> old(ptrs.CanAdd(memory))
    {
      ghost var were := ptrs.items;
      ok := ptrs.Add(ptr, memory);
      if ok {
        ghost var m := if ptr == NULL then live else live[offset + len := ptr];
        assert Shows(ptrs.items, offset, m) by {
          ShowsAdd(were, offset, live, ptr);
        }
        len, live := len + 1, m;
      }
    }

    /** seqptrmap_add(M, ptr): numbers are consecutive from 0; a failure leaves the map as it was. */
    method Add(ptr: Ptr, memory: bool) returns (r: int)
      requires Valid() && |added| < INT64_MAX
      modifies this, ptrs, ptrs.EA
      ensures Valid()
      ensures r == if old(ptrs.CanAdd(memory)) then |old(added)| else -1
      ensures r == -1 ==> added == old(added) && live == old(live)
      ensures r != -1 ==> added == old(added) + [ptr]
                          && live == if ptr == NULL then old(live) else old(live)[r := ptr]
    {
      ghost var before := added;
      var ok := Enqueue(ptr, memory);
      if !ok {
        return -1;
      }
      r := offset + len - 1;
      added := added + [ptr];
      Extended(before, ptr);
    }

    /** seqptrmap_get(M, i): the i-th added pointer until it is deleted, else NULL. */
    method Get(i: int) returns (p: Ptr)
      requires Valid()
      ensures p == Lookup(live, i)
      ensures i in live ==> 0 <= i < |added| && p == added[i]
    {
      if i < offset {
        return NULL;
      }
      if i - offset >= len {
        return NULL;
      }
      var found, rec := ptrs.Get(i - offset);
      assert Lookup(live, i) == rec;
      p := rec;
    }

    /**
     seqptrmap_getmin(M): the least live number, or -1 if there is none; except that a NULL that was
     added counts as long as it is at the front.
     */
    method GetMin() returns (r: int)
      requires Valid()
      ensures r == -1 || (0 <= r < |added| && forall i :: i in live ==> r <= i)
      ensures r == -1 ==> live == map[]
      ensures r != -1 && r !in live ==> added[r] == NULL
      ensures Clean() ==> (r == -1 <==> live == map[]) && (r != -1 ==> r in live)
    {
      if ptrs.len == 0 {
        assert forall i :: i !in live;
        return -1;
      }
      r := offset;
    }

    /** The queue shows the live pointers. */
    ghost predicate Queued()
      reads this, ptrs, ptrs.EA
    {
      ptrs.Valid() && ptrs.reclen == 8 && ptrs.len == len && 0 <= offset && Shows(ptrs.items, offset, live)
    }

    /** Whether the queue starts with NULL. */
    method LeadingNull() returns (r: bool)
      requires Queued()
      ensures r == (len > 0 && ptrs.items[0] == NULL)
    {
      if ptrs.len == 0 {
        return false;
      }
      var found, rec := ptrs.Get(0);
      r := rec == NULL;
    }

    method DropNull(memory: bool)
      requires Queued() && len > 0 && ptrs.items[0] == NULL
      modifies this`offset, this`len, ptrs, ptrs.EA
      ensures Queued() && offset == old(offset) + 1 && len == old(len) - 1
    {
      ghost var were, base := ptrs.items, offset;
      ptrs.Delete(memory);
      offset, len := offset + 1, len - 1;
      assert Shows(ptrs.items, offset, live) by {
        ShowsRest(were, base, live);
      }
    }

    /** Drop numbers from the front while they stand for nothing. */
    method DropNulls(memory: bool)
      requires Queued()
      modifies this`offset, this`len, ptrs, ptrs.EA
      ensures Queued() && offset + len == old(offset + len) && (len > 0 ==> ptrs.items[0] != NULL)
    {
      var more := LeadingNull();
      while more
        invariant Queued() && offset + len == old(offset + len)
        invariant more == (len > 0 && ptrs.items[0] == NULL)
        decreases len
      {
        DropNull(memory);
        more := LeadingNull();
      }
    }

    /** Overwrite a queued pointer by NULL. */
    method Erase(i: int)
      requires Queued() && offset <= i < offset + len
      modifies this`live, ptrs`items, ptrs.EA`buf
      ensures Queued() && live == old(live) - {i}
    {
      ghost var were, m := ptrs.items, live - {i};
      ptrs.Put(i - offset, NULL);
      assert Shows(ptrs.items, offset, m) by {
        ShowsDelete(were, offset, live, i - offset);
      }
      live := m;
    }

    /** seqptrmap_delete(M, i) */
    method Delete(i: int, memory: bool)
      requires Valid()
      modifies this, ptrs, ptrs.EA
      ensures Valid() && added == old(added) && live == old(live) - {i}
    {
      if i < offset || i - offset >= len {
        assert live - {i} == live;
        return;
      }
      Erase(i);
      DropNulls(memory);
      if len > 0 {
        assert Lookup(live, offset) != NULL;
      }
    }

    /** Memory is bounded by the window from the least live number to the last one issued. */
    lemma SpaceBound(min: int)
      requires Valid() && Clean() && (len > 0 ==> min in live && forall i :: i in live ==> min <= i)
      ensures ptrs.EA.refused || ptrs.EA.alloc <= 64 * (if len > 0 then |added| - min else 0) + 3
      ensures ptrs.copied <= ptrs.deletes
    {
      ptrs.SpaceBound();
      if len > 0 {
        assert min == offset;
      }
    }
  }
}
