/** Timer priority queues (datastruct/timerqueue.c). */
module TimerQueue {
  import opened PtrHeap

  datatype Timeval = Timeval(sec: int, usec: int)

  /** tvcmp(x, y) */
  function TvCmp(x: Timeval, y: Timeval): int {
    if x.sec > y.sec then 1
    else if x.sec < y.sec then -1
    else if x.usec > y.usec then 1
    else if x.usec < y.usec then -1
    else 0
  }

  /** A record of the queue; its key is its time. */
  type TimerRec = Rec<Timeval>

  /** The comparison of the heap is that of times. */
  ghost predicate ByTime(cmp: (Timeval, Timeval) -> int) {
    forall x, y {:trigger Compare(cmp, x, y)} :: Compare(cmp, x, y) == TvCmp(x, y)
  }

  /** Times are ordered by seconds, then microseconds. */
  lemma TimesAreOrdered(cmp: (Timeval, Timeval) -> int)
    requires ByTime(cmp)
    ensures TotalPreorder(cmp)
  {
    forall x, y, z
      ensures Coherent(cmp, x, y, z)
    {
      assert Compare(cmp, x, y) == TvCmp(x, y) && Compare(cmp, y, z) == TvCmp(y, z);
    }
  }

  class TimerQueue {
    const H: PtrHeap<Timeval>

    ghost predicate Valid()
      reads this, H, H.elems, H.members
    {
      H.Valid() && ByTime(H.cmp)
    }

    /** The records in the queue. */
    ghost function Records(): set<TimerRec>
      reads this, H
    {
      H.members
    }

    /** timerqueue_init() */
    constructor ()
      ensures Valid() && fresh(H) && Records() == {}
    {
      TimesAreOrdered(TvCmp);
      H := new PtrHeap<Timeval>.Create(TvCmp, []);
    }

    /** timerqueue_add(Q, tv, ptr); either allocation may fail. */
    method Add(tv: Timeval, ptr: nat, allocRec: bool, allocHeap: bool) returns (r: Rec?<Timeval>)
      requires Valid()
      modifies H, Records()`rc
      ensures Valid() && (r == null <==> !(allocRec && allocHeap))
      ensures r == null ==> Records() == old(Records())
      ensures r != null ==> fresh(r) && r.key == tv && r.ptr == ptr && Records() == old(Records()) + {r}
    {
      if !allocRec {
        return null;
      }
      r := new Rec<Timeval>(tv, ptr);
      var ok := H.Add(r, allocHeap);
      if !ok {
        r := null;
      }
    }

    /** timerqueue_delete(Q, cookie) */
    method Delete(r: TimerRec)
      requires Valid() && r in Records()
      modifies H, Records()`rc
      ensures Valid() && Records() == old(Records()) - {r}
    {
      H.Delete(r.rc);
    }

    /** timerqueue_increase(Q, cookie, tv) */
    method Increase(r: TimerRec, tv: Timeval)
      requires Valid() && r in Records() && TvCmp(r.key, tv) <= 0
      modifies H, Records()`rc, r`key
      ensures Valid() && Records() == old(Records()) && r.key == tv
    {
      H.IncreaseKey(r, tv);
      SameMembers(old(H.elems), H.elems);
    }

    /** timerqueue_getmin(Q) */
    method GetMin() returns (r: Rec?<Timeval>)
      requires Valid()
      ensures r == null <==> Records() == {}
      ensures r != null ==> r in Records() && forall x :: x in Records() ==> TvCmp(r.key, x.key) <= 0
    {
      r := H.GetMin();
      H.MembersAre();
    }

    /** timerqueue_getptr(Q, tv); the record that is removed stands for its pointer. */
    method GetPtr(tv: Timeval) returns (r: Rec?<Timeval>)
      requires Valid()
      modifies H, Records()`rc
      ensures Valid()
      ensures r == null ==> Records() == old(Records()) && forall x :: x in Records() ==> TvCmp(x.key, tv) > 0
      ensures r != null ==>
        && r in old(Records()) && Records() == old(Records()) - {r} && TvCmp(r.key, tv) <= 0
        && forall x :: x in old(Records()) ==> TvCmp(r.key, x.key) <= 0
    {
      r := GetMin();
      if r == null {
        return;
      }
      if TvCmp(r.key, tv) > 0 {
        return null;
      }
      H.Delete(r.rc);
    }

    /** Draining the queue at a fixed time yields exactly the expired records, in order of time. */
    method Drain(tv: Timeval) returns (out: seq<TimerRec>)
      requires Valid()
      modifies H, Records()`rc
      ensures Valid()
      ensures forall i, j :: 0 <= i < j < |out| ==> out[i] != out[j] && TvCmp(out[i].key, out[j].key) <= 0
      ensures forall x :: x in out <==> x in old(Records()) && TvCmp(x.key, tv) <= 0
      ensures Records() == set x | x in old(Records()) && TvCmp(x.key, tv) > 0
      decreases |Records()|
    {
      var r := GetPtr(tv);
      if r == null {
        return [];
      }
      var rest := Drain(tv);
      out := [r] + rest;
    }
  }

  lemma SameMembers<T>(s: seq<T>, t: seq<T>)
    requires multiset(s) == multiset(t)
    ensures (set x | x in s) == (set x | x in t)
  {
    forall x
      ensures x in s <==> x in t
    {
      assert x in s <==> x in multiset(s);
      assert x in t <==> x in multiset(t);
    }
  }
}
