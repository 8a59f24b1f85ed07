/** Elastic queues of fixed-size records on an elastic array of octets (datastruct/elasticqueue.c). */
module ElasticQueue {
  import opened Machine
  import opened Octets
  import opened ElasticArray

  /** The position of record i, as a sum. */
  function Pos(i: nat, r: nat): nat {
    if i == 0 then 0 else Pos(i - 1, r) + r
  }

  lemma {:induction false} PosIs(i: nat, r: nat)
    ensures Pos(i, r) == i * r
  {
    if i > 0 {
      PosIs(i - 1, r);
      assert i * r == (i - 1) * r + r;
    }
  }

  lemma {:induction false} Ordered(i: nat, j: nat, r: nat)
    requires i < j
    ensures Pos(i, r) + r <= Pos(j, r)
  {
    if i + 1 < j {
      Ordered(i, j - 1, r);
    }
  }

  lemma {:induction false} PosSum(i: nat, j: nat, r: nat)
    ensures Pos(i + j, r) == Pos(i, r) + Pos(j, r)
  {
    if j > 0 {
      PosSum(i, j - 1, r);
    }
  }

  /** Record i of the octets. */
  function Rec(data: seq<Octet>, i: nat, r: nat): (x: seq<Octet>) {
    if Pos(i, r) + r <= |data| then data[Pos(i, r)..Pos(i, r) + r] else []
  }

  /** The records from number first on are the given items. */
  ghost predicate Matches(data: seq<Octet>, first: nat, items: seq<seq<Octet>>, r: nat) {
    forall k: nat {:trigger Rec(data, k, r)} :: first <= k < first + |items| ==> Rec(data, k, r) == items[k - first]
  }

  lemma RecAppend(data: seq<Octet>, n: nat, r: nat, x: seq<Octet>, k: nat)
    requires |data| == Pos(n, r) && |x| == r && k <= n
    ensures Rec(data + x, k, r) == if k == n then x else Rec(data, k, r)
  {
    if k < n {
      Ordered(k, n, r);
    }
  }

  lemma MatchesAppend(data: seq<Octet>, first: nat, items: seq<seq<Octet>>, r: nat, x: seq<Octet>)
    requires |data| == Pos(first + |items|, r) && |x| == r && Matches(data, first, items, r)
    ensures Matches(data + x, first, items + [x], r)
  {
    forall k: nat | first <= k < first + |items| + 1
      ensures Rec(data + x, k, r) == (items + [x])[k - first]
    {
      RecAppend(data, first + |items|, r, x, k);
    }
  }

  lemma PatchSlice(data: seq<Octet>, p: nat, x: seq<Octet>, a: nat, b: nat)
    requires p + |x| <= |data| && a <= b <= |data| && (b <= p || p + |x| <= a)
    ensures Patch(data, p, x)[a..b] == data[a..b]
  {
  }

  lemma RecStore(data: seq<Octet>, n: nat, r: nat, i: nat, x: seq<Octet>, k: nat)
    requires |data| == Pos(n, r) && i < n && k < n && |x| == r && Pos(i, r) + r <= |data|
    ensures Rec(Patch(data, Pos(i, r), x), k, r) == if k == i then x else Rec(data, k, r)
  {
    Ordered(k, n, r);
    if k < i {
      Ordered(k, i, r);
      PatchSlice(data, Pos(i, r), x, Pos(k, r), Pos(k, r) + r);
    } else if k > i {
      Ordered(i, k, r);
      PatchSlice(data, Pos(i, r), x, Pos(k, r), Pos(k, r) + r);
    }
  }

  lemma MatchesStore(data: seq<Octet>, first: nat, items: seq<seq<Octet>>, r: nat, i: nat, x: seq<Octet>)
    requires |data| == Pos(first + |items|, r) && |x| == r && Matches(data, first, items, r)
    requires i < |items| && Pos(first + i, r) + r <= |data|
    ensures Matches(Patch(data, Pos(first + i, r), x), first, items[i := x], r)
  {
    var data' := Patch(data, Pos(first + i, r), x);
    forall k: nat | first <= k < first + |items|
      ensures Rec(data', k, r) == items[i := x][k - first]
    {
      RecStore(data, first + |items|, r, first + i, x, k);
    }
  }

  lemma Slice(s: seq<Octet>, n: nat, a: nat, b: nat)
    requires a <= b <= n <= |s|
    ensures s[..n][a..b] == s[a..b]
  {
  }

  lemma MatchesPrefix(data: seq<Octet>, n: nat, items: seq<seq<Octet>>, r: nat)
    requires |data| == Pos(n, r) && |items| <= n && Pos(|items|, r) <= |data| && Matches(data, 0, items, r)
    ensures Matches(data[..Pos(|items|, r)], 0, items, r)
  {
    forall k: nat | 0 <= k < |items|
      ensures Rec(data[..Pos(|items|, r)], k, r) == items[k]
    {
      Ordered(k, |items|, r);
      Slice(data, Pos(|items|, r), Pos(k, r), Pos(k, r) + r);
      assert Rec(data, k, r) == items[k - 0];
    }
  }

  /** Of the items from number offset on, i have moved to the front and the rest is in place. */
  ghost predicate MovedDown(data: seq<Octet>, offset: nat, items: seq<seq<Octet>>, r: nat, i: nat) {
    i <= |items|
    && (forall k: nat {:trigger Rec(data, k, r)} :: k < i ==> Rec(data, k, r) == items[k])
    && (forall k: nat {:trigger Rec(data, k, r)} :: i <= k && offset <= k < offset + |items| ==> Rec(data, k, r) == items[k - offset])
  }

  lemma MoveDownStep(data: seq<Octet>, offset: nat, items: seq<seq<Octet>>, r: nat, i: nat, x: seq<Octet>)
    requires MovedDown(data, offset, items, r, i) && |data| == Pos(offset + |items|, r) && offset > 0
    requires i < |items| && x == Rec(data, i + offset, r) && |x| == r && Pos(i, r) + r <= |data|
    ensures MovedDown(Patch(data, Pos(i, r), x), offset, items, r, i + 1)
  {
    var data' := Patch(data, Pos(i, r), x);
    forall k: nat | k < offset + |items|
      ensures Rec(data', k, r) == if k == i then x else Rec(data, k, r)
    {
      RecStore(data, offset + |items|, r, i, x, k);
    }
    assert x == items[i];
  }

  class ElasticQueue {
    const EA: ElasticArray
    const reclen: nat
    var offset: nat
    var len: nat
    ghost var copied: nat   // records moved to the front
    ghost var deletes: nat  // records deleted
    ghost var items: seq<seq<Octet>>  // the records in the queue

    ghost predicate Valid()
      reads this, EA
    {
      Sized() && offset <= len && copied + offset <= deletes && |items| == len
      && Matches(EA.Contents(), offset, items, reclen)
    }

    /** The array holds the deleted records and the records in the queue. */
    ghost predicate Sized()
      reads this, EA
    {
      EA.Valid() && reclen > 0 && EA.size == Pos(offset + len, reclen)
    }

    /** elasticqueue_init(reclen) */
    constructor (reclen: nat)
      requires reclen > 0
      ensures Valid() && items == [] && fresh(EA) && this.reclen == reclen && copied == deletes == 0
    {
      EA := new ElasticArray.Empty();
      this.reclen, offset, len, copied, deletes, items := reclen, 0, 0, 0, 0, [];
    }

    /** Memory use, unless the last reallocation to a smaller size failed. */
    lemma SpaceBound()
      requires Valid()
      ensures EA.refused || EA.alloc <= 8 * (len * reclen) + 3
      ensures copied <= deletes
    {
      PosSum(offset, len, reclen);
      PosIs(len, reclen);
      if offset < len {
        Ordered(offset, len, reclen);
      }
    }

    /** There is room for one more record, or memory for it. */
    ghost predicate CanAdd(memory: bool)
      reads this, EA
    {
      reclen <= SIZE_MAX - EA.size && (memory || !NeedsRealloc(EA.alloc, EA.size + reclen))
    }

    /** elasticqueue_add(EQ, rec) */
    method Add(rec: seq<Octet>, memory: bool) returns (ok: bool)
      requires Valid() && |rec| == reclen
      modifies this, EA
      ensures Valid() && items == if ok then old(items) + [rec] else old(items)
      ensures ok ==> !EA.refused
      ensures ok <==> old(CanAdd(memory))
      ensures len == (if ok then old(len) + 1 else old(len)) && copied == old(copied) && deletes == old(deletes)
    {
      ghost var data := EA.Contents();
      ok := EA.Append(rec, 1, reclen, memory);
      if ok {
        MatchesAppend(data, offset, items, reclen, rec);
        len, items := len + 1, items + [rec];
      }
    }

    /** Copy record i + offset to the position i. */
    method MoveRecord(i: nat)
      requires Sized() && |items| == len && i < len && offset > 0 && MovedDown(EA.Contents(), offset, items, reclen, i)
      modifies EA`buf
      ensures Sized() && MovedDown(EA.Contents(), offset, items, reclen, i + 1)
    {
      var rec := Read(i + offset);
      Ordered(i, offset + len, reclen);
      MoveDownStep(EA.Contents(), offset, items, reclen, i, rec);
      Write(i, rec);
    }

    /** The octets of record i, which elasticarray_get points to. */
    method Read(i: nat) returns (rec: seq<Octet>)
      requires Sized() && i < offset + len
      ensures |rec| == reclen && rec == Rec(EA.Contents(), i, reclen)
    {
      Ordered(i, offset + len, reclen);
      PosIs(i, reclen);
      var at := i * reclen;
      rec := EA.buf[at..at + reclen];
      Slice(EA.buf, EA.size, at, at + reclen);
    }

    /** Write to where elasticarray_get points. */
    method Write(i: nat, rec: seq<Octet>)
      requires Sized() && i < offset + len && |rec| == reclen
      modifies EA`buf
      ensures Sized() && Pos(i, reclen) + reclen <= EA.size
      ensures EA.Contents() == Patch(old(EA.Contents()), Pos(i, reclen), rec)
    {
      Ordered(i, offset + len, reclen);
      PosIs(i, reclen);
      EA.Store(i * reclen, rec);
    }

    /** Move everything to the front of the array. */
    method Compact()
      requires Sized() && |items| == len && offset > 0 && Matches(EA.Contents(), offset, items, reclen)
      modifies EA`buf, this`copied
      ensures Sized() && copied == old(copied) + len && Matches(EA.Contents(), 0, items, reclen)
    {
      var i := 0;
      while i < len
        invariant i <= len && Sized() && copied == old(copied) + i
        invariant MovedDown(EA.Contents(), offset, items, reclen, i)
      {
        MoveRecord(i);
        copied := copied + 1;
        i := i + 1;
      }
    }

    /** Move everything to the front, and remove the unused space at the end. */
    method MoveToFront(memory: bool)
      requires Sized() && |items| == len && offset > 0 && Matches(EA.Contents(), offset, items, reclen)
      modifies EA, this`copied, this`offset
      ensures Sized() && offset == 0 && copied == old(copied) + len && Matches(EA.Contents(), 0, items, reclen)
    {
      Compact();
      PosSum(len, offset, reclen);
      PosIs(offset, reclen);
      MatchesPrefix(EA.Contents(), offset + len, items, reclen);
      EA.Shrink(offset, reclen, memory);
      offset := 0;
    }

    /** elasticqueue_delete(EQ) */
    method Delete(memory: bool)
      requires Valid()
      modifies this, EA
      ensures Valid() && items == if old(len) == 0 then [] else old(items)[1..]
      ensures len == (if old(len) == 0 then 0 else old(len) - 1)
      ensures deletes == old(deletes) + if old(len) == 0 then 0 else 1
      ensures copied == old(copied) + if old(len) > 0 && offset == 0 then len else 0
    {
      if len == 0 {
        return;
      }
      offset, len, items := offset + 1, len - 1, items[1..];
      if offset > len {
        MoveToFront(memory);
      }
      deletes := deletes + 1;
    }

    /** elasticqueue_get(EQ, pos): nothing beyond the end of the queue. */
    method Get(pos: nat) returns (found: bool, rec: seq<Octet>)
      requires Valid()
      ensures found == (pos < len) && (found ==> rec == items[pos])
    {
      if pos >= len {
        return false, [];
      }
      found := true;
      rec := Read(pos + offset);
    }

    /** Write through the pointer that elasticqueue_get returns. */
    method Put(pos: nat, rec: seq<Octet>)
      requires Valid() && pos < len && |rec| == reclen
      modifies EA`buf, this`items
      ensures Valid() && items == old(items)[pos := rec]
    {
      Ordered(offset + pos, offset + len, reclen);
      MatchesStore(EA.Contents(), offset, items, reclen, pos, rec);
      Write(offset + pos, rec);
      items := items[pos := rec];
    }
  }
}
