/**
 Heaps of records that know their own position (datastruct/ptrheap.c). compar() compares
 keys by any total preorder, and setreccookie() stores the position in the record.
 */
module PtrHeap {

  /** compar(cookie, x, y), for records with the keys x and y. */
  function Compare<K>(cmp: (K, K) -> int, x: K, y: K): int {
    cmp(x, y)
  }

  /** What compar() has to satisfy for three keys. */
  ghost predicate Coherent<K>(cmp: (K, K) -> int, x: K, y: K, z: K) {
    && (Compare(cmp, x, y) <= 0 && Compare(cmp, y, z) <= 0 ==> Compare(cmp, x, z) <= 0)
    && (Compare(cmp, x, y) < 0 <==> Compare(cmp, y, x) > 0)
  }

  ghost predicate TotalPreorder<K(!new)>(cmp: (K, K) -> int) {
    forall x, y, z {:trigger Coherent(cmp, x, y, z)} :: Coherent(cmp, x, y, z)
  }

  lemma Chain<K(!new)>(cmp: (K, K) -> int, x: K, y: K, z: K)
    requires TotalPreorder(cmp) && Compare(cmp, x, y) <= 0 && Compare(cmp, y, z) <= 0
    ensures Compare(cmp, x, z) <= 0
  {
    assert Coherent(cmp, x, y, z);
  }

  lemma Flip<K(!new)>(cmp: (K, K) -> int, x: K, y: K)
    requires TotalPreorder(cmp)
    ensures (Compare(cmp, x, y) < 0 <==> Compare(cmp, y, x) > 0) && (Compare(cmp, x, y) <= 0 <==> Compare(cmp, y, x) >= 0)
    ensures Compare(cmp, x, x) == 0
  {
    assert Coherent(cmp, x, y, x) && Coherent(cmp, y, x, y) && Coherent(cmp, x, x, x);
  }

  class Rec<K> {
    var key: K
    var rc: nat
    const ptr: nat

    constructor (key: K, ptr: nat)
      ensures this.key == key && this.ptr == ptr
    {
      this.key, this.ptr, rc := key, ptr, 0;
    }
  }

  function Parent(i: nat): (p: nat)
    requires i > 0
    ensures p < i && (i == 2 * p + 1 || i == 2 * p + 2)
  {
    (i - 1) / 2
  }

  /** Element j is not less than its parent, for every j whose parent is at least lo and is not hole. */
  ghost predicate HeapExceptBelow<K(!new)>(cmp: (K, K) -> int, keys: seq<K>, n: nat, lo: nat, hole: int) {
    n <= |keys| &&
    forall j {:trigger Parent(j)} :: 0 < j < n && lo <= Parent(j) != hole ==> Compare(cmp, keys[Parent(j)], keys[j]) <= 0
  }

  /** The children of hole are not less than its parent. */
  ghost predicate Bridged<K(!new)>(cmp: (K, K) -> int, keys: seq<K>, n: nat, lo: nat, hole: nat) {
    n <= |keys| &&
    forall j {:trigger Parent(j)} :: 0 < j < n && Parent(j) == hole && hole > 0 && lo <= Parent(hole) ==> Compare(cmp, keys[Parent(hole)], keys[j]) <= 0
  }

  ghost predicate HeapExceptAt<K(!new)>(cmp: (K, K) -> int, keys: seq<K>, hole: nat) {
    forall j {:trigger Parent(j)} :: 0 < j < |keys| && j != hole ==> Compare(cmp, keys[Parent(j)], keys[j]) <= 0
  }

  ghost predicate Heap<K(!new)>(cmp: (K, K) -> int, keys: seq<K>) {
    forall j {:trigger Parent(j)} :: 0 < j < |keys| ==> Compare(cmp, keys[Parent(j)], keys[j]) <= 0
  }

  function Swapped<T>(s: seq<T>, i: nat, j: nat): (r: seq<T>)
    requires i < |s| && j < |s|
    ensures |r| == |s|
  {
    s[i := s[j]][j := s[i]]
  }

  lemma SwappedPermutes<T>(s: seq<T>, i: nat, j: nat)
    requires i < |s| && j < |s|
    ensures multiset(Swapped(s, i, j)) == multiset(s)
  {
  }

  /** One step of sifting up. */
  lemma UpStep<K(!new)>(cmp: (K, K) -> int, keys: seq<K>, i: nat)
    requires TotalPreorder(cmp)
    requires 0 < i < |keys|
    requires HeapExceptAt(cmp, keys, i) && Bridged(cmp, keys, |keys|, 0, i)
    requires Compare(cmp, keys[i], keys[Parent(i)]) < 0
    ensures HeapExceptAt(cmp, Swapped(keys, i, Parent(i)), Parent(i))
    ensures Bridged(cmp, Swapped(keys, i, Parent(i)), |keys|, 0, Parent(i))
  {
    var p := Parent(i);
    var k := Swapped(keys, i, p);
    forall j | 0 < j < |k| && j != p
      ensures Compare(cmp, k[Parent(j)], k[j]) <= 0
    {
      if Parent(j) == p && j != i {
        assert Compare(cmp, keys[p], keys[j]) <= 0;
        Chain(cmp, keys[i], keys[p], keys[j]);
      }
    }
    forall j | 0 < j < |k| && Parent(j) == p && p > 0
      ensures Compare(cmp, k[Parent(p)], k[j]) <= 0
    {
      assert Compare(cmp, keys[Parent(p)], keys[p]) <= 0;
      if j != i {
        assert Compare(cmp, keys[p], keys[j]) <= 0;
        Chain(cmp, keys[Parent(p)], keys[p], keys[j]);
      }
    }
  }

  lemma UpDone<K(!new)>(cmp: (K, K) -> int, keys: seq<K>, i: nat)
    requires TotalPreorder(cmp)
    requires i < |keys| && HeapExceptAt(cmp, keys, i)
    requires i > 0 ==> Compare(cmp, keys[i], keys[Parent(i)]) >= 0
    ensures Heap(cmp, keys)
  {
    if i > 0 {
      Flip(cmp, keys[i], keys[Parent(i)]);
    }
  }

  /** The position heapify() exchanges with i: the least of i and its children. */
  ghost predicate LeastOf<K(!new)>(cmp: (K, K) -> int, keys: seq<K>, n: nat, i: nat, min: nat) {
    && n <= |keys| && i < n && min < n && (min == i || min == 2 * i + 1 || min == 2 * i + 2)
    && Compare(cmp, keys[min], keys[i]) <= 0
    && (2 * i + 1 < n ==> Compare(cmp, keys[min], keys[2 * i + 1]) <= 0)
    && (2 * i + 2 < n ==> Compare(cmp, keys[min], keys[2 * i + 2]) <= 0)
  }

  /** One step of sifting down. */
  lemma DownStep<K(!new)>(cmp: (K, K) -> int, keys: seq<K>, n: nat, lo: nat, i: nat, min: nat)
    requires TotalPreorder(cmp)
    requires LeastOf(cmp, keys, n, i, min) && min != i && lo <= i
    requires HeapExceptBelow(cmp, keys, n, lo, i) && Bridged(cmp, keys, n, lo, i)
    ensures HeapExceptBelow(cmp, Swapped(keys, min, i), n, lo, min)
    ensures Bridged(cmp, Swapped(keys, min, i), n, lo, min)
  {
    var k := Swapped(keys, min, i);
    assert Parent(min) == i;
    forall j | 0 < j < n && lo <= Parent(j) != min
      ensures Compare(cmp, k[Parent(j)], k[j]) <= 0
    {
      if Parent(j) == i {
        assert j == 2 * i + 1 || j == 2 * i + 2;
      } else if j == i {
        assert Compare(cmp, keys[Parent(i)], keys[min]) <= 0;
      } else {
        assert j != min && k[j] == keys[j] && k[Parent(j)] == keys[Parent(j)];
      }
    }
    forall j | 0 < j < n && Parent(j) == min
      ensures Compare(cmp, k[Parent(min)], k[j]) <= 0
    {
      assert Compare(cmp, keys[min], keys[j]) <= 0;
    }
  }

  lemma DownDone<K(!new)>(cmp: (K, K) -> int, keys: seq<K>, n: nat, lo: nat, i: nat)
    requires LeastOf(cmp, keys, n, i, i)
    requires HeapExceptBelow(cmp, keys, n, lo, i)
    ensures HeapExceptBelow(cmp, keys, n, lo, -1)
  {
    forall j | 0 < j < n && lo <= Parent(j)
      ensures Compare(cmp, keys[Parent(j)], keys[j]) <= 0
    {
      if Parent(j) == i {
        assert j == 2 * i + 1 || j == 2 * i + 2;
      }
    }
  }

  // ------------------------------------------------------------------------ the heap

  ghost function Keys<K>(elems: seq<Rec<K>>): (k: seq<K>)
    reads elems
    ensures |k| == |elems| && forall i :: 0 <= i < |k| ==> k[i] == elems[i].key
  {
    seq(|elems|, i requires 0 <= i < |elems| reads elems => elems[i].key)
  }

  ghost predicate Distinct<T>(s: seq<T>) {
    forall i, j :: 0 <= i < j < |s| ==> s[i] != s[j]
  }

  lemma SwappedKeys<K>(elems: seq<Rec<K>>, i: nat, j: nat)
    requires i < |elems| && j < |elems|
    ensures Keys(Swapped(elems, i, j)) == Swapped(Keys(elems), i, j)
    ensures Distinct(elems) ==> Distinct(Swapped(elems, i, j))
    ensures forall r :: r in Swapped(elems, i, j) <==> r in elems
  {
    SwappedPermutes(elems, i, j);
    forall r
      ensures r in Swapped(elems, i, j) <==> r in elems
    {
      assert r in Swapped(elems, i, j) <==> r in multiset(Swapped(elems, i, j));
    }
  }

  class PtrHeap<K(!new)> {
    const cmp: (K, K) -> int
    var elems: seq<Rec<K>>

    ghost var members: set<Rec<K>>

    ghost predicate Shaped()
      reads this, elems, members
    {
      && TotalPreorder(cmp)
      && (forall i :: 0 <= i < |elems| ==> elems[i] in members && elems[i].rc == i)
      && (forall r {:trigger r.rc} :: r in members ==> r.rc < |elems| && elems[r.rc] == r)
    }

    /** The members are the elements. */
    lemma MembersAre()
      requires Shaped()
      ensures Distinct(elems) && members == (set r | r in elems)
    {
      forall r | r in members
        ensures r in elems
      {
        assert elems[r.rc] == r;
      }
    }

    ghost predicate Valid()
      reads this, elems, members
    {
      Shaped() && Heap(cmp, Keys(elems))
    }

    /** swap(elems, i, j, setreccookie, cookie) */
    method Swap(i: nat, j: nat)
      requires i < |elems| && j < |elems| && i != j && Shaped()
      modifies this`elems, members`rc
      ensures elems == old(Swapped(elems, i, j)) && Shaped()
      ensures Keys(elems) == old(Swapped(Keys(elems), i, j))
      ensures multiset(elems) == old(multiset(elems))
    {
      SwappedKeys(elems, i, j);
      SwappedPermutes(elems, i, j);
      elems := Swapped(elems, i, j);
      elems[i].rc := i;
      elems[j].rc := j;
    }

    /** The element at i may be less than its parent; everything else is in order. */
    ghost predicate Rising(i: nat)
      reads this, elems, members
    {
      Shaped() && i < |elems| && HeapExceptAt(cmp, Keys(elems), i) && Bridged(cmp, Keys(elems), |elems|, 0, i)
    }

    /** Exchange an element with its parent. */
    method Rise(i: nat)
      requires Rising(i) && i > 0 && Compare(cmp, elems[i].key, elems[Parent(i)].key) < 0
      modifies this`elems, members`rc
      ensures Rising(Parent(i)) && multiset(elems) == old(multiset(elems))
    {
      UpStep(cmp, Keys(elems), i);
      Swap(i, Parent(i));
    }

    /** heapifyup(elems, i, compar, setreccookie, cookie) */
    method HeapifyUp(i0: nat)
      requires Rising(i0)
      modifies this`elems, members`rc
      ensures Valid() && multiset(elems) == old(multiset(elems))
    {
      var i: nat := i0;
      while i != 0 && Compare(cmp, elems[i].key, elems[Parent(i)].key) < 0
        invariant Rising(i) && multiset(elems) == old(multiset(elems))
      {
        Rise(i);
        i := Parent(i);
      }
      UpDone(cmp, Keys(elems), i);
    }

    /** Find the least of i and its children among the first n elements. */
    method LeastChild(i: nat, n: nat) returns (min: nat)
      requires i < n <= |elems| && TotalPreorder(cmp)
      ensures LeastOf(cmp, Keys(elems), n, i, min)
    {
      min := i;
      Flip(cmp, elems[i].key, elems[i].key);
      if 2 * i + 1 < n {
        Flip(cmp, elems[i].key, elems[2 * i + 1].key);
        Flip(cmp, elems[2 * i + 1].key, elems[2 * i + 1].key);
        if Compare(cmp, elems[min].key, elems[2 * i + 1].key) > 0 {
          min := 2 * i + 1;
        }
      }
      if 2 * i + 2 < n {
        ghost var before := min;
        Flip(cmp, elems[min].key, elems[2 * i + 2].key);
        Flip(cmp, elems[2 * i + 2].key, elems[2 * i + 2].key);
        if Compare(cmp, elems[min].key, elems[2 * i + 2].key) > 0 {
          min := 2 * i + 2;
          Chain(cmp, elems[min].key, elems[before].key, elems[i].key);
          Chain(cmp, elems[min].key, elems[before].key, elems[2 * i + 1].key);
        }
      }
    }

    /** The element at i may be greater than its children; the elements below position n,
        from those whose parent is lo on, are otherwise in order. */
    ghost predicate Sinking(i: nat, n: nat, lo: nat)
      reads this, elems, members
    {
      && Shaped() && lo <= i < n <= |elems|
      && HeapExceptBelow(cmp, Keys(elems), n, lo, i) && Bridged(cmp, Keys(elems), n, lo, i)
    }

    /** Exchange an element with its least child, if that is less. */
    method Sink(i: nat, n: nat, ghost lo: nat) returns (min: nat)
      requires Sinking(i, n, lo)
      modifies this`elems, members`rc
      ensures multiset(elems) == old(multiset(elems))
      ensures |elems| == old(|elems|) && elems[n..] == old(elems[n..])
      ensures i <= min && Sinking(min, n, lo)
      ensures min == i ==> HeapExceptBelow(cmp, Keys(elems), n, lo, -1)
    {
      min := LeastChild(i, n);
      if min == i {
        DownDone(cmp, Keys(elems), n, lo, i);
      } else {
        SinkTo(i, n, lo, min);
      }
    }

    /** Exchange an element with its least child, which is less. */
    method SinkTo(i: nat, ghost n: nat, ghost lo: nat, min: nat)
      requires Sinking(i, n, lo) && LeastOf(cmp, Keys(elems), n, i, min) && min != i
      modifies this`elems, members`rc
      ensures multiset(elems) == old(multiset(elems))
      ensures |elems| == old(|elems|) && elems[n..] == old(elems[n..])
      ensures i <= min && Sinking(min, n, lo)
    {
      DownStep(cmp, Keys(elems), n, lo, i, min);
      Swap(min, i);
    }

    /** heapify(elems, i, N, compar, setreccookie, cookie) */
    method Heapify(i0: nat, n: nat, ghost lo: nat)
      requires Sinking(i0, n, lo)
      modifies this`elems, members`rc
      ensures Shaped() && HeapExceptBelow(cmp, Keys(elems), n, lo, -1)
      ensures multiset(elems) == old(multiset(elems))
      ensures |elems| == old(|elems|) && elems[n..] == old(elems[n..])
    {
      var i := i0;
      var min := Sink(i, n, lo);
      while min != i
        invariant i <= min && Sinking(min, n, lo)
        invariant min == i ==> HeapExceptBelow(cmp, Keys(elems), n, lo, -1)
        invariant multiset(elems) == old(multiset(elems))
        invariant |elems| == old(|elems|) && elems[n..] == old(elems[n..])
        decreases n - i
      {
        i := min;
        min := Sink(i, n, lo);
      }
    }
  
    /** ptrheap_create(compar, setreccookie, cookie, N, ptrs); positions are stored as
        records move, where the code stores them once all have moved. */
    constructor Create(cmp: (K, K) -> int, ptrs: seq<Rec<K>>)
      requires TotalPreorder(cmp) && Distinct(ptrs)
      modifies (set r | r in ptrs)`rc
      ensures Valid() && multiset(elems) == multiset(ptrs) && members == (set r | r in ptrs) && this.cmp == cmp
    {
      this.cmp, elems, members := cmp, ptrs, (set r | r in ptrs);
      new;
      for i := 0 to |ptrs|
        invariant elems == ptrs && members == (set r | r in ptrs)
        invariant forall j :: 0 <= j < i ==> elems[j].rc == j
      {
        elems[i].rc := i;
      }
      var i := |ptrs|;
      while i > 0
        invariant 0 <= i <= |ptrs| == |elems| && members == (set r | r in ptrs)
        invariant Shaped() && HeapExceptBelow(cmp, Keys(elems), |elems|, i, -1)
        invariant multiset(elems) == multiset(ptrs)
      {
        i := i - 1;
        Heapify(i, |elems|, i);
      }
      assert forall j :: 0 < j < |elems| ==> 0 <= Parent(j);
    }

    /** ptrheap_add(H, ptr); the allocation may fail. */
    method Add(r: Rec<K>, alloc: bool) returns (ok: bool)
      requires Valid() && r !in members
      modifies this, members`rc, r`rc
      ensures ok == alloc && Valid()
      ensures ok ==> multiset(elems) == old(multiset(elems)) + multiset{r} && members == old(members) + {r}
      ensures !ok ==> elems == old(elems) && members == old(members)
    {
      if !alloc {
        return false;
      }
      ghost var k := Keys(elems);
      elems, members := elems + [r], members + {r};
      r.rc := |elems| - 1;
      assert Keys(elems)[..|k|] == k;
      HeapifyUp(|elems| - 1);
      return true;
    }

    /** ptrheap_getmin(H) */
    method GetMin() returns (r: Rec?<K>)
      requires Valid()
      ensures r == null <==> elems == []
      ensures r != null ==> r == elems[0] && forall x :: x in elems ==> Compare(cmp, r.key, x.key) <= 0
    {
      if |elems| > 0 {
        r := elems[0];
        LeastAtRoot(cmp, Keys(elems));
      } else {
        r := null;
      }
    }

    /** Take the element at rc out, moving the last element into its place. */
    method Pull(rc: nat)
      requires Valid() && rc < |elems|
      modifies this, members`rc
      ensures Shaped() && |elems| == old(|elems|) - 1 && elems == old(WithoutAt(elems, rc))
      ensures Keys(elems) == old(WithoutAt(Keys(elems), rc)) && members == old(members) - {old(elems[rc])}
    {
      WithoutAtDistinct(elems, rc);
      members := members - {elems[rc]};
      var n := |elems| - 1;
      if rc != n {
        elems := elems[..n][rc := elems[n]];
        elems[rc].rc := rc;
      } else {
        elems := elems[..n];
      }
    }

    /** ptrheap_delete(H, rc) */
    method Delete(rc: nat)
      requires Valid() && rc < |elems|
      modifies this, members`rc
      ensures Valid() && multiset(elems) == old(multiset(elems)) - multiset{old(elems[rc])}
      ensures members == old(members) - {old(elems[rc])}
    {
      Replacement(cmp, Keys(elems), rc);
      WithoutAtMultiset(elems, rc);
      var n := |elems| - 1;
      Pull(rc);
      if rc != n {
        if rc > 0 && Compare(cmp, elems[rc].key, elems[Parent(rc)].key) < 0 {
          Rise(rc);
          HeapifyUp(Parent(rc));
        } else {
          Heapify(rc, n, 0);
        }
      }
    }

    /** ptrheap_increase(H, rc), after the record's key has become greater. */
    method Increase(rc: nat)
      requires Sinking(rc, |elems|, 0)
      modifies this`elems, members`rc
      ensures Valid() && multiset(elems) == old(multiset(elems))
    {
      Heapify(rc, |elems|, 0);
    }

    /** ptrheap_decrease(H, rc), after the record's key has become less. */
    method Decrease(rc: nat)
      requires Rising(rc)
      modifies this`elems, members`rc
      ensures Valid() && multiset(elems) == old(multiset(elems))
    {
      HeapifyUp(rc);
    }

    /** Give a record a greater key, and let the heap know. */
    method IncreaseKey(r: Rec<K>, key: K)
      requires Valid() && r in members && Compare(cmp, r.key, key) <= 0
      modifies this`elems, members`rc, r`key
      ensures Valid() && multiset(elems) == old(multiset(elems)) && r.key == key
    {
      ghost var k := Keys(elems);
      Increased(cmp, k, r.rc, key);
      r.key := key;
      assert Keys(elems) == k[r.rc := key];
      Increase(r.rc);
    }

    /** Give a record a lesser key, and let the heap know. */
    method DecreaseKey(r: Rec<K>, key: K)
      requires Valid() && r in members && Compare(cmp, key, r.key) <= 0
      modifies this`elems, members`rc, r`key
      ensures Valid() && multiset(elems) == old(multiset(elems)) && r.key == key
    {
      ghost var k := Keys(elems);
      Decreased(cmp, k, r.rc, key);
      r.key := key;
      assert Keys(elems) == k[r.rc := key];
      Decrease(r.rc);
    }
  }

  /** The element at the root of a heap is not greater than any other. */
  lemma LeastAtRoot<K(!new)>(cmp: (K, K) -> int, keys: seq<K>)
    requires TotalPreorder(cmp)
    requires Heap(cmp, keys) && |keys| > 0
    ensures forall i :: 0 <= i < |keys| ==> Compare(cmp, keys[0], keys[i]) <= 0
  {
    forall i | 0 <= i < |keys|
      ensures Compare(cmp, keys[0], keys[i]) <= 0
    {
      RootAtMost(cmp, keys, i);
    }
  }

  lemma {:induction false} RootAtMost<K(!new)>(cmp: (K, K) -> int, keys: seq<K>, i: nat)
    requires TotalPreorder(cmp)
    requires Heap(cmp, keys) && i < |keys|
    ensures Compare(cmp, keys[0], keys[i]) <= 0
  {
    if i > 0 {
      RootAtMost(cmp, keys, Parent(i));
      Chain(cmp, keys[0], keys[Parent(i)], keys[i]);
    } else {
      Flip(cmp, keys[0], keys[0]);
    }
  }

  /** A sequence without the element at i, whose place the last element takes. */
  function WithoutAt<T>(s: seq<T>, i: nat): (t: seq<T>)
    requires i < |s|
    ensures |t| == |s| - 1
  {
    var n := |s| - 1;
    if i == n then s[..n] else s[..n][i := s[n]]
  }

  lemma WithoutAtMultiset<T>(s: seq<T>, i: nat)
    requires i < |s|
    ensures multiset(WithoutAt(s, i)) == multiset(s) - multiset{s[i]}
  {
    var n := |s| - 1;
    assert s == s[..n] + [s[n]];
    if i < n {
      assert multiset(s[..n][i := s[n]]) == multiset(s[..n]) - multiset{s[..n][i]} + multiset{s[n]};
    }
  }

  lemma WithoutAtDistinct<T>(s: seq<T>, i: nat)
    requires i < |s| && Distinct(s)
    ensures Distinct(WithoutAt(s, i)) && (set x | x in WithoutAt(s, i)) == (set x | x in s) - {s[i]}
  {
    var n, t := |s| - 1, WithoutAt(s, i);
    forall x | x in s && x != s[i]
      ensures x in t
    {
      var j :| 0 <= j < |s| && s[j] == x;
      assert t[if j == n then i else j] == x;
    }
    forall x | x in t
      ensures x in s && x != s[i]
    {
      var j :| 0 <= j < |t| && t[j] == x;
      assert x == if j == i then s[n] else s[j];
    }
  }

  /** The replacement is out of order at most with its parent or with its children. */
  lemma Replacement<K(!new)>(cmp: (K, K) -> int, keys: seq<K>, i: nat)
    requires TotalPreorder(cmp)
    requires Heap(cmp, keys) && i < |keys|
    ensures var n, k := |keys| - 1, WithoutAt(keys, i);
      && (i == n ==> Heap(cmp, k))
      && (i < n && i > 0 && Compare(cmp, k[i], k[Parent(i)]) < 0 ==> HeapExceptAt(cmp, k, i) && Bridged(cmp, k, n, 0, i))
      && (i < n && !(i > 0 && Compare(cmp, k[i], k[Parent(i)]) < 0) ==> HeapExceptBelow(cmp, k, n, 0, i) && Bridged(cmp, k, n, 0, i))
  {
    var n, k := |keys| - 1, WithoutAt(keys, i);
    forall j | 0 < j < n && Parent(j) == i
      ensures i > 0 ==> Compare(cmp, k[Parent(i)], k[j]) <= 0
      ensures i > 0 && Compare(cmp, k[i], k[Parent(i)]) < 0 ==> Compare(cmp, k[i], k[j]) <= 0
    {
      assert Compare(cmp, keys[i], keys[j]) <= 0;
      if i > 0 {
        Chain(cmp, keys[Parent(i)], keys[i], keys[j]);
        if Compare(cmp, k[i], k[Parent(i)]) < 0 {
          Chain(cmp, k[i], k[Parent(i)], k[j]);
        }
      }
    }
    if 0 < i < n {
      Flip(cmp, k[i], k[Parent(i)]);
    }
  }

  /** A heap with one key increased is out of order only below that key. */
  lemma Increased<K(!new)>(cmp: (K, K) -> int, keys: seq<K>, i: nat, key: K)
    requires TotalPreorder(cmp) && Heap(cmp, keys) && i < |keys| && Compare(cmp, keys[i], key) <= 0
    ensures HeapExceptBelow(cmp, keys[i := key], |keys|, 0, i) && Bridged(cmp, keys[i := key], |keys|, 0, i)
  {
    var k := keys[i := key];
    forall j | 0 < j < |k| && Parent(j) != i
      ensures Compare(cmp, k[Parent(j)], k[j]) <= 0
    {
      assert Compare(cmp, keys[Parent(j)], keys[j]) <= 0;
      if j == i {
        Chain(cmp, keys[Parent(i)], keys[i], key);
      }
    }
    forall j | 0 < j < |k| && Parent(j) == i && i > 0
      ensures Compare(cmp, k[Parent(i)], k[j]) <= 0
    {
      Chain(cmp, keys[Parent(i)], keys[i], keys[j]);
    }
  }

  /** A heap with one key decreased is out of order only above that key. */
  lemma Decreased<K(!new)>(cmp: (K, K) -> int, keys: seq<K>, i: nat, key: K)
    requires TotalPreorder(cmp) && Heap(cmp, keys) && i < |keys| && Compare(cmp, key, keys[i]) <= 0
    ensures HeapExceptAt(cmp, keys[i := key], i) && Bridged(cmp, keys[i := key], |keys|, 0, i)
  {
    var k := keys[i := key];
    forall j | 0 < j < |k| && j != i
      ensures Compare(cmp, k[Parent(j)], k[j]) <= 0
    {
      assert Compare(cmp, keys[Parent(j)], keys[j]) <= 0;
      if Parent(j) == i {
        Chain(cmp, key, keys[i], keys[j]);
      }
    }
    forall j | 0 < j < |k| && Parent(j) == i && i > 0
      ensures Compare(cmp, k[Parent(i)], k[j]) <= 0
    {
      Chain(cmp, keys[Parent(i)], keys[i], keys[j]);
    }
  }
}
