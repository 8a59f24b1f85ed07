/**
 Elastic arrays (datastruct/elasticarray.c): size_t arithmetic wraps, allocation
 may fail, and ghost counters record the cost of moving data.
 */
module ElasticArray {
  import opened Machine
  import opened Octets

  // ------------------------------------------------------- the sizes alone

  /** The allocation that resize asks for. */
  function Target(alloc: nat, nsize: nat): nat {
    if alloc < nsize then
      var twice := alloc * 2 % (SIZE_MAX + 1);
      if twice < nsize then nsize else twice
    else if alloc / 4 > nsize then nsize * 2
    else alloc
  }

  /** Doubling the allocation wraps around. */
  predicate Wraps(alloc: nat, nsize: nat) {
    alloc < nsize && alloc * 2 > SIZE_MAX
  }

  /** Whether that takes a call of realloc. */
  predicate NeedsRealloc(alloc: nat, nsize: nat) {
    Target(alloc, nsize) != alloc && Target(alloc, nsize) != 0
  }

  /** Octets that realloc may have to move. */
  function MoveCost(alloc: nat, nalloc: nat): nat {
    if alloc == nalloc then 0 else if alloc < nalloc then alloc else nalloc
  }

  /** Whatever the sizes, the result holds the data, within a factor of four. */
  lemma TargetFits(alloc: nat, nsize: nat)
    requires alloc <= SIZE_MAX && nsize <= SIZE_MAX
    ensures nsize <= Target(alloc, nsize) <= SIZE_MAX && Target(alloc, nsize) / 4 <= nsize
    ensures Wraps(alloc, nsize) ==> Target(alloc, nsize) == nsize
  {
    if alloc * 2 > SIZE_MAX {
      assert alloc * 2 % (SIZE_MAX + 1) == alloc * 2 - (SIZE_MAX + 1);
    }
  }

  /** The cost saved up for the next move. */
  function Potential(size: nat, alloc: nat): nat {
    if 2 * size > alloc then 4 * size - 2 * alloc else alloc - 2 * size
  }

  function Distance(a: nat, b: nat): nat {
    if a < b then b - a else a - b
  }

  /** Unless doubling wraps, a move is paid for by at most four times the change of size. */
  lemma MovePaid(size: nat, alloc: nat, nsize: nat)
    requires size <= alloc <= SIZE_MAX && nsize <= SIZE_MAX && !Wraps(alloc, nsize)
    ensures var nalloc := Target(alloc, nsize);
            MoveCost(alloc, nalloc) + Potential(nsize, nalloc) <= Potential(size, alloc) + 4 * Distance(size, nsize)
  {
    if alloc < nsize {
      assert alloc * 2 % (SIZE_MAX + 1) == alloc * 2;
      GrowthPaid(size, alloc, nsize, Target(alloc, nsize));
    } else if alloc / 4 > nsize {
      ReleasePaid(size, alloc, nsize);
    } else {
      StayPaid(size, alloc, nsize);
    }
  }

  lemma GrowthPaid(size: nat, alloc: nat, nsize: nat, nalloc: nat)
    requires size <= alloc < nsize && nalloc == if 2 * alloc < nsize then nsize else 2 * alloc
    ensures alloc + Potential(nsize, nalloc) <= Potential(size, alloc) + 4 * (nsize - size)
  {
  }

  lemma ReleasePaid(size: nat, alloc: nat, nsize: nat)
    requires size <= alloc && 4 * nsize + 4 <= alloc
    ensures 2 * nsize + Potential(nsize, 2 * nsize) <= Potential(size, alloc) + 4 * Distance(size, nsize)
  {
  }

  /** Keeping the allocation is paid for too. */
  lemma StayPaid(size: nat, alloc: nat, nsize: nat)
    ensures Potential(nsize, alloc) <= Potential(size, alloc) + 4 * Distance(size, nsize)
  {
  }

  /** Sizes and costs of a run. */
  datatype Cost = Cost(size: nat, alloc: nat, moved: nat, changed: nat)

  const NEW := Cost(0, 0, 0, 0)

  /** A resize for which memory can be had. */
  function ResizeCost(c: Cost, nsize: nat): Cost {
    var nalloc := Target(c.alloc, nsize);
    Cost(nsize, nalloc, c.moved + MoveCost(c.alloc, nalloc), c.changed + Distance(c.size, nsize))
  }

  /** A new array goes through the given sizes. */
  function RunCost(sizes: seq<nat>): Cost {
    if sizes == [] then NEW else ResizeCost(RunCost(sizes[..|sizes| - 1]), sizes[|sizes| - 1])
  }

  /** No doubling wraps around during the run. */
  ghost predicate Unwrapped(sizes: seq<nat>) {
    sizes != [] ==>
      var before := sizes[..|sizes| - 1];
      Unwrapped(before) && !Wraps(RunCost(before).alloc, sizes[|sizes| - 1])
  }

  /**
   Over every run of appends and shrinks the array stays within a factor of four of the data; and
   unless doubling wraps, what was moved is at most four times what was appended and removed.
   */
  lemma {:induction false} RunBound(sizes: seq<nat>)
    requires forall i :: 0 <= i < |sizes| ==> sizes[i] <= SIZE_MAX
    ensures var c := RunCost(sizes); c.size <= c.alloc <= SIZE_MAX && c.alloc / 4 <= c.size
    ensures var c := RunCost(sizes); Unwrapped(sizes) ==> c.moved + Potential(c.size, c.alloc) <= 4 * c.changed
  {
    if sizes != [] {
      var n := |sizes| - 1;
      RunBound(sizes[..n]);
      var c := RunCost(sizes[..n]);
      TargetFits(c.alloc, sizes[n]);
      if Unwrapped(sizes) {
        MovePaid(c.size, c.alloc, sizes[n]);
      }
    }
  }

  /** One append of half the address space, then k octets one at a time. */
  function HugeRun(k: nat): Cost {
    if k == 0 then ResizeCost(NEW, 0x8000_0000_0000_0000) else ResizeCost(HugeRun(k - 1), HugeRun(k - 1).size + 1)
  }

  lemma {:induction false} HugeRunMoves(k: nat)
    requires k < 0x8000_0000_0000_0000
    ensures HugeRun(k).size == HugeRun(k).alloc == HugeRun(k).changed == 0x8000_0000_0000_0000 + k
    ensures HugeRun(k).moved >= 0x8000_0000_0000_0000 * k
  {
    if k > 0 {
      HugeRunMoves(k - 1);
      HugeStep(HugeRun(k - 1), 0x8000_0000_0000_0000, k - 1);
    } else {
      TargetFits(0, 0x8000_0000_0000_0000);
    }
  }

  /** Beyond half the address space, one more octet moves everything. */
  lemma HugeStep(c: Cost, half: nat, k: nat)
    requires SIZE_MAX + 1 == 2 * half && k + 1 < half
    requires c.size == c.alloc == c.changed == half + k && c.moved >= half * k
    ensures var d := ResizeCost(c, c.size + 1);
            d.size == d.alloc == d.changed == half + k + 1 && d.moved >= half * (k + 1)
  {
    TargetFits(c.alloc, c.alloc + 1);
    assert Wraps(c.alloc, c.alloc + 1);
    assert half * (k + 1) == half * k + half;
  }

  /** Once doubling wraps, no constant bounds the cost: every appended octet moves everything. */
  lemma WrappingIsNotAmortized(c: nat)
    requires c < 0x8000_0000
    ensures HugeRun(c + 2).moved > c * HugeRun(c + 2).changed
  {
    HugeRunMoves(c + 2);
    var r := HugeRun(c + 2);
    Exceeds(c, 0x8000_0000_0000_0000, r.moved, r.changed);
  }

  lemma Exceeds(c: nat, half: nat, moved: nat, changed: nat)
    requires c < 0x8000_0000 && half == 0x8000_0000_0000_0000
    requires changed == half + c + 2 && moved >= half * (c + 2)
    ensures moved > c * changed
  {
    var e := c + 2;
    Square(c, e);
    assert half * e == half * c + 2 * half;
    assert c * (half + e) == c * half + c * e;
  }

  lemma Square(c: nat, e: nat)
    requires c < 0x8000_0000 && e <= 0x8000_0001
    ensures c * e < 0x1_0000_0000_0000_0000
  {
    assert c * e <= 0x8000_0000 * e;
  }

  // --------------------------------------------------------------- the code

  /** The division test finds exactly the products that do not fit. */
  lemma DivisionTest(nrec: nat, reclen: nat)
    requires reclen > 0
    ensures nrec > SIZE_MAX / reclen <==> nrec * reclen > SIZE_MAX
  {
    var q, r := SIZE_MAX / reclen, SIZE_MAX % reclen;
    assert SIZE_MAX == q * reclen + r;
    if nrec > q {
      Products(q + 1, nrec, reclen);
      assert (q + 1) * reclen == q * reclen + reclen;
    } else {
      Products(nrec, q, reclen);
    }
  }

  lemma Products(a: nat, b: nat, c: nat)
    requires a <= b
    ensures a * c <= b * c
  {
  }

  /** The new allocation, and what it costs to get there. */
  method ChooseAlloc(ghost size: nat, alloc: nat, nsize: nat) returns (nalloc: nat)
    requires size <= alloc <= SIZE_MAX && nsize <= SIZE_MAX
    ensures nalloc == Target(alloc, nsize) && nsize <= nalloc <= SIZE_MAX && nalloc / 4 <= nsize
    ensures Wraps(alloc, nsize)
            || MoveCost(alloc, nalloc) + Potential(nsize, nalloc) <= Potential(size, alloc) + 4 * Distance(size, nsize)
  {
    if alloc < nsize {
      nalloc := alloc * 2 % (SIZE_MAX + 1);
      if nalloc < nsize {
        nalloc := nsize;
      }
    } else if alloc / 4 > nsize {
      nalloc := nsize * 2;
    } else {
      nalloc := alloc;
    }
    assert nalloc == Target(alloc, nsize);
    TargetFits(alloc, nsize);
    if !Wraps(alloc, nsize) {
      MovePaid(size, alloc, nsize);
    }
  }

  /** How much to keep when nrec records are removed. */
  method Remaining(size: nat, nrec: nat, reclen: nat) returns (nsize: nat)
    requires size <= SIZE_MAX && reclen > 0
    ensures nsize == if nrec * reclen > size then 0 else size - nrec * reclen
  {
    DivisionTest(nrec, reclen);
    if nrec > SIZE_MAX / reclen || nrec * reclen > size {
      nsize := 0;
    } else {
      nsize := size - nrec * reclen;
    }
  }

  /** realloc(buf, n): fails, or keeps what fits; the rest is uninitialized. */
  method Realloc(buf: seq<Octet>, n: nat, memory: bool) returns (ok: bool, nbuf: seq<Octet>)
    ensures ok == memory
    ensures ok ==> |nbuf| == n && forall i :: 0 <= i < n && i < |buf| ==> nbuf[i] == buf[i]
  {
    ok := memory;
    var keep := if |buf| < n then |buf| else n;
    assert |seq<Octet>(n - keep, _ => 0)| == n - keep;
    var rest: seq<Octet> :| |rest| == n - keep;
    nbuf := buf[..keep] + rest;
  }

  class ElasticArray {
    var size: nat
    var alloc: nat
    var buf: seq<Octet>
    ghost var moved: nat    // octets moved by realloc
    ghost var changed: nat  // octets appended and removed
    ghost var exempt: bool  // doubling has wrapped around, or spare space was released
    ghost var refused: bool // the last resize was a shrink for which realloc failed

    ghost predicate Valid()
      reads this
    {
      size <= alloc == |buf| <= SIZE_MAX && (refused || alloc / 4 <= size)
      && (exempt || moved + Potential(size, alloc) <= 4 * changed)
    }

    ghost function Contents(): (s: seq<Octet>)
      requires Valid()
      reads this
      ensures |s| == size
    {
      buf[..size]
    }

    /** An array without records; elasticarray_init then resizes it. */
    constructor Empty()
      ensures Valid() && size == alloc == moved == changed == 0 && !exempt && !refused
    {
      size, alloc, buf, moved, changed, exempt, refused := 0, 0, [], 0, 0, false, false;
    }

    /** resize(EA, nsize) */
    method Resize(nsize: nat, memory: bool) returns (ok: bool)
      requires Valid() && nsize <= SIZE_MAX
      modifies this
      ensures Valid() && (ok <==> memory || !NeedsRealloc(old(alloc), nsize))
      ensures ok ==> size == nsize && alloc == Target(old(alloc), nsize) && !refused
      ensures ok ==> forall i :: 0 <= i < old(size) && i < nsize ==> buf[i] == old(buf)[i]
      ensures ok ==> exempt == (old(exempt) || Wraps(old(alloc), nsize))
      ensures ok ==> changed == old(changed) + Distance(old(size), nsize) && moved == old(moved) + MoveCost(old(alloc), alloc)
      ensures !ok ==> unchanged(this)
    {
      var nalloc := ChooseAlloc(size, alloc, nsize);
      ok := true;
      ghost var cost := MoveCost(alloc, nalloc);
      ghost var wraps := Wraps(alloc, nsize);
      if nalloc == 0 {
        assert nsize == 0;
        buf, alloc := [], 0;
      } else if nalloc != alloc {
        var nbuf;
        ok, nbuf := Realloc(buf, nalloc, memory);
        if !ok {
          return;
        }
        buf, alloc := nbuf, nalloc;
      }
      moved, changed := moved + cost, changed + Distance(size, nsize);
      exempt, refused := exempt || wraps, false;
      size := nsize;
    }

    /** elasticarray_resize(EA, nrec, reclen) */
    method ResizeRecords(nrec: nat, reclen: nat, memory: bool) returns (ok: bool)
      requires Valid() && reclen > 0
      modifies this
      ensures Valid() && (ok ==> size == nrec * reclen && !refused)
      ensures ok ==> forall i :: 0 <= i < old(size) && i < size ==> buf[i] == old(buf)[i]
      ensures !ok ==> unchanged(this)
      ensures ok <==> nrec * reclen <= SIZE_MAX && (memory || !NeedsRealloc(old(alloc), nrec * reclen))
    {
      DivisionTest(nrec, reclen);
      if nrec > SIZE_MAX / reclen {
        return false;
      }
      ok := Resize(nrec * reclen, memory);
    }

    /** elasticarray_getsize(EA, reclen): whole records, rounding down. */
    method GetSize(reclen: nat) returns (n: nat)
      requires Valid() && reclen > 0
      ensures n * reclen <= size < (n + 1) * reclen
    {
      n := size / reclen;
      assert size == n * reclen + size % reclen;
    }

    /** memcpy into the array. */
    method Store(pos: nat, x: seq<Octet>)
      requires Valid() && pos + |x| <= size
      modifies this`buf
      ensures Valid() && Contents() == old(Contents())[..pos] + x + old(Contents())[pos + |x|..]
    {
      buf := buf[..pos] + x + buf[pos + |x|..];
    }

    /** elasticarray_append(EA, buf, nrec, reclen), where the records are the octets x. */
    method Append(x: seq<Octet>, nrec: nat, reclen: nat, memory: bool) returns (ok: bool)
      requires Valid() && reclen > 0 && (nrec * reclen <= SIZE_MAX ==> |x| == nrec * reclen)
      modifies this
      ensures Valid() && (ok ==> Contents() == old(Contents()) + x && !refused)
      ensures ok ==> exempt == (old(exempt) || Wraps(old(alloc), size)) && changed == old(changed) + |x|
      ensures ok ==> moved == old(moved) + MoveCost(old(alloc), alloc)
      ensures !ok ==> unchanged(this)
      ensures ok <==> nrec * reclen <= SIZE_MAX - old(size) && (memory || !NeedsRealloc(old(alloc), old(size) + nrec * reclen))
    {
      DivisionTest(nrec, reclen);
      var bufpos := size;
      if nrec > SIZE_MAX / reclen || nrec * reclen > SIZE_MAX - size {
        return false;
      }
      var nsize := size + nrec * reclen;
      ok := Resize(nsize, memory);
      if !ok {
        return;
      }
      if nrec > 0 {
        buf := buf[..bufpos] + x + buf[bufpos + |x|..];
      }
      assert buf[..bufpos] == old(buf)[..bufpos];
    }

    /** elasticarray_shrink(EA, nrec, reclen): never fails, but may keep the old allocation. */
    method Shrink(nrec: nat, reclen: nat, memory: bool)
      requires Valid() && reclen > 0
      modifies this
      ensures Valid() && Contents() == old(Contents())[..if nrec * reclen > old(size) then 0 else old(size) - nrec * reclen]
      ensures exempt == old(exempt) && changed == old(changed) + (old(size) - size)
      ensures refused <==> !memory && NeedsRealloc(old(alloc), size)
      ensures moved == old(moved) + MoveCost(old(alloc), alloc)
    {
      var nsize := Remaining(size, nrec, reclen);
      ShrinkTo(nsize, memory);
    }

    /** Resize; and if reallocation fails, continue using the old buffer. */
    method ShrinkTo(nsize: nat, memory: bool)
      requires Valid() && nsize <= size
      modifies this
      ensures Valid() && Contents() == old(Contents())[..nsize]
      ensures exempt == old(exempt) && changed == old(changed) + (old(size) - size)
      ensures refused <==> !memory && NeedsRealloc(old(alloc), size)
      ensures moved == old(moved) + MoveCost(old(alloc), alloc)
    {
      var ok := Resize(nsize, memory);
      if !ok {
        StayPaid(size, alloc, nsize);
        changed := changed + Distance(size, nsize);
        size, refused := nsize, true;
      }
      assert buf[..nsize] == old(buf)[..nsize];
    }

    /** elasticarray_truncate(EA): no spare space is left, at the price of a move. */
    method Truncate(memory: bool) returns (ok: bool)
      requires Valid()
      modifies this
      ensures Valid() && Contents() == old(Contents()) && (ok ==> alloc == size) && (!ok ==> unchanged(this))
      ensures ok <==> memory || old(size) == 0 || old(alloc) == old(size)
      ensures moved == old(moved) + MoveCost(old(alloc), alloc)
    {
      ok := true;
      if size == 0 {
        buf, alloc := [], 0;
      } else if alloc > size {
        var nbuf;
        ok, nbuf := Realloc(buf, size, memory);
        if !ok {
          return;
        }
        moved := moved + size;
        buf, alloc := nbuf, size;
      }
      refused := false;
      exempt := true;
    }

    /** elasticarray_export(EA, buf, nrec, reclen): the buffer holds exactly the data. */
    method Export(reclen: nat, memory: bool) returns (ok: bool, data: seq<Octet>, nrec: nat)
      requires Valid() && reclen > 0
      modifies this
      ensures ok <==> memory || old(size) == 0 || old(alloc) == old(size)
      ensures ok ==> data == old(Contents()) && nrec * reclen <= |data| < (nrec + 1) * reclen
      ensures !ok ==> unchanged(this)
    {
      data, nrec := [], 0;
      ok := Truncate(memory);
      if ok {
        assert buf[..size] == buf;
        data := buf;
        nrec := GetSize(reclen);
      }
    }
  }
}
