/**
 * The growable array `MyVector` of `myVector/myvector.cpp`.
 *
 * The object keeps a heap buffer `data` of `n_allocated` slots, of which
 * the first `n_items` hold the vector's items.  The constructor's null
 * buffer is modelled as an array of length 0.  The items are plain integers.
 */
module Vectors {

  datatype Result<T> = Ok(value: T) | OutOfRange

  /** A pointer into a buffer: the buffer and an offset in slots. */
  datatype Pointer = Pointer(buffer: array<int>, offset: nat)

  /** `n` is a power of two. */
  predicate IsPowerOfTwo(n: nat)
    decreases n
  {
    n == 1 || (n > 1 && n % 2 == 0 && IsPowerOfTwo(n / 2))
  }

  // ---------------------------------------------------------------------
  // capacity policy
  // ---------------------------------------------------------------------

  /** The buffer length after `push_back` on a vector of `n` items with
      `cap` slots: an empty buffer gets one slot, and a buffer too small
      for the new item is doubled. */
  function GrownCapacity(n: nat, cap: nat): (c: nat)
    ensures 0 < c
    ensures cap > 0 ==> c == cap || c == 2 * cap
  {
    var c := if cap == 0 then 1 else cap;
    if n + 1 > c then 2 * c else c
  }

  /** The buffer length after `pop_back` leaves `n` items in `cap` slots:
      halved when fewer than a quarter of the slots are in use. */
  function ShrunkCapacity(n: nat, cap: nat): (c: nat)
    ensures c == cap || c == cap / 2
    ensures n <= cap ==> n <= c
  {
    if 4 * n < cap then cap / 2 else cap
  }

  /** Growth on a vector that fits its buffer: one slot for an empty
      buffer, a doubling exactly when the buffer is full, and room for
      the new item in every case. */
  lemma GrowthPolicy(n: nat, cap: nat)
    requires n <= cap
    ensures cap == 0 ==> GrownCapacity(n, cap) == 1
    ensures cap > 0 && n == cap ==> GrownCapacity(n, cap) == 2 * cap
    ensures cap > 0 && n < cap ==> GrownCapacity(n, cap) == cap
    ensures n + 1 <= GrownCapacity(n, cap)
  {
  }

  /** Shrinking halves the buffer exactly when under a quarter of it is in
      use (integer halving: one slot becomes none), and the items always
      still fit. */
  lemma ShrinkPolicy(n: nat, cap: nat)
    requires n <= cap
    ensures 4 * n < cap ==> ShrunkCapacity(n, cap) == cap / 2
    ensures 4 * n >= cap ==> ShrunkCapacity(n, cap) == cap
    ensures n <= ShrunkCapacity(n, cap)
    ensures cap == 1 && n == 0 ==> ShrunkCapacity(n, cap) == 0
  {
  }

  /** Starting from the empty buffer, `push_back` and `pop_back` keep the
      buffer length zero or a power of two. */
  lemma {:induction false} CapacityStaysPowerOfTwo(n: nat, cap: nat)
    requires cap == 0 || IsPowerOfTwo(cap)
    ensures IsPowerOfTwo(GrownCapacity(n, cap))
    ensures ShrunkCapacity(n, cap) == 0 || IsPowerOfTwo(ShrunkCapacity(n, cap))
  {
    if cap > 0 {
      assert IsPowerOfTwo(2 * cap) by {
        assert (2 * cap) / 2 == cap;
      }
      if cap > 1 {
        assert IsPowerOfTwo(cap / 2);
      }
    }
  }

  // ---------------------------------------------------------------------
  // the copy loop of push_back
  // ---------------------------------------------------------------------

  /** What reading slot `j` of a buffer yields. */
  datatype Slot = Value(v: int) | OutOfBuffer

  function ReadSlot(buffer: seq<int>, j: nat): Slot
  {
    if j < |buffer| then Value(buffer[j]) else OutOfBuffer
  }

  /** The reads of the copy loop in `push_back` as written, on a buffer
      holding `n` items: the loop runs up to the incremented count `n + 1`. */
  function GrowCopyAsWritten(buffer: seq<int>, n: nat): (slots: seq<Slot>)
    ensures |slots| == n + 1
    ensures forall j :: 0 <= j < |slots| ==> (slots[j] == OutOfBuffer <==> |buffer| <= j)
  {
    seq(n + 1, j requires 0 <= j < n + 1 => ReadSlot(buffer, j))
  }

  /** The reads the copy needs: the `n` items already stored. */
  function GrowCopy(buffer: seq<int>, n: nat): seq<Slot>
  {
    seq(n, j requires 0 <= j < n => ReadSlot(buffer, j))
  }

  /** The buffer grows only when it is full, so the loop as written reads one
      slot past its end; copying the stored items reads exactly those items. */
  lemma GrowCopyOverrun(buffer: seq<int>, n: nat)
    requires 0 < |buffer| == n
    ensures GrowCopyAsWritten(buffer, n)[n] == OutOfBuffer
    ensures |GrowCopy(buffer, n)| == n
    ensures forall j :: 0 <= j < n ==> GrowCopy(buffer, n)[j] == Value(buffer[j])
  {
  }

  // ---------------------------------------------------------------------
  // the bounds check of at
  // ---------------------------------------------------------------------

  /** The check of `at` as written: it rejects indices greater than the size. */
  predicate AtRejectsAsWritten(i: nat, n: nat)
    ensures AtRejectsAsWritten(i, n) ==> n < i
    ensures i < n ==> !AtRejectsAsWritten(i, n)
  {
    i > n
  }

  /** The intended check: it rejects every index that is not an item. */
  predicate AtRejects(i: nat, n: nat)
  {
    i >= n
  }

  /** The check as written lets exactly one bad index through: the size. */
  lemma AtAcceptsSize(i: nat, n: nat)
    ensures AtRejectsAsWritten(i, n) ==> AtRejects(i, n)
    ensures AtRejects(i, n) && !AtRejectsAsWritten(i, n) <==> i == n
    ensures !AtRejectsAsWritten(n, n) && AtRejects(n, n)
  {
  }

  // ---------------------------------------------------------------------
  // class MyVector
  // ---------------------------------------------------------------------

  class MyVector {
    var data: array<int>
    var nItems: nat
    var nAllocated: nat

    /** The buffer is `n_allocated` slots long and holds the items. */
    ghost predicate Valid()
      reads this
    {
      data.Length == nAllocated && nItems <= nAllocated
    }

    /** The items: the first `n_items` slots of the buffer. */
    ghost function Items(): seq<int>
      reads this, data
      requires Valid()
    {
      data[..nItems]
    }

    /** A vector of size 0 without a buffer. */
    constructor ()
      ensures Valid() && Items() == []
      ensures nItems == 0 && nAllocated == 0
      ensures fresh(data)
    {
      data := new int[0];
      nItems := 0;
      nAllocated := 0;
    }

    /** `size()`. */
    method Size() returns (n: nat)
      requires Valid()
      ensures n == |Items()|
    {
      n := nItems;
    }

    /** `allocated_length()`. */
    method AllocatedLength() returns (n: nat)
      requires Valid()
      ensures n == data.Length
    {
      n := nAllocated;
    }

    /** `push_back(t)`: append `t`, growing the buffer as `GrownCapacity`
        says; the grow step copies the items already stored. */
    method PushBack(t: int)
      requires Valid()
      modifies this, data
      ensures Valid()
      ensures Items() == old(Items()) + [t]
      ensures nAllocated == GrownCapacity(old(nItems), old(nAllocated))
      ensures data == old(data) || fresh(data)
    {
      ghost var items := Items();
      nItems := nItems + 1;
      if nAllocated == 0 {
        data := new int[1];
        nAllocated := 1;
      }
      if nItems > nAllocated {
        nAllocated := nAllocated * 2;
        var temp := new int[nAllocated];
        var i := 0;
        while i < nItems - 1
          modifies temp
          invariant 0 <= i <= nItems - 1 <= data.Length
          invariant temp[..i] == data[..i]
        {
          temp[i] := data[i];
          i := i + 1;
        }
        data := temp;
      }
      data[nItems - 1] := t;
      assert data[..nItems] == items + [t];
    }

    /** `pop_back()` on a non-empty vector: drop the last item, halving the
        buffer as `ShrunkCapacity` says. */
    method PopBack()
      requires Valid() && nItems > 0
      modifies this
      ensures Valid()
      ensures Items() == old(Items())[..old(nItems) - 1]
      ensures nAllocated == ShrunkCapacity(old(nItems) - 1, old(nAllocated))
      ensures data == old(data) || fresh(data)
    {
      ghost var items := Items();
      nItems := nItems - 1;
      if 4 * nItems < nAllocated {
        var temp := new int[nAllocated / 2];
        var i := 0;
        while i < nItems
          modifies temp
          invariant 0 <= i <= nItems <= temp.Length
          invariant temp[..i] == data[..i]
        {
          temp[i] := data[i];
          i := i + 1;
        }
        nAllocated := nAllocated / 2;
        data := temp;
      }
      assert data[..nItems] == items[..nItems];
    }

    /** `front()`: never called on an empty vector. */
    method Front() returns (t: int)
      requires Valid() && nItems > 0
      ensures t == Items()[0]
    {
      t := data[0];
    }

    /** `back()`: never called on an empty vector. */
    method Back() returns (t: int)
      requires Valid() && nItems > 0
      ensures t == Items()[|Items()| - 1]
    {
      t := data[nItems - 1];
    }

    /** `begin()`: the start of the buffer, where the first item is. */
    method Begin() returns (p: Pointer)
      requires Valid()
      ensures p.buffer == data && p.offset == 0
      ensures |Items()| > 0 ==> p.buffer[p.offset] == Items()[0]
    {
      p := Pointer(data, 0);
    }

    /** `end()`: one past the last item; the slots before it are the items. */
    method End() returns (p: Pointer)
      requires Valid()
      ensures p.buffer == data && p.offset == |Items()|
      ensures p.offset <= p.buffer.Length && p.buffer[..p.offset] == Items()
    {
      p := Pointer(data, nItems);
    }

    /** `operator[]`: no check beyond staying in the buffer; within the
        items it yields item `i`. */
    method Get(i: nat) returns (t: int)
      requires Valid() && i < nAllocated
      ensures i < |Items()| ==> t == Items()[i]
      ensures t == data[i]
    {
      t := data[i];
    }

    /** `at(i)`, with the check rejecting every index that is not an item
        (the check as written is `AtRejectsAsWritten`). */
    method At(i: nat) returns (r: Result<int>)
      requires Valid()
      ensures r.OutOfRange? <==> i >= |Items()|
      ensures r.Ok? ==> r.value == Items()[i]
    {
      if AtRejects(i, nItems) {
        return OutOfRange;
      }
      r := Ok(data[i]);
    }

    /** `reallocate(new_size)`: a fresh buffer of `new_size` slots holding the
        same items; the caller keeps `new_size` at least the size. */
    method Reallocate(newSize: nat)
      requires Valid() && nItems <= newSize
      modifies this
      ensures Valid() && fresh(data)
      ensures Items() == old(Items())
      ensures nItems == old(nItems) && nAllocated == newSize
    {
      var temp := new int[newSize];
      var i := 0;
      while i < nItems
        modifies temp
        invariant 0 <= i <= nItems <= temp.Length
        invariant temp[..i] == data[..i]
      {
        temp[i] := data[i];
        i := i + 1;
      }
      data := temp;
      nAllocated := newSize;
    }
  }
}
