/**
 * A singly linked list of `Thing`s (myLinked_list/linkedlist.h and
 * myLinked_list/linkedlist.cpp).
 *
 * The list owns a chain of `Link` objects whose `next` fields are updated in
 * place.  Its abstract state is two ghost sequences: `Nodes`, the links in
 * chain order, and `Contents`, the values they hold.  `Valid()` ties them to
 * the heap: the chain starts at `head`, each link points at the following
 * one and the last one points at null.  That no link appears twice follows
 * from this (`LinksDistinct`).
 */
module LinkedLists {

  /** The element type: a wrapper around one integer. */
  datatype Thing = Thing(i: int)

  /** `Thing()`: the default-constructed element holds the sentinel -1. */
  function DefaultThing(): (t: Thing)
    ensures t.i == -1
  {
    Thing(-1)
  }

  /** `Thing::operator==`: compares the payloads only, which for a one-field
      value type is exactly value equality. */
  predicate ThingEquals(a: Thing, b: Thing)
    ensures ThingEquals(a, b) <==> a == b
  {
    a.i == b.i
  }

  /** No object occurs twice in `s`. */
  ghost predicate Distinct(s: seq<Link>)
  {
    forall j, k :: 0 <= j < k < |s| ==> s[j] != s[k]
  }

  /** The outcome of a bounds-checked access: the value, or the
      `std::out_of_range` exception. */
  datatype Result<T> = Ok(value: T) | OutOfRange

  /** Reversal of a sequence, the specification of `LinkedList::reverse`. */
  function Reversed<T>(s: seq<T>): seq<T>
  {
    if s == [] then [] else [s[|s| - 1]] + Reversed(s[..|s| - 1])
  }

  lemma {:induction false} ReversedIndex<T>(s: seq<T>)
    ensures |Reversed(s)| == |s|
    ensures forall k :: 0 <= k < |s| ==> Reversed(s)[k] == s[|s| - 1 - k]
  {
    if s != [] {
      ReversedIndex(s[..|s| - 1]);
    }
  }

  /** Reversing twice gives back the original order. */
  lemma ReversedInvolution<T>(s: seq<T>)
    ensures Reversed(Reversed(s)) == s
  {
    ReversedIndex(s);
    ReversedIndex(Reversed(s));
  }

  /** Reversal keeps every element and its multiplicity. */
  lemma {:induction false} ReversedMultiset<T>(s: seq<T>)
    ensures multiset(Reversed(s)) == multiset(s)
  {
    if s != [] {
      ReversedMultiset(s[..|s| - 1]);
      assert s == s[..|s| - 1] + [s[|s| - 1]];
    }
  }

  /** A node of the chain. */
  class Link {
    var next: Link?
    var value: Thing

    /** `Link()`: no successor, default value. */
    constructor ()
      ensures next == null && value == DefaultThing()
    {
      next := null;
      value := DefaultThing();
    }

    /** `Link(Thing v)`: no successor, value `v`. */
    constructor FromThing(v: Thing)
      ensures next == null && value == v
    {
      next := null;
      value := v;
    }
  }

  /** A forward position in a chain; `ptr == null` is one past the end. */
  class LinkedListIterator {
    var ptr: Link?

    constructor ()
      ensures ptr == null
    {
      ptr := null;
    }

    /** `operator*`: the value of the link the iterator points at. */
    method Deref() returns (t: Thing)
      requires ptr != null
      ensures t == ptr.value
    {
      t := ptr.value;
    }

    /** `operator++`: step to the successor link. */
    method Increment()
      requires ptr != null
      modifies this
      ensures ptr == old(ptr.next)
    {
      ptr := ptr.next;
    }

    /** `operator!=`: two positions differ when they point at different links. */
    predicate NotEqual(other: LinkedListIterator)
      reads this, other
      ensures other == this ==> !NotEqual(other)
      ensures ptr == null && other.ptr == null ==> !NotEqual(other)
    {
      ptr != other.ptr
    }
  }

  class LinkedList {
    var head: Link?

    /** The links reachable from `head`, in chain order. */
    ghost var Nodes: seq<Link>
    /** The values held by those links. */
    ghost var Contents: seq<Thing>

    ghost predicate Valid()
      reads this, Nodes
    {
      && |Nodes| == |Contents|
      && (head == null <==> Nodes == [])
      && (Nodes != [] ==> head == Nodes[0] && Nodes[|Nodes| - 1].next == null)
      && (forall k :: 0 <= k < |Nodes| - 1 ==> Nodes[k].next == Nodes[k + 1])
      && (forall k :: 0 <= k < |Nodes| ==> Nodes[k].value == Contents[k])
    }

    /** In a valid chain the successor of link `k` is link `k + 1`, or null
        for the last link. */
    lemma ChainStep(k: int)
      requires Valid() && 0 <= k < |Nodes|
      ensures Nodes[k].next == if k < |Nodes| - 1 then Nodes[k + 1] else null
    {
    }

    /** A valid chain never revisits a link: if links `j < k` were the same
        object, their successors would be too, up to the last link, whose
        successor is null while link `j`'s is not. */
    lemma {:induction false} NoRepeatFrom(j: int, k: int)
      requires Valid() && 0 <= j < k < |Nodes|
      ensures Nodes[j] != Nodes[k]
      decreases |Nodes| - k
    {
      ChainStep(j);
      ChainStep(k);
      if k < |Nodes| - 1 {
        NoRepeatFrom(j + 1, k + 1);
      }
    }

    /** The chain of a valid list is acyclic: its links are pairwise distinct. */
    lemma LinksDistinct()
      requires Valid()
      ensures Distinct(Nodes)
    {
      forall j, k | 0 <= j < k < |Nodes|
        ensures Nodes[j] != Nodes[k]
      {
        NoRepeatFrom(j, k);
      }
    }

    /** A new list is empty: `head` is null. */
    constructor ()
      ensures Valid()
      ensures head == null && Nodes == [] && Contents == []
    {
      head := null;
      Nodes := [];
      Contents := [];
    }

    /** `push_front`: a fresh link holding `t` becomes the head and points at
        the previous head. */
    method PushFront(t: Thing)
      requires Valid()
      modifies this
      ensures Valid()
      ensures Contents == [t] + old(Contents)
      ensures fresh(head) && head.next == old(head) && head.value == t
      ensures Nodes == [head] + old(Nodes)
    {
      var temp := new Link.FromThing(t);
      temp.next := head;
      head := temp;
      Nodes := [temp] + Nodes;
      Contents := [t] + Contents;
    }

    /** `pop_front`: the head moves to the second link; the old head leaves
        the chain. */
    method PopFront()
      requires Valid() && Contents != []
      modifies this
      ensures Valid()
      ensures Contents == old(Contents)[1..]
      ensures Nodes == old(Nodes)[1..]
      ensures head == old(head.next) && old(head) !in Nodes
    {
      ChainStep(0);
      LinksDistinct();
      head := head.next;
      Nodes := Nodes[1..];
      Contents := Contents[1..];
    }

    /** `push_back`: a fresh link holding `t` is attached after the last link
        (or becomes the head of an empty list); no other link changes. */
    method PushBack(t: Thing)
      requires Valid()
      modifies this, Nodes
      ensures Valid()
      ensures Contents == old(Contents) + [t]
      ensures |Nodes| == |old(Nodes)| + 1 && fresh(Nodes[|old(Nodes)|])
      ensures Nodes == old(Nodes) + [Nodes[|old(Nodes)|]]
      ensures old(head) != null ==> head == old(head)
    {
      var curr := head;
      var temp := new Link.FromThing(t);
      if head == null {
        head := temp;
      } else {
        ghost var k := 0;
        while curr.next != null
          invariant 0 <= k < |Nodes| && curr == Nodes[k]
          decreases |Nodes| - k
        {
          curr := curr.next;
          k := k + 1;
        }
        ChainStep(k);
        curr.next := temp;
      }
      Nodes := Nodes + [temp];
      Contents := Contents + [t];
    }

    /** `pop_back`: the second-to-last link's `next` becomes null (or `head`
        becomes null when only one link is left). */
    method PopBack()
      requires Valid() && Contents != []
      modifies this, Nodes
      ensures Valid()
      ensures Contents == old(Contents)[..|old(Contents)| - 1]
      ensures Nodes == old(Nodes)[..|old(Nodes)| - 1]
      ensures |old(Nodes)| == 1 ==> head == null
      ensures |old(Nodes)| > 1 ==> head == old(head) && old(Nodes)[|old(Nodes)| - 2].next == null
    {
      LinksDistinct();
      var curr := head;
      if curr.next == null {
        ChainStep(0);
        head := null;
      } else {
        ghost var k := 0;
        assert 0 < |Nodes| - 1;
        while curr.next.next != null
          invariant 0 <= k < |Nodes| - 1 && curr == Nodes[k] && curr.next == Nodes[k + 1]
          decreases |Nodes| - k
        {
          curr := curr.next;
          k := k + 1;
        }
        ChainStep(k + 1);
        curr.next := null;
      }
      Nodes := Nodes[..|Nodes| - 1];
      Contents := Contents[..|Contents| - 1];
    }

    /** `size`: the number of links reachable from `head`. */
    method Size() returns (n: nat)
      requires Valid()
      ensures n == |Contents|
    {
      if head == null {
        return 0;
      }
      var counter := 0;
      var curr := head;
      while curr.next != null
        invariant counter < |Nodes| && curr == Nodes[counter]
        decreases |Nodes| - counter
      {
        curr := curr.next;
        counter := counter + 1;
      }
      ChainStep(counter);
      counter := counter + 1;
      return counter;
    }

    /** `front`: the first value. */
    method Front() returns (t: Thing)
      requires Valid() && Contents != []
      ensures t == Contents[0]
    {
      t := head.value;
    }

    /** `back`: the last value, found by walking to the link whose `next` is
        null. */
    method Back() returns (t: Thing)
      requires Valid() && Contents != []
      ensures t == Contents[|Contents| - 1]
    {
      var curr := head;
      ghost var k := 0;
      while curr.next != null
        invariant 0 <= k < |Nodes| && curr == Nodes[k]
        decreases |Nodes| - k
      {
        curr := curr.next;
        k := k + 1;
      }
      ChainStep(k);
      t := curr.value;
    }

    /** `get_link`: the `i`-th link, or out-of-range when `i` is negative or
        not below the size.  The list is not changed. */
    method GetLink(i: int) returns (r: Result<Link>)
      requires Valid()
      ensures r.OutOfRange? <==> i < 0 || i >= |Contents|
      ensures r.Ok? ==> 0 <= i < |Nodes| && r.value == Nodes[i]
    {
      var n := Size();
      if GetLinkRejects(i, n) {
        return OutOfRange;
      }
      var curr := head;
      var j := 0;
      while j < i
        invariant 0 <= j <= i && curr == Nodes[j]
      {
        curr := curr.next;
        j := j + 1;
      }
      return Ok(curr);
    }

    /** `at`: the `i`-th value, or out-of-range as for `GetLink`. */
    method At(i: int) returns (r: Result<Thing>)
      requires Valid()
      ensures r.OutOfRange? <==> i < 0 || i >= |Contents|
      ensures r.Ok? ==> 0 <= i < |Contents| && r.value == Contents[i]
    {
      var link := GetLink(i);
      if link.OutOfRange? {
        return OutOfRange;
      }
      return Ok(link.value.value);
    }

    /** `begin`: an iterator at the head link. */
    method Begin() returns (it: LinkedListIterator)
      ensures fresh(it) && it.ptr == head
    {
      it := new LinkedListIterator();
      it.ptr := head;
    }

    /** `end`: the iterator that points at no link. */
    method End() returns (it: LinkedListIterator)
      ensures fresh(it) && it.ptr == null
    {
      it := new LinkedListIterator();
    }

    /** A range-for over the list: advance an iterator from `Begin()` until it
        is no longer `NotEqual` to `End()`, dereferencing on the way.  The
        walk visits every link once, in order, and meets `End()` after
        exactly as many increments as the list has links. */
    method Walk() returns (links: seq<Link>, values: seq<Thing>, steps: nat)
      requires Valid()
      ensures links == Nodes && values == Contents && steps == |Contents|
    {
      var it := Begin();
      var last := End();
      links, values, steps := [], [], 0;
      while it.NotEqual(last)
        invariant steps <= |Nodes|
        invariant links == Nodes[..steps] && values == Contents[..steps]
        invariant it.ptr == (if steps < |Nodes| then Nodes[steps] else null)
        invariant last.ptr == null && it != last
        decreases |Nodes| - steps
      {
        var t := it.Deref();
        links, values := links + [it.ptr], values + [t];
        it.Increment();
        steps := steps + 1;
      }
    }

    /** `copy`: a new list with the same values, built by `push_back` from
        fresh links only; the source list is unchanged. */
    method Copy() returns (c: LinkedList)
      requires Valid()
      ensures Valid() && c.Valid() && fresh(c)
      ensures c.Contents == Contents
      ensures |c.Nodes| == |Nodes| && forall j :: 0 <= j < |c.Nodes| ==> fresh(c.Nodes[j])
    {
      c := new LinkedList();
      var i := 0;
      while true
        invariant Valid() && c.Valid() && fresh(c)
        invariant i <= |Contents| && c.Contents == Contents[..i]
        invariant forall j :: 0 <= j < |c.Nodes| ==> fresh(c.Nodes[j])
        decreases |Contents| - i
      {
        var n := Size();
        if i >= n {
          break;
        }
        var t := At(i);
        assert Contents[..i + 1] == Contents[..i] + [t.value];
        c.PushBack(t.value);
        i := i + 1;
      }
    }

    /** `reverse`: relinks the chain back to front.  No link is allocated and
        no value moves: each link's `next` is redirected to its former
        predecessor, the former first link gets `next == null`, and the former
        last link becomes the head. */
    method Reverse()
      requires Valid() && Contents != []
      modifies this, Nodes
      ensures Valid()
      ensures Contents == Reversed(old(Contents))
      ensures Nodes == Reversed(old(Nodes))
      ensures forall k :: 0 < k < |old(Nodes)| ==> old(Nodes)[k].next == old(Nodes)[k - 1]
      ensures old(Nodes)[0].next == null
      ensures head == old(Nodes)[|old(Nodes)| - 1]
    {
      LinksDistinct();
      ghost var nodes := Nodes;
      ghost var n := |nodes|;
      var curr := head;
      var prev: Link? := null;
      var temp: Link? := null;
      ghost var k := 0;
      while curr.next != null
        invariant Nodes == nodes && Contents == old(Contents)
        invariant 0 <= k < n && curr == nodes[k]
        invariant curr.next == if k < n - 1 then nodes[k + 1] else null
        invariant prev == if k == 0 then null else nodes[k - 1]
        invariant forall j :: 0 < j < k ==> nodes[j].next == nodes[j - 1]
        invariant k > 0 ==> nodes[0].next == null
        invariant forall j :: k <= j < n - 1 ==> nodes[j].next == nodes[j + 1]
        invariant nodes[n - 1].next == null
        invariant forall j :: 0 <= j < n ==> nodes[j].value == Contents[j]
        decreases n - k
      {
        temp := curr.next;
        curr.next := prev;
        prev := curr;
        curr := temp;
        k := k + 1;
      }
      curr.next := prev;
      head := curr;
      Nodes := Reversed(nodes);
      Contents := Reversed(Contents);
      ReversedChainIsValid(nodes, old(Contents));
    }

    /** A chain whose links each point back at their predecessor in `nodes`,
        headed by the last of them, is the valid list of `Reversed(nodes)`. */
    lemma ReversedChainIsValid(nodes: seq<Link>, contents: seq<Thing>)
      requires |nodes| == |contents| > 0
      requires Distinct(nodes)
      requires forall j :: 0 <= j < |nodes| ==> nodes[j].value == contents[j]
      requires forall j :: 0 < j < |nodes| ==> nodes[j].next == nodes[j - 1]
      requires nodes[0].next == null && head == nodes[|nodes| - 1]
      requires Nodes == Reversed(nodes) && Contents == Reversed(contents)
      ensures Valid()
    {
      ReversedIndex(nodes);
      ReversedIndex(contents);
    }

    /** `~LinkedList`: pops from the back until `head` is null. */
    method Clear()
      requires Valid()
      modifies this, Nodes
      ensures Valid()
      ensures head == null && Nodes == [] && Contents == []
    {
      ghost var all := Nodes;
      while head != null
        invariant Valid()
        invariant |Nodes| <= |all| && Nodes == all[..|Nodes|]
        decreases |Nodes|
      {
        PopBack();
      }
    }
  }

  /** The bounds test of `get_link` as intended: reject a negative index or
      one that is not below the size. */
  predicate GetLinkRejects(i: int, size: nat)
    ensures GetLinkRejects(i, size) <==> !(0 <= i < size)
  {
    i > size - 1 || i < 0
  }

  /** `size_t` is 64 bits wide. */
  const SizeTModulus: int := 0x1_0000_0000_0000_0000

  /** The bounds test of `get_link` as written: `size() - 1` is computed in
      `size_t` and `i` is converted to `size_t` for the first comparison. */
  predicate GetLinkRejectsAsWritten(i: int, size: nat)
    ensures i < 0 ==> GetLinkRejectsAsWritten(i, size)
    ensures 0 <= i < SizeTModulus && 0 < size <= SizeTModulus ==>
      (GetLinkRejectsAsWritten(i, size) <==> size <= i)
  {
    (i % SizeTModulus) > ((size - 1) % SizeTModulus) || i < 0
  }

  /** On a non-empty list the test as written agrees with the intended one,
      but on an empty list it lets every non-negative index through, so
      `get_link(0)` returns null instead of throwing. */
  lemma GetLinkGuardWrapsOnEmpty(i: int, size: nat)
    requires -0x8000_0000 <= i < 0x8000_0000 && size < SizeTModulus
    ensures size > 0 ==> (GetLinkRejectsAsWritten(i, size) <==> GetLinkRejects(i, size))
    ensures size == 0 && i >= 0 ==> !GetLinkRejectsAsWritten(i, size) && GetLinkRejects(i, size)
  {
  }
}
