# Abstract data types: linked list, binary search tree, growable array

A Dafny model of the three teaching containers of the repository
"Creating-Abstract-Data-Types", with proofs of what each operation does.

- `linked_list.dfy`, module `LinkedLists`: the singly linked list of
  `myLinked_list/linkedlist.h` and `myLinked_list/linkedlist.cpp`.
  - `Link` and `LinkedListIterator` are classes whose `next`, `value` and
    `ptr` fields are updated in place.
  - `LinkedList` holds `head` plus two ghost sequences: `Nodes` (the links in
    chain order) and `Contents` (their values). `Valid()` ties them to the
    heap: the chain starts at `head`, each link points at the next, and the
    last points at null.
  - Every operation is a method proved against those sequences, including
    the cursor loops of `push_back`, `pop_back`, `size`, `back` and
    `get_link`, the `size()`/`at()` loop of `copy`, and the three-pointer
    loop of `reverse`.
  - Acyclicity is a lemma (`LinksDistinct`), not an assumption.
- `bst.dfy`, module `Bst`: the unbalanced search tree of `myBST/bst.cpp`.
  - Subtrees are the inductive value `Subtree`, so `insert`, `remove` and
    the three traversals are functions.
  - `minValueLeaf`, `min`, `max` and `contains` are methods with the
    source's cursor loops.
  - The ordering invariant is `IsBst`: left keys are smaller than the node,
    right keys are at least the node; equal keys go right.
  - The class `Tree` holds the root and the public wrappers.
- `vector.dfy`, module `Vectors`: `MyVector` of `myVector/myvector.cpp`.
  - It is a class over an `array<int>` buffer with `nItems` and
    `nAllocated`. Its items are the first `nItems` slots.
  - The growth and shrink policies are the functions `GrownCapacity` and
    `ShrunkCapacity`, with lemmas about them.

Inputs the source does not accept are handled in one of two ways:

- `get_link` and `at` check their index and throw `std::out_of_range`. Their
  models return a `Result` whose `OutOfRange` case is the exception. Both
  checks as written let bad indices through (see "## Findings"):
  - On an empty list, the guard of `get_link` passes every `i >= 0`.
    `get_link(0)` returns `nullptr`, and a larger `i` dereferences the null
    `head` in the loop at linkedlist.cpp:170-172.
  - The vector's `at` passes `i == size()`.
- The other operations check nothing, and the model gives each a `requires`
  naming the input it must not get:
  - On an empty list, `pop_front`, `pop_back`, `front`, `back` and `reverse`
    dereference the null `head`.
  - On an empty tree, `min` and `max` dereference the null root.
  - The vector's `front` and `back` are documented as never called on an
    empty vector (myvector.cpp:99, 111). On an empty vector, `front` reads:
    - a stale slot, when the buffer still has slots;
    - past a zero-length buffer, after a full shrink;
    - through null, before any allocation.

    `back` reads before the buffer, because `n_items - 1` wraps.
  - The vector's `pop_back` on an empty vector wraps the unsigned `n_items`
    (myvector.cpp:81).

## Model

| member | source | states |
|---|---|---|
| LinkedLists.DefaultThing | myLinked_list/linkedlist.h:17 | a default `Thing` holds -1 |
| LinkedLists.ThingEquals | myLinked_list/linkedlist.h:21-23 | two `Thing`s are `==` exactly when they are the same value (the payloads agree) |
| LinkedLists.ReversedIndex | myLinked_list/linkedlist.cpp:241-255 | the specification of `reverse`: same length, position `k` holds the element from position `n-1-k` |
| LinkedLists.ReversedInvolution | myLinked_list/linkedlist.cpp:241-255 | reversing twice restores the original order |
| LinkedLists.ReversedMultiset | myLinked_list/linkedlist.cpp:241-255 | reversal keeps every element with its multiplicity, so `reverse` keeps the set of links |
| LinkedLists.Link.constructor | myLinked_list/linkedlist.h:31-34 | a new link has null `next` and the default value |
| LinkedLists.Link.FromThing | myLinked_list/linkedlist.h:35 | `Link(v)` has null `next` and value `v` |
| LinkedLists.LinkedListIterator.constructor | myLinked_list/linkedlist.h:45 | a new iterator points at no link |
| LinkedLists.LinkedListIterator.Deref | myLinked_list/linkedlist.cpp:7-10 | `*it` is the value of the link it points at |
| LinkedLists.LinkedListIterator.Increment | myLinked_list/linkedlist.cpp:17-21 | `++it` moves to the successor of the link it pointed at |
| LinkedLists.LinkedListIterator.NotEqual | myLinked_list/linkedlist.h:50-52 | `it != other` is false for an iterator and itself, and for two iterators at null (`end() != end()` is false) |
| LinkedLists.LinkedList.NoRepeatFrom | myLinked_list/linkedlist.cpp:125-128 | in a valid chain, links `j < k` are different objects, because the chain ends in null |
| LinkedLists.LinkedList.LinksDistinct | myLinked_list/linkedlist.cpp:125-128 | the chain from `head` is acyclic: no link occurs twice, so every walk to null terminates |
| LinkedLists.LinkedList.constructor | myLinked_list/linkedlist.cpp:28-32 | a new list has null `head` and is the empty sequence |
| LinkedLists.LinkedList.PushFront | myLinked_list/linkedlist.cpp:51-56 | values become `[t] + old`; the new head is a fresh link holding `t` whose `next` is the old head |
| LinkedLists.LinkedList.PopFront | myLinked_list/linkedlist.cpp:62-67 | on a non-empty list, values become `old[1..]`; `head` becomes the old second link; the old head leaves the chain |
| LinkedLists.LinkedList.PushBack | myLinked_list/linkedlist.cpp:74-87 | values become `old + [t]`; one fresh link is appended after all old links; `head` is unchanged on a non-empty list |
| LinkedLists.LinkedList.PopBack | myLinked_list/linkedlist.cpp:93-112 | on a non-empty list, values and links lose the last element; on one element `head` becomes null, otherwise `head` is kept and the old second-to-last link gets null `next` |
| LinkedLists.LinkedList.Size | myLinked_list/linkedlist.cpp:118-131 | the count of links reachable from `head` is the length of the value sequence (0 for null `head`) |
| LinkedLists.LinkedList.Front | myLinked_list/linkedlist.cpp:137-140 | on a non-empty list, the first value |
| LinkedLists.LinkedList.Back | myLinked_list/linkedlist.cpp:146-156 | on a non-empty list, the last value, reached by walking to the link with null `next` |
| LinkedLists.LinkedList.GetLink | myLinked_list/linkedlist.cpp:164-175 | out of range exactly when `i < 0` or `i >= size`; otherwise the `i`-th link; the list is not modified |
| LinkedLists.LinkedList.At | myLinked_list/linkedlist.cpp:183-187 | out of range exactly when `i < 0` or `i >= size`; otherwise the `i`-th value |
| LinkedLists.LinkedList.Begin | myLinked_list/linkedlist.cpp:193-201 | a new iterator pointing at `head` |
| LinkedLists.LinkedList.End | myLinked_list/linkedlist.cpp:208-213 | a new iterator pointing at null |
| LinkedLists.LinkedList.Walk | myLinked_list/linkedlist.h:50-52 | iterating from `begin()` while `!=` `end()` visits exactly the links and values in order and stops after `size()` increments |
| LinkedLists.LinkedList.Copy | myLinked_list/linkedlist.cpp:222-229 | the copy is a new valid list with the same values, built only from fresh links; the source is not modified |
| LinkedLists.LinkedList.Reverse | myLinked_list/linkedlist.cpp:241-255 | on a non-empty list: values and links come in reversed order; each link's `next` is its former predecessor; the former first link's `next` is null; the former last link is `head`; no link is allocated |
| LinkedLists.LinkedList.ReversedChainIsValid | myLinked_list/linkedlist.cpp:252-253 | after the loop, the back-linked chain headed by the old last link is a valid list of the reversed sequences |
| LinkedLists.LinkedList.Clear | myLinked_list/linkedlist.cpp:38-44 | popping from the back until `head` is null ends with the empty list |
| LinkedLists.GetLinkRejects | myLinked_list/linkedlist.cpp:166 | the intended bounds test rejects exactly the indices outside `0 .. size-1` |
| LinkedLists.GetLinkRejectsAsWritten | myLinked_list/linkedlist.cpp:166 | the test as written rejects every negative index and, on a non-empty list within `size_t` range, exactly the indices `>= size` |
| LinkedLists.GetLinkGuardWrapsOnEmpty | myLinked_list/linkedlist.cpp:166 | with `size() - 1` in 64-bit `size_t`, the test as written agrees with the intended one on a non-empty list, but lets every non-negative index through on an empty list |
| Bst.InsertInto | myBST/bst.cpp:33-41 | the key multiset gains exactly one `v` and the tree exactly one node |
| Bst.InsertPreservesBst | myBST/bst.cpp:33-41 | insertion keeps the ordering invariant (equal keys go right) |
| Bst.InsertAddsOneLeaf | myBST/bst.cpp:33-41 | every old node keeps its position and key, and exactly one node is added |
| Bst.PreOrder | myBST/bst.cpp:43-48 | pre-order output has one entry per node |
| Bst.InOrder | myBST/bst.cpp:50-56 | in-order output has one entry per node |
| Bst.PostOrder | myBST/bst.cpp:58-63 | post-order output has one entry per node |
| Bst.PreOrderKeys | myBST/bst.cpp:43-48 | pre-order output holds exactly the key multiset |
| Bst.InOrderKeys | myBST/bst.cpp:50-56 | in-order output holds exactly the key multiset |
| Bst.PostOrderKeys | myBST/bst.cpp:58-63 | post-order output holds exactly the key multiset |
| Bst.InOrderSorted | myBST/bst.cpp:50-56 | on a search tree the in-order output is non-decreasing |
| Bst.SampleInserts | myBST/bst.cpp:33-41 | inserting 50, 30, 70, 20, 40, 60, 80 builds the balanced seven-node tree |
| Bst.SamplePreOrder | myBST/bst.cpp:43-48 | for that tree pre-order prints 50 30 20 40 70 60 80 |
| Bst.SampleInOrder | myBST/bst.cpp:50-56 | for that tree in-order prints 20 30 40 50 60 70 80 |
| Bst.SamplePostOrder | myBST/bst.cpp:58-63 | for that tree post-order prints 20 40 30 60 80 70 50 |
| Bst.Leftmost | myBST/bst.cpp:25-31 | following left links ends at a node without a left child |
| Bst.Rightmost | myBST/bst.cpp:72-77 | following right links ends at a node without a right child |
| Bst.LeftmostIsLowerBound | myBST/bst.cpp:25-31 | on a search tree no key is below the end of the left spine |
| Bst.LeftmostIsMin | myBST/bst.cpp:65-71 | on a search tree the end of the left spine holds a least key of the tree |
| Bst.RightmostIsMax | myBST/bst.cpp:72-77 | on a search tree the end of the right spine holds a greatest key of the tree |
| Bst.MinValueLeaf | myBST/bst.cpp:25-31 | null for null; otherwise the end of the left spine, a node with no left child that holds the minimum on a search tree |
| Bst.SubtreeMin | myBST/bst.cpp:65-71 | on a non-empty tree, the key at the end of the left spine; on a search tree, a key of the tree no larger than any other |
| Bst.SubtreeMax | myBST/bst.cpp:72-77 | on a non-empty tree, the key at the end of the right spine; on a search tree, a key of the tree no smaller than any other |
| Bst.SubtreeContains | myBST/bst.cpp:78-92 | on a search tree, true exactly when `v` is a key |
| Bst.RemoveFrom | myBST/bst.cpp:93-121 | removal never adds a node |
| Bst.RemoveAbsent | myBST/bst.cpp:98-102 | removing an absent key returns the same tree, shape and keys |
| Bst.RemoveKeys | myBST/bst.cpp:93-121 | on a search tree the key multiset loses exactly one occurrence of `v` (none if absent) |
| Bst.RemovePreservesBst | myBST/bst.cpp:93-121 | removal, including the successor replacement of the two-children case, keeps the ordering invariant |
| Bst.RemoveKeepsBounds | myBST/bst.cpp:114-116 | removal keeps any lower or upper bound that held on all keys |
| Bst.RemoveWrapperDangles | myBST/bst.cpp:149-152 | when the wrapper as written leaves `root` dangling, the intended result is one of the old root's subtrees, which the caller never receives; removing 5 from the one-node tree 5 dangles where `RemoveFrom` gives the empty tree |
| Bst.RemoveWrapperAsWritten | myBST/bst.cpp:149-152 | the public `remove(int)` as written dangles only when the key is in the tree and the removal frees exactly one node, the root |
| Bst.Tree.constructor | myBST/bst.cpp:22 | a new tree is empty |
| Bst.Tree.Insert | myBST/bst.cpp:123-126 | the root becomes the insertion result; keys gain `v`; the invariant is kept |
| Bst.Tree.Remove | myBST/bst.cpp:149-152 | the root becomes the removal result; keys lose one `v`; the invariant is kept |
| Bst.Tree.PreOrderTraversal | myBST/bst.cpp:128-131 | the pre-order sequence of the whole tree, holding all its keys |
| Bst.Tree.InOrderTraversal | myBST/bst.cpp:132-135 | the in-order sequence of the whole tree, holding all its keys in ascending order |
| Bst.Tree.PostOrderTraversal | myBST/bst.cpp:136-139 | the post-order sequence of the whole tree, holding all its keys |
| Bst.Tree.Min | myBST/bst.cpp:140-142 | on a non-empty tree, its least key |
| Bst.Tree.Max | myBST/bst.cpp:143-145 | on a non-empty tree, its greatest key |
| Bst.Tree.Contains | myBST/bst.cpp:146-148 | true exactly when `v` is a key of the tree |
| Vectors.GrowthPolicy | myVector/myvector.cpp:54-70 | `push_back` gives an empty buffer one slot, doubles a full buffer, otherwise keeps it; the new item always fits |
| Vectors.ShrinkPolicy | myVector/myvector.cpp:82-91 | `pop_back` halves the buffer exactly when under a quarter of it is used (1 becomes 0), otherwise keeps it; the items always fit |
| Vectors.CapacityStaysPowerOfTwo | myVector/myvector.cpp:52-94 | from an empty buffer, growth and shrinking keep the length zero or a power of two |
| Vectors.GrownCapacity | myVector/myvector.cpp:54-70 | `push_back` never leaves a zero-length buffer, and a non-empty buffer is either kept or doubled |
| Vectors.ShrunkCapacity | myVector/myvector.cpp:82-91 | `pop_back` keeps the buffer or halves it, and the items that fitted still fit |
| Vectors.GrowCopyAsWritten | myVector/myvector.cpp:65-67 | the copy loop as written makes `n + 1` reads, and read `j` falls outside the buffer exactly when `j` is at least its length |
| Vectors.AtRejectsAsWritten | myVector/myvector.cpp:154 | the check `i > n_items` rejects only indices past the size and accepts every item index |
| Vectors.GrowCopyOverrun | myVector/myvector.cpp:65-67 | when the buffer grows, the copy loop as written reads one slot past the full old buffer; copying the stored items reads exactly them |
| Vectors.AtAcceptsSize | myVector/myvector.cpp:154 | the check `i > n_items` rejects only bad indices, but lets exactly one bad index through: `i == size()` |
| Vectors.MyVector.constructor | myVector/myvector.cpp:11-17 | size 0 and allocated length 0, with a freshly allocated buffer that only this vector holds |
| Vectors.MyVector.Size | myVector/myvector.cpp:32-35 | the number of items |
| Vectors.MyVector.AllocatedLength | myVector/myvector.cpp:41-44 | the buffer length |
| Vectors.MyVector.PushBack | myVector/myvector.cpp:52-73 | items become `old + [t]`; capacity follows `GrownCapacity`; size stays at most capacity; the buffer is the old one or freshly allocated |
| Vectors.MyVector.PopBack | myVector/myvector.cpp:79-94 | on a non-empty vector, items lose the last one and the rest keep their order; capacity follows `ShrunkCapacity`; size stays at most capacity; the buffer is the old one or freshly allocated |
| Vectors.MyVector.Front | myVector/myvector.cpp:101-104 | on a non-empty vector, item 0 |
| Vectors.MyVector.Back | myVector/myvector.cpp:113-117 | on a non-empty vector, the last item |
| Vectors.MyVector.Begin | myVector/myvector.cpp:122-125 | a pointer at offset 0 of the buffer, where item 0 is |
| Vectors.MyVector.End | myVector/myvector.cpp:131-134 | a pointer `size()` slots after `begin()`; the slots before it are exactly the items |
| Vectors.MyVector.Get | myVector/myvector.cpp:141-144 | buffer slot `i` unchecked, which is item `i` when `i < size()` |
| Vectors.MyVector.At | myVector/myvector.cpp:152-159 | out of range exactly when `i >= size()`, otherwise item `i` |
| Vectors.MyVector.Reallocate | myVector/myvector.cpp:166-175 | with `new_size >= size()`, a fresh buffer of `new_size` slots holding the same items in order |

## Left out

- Memory release has no counterpart in Dafny. This covers `delete` in `pop_front`, `pop_back` and the grow and shrink steps, `free` in the tree's `remove`, the recursive `~TreeNode` and `~Tree`, and `~MyVector`. The list's destructor is kept as its loop (`LinkedList.Clear`), whose result is the empty list.
- Console output: the stray print in the list's `pop_back` is dropped. The tree traversals return the sequence they would print. The stdin-driven `main` of `myBST/bst.cpp` is not modelled.
- References: `front`, `back`, `at`, `operator[]` and iterator `operator*` return references that callers can write through. The model returns the value read. `operator++` returning `*this` is not modelled.
- The allocation counters and the overloaded `Link::operator new`/`delete` of the test harness are not modelled.
- Vectors.MyVector.PopBack: the shrink test is the integer comparison `4 * n_items < n_allocated` in place of the `float` division of the source. The two agree whenever both counts are exactly representable in `float`, for instance when both are at most 2^24.
- `myVector/myvector.h` is not part of this model. The vector's element type, its `Thing` with the `verbose` and `last_alloc` counters, is replaced by `int`.
- Integer widths: list sizes and vector counters are unbounded. `size_t` wrap-around is modelled only where it changes behaviour: the `get_link` guard. Calling the vector's `pop_back` on an empty vector wraps `n_items`; the model's precondition excludes that call.
- Vectors.MyVector.Reallocate: requires `new_size >= size()`. A smaller `new_size` makes the source write past the new buffer.
- Bst: trees are values, so node identity is not modelled. That covers in-place relinking through the `TreeNode*&` slot in `insert` and reuse of the node in `remove`'s two-children case. What is captured of in-place update is the effect on the shape (`InsertAddsOneLeaf`).
- Running time is not modelled: the O(n) `reverse` and the O(n²) `copy`, which recomputes `size()` and walks to index `i` for each element. The loops themselves are modelled as written.
- Null buffer: the null `data` the vector's constructor sets is an array of length 0. Its reads are excluded by the same requires as every other read. A fully shrunk vector holds a real `new Thing[0]`, which is also an array of length 0.
- Ownership: `LinkedList.Valid` and `MyVector.Valid` do not say that no other object shares the chain or the buffer. The contracts give exclusive ownership in one direction only: the constructors and every allocating method return fresh links and buffers (`MyVector.PushBack`/`PopBack` keep the old buffer or return a fresh one). Two lists made to share one chain by direct field writes would both be `Valid`, and updating one would invalidate the other. The source never makes such lists.

## Findings

| source | as written | input that shows it | evidently intended | confidence | as-written member | corrected member |
|---|---|---|---|---|---|---|
| myLinked_list/linkedlist.cpp:166 | `i > size() - 1` with `size() - 1` computed in `size_t` | empty list, `get_link(0)`: `0 - 1` wraps to 2^64-1, the test passes and `nullptr` is returned (and `at(0)` then dereferences it); `get_link(1)` dereferences the null `head` | throw `out_of_range` for every `i >= size()` | high, not executed | LinkedLists.GetLinkGuardWrapsOnEmpty | LinkedLists.LinkedList.GetLink |
| myVector/myvector.cpp:65 | grow-copy loop runs `i < n_items` after `n_items` was incremented | `push_back` on a vector with 1 item and 1 slot reads `data[1]` of a one-slot buffer | copy only the `n_items - 1` items already stored | high, not executed | Vectors.GrowCopyOverrun | Vectors.MyVector.PushBack |
| myVector/myvector.cpp:154 | `at` throws only when `i > n_items` | `at(0)` on a new vector reads slot 0 of a null buffer; `at(size())` in general reads past the items | throw when `i >= n_items` | high, not executed | Vectors.AtAcceptsSize | Vectors.MyVector.At |
| myBST/bst.cpp:149-152 | `remove(int)` calls `remove(value, root)` and discards the returned subtree | tree holding only 5, `remove(5)`: the node is freed and `root` still points at it | `root = remove(value, root)` | high, not executed | Bst.RemoveWrapperDangles | Bst.Tree.Remove |
