# Doubly-linked list with hand-managed nodes — Dafny model

This project models the core of a generic doubly-linked list, written in Rust.
Each element lives in its own heap node. The list owns every node and keeps
the `head`, `tail` and `size` fields and each node's `previous`/`next` links
consistent by hand, through raw pointer rewiring.

The model is imperative, like the source:

- `Nodes.Node` is a class with nullable `previous`/`next` links and an
  `element`. `Link<T>` is `Node?<T>`: a link is absent or a real node, never
  anything else.
- `Lists.LinkedList` is a class with the source's `head`, `tail` and `size`
  fields. It also has three ghost fields: `nodes` (the chain, head to tail),
  `elems` (the abstract element sequence) and `Repr` (the objects the list
  owns). `Valid()` is the list invariant. It says:
  - `nodes` are distinct owned nodes;
  - each node's `previous` and `next` are exactly its neighbours in `nodes`
    (absent at the ends);
  - `head` and `tail` are the ends of the chain, and both are absent exactly
    when `size` is 0;
  - `size` is the length of the chain;
  - the nodes' elements are `elems`.
- Pushes allocate with `new Node(...)`. Pops release a node by removing it
  from `Repr`.
- `front_mut`/`back_mut` followed by a write through the returned reference
  are modelled as `SetFront`/`SetBack`.
- The mutable iterator's caller write through the yielded reference is the
  function parameter `write`.
- Rendering (`Display`) takes the elements' text as a parameter
  `show: T -> string` and returns the string. `Rendered` is its reference
  definition.

Every push and pop requires and ensures `Valid()`. It also states the new
`elems`, `nodes`, `size` and `Repr` in terms of the old ones, and the links it
rewired.

## Model

| member | source | states |
|---|---|---|
| `Nodes.Node.constructor` | src/node.rs:14-20 | a new node stores the element unchanged, with `previous` and `next` both absent |
| `Lists.LinkedList.constructor` | src/list.rs:16-22 | `new` gives a valid list with `head` and `tail` absent, `size == 0` and the empty sequence |
| `Lists.LinkedList.PushFront` | src/list.rs:24-39 | keeps `Valid()`; the sequence becomes `[x] + old` and `size` grows by one; the new head is a fresh node with no previous whose next is the old head; on an empty list the new node is also the tail; otherwise the old head's `previous` is the new node and the tail is unchanged |
| `Lists.LinkedList.PushBack` | src/list.rs:41-56 | keeps `Valid()`; the sequence becomes `old + [x]` and `size` grows by one; the new tail is a fresh node with no next whose previous is the old tail; on an empty list the new node is also the head; otherwise the old tail's `next` is the new node and the head is unchanged |
| `Lists.LinkedList.PopFront` | src/list.rs:58-76 | keeps `Valid()`; on an empty list it returns absent and changes nothing; otherwise it returns the first element, the rest stay in order, `size` drops by one and the old head leaves `Repr`; the new head has no previous; an emptied list has no head and no tail |
| `Lists.LinkedList.PopBack` | src/list.rs:78-96 | keeps `Valid()`; absent and no change on an empty list; otherwise it returns the last element, the rest stay in order, `size` drops by one and the old tail leaves `Repr`; the new tail has no next; an emptied list has no head and no tail |
| `Lists.LinkedList.IsEmpty` | src/list.rs:98-101 | true iff the sequence is empty, iff `Len() == 0` |
| `Lists.LinkedList.Len` | src/list.rs:103-106 | equals the length of the element sequence |
| `Lists.LinkedList.Front` | src/list.rs:108-111 | the first element, or absent on an empty list |
| `Lists.LinkedList.SetFront` | src/list.rs:113-116 | a write through `front_mut` replaces only the first element; it reports absence on an empty list and changes nothing then; the nodes, length, ends and other elements are unchanged |
| `Lists.LinkedList.Back` | src/list.rs:118-121 | the last element, or absent on an empty list |
| `Lists.LinkedList.SetBack` | src/list.rs:123-126 | a write through `back_mut` replaces only the last element; it reports absence on an empty list; the nodes, length, ends and other elements are unchanged |
| `Lists.Contains` | src/list.rs:128-145 | the scan from the head returns true iff some element of the sequence compares equal to the value under the element type's own equality `eq` (hence false on an empty list) |
| `Lists.LinkedList.ChainLength` | src/list.rs:8-12 | in a valid list, following `next` from `head` meets the k-th node at each step k < `size` and reaches absence after exactly `size` steps; following `previous` from `tail` does the same in reverse |
| `Lists.LinkedList.LinksAgree` | src/list.rs:24-96 | in a valid list, for any two owned nodes, `a.next == b` iff `b.previous == a` |
| `Lists.LinkedList.Shape` | src/list.rs:8-12 | head absent iff tail absent iff `size == 0`; the head has no previous and the tail no next; a one-node list has head == tail with no neighbours; every present neighbour is an owned node that links back |
| `Lists.FifoRoundTrip` | src/list.rs:41-76 | pushing a sequence at the back and then popping from the front until empty gives the same sequence back |
| `Lists.LifoRoundTrip` | src/list.rs:41-96 | pushing a sequence at the back and then popping from the back until empty gives it reversed |
| `Traits.ListIter.constructor` | src/traits.rs:56-63 | the borrowing cursor starts at the head, before the first element |
| `Traits.ListIter.Next` | src/traits.rs:11-21 | yields the element at the cursor and advances to the next node; once the cursor is absent it returns absent; the list and all its nodes are unchanged |
| `Traits.ListIterMut.constructor` | src/traits.rs:65-72 | the mutable cursor starts at the head, before the first element |
| `Traits.ListIterMut.Next` | src/traits.rs:27-37 | yields the element at the cursor and advances; the caller's write changes only that position; the chain, ends, length and order are unchanged; absent at the end |
| `Traits.ListIntoIter.constructor` | src/traits.rs:51-53 | `into_iter` wraps the given list |
| `Traits.ListIntoIter.Next` | src/traits.rs:42-44 | behaves as `pop_front` on the wrapped list: absent and no change when empty; otherwise the first element, with the remaining elements and nodes left in order and the old head released from `Repr` |
| `Traits.IterCollect` | src/tests.rs:527-545 | driving the borrowing iterator until it returns absent yields exactly the list's sequence, head to tail (nothing for an empty list) |
| `Traits.IterMutForEach` | src/tests.rs:547-562 | driving the mutable iterator visits each position once, in order: element k becomes `write(old element k)`, and the nodes and length are unchanged |
| `Traits.IntoIterCollect` | src/tests.rs:564-574 | draining the consuming iterator yields the elements in insertion order, leaves the wrapped list empty with no head or tail, and releases every node it had from `Repr` |
| `Traits.Fmt` | src/traits.rs:74-98 | the walk from the head produces exactly `Rendered(elems)`: `[]` for an empty list, otherwise `[`, the texts joined by ` <-> ` with none after the last, then `]` |
| `Traits.JoinedAppend` | src/traits.rs:84-94 | the separator appears exactly between consecutive elements: joining `xs + ys` is joining `xs`, then ` <-> `, then joining `ys` |
| `Traits.RenderedCons` | src/traits.rs:80-96 | a non-empty rendering is `[`, the first element's text, then ` <-> ` and the rest joined when there is a rest, then `]` |
| `Traits.RenderedExamples` | src/tests.rs:209-226 | the renderings `[]`, `[1]` and `[2 <-> 1]` |
| `Traits.Drop` | src/traits.rs:100-104 | the pop-until-absent loop stops after exactly `len()` successful pops, leaves the list valid and empty, and releases every node the list had from `Repr` |

## Left out

- Node allocation and release (`src/node_allocator.rs`): raw `alloc`/`dealloc`, the zero-size and null-pointer aborts. Allocation is Dafny's `new`; release is removing the node from `Repr`. The fatal out-of-memory path is not modelled.
- Rust's `unsafe`, `NonNull::as_ref`/`as_mut`, the `ptr::read` move-out, lifetimes and the exclusive-`&mut` rule. Dafny's heap, `modifies` clauses and ghost `Repr` take their place. A cursor's `Valid()` only requires the chain (`nodes`) to be as it was; element writes through `SetFront`/`SetBack` while a borrowing iterator is live are not excluded, and the iterator then yields the new value.
- `front_mut`/`back_mut` returning a reference: modelled as one write of a new value (`SetFront`/`SetBack`). The same goes for the mutable iterator's yielded reference (the `write` function).
- `clear`, `reverse`, `split`, `retain`, `iter()` and `iter_mut()`: the tests use them, but the source files of this model do not define them. The node-removal primitive that `retain` would use internally is not defined there either. The iterator constructors here start the cursor at `head`, as the iterators' `next` bodies require.
- `Default` (defined twice, at src/list.rs:148-152 and src/traits.rs:106-110): an alias of `new`.
- `size` is a `usize` in the source; here it is a `nat`, so the overflow of `size += 1` at `usize::MAX` is not modelled.
- Element comparison in `contains` is the parameter `eq`, standing for the element type's `PartialEq::eq`; nothing is assumed about it (it may be non-reflexive, as for floating-point NaN).
- `fmt::Formatter` and its write errors: rendering is a string-valued method, and `T: Display` is the `show` parameter.
- Thread safety: the source is single-threaded and has no synchronisation to model.
- `src/lib.rs` only declares modules. It does not declare the module that holds the trait implementations; this model includes them anyway.
