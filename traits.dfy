/**
 * The iteration layer over a list's node chain (borrowing, mutable and
 * consuming cursors), its textual rendering and its teardown.
 */
module Traits {

  import opened Options
  import opened Nodes
  import opened Lists

  /** Read-only cursor: a `current` link that starts at the head. */
  class ListIter<T> {
    var current: Link<T>
    /** The list being walked. */
    ghost const list: LinkedList<T>
    /** How many elements have been yielded so far. */
    ghost var index: nat

    ghost predicate Valid()
      reads this, list, list.Repr
    {
      && list.Valid()
      && this !in list.Repr
      && index <= list.size
      && current == if index < list.size then list.nodes[index] else null
    }

    /** `(&list).into_iter()`: a cursor at the head of `list`. */
    constructor (list: LinkedList<T>)
      requires list.Valid()
      ensures Valid() && this.list == list && index == 0
    {
      current := list.head;
      this.list := list;
      index := 0;
    }

    /**
     * Yields the element under the cursor and advances it to that node's
     * `next`; absent once the cursor has run off the tail. Touches nothing
     * but the cursor.
     */
    method Next() returns (r: Option<T>)
      requires Valid()
      modifies this
      ensures Valid()
      ensures old(index) < |list.elems| ==> r == Some(list.elems[old(index)]) && index == old(index) + 1
      ensures old(index) == |list.elems| ==> r == None && index == old(index)
      ensures unchanged(list) && unchanged(list.Repr)
    {
      if current == null {
        return None;
      }
      var node := current;
      current := node.next;
      index := index + 1;
      r := Some(node.element);
    }
  }

  /**
   * Mutable cursor. A step yields an exclusive view of the current element;
   * the caller's write through that view is the function `write`.
   */
  class ListIterMut<T> {
    var current: Link<T>
    ghost const list: LinkedList<T>
    ghost var index: nat

    ghost predicate Valid()
      reads this, list, list.Repr
    {
      && list.Valid()
      && this !in list.Repr
      && index <= list.size
      && current == if index < list.size then list.nodes[index] else null
    }

    /** `(&mut list).into_iter()`: a cursor at the head of `list`. */
    constructor (list: LinkedList<T>)
      requires list.Valid()
      ensures Valid() && this.list == list && index == 0
    {
      current := list.head;
      this.list := list;
      index := 0;
    }

    /**
     * Yields the element under the cursor (as it was before the write),
     * stores `write` of it in that node, and advances the cursor. Only that
     * one position changes; the chain, its length and its order stay.
     */
    method Next(write: T -> T) returns (r: Option<T>)
      requires Valid()
      modifies this, list.Repr
      ensures Valid()
      ensures list.nodes == old(list.nodes) && list.Repr == old(list.Repr)
      ensures list.head == old(list.head) && list.tail == old(list.tail) && list.size == old(list.size)
      ensures old(index) < old(|list.elems|) ==>
        && r == Some(old(list.elems)[old(index)])
        && list.elems == old(list.elems)[old(index) := write(old(list.elems)[old(index)])]
        && index == old(index) + 1
      ensures old(index) == old(|list.elems|) ==>
        r == None && list.elems == old(list.elems) && index == old(index)
    {
      if current == null {
        return None;
      }
      var node := current;
      current := node.next;
      var yielded := node.element;
      node.element := write(yielded);
      list.elems := list.elems[index := node.element];
      index := index + 1;
      r := Some(yielded);
    }
  }

  /** Consuming iterator: owns the list it was made from. */
  class ListIntoIter<T> {
    const list: LinkedList<T>

    ghost predicate Valid()
      reads this, list, list.Repr
    {
      list.Valid()
    }

    /** `list.into_iter()`: wraps the list by value. */
    constructor (list: LinkedList<T>)
      requires list.Valid()
      ensures Valid() && this.list == list
    {
      this.list := list;
    }

    /** One step is exactly `pop_front` on the wrapped list. */
    method Next() returns (r: Option<T>)
      requires Valid()
      modifies list.Repr
      ensures Valid() && list.Repr <= old(list.Repr)
      ensures old(list.elems) == [] ==> r == None && unchanged(list)
      ensures old(list.elems) != [] ==>
        && r == Some(old(list.elems)[0])
        && list.elems == old(list.elems)[1..]
        && list.nodes == old(list.nodes)[1..]
        && list.Repr == old(list.Repr) - {old(list.head)}
    {
      r := list.PopFront();
    }
  }

  /** Driving a read-only cursor to exhaustion yields the list, head to tail. */
  method IterCollect<T>(list: LinkedList<T>) returns (out: seq<T>)
    requires list.Valid()
    ensures out == list.elems
  {
    var it := new ListIter(list);
    out := [];
    while true
      invariant fresh(it) && it.list == list && it.Valid()
      invariant out == list.elems[..it.index]
      decreases |list.elems| - it.index
    {
      var r := it.Next();
      if r.None? {
        return;
      }
      out := out + [r.value];
    }
  }

  /** Driving a mutable cursor to exhaustion rewrites every element once, in place. */
  method IterMutForEach<T>(list: LinkedList<T>, write: T -> T)
    requires list.Valid()
    modifies list.Repr
    ensures list.Valid()
    ensures list.nodes == old(list.nodes) && list.Repr == old(list.Repr)
    ensures |list.elems| == |old(list.elems)|
    ensures forall k :: 0 <= k < |list.elems| ==> list.elems[k] == write(old(list.elems)[k])
  {
    var it := new ListIterMut(list);
    while true
      invariant fresh(it) && it.list == list && it.Valid()
      invariant list.nodes == old(list.nodes) && list.Repr == old(list.Repr)
      invariant |list.elems| == |old(list.elems)|
      invariant forall k :: 0 <= k < it.index ==> list.elems[k] == write(old(list.elems)[k])
      invariant forall k :: it.index <= k < |list.elems| ==> list.elems[k] == old(list.elems)[k]
      decreases |list.elems| - it.index
    {
      var r := it.Next(write);
      if r.None? {
        return;
      }
    }
  }

  /**
   * Draining a consuming iterator yields the elements in order and leaves the
   * wrapped list empty.
   */
  method IntoIterCollect<T>(it: ListIntoIter<T>) returns (out: seq<T>)
    requires it.Valid()
    modifies it.list.Repr
    ensures it.Valid()
    ensures out == old(it.list.elems)
    ensures it.list.elems == [] && it.list.head == null && it.list.tail == null && it.list.size == 0
    ensures forall i :: 0 <= i < |old(it.list.nodes)| ==> old(it.list.nodes)[i] !in it.list.Repr
  {
    var list := it.list;
    out := [];
    while true
      invariant list.Valid() && list.Repr <= old(list.Repr)
      invariant out + list.elems == old(list.elems)
      invariant |out| <= |old(list.nodes)| && list.nodes == old(list.nodes)[|out|..]
      invariant forall i :: 0 <= i < |out| ==> old(list.nodes)[i] !in list.Repr
      decreases |list.elems|
    {
      var r := it.Next();
      if r.None? {
        return;
      }
      out := out + [r.value];
    }
  }

  /** The elements' texts joined by `" <-> "`, with no separator after the last. */
  function Joined<T>(xs: seq<T>, show: T -> string): string
    requires |xs| > 0
  {
    if |xs| == 1 then show(xs[0])
    else Joined(xs[..|xs| - 1], show) + " <-> " + show(xs[|xs| - 1])
  }

  /** The text of a list holding `xs`: `[]`, or `[e1 <-> e2 <-> ... <-> en]`. */
  function Rendered<T>(xs: seq<T>, show: T -> string): string {
    if xs == [] then "[]" else "[" + Joined(xs, show) + "]"
  }

  /** `Display::fmt`: walks the chain from the head, writing each element's text. */
  method Fmt<T>(list: LinkedList<T>, show: T -> string) returns (s: string)
    requires list.Valid()
    ensures s == Rendered(list.elems, show)
  {
    if list.IsEmpty() {
      return "[]";
    }
    s := "[";
    var current := list.head;
    ghost var i := 0;
    while current != null
      invariant 0 <= i <= list.size
      invariant current == if i < list.size then list.nodes[i] else null
      invariant i == 0 ==> s == "["
      invariant 0 < i < list.size ==> s == "[" + Joined(list.elems[..i], show) + " <-> "
      invariant i == list.size ==> s == "[" + Joined(list.elems, show)
      decreases list.size - i
    {
      assert list.elems[..i + 1][..i] == list.elems[..i];
      if current.next != null {
        s := s + show(current.element) + " <-> ";
      } else {
        s := s + show(current.element);
      }
      current := current.next;
      i := i + 1;
    }
    s := s + "]";
  }

  /** Joining splits at any boundary: the separator appears exactly between parts. */
  lemma {:induction false} JoinedAppend<T>(xs: seq<T>, ys: seq<T>, show: T -> string)
    requires |xs| > 0 && |ys| > 0
    ensures Joined(xs + ys, show) == Joined(xs, show) + " <-> " + Joined(ys, show)
    decreases |ys|
  {
    if |ys| == 1 {
      assert (xs + ys)[..|xs + ys| - 1] == xs;
    } else {
      var ys' := ys[..|ys| - 1];
      assert (xs + ys)[..|xs + ys| - 1] == xs + ys';
      JoinedAppend(xs, ys', show);
    }
  }

  /** A non-empty rendering is a bracketed join of its first element and the rest. */
  lemma RenderedCons<T>(x: T, xs: seq<T>, show: T -> string)
    ensures Rendered([x] + xs, show) ==
      if xs == [] then "[" + show(x) + "]" else "[" + show(x) + " <-> " + Joined(xs, show) + "]"
  {
    var j := Joined([x] + xs, show);
    if xs == [] {
      assert [x] + xs == [x];
    } else {
      JoinedAppend([x], xs, show);
      assert j == show(x) + " <-> " + Joined(xs, show);
    }
  }

  /** The two renderings the tests expect: `[]` for the empty list, `[1]` and `[2 <-> 1]`. */
  lemma RenderedExamples()
    ensures Rendered([], (c: char) => [c]) == "[]"
    ensures Rendered(['1'], (c: char) => [c]) == "[1]"
    ensures Rendered(['2', '1'], (c: char) => [c]) == "[2 <-> 1]"
  {
  }

  /**
   * `Drop::drop`: pops from the front until a pop comes back absent. It stops
   * after exactly as many successful pops as the list had elements.
   */
  method Drop<T>(list: LinkedList<T>) returns (ghost pops: nat)
    requires list.Valid()
    modifies list.Repr
    ensures list.Valid() && list.Repr <= old(list.Repr)
    ensures pops == old(list.size)
    ensures list.elems == [] && list.head == null && list.tail == null && list.size == 0
    ensures forall i :: 0 <= i < |old(list.nodes)| ==> old(list.nodes)[i] !in list.Repr
  {
    pops := 0;
    var popped := list.PopFront();
    while popped.Some?
      invariant list.Valid() && list.Repr <= old(list.Repr)
      invariant popped.Some? ==> pops + 1 + list.size == old(list.size)
      invariant popped.Some? ==> list.nodes == old(list.nodes)[pops + 1..]
      invariant popped.None? ==> pops == old(list.size) && list.size == 0
      invariant forall i :: 0 <= i < pops + (if popped.Some? then 1 else 0) && i < |old(list.nodes)| ==>
        old(list.nodes)[i] !in list.Repr
      decreases list.size + (if popped.Some? then 1 else 0)
    {
      pops := pops + 1;
      popped := list.PopFront();
    }
  }

}
