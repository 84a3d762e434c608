/**
 * The list core: a doubly-linked chain of individually allocated nodes with
 * head/tail/size bookkeeping, kept consistent by hand on every push and pop.
 */
module Lists {

  import opened Options
  import opened Nodes

  class LinkedList<T> {
    var head: Link<T>
    var tail: Link<T>
    var size: nat

    /** The chain, head to tail: the nodes this list owns. */
    ghost var nodes: seq<Node<T>>
    /** The abstract value: the elements, head to tail. */
    ghost var elems: seq<T>
    /** Every object the list owns: itself and its live nodes. */
    ghost var Repr: set<object>

    /**
     * The list's invariant: `nodes` is a chain of distinct owned nodes whose
     * links point exactly to their neighbours in the chain, `head`/`tail`
     * are its ends, `size` its length and `elems` its elements.
     */
    ghost predicate Valid()
      reads this, Repr
      ensures Valid() ==> this in Repr
    {
      && this in Repr
      && (forall i :: 0 <= i < |nodes| ==> nodes[i] in Repr)
      && |nodes| == size
      && |elems| == size
      && (head == null <==> size == 0)
      && (tail == null <==> size == 0)
      && (size > 0 ==> head == nodes[0] && tail == nodes[size - 1])
      && (forall i, j :: 0 <= i < j < |nodes| ==> nodes[i] != nodes[j])
      && (forall i :: 0 <= i < |nodes| ==> nodes[i].element == elems[i])
      && (forall i {:trigger nodes[i].previous} :: 0 <= i < |nodes| ==>
            nodes[i].previous == if i == 0 then null else nodes[i - 1])
      && (forall i {:trigger nodes[i].next} :: 0 <= i < |nodes| ==>
            nodes[i].next == if i == |nodes| - 1 then null else nodes[i + 1])
    }

    /** `new`: the empty list. */
    constructor ()
      ensures Valid() && fresh(Repr)
      ensures head == null && tail == null && size == 0
      ensures nodes == [] && elems == []
    {
      head := null;
      tail := null;
      size := 0;
      nodes := [];
      elems := [];
      Repr := {this};
    }

    method PushFront(element: T)
      requires Valid()
      modifies Repr
      ensures Valid() && fresh(Repr - old(Repr))
      ensures elems == [element] + old(elems)
      ensures size == old(size) + 1
      ensures fresh(head) && nodes == [head] + old(nodes)
      ensures Repr == old(Repr) + {head}
      ensures head.previous == null && head.next == old(head)
      ensures old(head) == null ==> tail == head
      ensures old(head) != null ==> old(head).previous == head && tail == old(tail)
    {
      var newNode := new Node(element);
      newNode.next := head;
      if head != null {
        head.previous := newNode;
      } else {
        tail := newNode;
      }
      head := newNode;
      size := size + 1;
      nodes := [newNode] + nodes;
      elems := [element] + elems;
      Repr := Repr + {newNode};
    }

    method PushBack(element: T)
      requires Valid()
      modifies Repr
      ensures Valid() && fresh(Repr - old(Repr))
      ensures elems == old(elems) + [element]
      ensures size == old(size) + 1
      ensures fresh(tail) && nodes == old(nodes) + [tail]
      ensures Repr == old(Repr) + {tail}
      ensures tail.next == null && tail.previous == old(tail)
      ensures old(tail) == null ==> head == tail
      ensures old(tail) != null ==> old(tail).next == tail && head == old(head)
    {
      var newNode := new Node(element);
      newNode.previous := tail;
      if tail != null {
        tail.next := newNode;
      } else {
        head := newNode;
      }
      tail := newNode;
      size := size + 1;
      nodes := nodes + [newNode];
      elems := elems + [element];
      Repr := Repr + {newNode};
    }

    /**
     * Detaches the head node. Releasing its memory is modelled by dropping it
     * from `Repr`: the list no longer owns it.
     */
    method PopFront() returns (r: Option<T>)
      requires Valid()
      modifies Repr
      ensures Valid() && fresh(Repr - old(Repr))
      ensures old(size) == 0 ==> r == None && unchanged(this)
      ensures old(size) > 0 ==>
        && r == Some(old(elems)[0])
        && elems == old(elems)[1..]
        && nodes == old(nodes)[1..]
        && size == old(size) - 1
        && Repr == old(Repr) - {old(head)}
      ensures head != null ==> head.previous == null
      ensures size == 0 ==> head == null && tail == null
    {
      if head == null {
        return None;
      }
      var oldHead := head;
      head := oldHead.next;
      if head != null {
        head.previous := null;
      } else {
        tail := null;
      }
      var popped := oldHead.element;
      size := size - 1;
      nodes := nodes[1..];
      elems := elems[1..];
      Repr := Repr - {oldHead};
      r := Some(popped);
    }

    /** Detaches the tail node; the mirror image of `PopFront`. */
    method PopBack() returns (r: Option<T>)
      requires Valid()
      modifies Repr
      ensures Valid() && fresh(Repr - old(Repr))
      ensures old(size) == 0 ==> r == None && unchanged(this)
      ensures old(size) > 0 ==>
        && r == Some(old(elems)[|old(elems)| - 1])
        && elems == old(elems)[..|old(elems)| - 1]
        && nodes == old(nodes)[..|old(nodes)| - 1]
        && size == old(size) - 1
        && Repr == old(Repr) - {old(tail)}
      ensures tail != null ==> tail.next == null
      ensures size == 0 ==> head == null && tail == null
    {
      if tail == null {
        return None;
      }
      var oldTail := tail;
      tail := oldTail.previous;
      if tail != null {
        tail.next := null;
      } else {
        head := null;
      }
      var popped := oldTail.element;
      size := size - 1;
      nodes := nodes[..|nodes| - 1];
      elems := elems[..|elems| - 1];
      Repr := Repr - {oldTail};
      r := Some(popped);
    }

    function IsEmpty(): (r: bool)
      reads this, Repr
      requires Valid()
      ensures r <==> elems == []
      ensures r <==> Len() == 0
    {
      size == 0
    }

    function Len(): (r: nat)
      reads this, Repr
      requires Valid()
      ensures r == |elems|
    {
      size
    }

    function Front(): (r: Option<T>)
      reads this, Repr
      requires Valid()
      ensures elems == [] ==> r == None
      ensures elems != [] ==> r == Some(elems[0])
    {
      if head == null then None else Some(head.element)
    }

    function Back(): (r: Option<T>)
      reads this, Repr
      requires Valid()
      ensures elems == [] ==> r == None
      ensures elems != [] ==> r == Some(elems[|elems| - 1])
    {
      if tail == null then None else Some(tail.element)
    }

    /**
     * `front_mut` followed by a write through the view it returns: replaces
     * the first element, if there is one, and nothing else.
     */
    method SetFront(element: T) returns (present: bool)
      requires Valid()
      modifies Repr
      ensures Valid() && Repr == old(Repr)
      ensures present <==> old(elems) != []
      ensures present ==> elems == old(elems)[0 := element]
      ensures !present ==> elems == old(elems)
      ensures nodes == old(nodes) && size == old(size)
      ensures head == old(head) && tail == old(tail)
    {
      if head == null {
        return false;
      }
      head.element := element;
      elems := elems[0 := element];
      return true;
    }

    /**
     * `back_mut` followed by a write through the view it returns: replaces
     * the last element, if there is one, and nothing else.
     */
    method SetBack(element: T) returns (present: bool)
      requires Valid()
      modifies Repr
      ensures Valid() && Repr == old(Repr)
      ensures present <==> old(elems) != []
      ensures present ==> elems == old(elems)[|old(elems)| - 1 := element]
      ensures !present ==> elems == old(elems)
      ensures nodes == old(nodes) && size == old(size)
      ensures head == old(head) && tail == old(tail)
    {
      if tail == null {
        return false;
      }
      tail.element := element;
      elems := elems[|elems| - 1 := element];
      return true;
    }

    /** The node reached from `from` by following `next` at most `k` times. */
    ghost function WalkNext(from: Link<T>, k: nat): (r: Link<T>)
      reads this, Repr
      requires Valid()
      requires from == null || from in nodes
      ensures r == null || r in nodes
      decreases k
    {
      if k == 0 || from == null then from else WalkNext(from.next, k - 1)
    }

    /** The node reached from `from` by following `previous` at most `k` times. */
    ghost function WalkPrevious(from: Link<T>, k: nat): (r: Link<T>)
      reads this, Repr
      requires Valid()
      requires from == null || from in nodes
      ensures r == null || r in nodes
      decreases k
    {
      if k == 0 || from == null then from else WalkPrevious(from.previous, k - 1)
    }

    lemma {:induction false} WalkNextFrom(i: nat, k: nat)
      requires Valid()
      requires i < size && i + k <= size
      ensures WalkNext(nodes[i], k) == if i + k < size then nodes[i + k] else null
      decreases k
    {
      if k > 0 {
        if i + 1 < size {
          WalkNextFrom(i + 1, k - 1);
        } else {
          assert nodes[i].next == null;
        }
      }
    }

    lemma {:induction false} WalkPreviousFrom(i: nat, k: nat)
      requires Valid()
      requires i < size && k <= i + 1
      ensures WalkPrevious(nodes[i], k) == if k <= i then nodes[i - k] else null
      decreases k
    {
      if k > 0 {
        if i > 0 {
          WalkPreviousFrom(i - 1, k - 1);
        } else {
          assert nodes[i].previous == null;
        }
      }
    }

    /**
     * The chain has exactly `size` nodes: following `next` from `head` meets
     * a node at each of the first `size` steps and runs off the end after
     * exactly `size`; following `previous` from `tail` does the same.
     */
    lemma ChainLength()
      requires Valid()
      ensures WalkNext(head, size) == null
      ensures WalkPrevious(tail, size) == null
      ensures forall k :: 0 <= k < size ==> WalkNext(head, k) == nodes[k]
      ensures forall k :: 0 <= k < size ==> WalkPrevious(tail, k) == nodes[size - 1 - k]
    {
      if size > 0 {
        WalkNextFrom(0, size);
        WalkPreviousFrom(size - 1, size);
        forall k | 0 <= k < size
          ensures WalkNext(head, k) == nodes[k]
          ensures WalkPrevious(tail, k) == nodes[size - 1 - k]
        {
          WalkNextFrom(0, k);
          WalkPreviousFrom(size - 1, k);
        }
      }
    }

    /** Mutual consistency of the links: `a.next == b` exactly when `b.previous == a`. */
    lemma LinksAgree(a: Node<T>, b: Node<T>)
      requires Valid()
      requires a in nodes && b in nodes
      ensures a.next == b <==> b.previous == a
    {
    }

    /**
     * The two logical states: Empty (no ends, size 0) and Populated (both
     * ends present, the head without a predecessor and the tail without a
     * successor); a single node is both head and tail, with no neighbours.
     */
    lemma Shape()
      requires Valid()
      ensures (head == null) == (tail == null) == (size == 0)
      ensures head != null ==> head.previous == null && tail.next == null
      ensures size == 1 ==> head == tail && head.previous == null && head.next == null
      ensures forall n :: n in nodes && n.next != null ==> n.next in nodes && n.next.previous == n
      ensures forall n :: n in nodes && n.previous != null ==> n.previous in nodes && n.previous.next == n
    {
    }
  }

  /**
   * Linear scan from the head that stops at the first element `eq` accepts.
   * `eq(a, b)` is the element type's `PartialEq` comparison `a == b`, which
   * need not be reflexive.
   */
  method Contains<T>(list: LinkedList<T>, element: T, eq: (T, T) -> bool) returns (found: bool)
    requires list.Valid()
    ensures found <==> exists i :: 0 <= i < |list.elems| && eq(list.elems[i], element)
  {
    var current := list.head;
    ghost var i := 0;
    while current != null
      invariant 0 <= i <= list.size
      invariant current == if i < list.size then list.nodes[i] else null
      invariant forall k :: 0 <= k < i ==> !eq(list.elems[k], element)
      decreases list.size - i
    {
      if eq(current.element, element) {
        return true;
      }
      current := current.next;
      i := i + 1;
    }
    return false;
  }

  /** Pushing `xs` at the back and then popping from the front gives `xs` back. */
  method FifoRoundTrip<T>(xs: seq<T>) returns (ys: seq<T>)
    ensures ys == xs
  {
    var list := new LinkedList<T>();
    var i := 0;
    while i < |xs|
      invariant 0 <= i <= |xs|
      invariant list.Valid() && fresh(list.Repr)
      invariant list.elems == xs[..i]
    {
      list.PushBack(xs[i]);
      i := i + 1;
    }
    ys := [];
    while !list.IsEmpty()
      invariant list.Valid() && fresh(list.Repr)
      invariant ys + list.elems == xs
      decreases |list.elems|
    {
      var r := list.PopFront();
      ys := ys + [r.value];
    }
  }

  /** Pushing `xs` at the back and then popping from the back gives `xs` reversed. */
  method LifoRoundTrip<T>(xs: seq<T>) returns (ys: seq<T>)
    ensures |ys| == |xs|
    ensures forall k :: 0 <= k < |xs| ==> ys[k] == xs[|xs| - 1 - k]
  {
    var list := new LinkedList<T>();
    var i := 0;
    while i < |xs|
      invariant 0 <= i <= |xs|
      invariant list.Valid() && fresh(list.Repr)
      invariant list.elems == xs[..i]
    {
      list.PushBack(xs[i]);
      i := i + 1;
    }
    ys := [];
    while !list.IsEmpty()
      invariant list.Valid() && fresh(list.Repr)
      invariant |ys| + |list.elems| == |xs|
      invariant list.elems == xs[..|list.elems|]
      invariant forall k :: 0 <= k < |ys| ==> ys[k] == xs[|xs| - 1 - k]
      decreases |list.elems|
    {
      var r := list.PopBack();
      ys := ys + [r.value];
    }
  }

}
