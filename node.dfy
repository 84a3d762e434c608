/**
 * One heap-resident node of the list: an element and two navigation links.
 */
module Nodes {

  /**
   * A link is either absent (`null`) or a reference to a real, allocated
   * node; there is no third "dangling" value, so "no neighbour" is always
   * written as absence.
   */
  type Link<T> = Node?<T>

  class Node<T> {
    var previous: Link<T>
    var next: Link<T>
    var element: T

    /** A fresh node holds `element` and has no neighbours. */
    constructor (element: T)
      ensures previous == null
      ensures next == null
      ensures this.element == element
    {
      previous := null;
      next := null;
      this.element := element;
    }
  }

}
