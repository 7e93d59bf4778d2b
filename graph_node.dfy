/** A node of a flow graph or conflict graph (graph/Node.java). Two nodes are equal
    only when they are the same object, whatever value they carry, so a node is a
    class here and `new` gives a node distinct from every other. */
module GraphNode {
  import opened Wrappers

  class Node<T> {
    /** The carried value; a NOP node carries none. */
    const value: Option<T>

    /** `Node.of(v)`. */
    constructor Of(v: T)
      ensures value == Some(v)
    {
      value := Some(v);
    }

    /** `Node.nop()`. */
    constructor Nop()
      ensures value == None
    {
      value := None;
    }

    predicate HasValue() {
      value.Some?
    }
  }
}
