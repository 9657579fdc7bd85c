/// The heap cell of a binary search tree.
module Cells {
  /** One key and two optional child links; every field may be reassigned in place. */
  class Node {
    var value: int
    var left: Node?
    var right: Node?

    /** A fresh leaf holding `value`. */
    constructor (value: int)
      ensures this.value == value && left == null && right == null
    {
      this.value := value;
      left := null;
      right := null;
    }
  }
}
