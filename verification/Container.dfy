/** The container object of usrtc.h. */
module Container {
  import opened Links

  datatype Impl = USRTC_LIST | USRTC_BST | USRTC_REDBLACK | USRTC_SPLAY | USRTC_AVL

  class Usrtc {
    var futable: Impl
    var nodecount: nat
    var maxcount: nat
    var dupes_allowed: bool
    const sentinel: Node
    /** The entries held, in order. */
    ghost var items: seq<Entry>
    /** The linked tree, in the four tree modes. */
    ghost var tree: Tree

    constructor (impl: Impl, max: nat)
      ensures futable == impl && nodecount == 0 && maxcount == max && !dupes_allowed
      ensures fresh(sentinel) && items == [] && tree == Leaf
    {
      futable, nodecount, maxcount, dupes_allowed := impl, 0, max, false;
      sentinel := new Node();
      items, tree := [], Leaf;
    }
  }
}
