/** Walking a container with first, next and prev. */
module Iteration {
  import opened Links
  import opened Order
  import opened Container
  import opened BinaryTree
  import opened Interface

  /** `usrtc_first` followed by `usrtc_next` until there is none: every item once, in order. */
  method Forward(us: Usrtc) returns (nodes: seq<Node>)
    requires Intact(us)
    ensures |nodes| == |us.items| && forall j | 0 <= j < |nodes| :: nodes[j] == us.items[j].n
  {
    hide Holds, Sorted, DistinctNodes;
    nodes := [];
    var node := First(us);
    while node != null
      invariant |nodes| <= |us.items| && node == FirstNode(us.items[|nodes|..])
      invariant forall j | 0 <= j < |nodes| :: nodes[j] == us.items[j].n
      decreases |us.items| - |nodes|
    {
      ghost var i := |nodes|;
      assert us.items[i..][0] == us.items[i];
      nodes := nodes + [node];
      node := Next(us, node, i);
    }
  }

  /** `usrtc_last` followed by `usrtc_prev`: the same items backwards. */
  method Backward(us: Usrtc) returns (nodes: seq<Node>)
    requires Intact(us)
    ensures |nodes| == |us.items| && forall j | 0 <= j < |nodes| :: nodes[j] == us.items[|us.items| - 1 - j].n
  {
    hide Holds, Sorted, DistinctNodes;
    nodes := [];
    var node := Last(us);
    assert us.items[..|us.items|] == us.items;
    while node != null
      invariant |nodes| <= |us.items| && node == LastNode(us.items[..|us.items| - |nodes|])
      invariant forall j | 0 <= j < |nodes| :: nodes[j] == us.items[|us.items| - 1 - j].n
      decreases |us.items| - |nodes|
    {
      ghost var i := |us.items| - |nodes|;
      assert us.items[..i][i - 1] == us.items[i - 1];
      nodes := nodes + [node];
      node := Prev(us, node, i - 1);
    }
  }

  /** One step there and one step back ends where it began, in both directions. */
  method ThereAndBack(us: Usrtc, node: Node, ghost i: nat) returns (next: Node?, prev: Node?)
    requires Intact(us) && i < |us.items| && us.items[i].n == node
    ensures next == if i + 1 < |us.items| then node else null
    ensures prev == if i > 0 then node else null
  {
    hide Holds, Sorted, DistinctNodes;
    next := Next(us, node, i);
    if next != null {
      assert us.items[..i + 1][i] == us.items[i];
      next := Prev(us, next, i + 1);
    }
    prev := Prev(us, node, i);
    if prev != null {
      assert us.items[i..][0] == us.items[i];
      prev := Next(us, prev, i - 1);
    }
  }
}
