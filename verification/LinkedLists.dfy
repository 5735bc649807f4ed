/** The intrusive doubly linked list.  The links live in a node that is part of a larger structure. */
module LinkedLists {

  /** The link part of a structure; its address tells which structure it is part of. */
  class Node {
    const address: nat
    var previous: Node?
    var next: Node?

    constructor (address: nat)
      ensures this.address == address && previous == null && next == null
    {
      this.address, previous, next := address, null, null;
    }
  }

  class LinkedList {
    var first: Node?
    var last: Node?
    ghost var nodes: seq<Node>

    /** first, last and the links of every node spell out the sequence of nodes. */
    ghost predicate Valid()
      reads this, nodes
    {
      && (forall i, j :: 0 <= i < j < |nodes| ==> nodes[i] != nodes[j])
      && (nodes == [] ==> first == null && last == null)
      && (nodes != [] ==> first == nodes[0] && last == nodes[|nodes| - 1])
      && (nodes != [] ==> nodes[0].previous == null && nodes[|nodes| - 1].next == null)
      && (forall i, j :: 0 <= i && j == i + 1 && j < |nodes| ==>
            nodes[i].next == nodes[j] && nodes[j].previous == nodes[i])
    }

    constructor ()
      ensures Valid() && nodes == []
    {
      first, last, nodes := null, null, [];
    }

    /** An empty list has no first and no last node. */
    lemma Ends()
      requires Valid()
      ensures (first == null <==> nodes == []) && (last == null <==> nodes == [])
      ensures nodes != [] ==> first == nodes[0] && last == nodes[|nodes| - 1] && last in nodes
    {
    }

    method AddNode(node: Node)
      requires Valid() && node !in nodes
      modifies this, node, last
      ensures Valid() && nodes == old(nodes) + [node]
    {
      node.previous := last;
      node.next := null;
      last := node;
      if node.previous != null {
        node.previous.next := node;
      } else {
        first := node;
      }
      ghost var s := nodes;
      nodes := nodes + [node];
      assert forall j :: 0 <= j < |s| ==> nodes[j] == s[j] && s[j] in s;
    }

    /** Unlinks node number i, wherever it stands; only its neighbours are touched. */
    method RemoveNode(node: Node, ghost i: nat)
      requires Valid() && i < |nodes| && nodes[i] == node
      modifies this, node, node.previous, node.next
      ensures Valid() && nodes == old(nodes[..i]) + old(nodes[i + 1..])
      ensures node.previous == null && node.next == null
    {
      ghost var s := nodes;
      assert i == 0 || node.previous == s[i - 1];
      assert i + 1 == |s| || node.next == s[i + 1];
      if node.previous != null {
        node.previous.next := node.next;
      } else {
        first := node.next;
      }
      if node.next != null {
        node.next.previous := node.previous;
      } else {
        last := node.previous;
      }
      node.previous, node.next := null, null;
      nodes := nodes[..i] + nodes[i + 1..];
      assert forall j :: 0 <= j < |nodes| ==> nodes[j] == s[if j < i then j else j + 1];
    }
  }
}
