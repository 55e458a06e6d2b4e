/** The intrusive list of gnb_doubly_linked_list.c, proved to be a sequence of distinct nodes. */
module DoublyLinkedList {
  import opened Sequences

  class Node<D> {
    var pre: Node?<D>
    var nex: Node?<D>
    var data: D

    constructor (data: D)
      ensures this.data == data
    {
      pre, nex := null, null;
      this.data := data;
    }
  }

  class List<D> {
    var head: Node?<D>
    var tail: Node?<D>
    var num: nat
    ghost var nodes: seq<Node<D>> // from head to tail

    // The links spell s: nex walks it from head to tail and ends there, pre walks it back.
    ghost predicate Linked(s: seq<Node<D>>)
      reads this`head, this`tail, s`pre, s`nex
    {
      && Distinct(s)
      && (s == [] ==> head == null && tail == null)
      && (s != [] ==> head == s[0] && tail == s[|s| - 1] && s[0].pre == null && s[|s| - 1].nex == null)
      && (forall i {:trigger s[i].pre} :: 0 < i < |s| ==> s[i].pre == s[i - 1])
      && (forall i {:trigger s[i].nex} :: 0 <= i < |s| - 1 ==> s[i].nex == s[i + 1])
    }

    ghost predicate Valid()
      reads this, nodes`pre, nodes`nex
      ensures Valid() ==> num == |nodes| && Distinct(nodes)
      ensures Valid() ==> if nodes == [] then head == tail == null else head == nodes[0] && tail == nodes[num - 1]
    {
      num == |nodes| && Linked(nodes)
    }

    constructor ()
      ensures Valid() && nodes == []
    {
      head, tail, num, nodes := null, null, 0, [];
    }

    method Add(node: Node<D>)
      requires Valid() && node !in nodes
      modifies this, node`pre, node`nex, nodes`pre
      ensures Valid() && nodes == [node] + old(nodes)
    {
      if num == 0 {
        head := node;
        node.pre := null;
        node.nex := null;
        tail := node;
      } else if num == 1 {
        node.pre := null;
        node.nex := head;
        head.pre := node;
        tail := head;
        head := node;
      } else {
        node.pre := null;
        node.nex := head;
        head.pre := node;
        head := node;
      }
      num := num + 1;
      nodes := [node] + nodes;
    }

    method PopHead() returns (node: Node?<D>)
      requires Valid()
      modifies this, nodes`pre
      ensures Valid()
      ensures old(nodes) == [] ==> node == null && nodes == []
      ensures old(nodes) != [] ==> node == old(nodes[0]) && nodes == old(nodes)[1..]
    {
      if num == 0 {
        return null;
      }
      if num == 1 {
        if head != tail {
          return null;
        }
        node := head;
        head, tail, num := null, null, 0;
        nodes := [];
        return;
      }
      if head == tail {
        return null;
      }
      node := head;
      head := node.nex;
      head.pre := null;
      num := num - 1;
      nodes := nodes[1..];
    }

    method PopTail() returns (node: Node?<D>)
      requires Valid()
      modifies this, nodes`nex
      ensures Valid()
      ensures old(nodes) == [] ==> node == null && nodes == []
      ensures old(nodes) != [] ==> node == old(nodes[|nodes| - 1]) && nodes == old(nodes)[..old(|nodes|) - 1]
    {
      if num == 0 {
        return null;
      }
      if num == 1 {
        if head != tail {
          return null;
        }
        node := tail;
        head, tail, num := null, null, 0;
        nodes := [];
        return;
      }
      if head == tail {
        return null;
      }
      node := tail;
      tail := node.pre;
      tail.nex := null;
      num := num - 1;
      nodes := nodes[..num];
    }

    // Close the gap a node leaves that is not the head.
    method Detach(node: Node<D>, ghost s: seq<Node<D>>, ghost k: nat)
      requires Linked(s) && 0 < k < |s| && s[k] == node
      modifies this`tail, s`pre, s`nex
      ensures Linked(RemoveAt(s, k))
    {
      DistinctRemove(s, k);
      var preNode, nexNode := node.pre, node.nex;
      if nexNode != null {
        nexNode.pre := preNode;
      } else {
        tail := preNode;
      }
      preNode.nex := nexNode;
      ghost var r := RemoveAt(s, k);
      forall i | 0 < i < |r| ensures r[i].pre == r[i - 1] {
        assert r[i] == s[if i < k then i else i + 1];
      }
      forall i | 0 <= i < |r| - 1 ensures r[i].nex == r[i + 1] {
        assert r[i] == s[if i < k then i else i + 1];
      }
    }

    method Attach(node: Node<D>, ghost s: seq<Node<D>>)
      requires Linked(s) && s != [] && node !in s
      modifies this`head, node`pre, node`nex, s`pre
      ensures Linked([node] + s)
    {
      node.nex := head;
      head.pre := node;
      head := node;
      node.pre := null;
    }

    method MoveHead(node: Node<D>, ghost k: nat)
      requires Valid() && k < |nodes| && nodes[k] == node
      modifies this, nodes`pre, nodes`nex
      ensures Valid() && nodes == Touch(old(nodes), k)
    {
      if num == 1 || num == 2 {
        return;
      }
      if node.pre == null {
        assert k == 0;
        TouchHead(nodes);
        return;
      }
      ghost var others := RemoveAt(nodes, k);
      DistinctRemove(nodes, k);
      Detach(node, nodes, k);
      Attach(node, others);
      nodes := [node] + others;
    }

    method Pop(node: Node<D>, ghost k: nat) returns (rc: int)
      requires Valid() && (nodes != [] ==> k < |nodes| && nodes[k] == node)
      modifies this, nodes`pre, nodes`nex
      ensures Valid() && rc == 0
      ensures nodes == if old(nodes) == [] then [] else RemoveAt(old(nodes), k)
    {
      if num == 0 {
        return 0;
      }
      DistinctRemove(nodes, k);
      var preNode, nexNode := node.pre, node.nex;
      if preNode == null && nexNode == null {
        if head != node || tail != node || num != 1 {
          return -1;
        }
        head, tail, num := null, null, 0;
        nodes := [];
        return 0;
      }
      if preNode == null {
        if head != node || num == 1 {
          return -1;
        }
        nexNode.pre := null;
        head := nexNode;
      } else {
        if nexNode == null && (tail != node || num == 1) {
          return -1;
        }
        Detach(node, nodes, k);
      }
      num := num - 1;
      nodes := RemoveAt(nodes, k);
      return 0;
    }
  }
}
