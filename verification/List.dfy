/** The circular doubly linked intrusive list of src/utils/list.c. */
module List {
  import opened Options
  import opened Sequences

  class Node<T> {
    var next: Node<T>
    var prev: Node<T>
    var owner: T

    constructor (owner: T)
      ensures next == this && prev == this && this.owner == owner
    {
      next, prev, this.owner := this, this, owner;
    }

    /** `utils_list_node_linked`. */
    predicate Linked()
      reads this
    {
      next != this
    }
  }

  /** `ring` is linked both ways; it begins and ends with the head. */
  ghost predicate Chained<T>(ring: seq<Node<T>>)
    reads ring
  {
    forall i :: 0 <= i < |ring| - 1 ==> ring[i].next == ring[i + 1] && ring[i + 1].prev == ring[i]
  }

  class List<T> {
    const head: Node<T>
    var length: nat
    /** The nodes in the order of the `next` pointers, without the head. */
    ghost var nodes: seq<Node<T>>

    ghost function Ring(): seq<Node<T>>
      reads this
    {
      [head] + nodes + [head]
    }

    ghost predicate Valid()
      reads this, Ring()
    {
      && length == |nodes|
      && head !in nodes && Distinct(nodes)
      && Chained(Ring())
    }

    constructor (owner: T)
      ensures Valid() && nodes == [] && fresh(head)
    {
      head := new Node(owner);
      length := 0;
      nodes := [];
    }

    /** `utils_list_add`: the node becomes the first. */
    method Add(node: Node<T>)
      requires Valid() && node != head && node !in nodes
      modifies this, Ring(), node
      ensures Valid() && nodes == [node] + old(nodes)
      ensures forall n :: n in old(Ring()) || n == node ==> n.owner == old(n.owner)
    {
      ghost var ring := Ring();
      assert ring[0] == head && ring[1] == head.next;
      head.next.prev := node;
      node.next := head.next;
      node.prev := head;
      head.next := node;
      nodes := [node] + nodes;
      length := length + 1;
      ghost var ring' := Ring();
      forall i | 0 <= i < |ring'| - 1 ensures ring'[i].next == ring'[i + 1] && ring'[i + 1].prev == ring'[i] {
        if i >= 2 { assert ring'[i] == ring[i - 1] && ring'[i + 1] == ring[i] && ring[i - 1] != head; }
      }
    }

    /** `utils_list_del`: the node leaves the list and is unlinked; the others keep their order. */
    method Del(node: Node<T>, ghost k: nat)
      requires Valid() && k < |nodes| && nodes[k] == node
      modifies this, Ring()
      ensures Valid() && nodes == old(nodes)[..k] + old(nodes)[k + 1..]
      ensures !node.Linked() && node.prev == node
      ensures forall n :: n in old(Ring()) ==> n.owner == old(n.owner)
    {
      ghost var ring := Ring();
      assert ring[k + 1] == node && ring[k] == node.prev && ring[k + 2] == node.next;
      node.next.prev := node.prev;
      node.prev.next := node.next;
      length := length - 1;
      nodes := nodes[..k] + nodes[k + 1..];
      node.next := node;
      node.prev := node;
      ghost var ring' := Ring();
      forall i | 0 <= i < |ring'| - 1 ensures ring'[i].next == ring'[i + 1] && ring'[i + 1].prev == ring'[i] {
        assert ring'[i] == (if i <= k then ring[i] else ring[i + 1]);
        assert ring'[i + 1] == (if i < k then ring[i + 1] else ring[i + 2]);
      }
    }

    /** `utils_list_pop_head`. */
    method PopHead() returns (r: Option<Node<T>>)
      requires Valid()
      modifies this, Ring()
      ensures Valid()
      ensures old(nodes) == [] ==> r == None && nodes == []
      ensures old(nodes) != [] ==> r == Some(old(nodes)[0]) && nodes == old(nodes)[1..] && !r.value.Linked()
    {
      if length == 0 {
        return None;
      }
      assert Ring()[0] == head && Ring()[1] == nodes[0];
      var node := head.next;
      Del(node, 0);
      return Some(node);
    }

    /** `utils_list_pop_tail`. */
    method PopTail() returns (r: Option<Node<T>>)
      requires Valid()
      modifies this, Ring()
      ensures Valid()
      ensures old(nodes) == [] ==> r == None && nodes == []
      ensures old(nodes) != [] ==>
        r == Some(old(nodes)[|old(nodes)| - 1]) && nodes == old(nodes)[..|old(nodes)| - 1] && !r.value.Linked()
    {
      if length == 0 {
        return None;
      }
      ghost var k := |nodes| - 1;
      assert Ring()[k + 1] == nodes[k] && Ring()[k + 2] == head;
      var node := head.prev;
      Del(node, k);
      return Some(node);
    }

    /** `utils_list_to_array`: the owners in order; without an array, only their number. */
    method ToArray(a: array?<T>) returns (n: nat)
      requires Valid() && (a != null ==> length <= a.Length)
      modifies a
      ensures n == |nodes| && Valid()
      ensures a != null ==> forall i :: 0 <= i < n ==> a[i] == nodes[i].owner
      ensures a != null ==> a[n..] == old(a[n..])
    {
      if a == null {
        return length;
      }
      ghost var ring := Ring();
      if length > 0 {
        var itr, i := head.next, 0;
        assert ring[0] == head;
        while itr != head
          invariant 0 <= i <= |nodes| && itr == ring[i + 1]
          invariant forall j :: 0 <= j < i ==> a[j] == nodes[j].owner
          invariant a[length..] == old(a[length..])
          decreases |nodes| - i
        {
          assert ring[i + 1] == nodes[i];
          a[i] := itr.owner;
          itr := itr.next;
          i := i + 1;
        }
        assert i == |nodes|;
      }
      n := length;
    }

    /** The node reached from the head by `k` steps along `next`, and along `prev`. */
    ghost function Forward(k: nat): Node<T>
      requires Valid() && k <= |nodes|
      reads this, Ring()
      ensures Forward(k) == Ring()[k]
    {
      if k == 0 then head else
        assert Ring()[k - 1].next == Ring()[k - 1 + 1];
        Forward(k - 1).next
    }

    ghost function Backward(k: nat): Node<T>
      requires Valid() && k <= |nodes|
      reads this, Ring()
      ensures Backward(k) == Ring()[|nodes| + 1 - k]
    {
      if k == 0 then head else
        var i := |nodes| + 1 - k;
        assert Ring()[i + 1].prev == Ring()[i];
        Backward(k - 1).prev
    }

    /** The forward walk is the abstract sequence, the backward walk its reverse, and both return to the
        head after `length` nodes. A node of the list is linked. */
    lemma Walks(k: nat)
      requires Valid() && k < |nodes|
      ensures Forward(k + 1) == nodes[k] && Backward(k + 1) == nodes[|nodes| - 1 - k]
      ensures Forward(|nodes|).next == head && Backward(|nodes|).prev == head
      ensures nodes[k].Linked()
    {
      assert Ring()[|nodes|].next == Ring()[|nodes| + 1];
      assert Ring()[0 + 1].prev == Ring()[0];
      assert Ring()[k + 1].next == Ring()[k + 1 + 1];
      assert Ring()[k + 1] == nodes[k];
    }
  }
}
