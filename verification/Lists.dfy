/** The nodes both list classes link. */
module Links {

  class LNode<T> {
    var data: T
    var prev: LNode?<T>
    var next: LNode?<T>

    constructor (data: T, prev: LNode?<T>, next: LNode?<T>)
      ensures this.data == data && this.prev == prev && this.next == next
    {
      this.data, this.prev, this.next := data, prev, next;
    }
  }

  ghost predicate Distinct<T>(s: seq<T>) {
    forall i, j :: 0 <= i < j < |s| ==> s[i] != s[j]
  }

  /** The nodes form one doubly linked list, in this order. */
  ghost predicate Linked<T>(nodes: seq<LNode<T>>)
    reads nodes
  {
    && Distinct(nodes)
    && (forall i {:trigger nodes[i].prev} :: 0 <= i < |nodes| ==>
          nodes[i].prev == if i == 0 then null else nodes[i - 1])
    && (forall i {:trigger nodes[i].next} :: 0 <= i < |nodes| ==>
          nodes[i].next == if i == |nodes| - 1 then null else nodes[i + 1])
  }

  ghost function Without<T>(s: seq<T>, i: nat): (r: seq<T>)
    requires i < |s|
    ensures |r| == |s| - 1
    ensures forall j :: 0 <= j < |r| ==> r[j] == if j < i then s[j] else s[j + 1]
  {
    s[..i] + s[i + 1..]
  }

  /** Takes node `i` out of the chain of its neighbours. */
  method Unlink<T>(node: LNode<T>, ghost nodes: seq<LNode<T>>, ghost i: nat)
    requires Linked(nodes) && i < |nodes| && nodes[i] == node
    modifies nodes
    ensures Linked(Without(nodes, i))
    ensures forall j :: 0 <= j < |nodes| ==> nodes[j].data == old(nodes[j].data)
    ensures node.prev == old(node.prev) && node.next == old(node.next)
  {
    if node.prev != null { node.prev.next := node.next; }
    if node.next != null { node.next.prev := node.prev; }
  }
}

/** llist.cc: the bucket lists under the cache. */
module LLists {
  import opened Links

  class LList<T> {
    var size: int
    var first: LNode?<T>
    var end: LNode?<T>
    ghost var nodes: seq<LNode<T>>
    ghost var contents: seq<T>

    ghost predicate Valid()
      reads this, nodes
    {
      && Linked(nodes)
      && size == |nodes| == |contents|
      && (forall i {:trigger nodes[i].data} :: 0 <= i < |nodes| ==> nodes[i].data == contents[i])
      && first == (if nodes == [] then null else nodes[0])
      && end == (if nodes == [] then null else nodes[|nodes| - 1])
    }

    constructor ()
      ensures Valid() && contents == [] && nodes == []
    {
      size, first, end, nodes, contents := 0, null, null, [], [];
    }

    method PushBack(data: T)
      requires Valid()
      modifies this, nodes
      ensures Valid() && contents == old(contents) + [data]
      ensures |nodes| == |old(nodes)| + 1 && nodes[..|old(nodes)|] == old(nodes) && fresh(nodes[|old(nodes)|])
    {
      var n := new LNode<T>(data, end, null);
      if first == null { first := n; }
      if end != null { end.next := n; }
      end := n;
      size := size + 1;
      nodes, contents := nodes + [n], contents + [data];
    }

    method Del(node: LNode<T>, ghost i: nat)
      requires Valid() && i < |nodes| && nodes[i] == node
      modifies this, nodes
      ensures Valid() && nodes == Without(old(nodes), i)
      ensures contents == Without(old(contents), i)
    {
      assert node == first <==> i == 0;
      assert node == end <==> i == |nodes| - 1;
      Unlink(node, nodes, i);
      if first == node { first := node.next; }
      if end == node { end := node.prev; }
      size := size - 1;
      nodes, contents := Without(nodes, i), Without(contents, i);
    }
  }
}

/** linklist.h: the bucket lists under the hash table. */
module LinkLists {
  import opened Links

  class LinkList<T> {
    var size: int
    var begin: LNode?<T>
    var end: LNode?<T>
    ghost var nodes: seq<LNode<T>>
    ghost var contents: seq<T>

    ghost predicate Valid()
      reads this, nodes
    {
      && Linked(nodes)
      && size == |nodes| == |contents|
      && (forall i {:trigger nodes[i].data} :: 0 <= i < |nodes| ==> nodes[i].data == contents[i])
      && begin == (if nodes == [] then null else nodes[0])
      && end == (if nodes == [] then null else nodes[|nodes| - 1])
    }

    constructor ()
      ensures Valid() && contents == [] && nodes == []
    {
      size, begin, end, nodes, contents := 0, null, null, [], [];
    }

    method InsertAfter(n: LNode<T>, newNode: LNode<T>)
      requires n != newNode && n.next != newNode && n.next != n
      modifies n, newNode, n.next
      ensures newNode.prev == n && newNode.next == old(n.next) && n.next == newNode
      ensures old(n.next) != null ==> old(n.next).prev == newNode
      ensures n.prev == old(n.prev) && n.data == old(n.data) && newNode.data == old(newNode.data)
    {
      var nxt := n.next;
      newNode.prev := n;
      newNode.next := nxt;
      n.next := newNode;
      if nxt != null { nxt.prev := newNode; }
    }

    method Append(data: T)
      requires Valid()
      modifies this, nodes
      ensures Valid() && contents == old(contents) + [data]
      ensures |nodes| == |old(nodes)| + 1 && nodes[..|old(nodes)|] == old(nodes) && fresh(nodes[|old(nodes)|])
    {
      var n := new LNode<T>(data, null, null);
      if size == 0 {
        begin := n;
        end := n;
      } else {
        InsertAfter(end, n);
        end := n;
      }
      size := size + 1;
      nodes, contents := nodes + [n], contents + [data];
    }

    /** The first node whose data compares equal, or null. */
    method Contains(same: T -> bool) returns (n: LNode?<T>, ghost i: nat)
      requires Valid()
      ensures i <= |nodes|
      ensures forall j :: 0 <= j < i ==> !same(contents[j])
      ensures if i == |nodes| then n == null else n == nodes[i] && same(contents[i])
    {
      n, i := begin, 0;
      while n != null
        invariant 0 <= i <= |nodes|
        invariant n == if i == |nodes| then null else nodes[i]
        invariant forall j :: 0 <= j < i ==> !same(contents[j])
        decreases |nodes| - i
      {
        if same(n.data) { break; }
        n := n.next;
        i := i + 1;
      }
    }

    method Del(n: LNode<T>, ghost i: nat)
      requires Valid() && i < |nodes| && nodes[i] == n
      modifies this, nodes
      ensures Valid() && nodes == Without(old(nodes), i)
      ensures contents == Without(old(contents), i)
    {
      assert n == begin <==> i == 0;
      assert n == end <==> i == |nodes| - 1;
      if n == begin { begin := n.next; }
      if n == end { end := n.prev; }
      Unlink(n, nodes, i);
      size := size - 1;
      nodes, contents := Without(nodes, i), Without(contents, i);
    }

    /** Replaces the data of node `i` in place. */
    method Replace(n: LNode<T>, ghost i: nat, data: T)
      requires Valid() && i < |nodes| && nodes[i] == n
      modifies this`contents, n`data
      ensures Valid() && contents == old(contents)[i := data]
      ensures nodes == old(nodes)
    {
      n.data := data;
      contents := contents[i := data];
    }

    /** Walks the list, giving up one node after the other until `size` is 0; returns how many. */
    method DestroyNodes() returns (freed: seq<LNode<T>>)
      requires Valid()
      modifies this
      ensures Valid() && contents == [] && nodes == []
      ensures freed == old(nodes)
    {
      var n1 := begin;
      freed := [];
      while size > 0
        invariant 0 <= size <= |nodes| && nodes == old(nodes) && Linked(nodes)
        invariant n1 == if size == 0 then null else nodes[|nodes| - size]
        invariant freed == nodes[..|nodes| - size]
        decreases size
      {
        var n2 := n1.next;
        freed := freed + [n1];
        n1 := n2;
        size := size - 1;
      }
      begin, end, nodes, contents := null, null, [], [];
    }
  }
}
