/**
 The list of children of a cJSON node (nrf/ext/iperf3/cjson.c): siblings linked both ways, where the
 first one's `prev`, which has no other use, caches the last one. Each operation is proved to
 act on the sequence of siblings, and to keep the cache right exactly under a condition that
 can be seen beforehand.
 */
module JsonSiblings {

  class Node {
    var next: Node?
    var prev: Node?

    constructor ()
      ensures next == null && prev == null
    {
      next, prev := null, null;
    }
  }

  class Parent {
    var child: Node?

    /** Following `child` and `next` visits these nodes; following `prev` goes back to the first. */
    ghost predicate Linked(nodes: seq<Node>)
      reads this, nodes
    {
      && (forall i, j :: 0 <= i < j < |nodes| ==> nodes[i] != nodes[j])
      && child == (if nodes == [] then null else nodes[0])
      && (forall i {:trigger nodes[i].next} :: 0 <= i < |nodes| ==> nodes[i].next == if i + 1 < |nodes| then nodes[i + 1] else null)
      && (forall i {:trigger nodes[i].prev} :: 0 < i < |nodes| ==> nodes[i].prev == nodes[i - 1])
    }

    /** The first node's `prev` is the last node, or unset as after parsing. */
    ghost predicate TailCached(nodes: seq<Node>)
      reads this, nodes
    {
      nodes != [] ==> nodes[0].prev == null || nodes[0].prev == nodes[|nodes| - 1]
    }

    ghost predicate Chain(nodes: seq<Node>)
      reads this, nodes
    {
      Linked(nodes) && TailCached(nodes)
    }

    constructor ()
      ensures Chain([])
    {
      child := null;
    }

    /** get_array_item. */
    method GetItem(index: nat, ghost nodes: seq<Node>) returns (node: Node?)
      requires Linked(nodes)
      ensures node == if index < |nodes| then nodes[index] else null
    {
      var i := 0;
      node := child;
      while node != null && i < index
        invariant i <= |nodes| && i <= index && node == if i < |nodes| then nodes[i] else null
        decreases |nodes| - i
      {
        node, i := node.next, i + 1;
      }
    }

    /** The node that the first one caches, if any. */
    ghost function Cached(): set<Node>
      reads this, child
    {
      if child == null || child.prev == null then {} else {child.prev}
    }

    /** The cache names a node that has left the list. */
    ghost predicate Stale(nodes: seq<Node>)
      reads this, nodes
    {
      nodes != [] && nodes[0].prev != null && nodes[0].prev !in nodes
    }

    /** add_item_to_array: appends, by way of the cache if it is set. With a stale cache the item
        hangs off the node that left, and the list does not grow. */
    method Add(item: Node, ghost nodes: seq<Node>)
      requires Linked(nodes) && (TailCached(nodes) || Stale(nodes))
      requires item !in nodes && (nodes != [] ==> item.next == null)
      modifies this, nodes, item, Cached()
      ensures old(TailCached(nodes)) ==> Chain(nodes + [item]) && (nodes + [item])[0].prev == item
      ensures old(Stale(nodes)) ==> Linked(nodes) && Stale(nodes) && nodes[0].prev == item && old(nodes[0].prev).next == item
    {
      if child == null {
        child, item.prev, item.next := item, item, null;
      } else {
        var last := child.prev;
        if last == null {
          last := child;
          ghost var i := 0;
          while last.next != null
            invariant 0 <= i < |nodes| && last == nodes[i]
            decreases |nodes| - i
          {
            assert nodes[i].next != null;
            last, i := last.next, i + 1;
          }
          assert nodes[i].next == null;
        }
        assert last == nodes[|nodes| - 1] || Stale(nodes);
        last.next := item;
        item.prev := last;
        child.prev := item;
      }
    }

    /** So what is added after the cached last node was detached is not in the list. */
    method DetachLastThenAdd(last: Node, item: Node, ghost nodes: seq<Node>)
      requires Chain(nodes) && |nodes| >= 2 && nodes[|nodes| - 1] == last && nodes[0].prev == last
      requires item !in nodes && item.next == null
      modifies this, nodes, item
      ensures Linked(nodes[..|nodes| - 1]) && last.next == item
    {
      ghost var n := |nodes| - 1;
      assert nodes[..n] + nodes[n + 1..] == nodes[..n];
      Detach(n, last, nodes);
      assert nodes[..n][0] == nodes[0];
      Add(item, nodes[..n]);
    }

    /** cJSON_InsertItemInArray. */
    method Insert(which: nat, item: Node, ghost nodes: seq<Node>)
      requires Chain(nodes) && item !in nodes && item.next == null
      modifies this, nodes, item
      ensures Chain(if which < |nodes| then nodes[..which] + [item] + nodes[which..] else nodes + [item])
      ensures child != null && child.prev == if which < |nodes| then old(nodes[0].prev) else item
    {
      var after := GetItem(which, nodes);
      if after == null {
        Add(item, nodes);
      } else {
        InsertBefore(after, which, item, nodes);
      }
    }

    method InsertBefore(after: Node, ghost i: nat, item: Node, ghost nodes: seq<Node>)
      requires Chain(nodes) && item !in nodes && i < |nodes| && nodes[i] == after
      modifies this, nodes, item
      ensures Chain(nodes[..i] + [item] + nodes[i..]) && child != null && child.prev == old(nodes[0].prev)
    {
      ghost var longer := nodes[..i] + [item] + nodes[i..];
      assert forall k :: 0 <= k < |longer| ==> longer[k] == if k < i then nodes[k] else if k == i then item else nodes[k - 1];
      assert nodes[i].prev == after.prev;
      item.next := after;
      item.prev := after.prev;
      after.prev := item;
      if after == child {
        child := item;
      } else {
        item.prev.next := item;
      }
    }

    /** cJSON_DetachItemViaPointer on a child: the sequence loses it, and the cache stays right
        unless it named the very node that goes, with others left. */
    method Detach(ghost i: nat, item: Node, ghost nodes: seq<Node>)
      requires Chain(nodes) && i < |nodes| && nodes[i] == item
      modifies this, nodes
      ensures Linked(nodes[..i] + nodes[i + 1..])
      ensures TailCached(nodes[..i] + nodes[i + 1..]) <==> !(0 < i == |nodes| - 1 && old(nodes[0].prev) == item)
      ensures 0 < i == |nodes| - 1 && old(nodes[0].prev) == item ==> Stale(nodes[..i] + nodes[i + 1..]) && nodes[0].prev == item
      ensures child != null ==> child.prev == old(nodes[0].prev)
      ensures item.next == null && item.prev == null
    {
      assert nodes[i].prev == item.prev && nodes[i].next == item.next;
      if item != child {
        item.prev.next := item.next;
      }
      if item.next != null {
        item.next.prev := item.prev;
      }
      if item == child {
        child := item.next;
      }
      item.prev := null;
      item.next := null;
    }

    /** cJSON_ReplaceItemViaPointer on a child: the sequence is updated in place, and the cache
        stays right unless it named the node replaced. */
    method Replace(ghost i: nat, item: Node, replacement: Node, ghost nodes: seq<Node>)
      requires Chain(nodes) && i < |nodes| && nodes[i] == item && (replacement == item || replacement !in nodes)
      modifies this, nodes, replacement
      ensures Linked(nodes[i := replacement])
      ensures TailCached(nodes[i := replacement]) <==> replacement == item || old(nodes[0].prev) != item
      ensures child != null && child.prev == old(nodes[0].prev)
      ensures replacement != item ==> item.next == null && item.prev == null
    {
      if replacement == item {
        return;
      }
      assert nodes[i].prev == item.prev && nodes[i].next == item.next;
      replacement.next := item.next;
      replacement.prev := item.prev;
      if replacement.next != null {
        replacement.next.prev := replacement;
      }
      if child == item {
        child := replacement;
      } else if replacement.prev != null {
        replacement.prev.next := replacement;
      }
      item.next := null;
      item.prev := null;
    }
  }
}
