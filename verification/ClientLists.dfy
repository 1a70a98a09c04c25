/** The doubly linked list that holds the server's clients. */
module ClientLists {

  /** Values are compared by identity. */
  type Value = nat

  class ListNode {
    const val: Value
    var prev: ListNode?
    var next: ListNode?

    constructor (val: Value)
      ensures this.val == val
    {
      this.val := val;
      prev, next := null, null;
    }
  }

  ghost predicate Distinct(nodes: seq<ListNode>) {
    forall i, j :: 0 <= i < j < |nodes| ==> nodes[i] != nodes[j]
  }

  ghost function Before(nodes: seq<ListNode>, i: nat): ListNode?
    requires i <= |nodes|
  {
    if i == 0 then null else nodes[i - 1]
  }

  ghost function At(nodes: seq<ListNode>, i: nat): ListNode?
    requires i <= |nodes|
  {
    if i == |nodes| then null else nodes[i]
  }

  /** A chain of nodes is linked in both directions. */
  ghost predicate Linked(nodes: seq<ListNode>)
    reads nodes
  {
    && (forall i {:trigger nodes[i].prev} :: 0 <= i < |nodes| ==> nodes[i].prev == Before(nodes, i))
    && (forall i {:trigger nodes[i].next} :: 0 <= i < |nodes| ==> nodes[i].next == At(nodes, i + 1))
  }

  function Values(nodes: seq<ListNode>): (vals: seq<Value>)
    ensures |vals| == |nodes| && forall i :: 0 <= i < |nodes| ==> vals[i] == nodes[i].val
  {
    seq(|nodes|, i requires 0 <= i < |nodes| => nodes[i].val)
  }

  lemma ValuesWithout(nodes: seq<ListNode>, i: nat)
    requires i < |nodes| && Distinct(nodes)
    ensures var l := nodes[..i] + nodes[i + 1..];
            Distinct(l) && Values(l) == Values(nodes)[..i] + Values(nodes)[i + 1..]
  {
  }

  /** Once its neighbours bypass a node, the others are linked. */
  lemma LinkedWithout(nodes: seq<ListNode>, i: nat)
    requires i < |nodes|
    requires forall j {:trigger nodes[j].prev} :: 0 <= j < |nodes| && j != i ==>
               nodes[j].prev == Before(nodes, if j == i + 1 then i else j)
    requires forall j {:trigger nodes[j].next} :: 0 <= j < |nodes| && j != i ==>
               nodes[j].next == At(nodes, if j + 1 == i then i + 1 else j + 1)
    ensures Linked(nodes[..i] + nodes[i + 1..])
  {
    var l := nodes[..i] + nodes[i + 1..];
    forall k | 0 <= k < |l| ensures l[k].prev == Before(l, k) && l[k].next == At(l, k + 1) {
      assert l[k] == nodes[if k < i then k else k + 1];
    }
  }

  class ClientList {
    var head: ListNode?
    var tail: ListNode?
    var len: int
    ghost var nodes: seq<ListNode>

    ghost predicate Valid()
      reads this, nodes
    {
      && Distinct(nodes) && Linked(nodes) && len == |nodes|
      && head == At(nodes, 0) && tail == Before(nodes, |nodes|)
    }

    ghost function Contents(): seq<Value>
      reads this
    {
      Values(nodes)
    }

    constructor ()
      ensures Valid() && nodes == []
    {
      head, tail, len, nodes := null, null, 0, [];
    }

    method AddToTail(val: Value, allocOk: bool) returns (ok: bool)
      requires Valid()
      modifies this, nodes
      ensures Valid() && ok == allocOk
      ensures Contents() == if ok then old(Contents()) + [val] else old(Contents())
      ensures ok ==> old(nodes) <= nodes && fresh(nodes[|nodes| - 1])
    {
      if !allocOk {
        return false;
      }
      var node := new ListNode(val);
      node.next := null;
      node.prev := tail;
      if tail != null {
        tail.next := node;
      }
      tail := node;
      if head == null {
        head := node;
      }
      len := len + 1;
      nodes := nodes + [node];
      return true;
    }

    method AddToHead(val: Value, allocOk: bool) returns (ok: bool)
      requires Valid()
      modifies this, nodes
      ensures Valid() && ok == allocOk
      ensures Contents() == if ok then [val] + old(Contents()) else old(Contents())
    {
      if !allocOk {
        return false;
      }
      var node := new ListNode(val);
      if len == 0 {
        head := node;
        tail := node;
        node.next := null;
        node.prev := null;
      } else {
        node.next := head;
        node.prev := null;
        head.prev := node;
        head := node;
      }
      len := len + 1;
      nodes := [node] + nodes;
      return true;
    }

    /** Unlinks a node of the list. */
    method Delete(node: ListNode, ghost i: nat)
      requires Valid() && i < |nodes| && nodes[i] == node
      modifies this, nodes
      ensures Valid() && nodes == old(nodes)[..i] + old(nodes)[i + 1..]
      ensures Contents() == old(Contents())[..i] + old(Contents())[i + 1..]
    {
      hide Values;
      ValuesWithout(nodes, i);
      if node.prev != null {
        node.prev.next := node.next;
      } else {
        head := node.next;
      }
      if node.next != null {
        node.next.prev := node.prev;
      } else {
        tail := node.prev;
      }
      len := len - 1;
      LinkedWithout(nodes, i);
      nodes := nodes[..i] + nodes[i + 1..];
    }

    /** Finds the first node with the value, from a node of the list or from its head. */
    method Find(start: ListNode?, ghost from: nat, val: Value) returns (node: ListNode?, ghost i: nat)
      requires Valid() && if start == null then from == 0 else from < |nodes| && nodes[from] == start
      ensures from <= i <= |nodes| && node == At(nodes, i) && val !in Contents()[from..i]
      ensures node != null ==> node.val == val
      ensures node == null <==> val !in Contents()[from..]
    {
      node, i := if start != null then start else head, from;
      while node != null
        invariant from <= i <= |nodes| && node == At(nodes, i)
        invariant forall j :: from <= j < i ==> Contents()[j] != val
        decreases |nodes| - i
      {
        if node.val == val {
          assert Contents()[from..][i - from] == val;
          return;
        }
        node, i := node.next, i + 1;
      }
    }

    /** What dropping a client does to the list: its first occurrence goes, if there is one. */
    method Remove(val: Value) returns (removed: bool)
      requires Valid()
      modifies this, nodes
      ensures Valid() && removed == (val in old(Contents()))
      ensures Contents() == Without(old(Contents()), val)
    {
      var node, i := Find(null, 0, val);
      assert Contents()[0..] == Contents();
      removed := node != null;
      WithoutAt(Contents(), val, i);
      if removed {
        Delete(node, i);
      }
    }
  }

  function Without(s: seq<Value>, val: Value): seq<Value> {
    if s == [] then [] else if s[0] == val then s[1..] else [s[0]] + Without(s[1..], val)
  }

  lemma {:induction false} WithoutAt(s: seq<Value>, val: Value, i: nat)
    requires i <= |s| && val !in s[..i] && (i < |s| ==> s[i] == val)
    ensures Without(s, val) == if i < |s| then s[..i] + s[i + 1..] else s
  {
    if i > 0 {
      var t := s[1..];
      assert s[0] == s[..i][0];
      assert t[..i - 1] == s[..i][1..];
      WithoutAt(t, val, i - 1);
      if i < |s| {
        assert s[..i] == [s[0]] + t[..i - 1] && s[i + 1..] == t[i..];
      } else {
        assert [s[0]] + t == s;
      }
    }
  }
}
