/** Singly linked lists whose links are rewritten in place (soaagent/utlist.h). */
module UtList {
  import opened CString

  /** A list element: a structure with a next pointer. */
  class Node<T> {
    const value: T
    var next: Node?<T>

    constructor (value: T)
      ensures this.value == value && next == null
    {
      this.value := value;
      next := null;
    }
  }

  /** Every node of the stretch points to the node after it. */
  ghost predicate Chained<T>(nodes: seq<Node<T>>)
    reads nodes
  {
    forall i | 0 <= i < |nodes| - 1 :: nodes[i].next == nodes[i + 1]
  }

  /** The acyclic list at head holds exactly these nodes, in this order. */
  ghost predicate List<T>(head: Node?<T>, nodes: seq<Node<T>>)
    reads nodes
  {
    && Distinct(nodes) && Chained(nodes)
    && (if nodes == [] then head == null else head == nodes[0] && nodes[|nodes| - 1].next == null)
  }

  /** A node is on a list exactly when walking from the head meets it: two lists at one head are the same. */
  lemma {:induction false} ListDetermined<T>(head: Node?<T>, a: seq<Node<T>>, b: seq<Node<T>>)
    requires List(head, a) && List(head, b)
    ensures a == b
  {
    if a == [] {
    } else {
      ListDetermined(a[0].next, a[1..], b[1..]);
      assert a == [a[0]] + a[1..] && b == [b[0]] + b[1..];
    }
  }

  lemma NextOf<T>(head: Node?<T>, nodes: seq<Node<T>>, i: nat)
    requires List(head, nodes) && i < |nodes|
    ensures nodes[i].next == (if i + 1 < |nodes| then nodes[i + 1] else null)
  {
  }

  /** LL_APPEND */
  method Append<T>(head: Node?<T>, add: Node<T>, ghost nodes: seq<Node<T>>) returns (head': Node?<T>)
    requires List(head, nodes) && add !in nodes
    modifies nodes`next, add`next
    ensures List(head', nodes + [add])
  {
    add.next := null;
    if head != null {
      var tmp: Node<T> := head;
      ghost var i := 0;
      while tmp.next != null
        invariant 0 <= i < |nodes| && tmp == nodes[i] && List(head, nodes) && add.next == null
        decreases |nodes| - i
      {
        NextOf(head, nodes, i);
        tmp := tmp.next;
        i := i + 1;
      }
      NextOf(head, nodes, i);
      tmp.next := add;
      head' := head;
      assert Chained(nodes + [add]) by {
        assert forall j | 0 <= j < |nodes| - 1 :: nodes[j] != tmp;
      }
    } else {
      head' := add;
    }
  }

  /** What unlinking the node after position i leaves. */
  lemma Unlinked<T>(head: Node?<T>, nodes: seq<Node<T>>, i: nat)
    requires Distinct(nodes) && i + 1 < |nodes| && head == nodes[0]
    requires nodes[i].next == (if i + 2 < |nodes| then nodes[i + 2] else null)
    requires forall j | 0 <= j < |nodes| - 1 && j != i :: nodes[j].next == nodes[j + 1]
    requires i + 2 < |nodes| ==> nodes[|nodes| - 1].next == null
    ensures List(head, Cut(nodes, i + 1))
  {
    CutEntries(nodes, i + 1);
    var left := Cut(nodes, i + 1);
    CutIndex(nodes, i + 1);
    hide Distinct, Cut;
    forall j | 0 <= j < |left| - 1
      ensures left[j].next == left[j + 1]
    {
      assert left[j] == nodes[if j <= i then j else j + 1];
      assert left[j + 1] == nodes[if j < i then j + 1 else j + 2];
    }
    assert left[|left| - 1] == nodes[if i + 2 == |nodes| then i else |nodes| - 1];
  }

  lemma ListTail<T>(head: Node<T>, nodes: seq<Node<T>>)
    requires List(head, nodes)
    ensures nodes != [] && head == nodes[0] && Distinct(nodes)
    ensures Cut(nodes, 0) == nodes[1..] && List(head.next, nodes[1..])
  {
    if |nodes| > 1 {
      assert nodes[0].next == nodes[1];
    }
    RestDistinct(nodes);
    RestChained(nodes);
    hide Distinct, Chained, Cut;
    CutFirst(nodes);
  }

  lemma CutFirst<E>(s: seq<E>)
    requires s != []
    ensures Cut(s, 0) == s[1..]
  {
  }

  lemma RestChained<T>(nodes: seq<Node<T>>)
    requires Chained(nodes) && nodes != []
    ensures Chained(nodes[1..])
  {
    hide Distinct;
  }

  lemma RestDistinct<E>(s: seq<E>)
    requires Distinct(s)
    ensures s != [] ==> Distinct(s[1..])
  {
  }

  /** All links of a list: each to the next node, the last to nothing. */
  lemma Links<T>(head: Node?<T>, nodes: seq<Node<T>>)
    requires List(head, nodes)
    ensures forall j | 0 <= j < |nodes| - 1 :: nodes[j].next == nodes[j + 1]
    ensures nodes != [] ==> nodes[|nodes| - 1].next == null
  {
  }

  /** LL_DELETE: takes the node off the list, or changes nothing if it is not on it. */
  method Delete<T>(head: Node<T>, del: Node<T>, ghost nodes: seq<Node<T>>) returns (head': Node?<T>)
    requires List(head, nodes)
    modifies nodes`next
    ensures List(head', Without(nodes, del))
    ensures del.next == old(del.next)
  {
    hide List, Chained, Without, Cut;
    ListTail(head, nodes);
    if head == del {
      WithoutAt(nodes, 0);
      head' := head.next;
    } else {
      var tmp: Node<T> := head;
      ghost var i := 0;
      while tmp.next != null && tmp.next != del
        invariant 0 <= i < |nodes| && tmp == nodes[i]
        invariant del !in nodes[..i + 1] && List(head, nodes) && del.next == old(del.next)
        decreases |nodes| - i
      {
        NextOf(head, nodes, i);
        tmp := tmp.next;
        i := i + 1;
      }
      NextOf(head, nodes, i);
      if tmp.next != null {
        WithoutAt(nodes, i + 1);
        NextOf(head, nodes, i + 1);
        Links(head, nodes);
        tmp.next := del.next;
        Unlinked(head, nodes, i);
      } else {
        assert nodes[..i + 1] == nodes;
        WithoutAbsent(nodes, del);
      }
      head' := head;
    }
  }

  /** LL_COUNT */
  method Count<T>(head: Node?<T>, ghost nodes: seq<Node<T>>) returns (counter: nat)
    requires List(head, nodes)
    ensures counter == |nodes|
  {
    counter := 0;
    var el := head;
    while el != null
      invariant counter <= |nodes| && el == (if counter < |nodes| then nodes[counter] else null)
      decreases |nodes| - counter
    {
      counter := counter + 1;
      el := el.next;
    }
  }
}
