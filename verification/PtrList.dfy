/** core/ptrlist.c, node by node.  `list_add_node` hangs the new node behind `tail` but
    never moves `tail`, so the second and every later item overwrites the first node
    and cuts the new node off again. */
module PtrList {

  class Node<T> {
    var item: T
    var next: Node?<T>

    constructor (item: T)
      ensures this.item == item && next == null
    {
      this.item, next := item, null;
    }
  }

  /** What a list shows of the items added to it. */
  function Shown<T>(added: seq<T>): seq<T> {
    if added == [] then [] else [added[|added| - 1]]
  }

  class PtrList<T> {
    var head: Node?<T>
    var tail: Node?<T>
    ghost var added: seq<T>       // every item handed to AddNode, in order
    ghost var made: nat      // nodes made so far

    ghost predicate Valid()
      reads this, head
    {
      && head == tail
      && (head == null <==> added == [])
      && (head != null ==> head.next == null && head.item == added[|added| - 1])
      && made == |added|
    }

    /** `list_new` */
    constructor ()
      ensures Valid() && added == []
    {
      head, tail, added, made := null, null, [], 0;
    }

    /** `list_add_node` */
    method AddNode(item: T)
      requires Valid()
      modifies this, tail
      ensures Valid() && added == old(added) + [item]
      ensures head == old(head) || fresh(head)
    {
      var n := new Node<T>(item);
      made := made + 1;
      if head == null {
        head := n;
        tail := head;
      } else {
        tail.next := n;
      }
      tail.item := item;
      tail.next := null;
      added := added + [item];
    }

    /** The loop over the nodes that the reader runs after its sweep. */
    method Items() returns (items: seq<T>)
      requires Valid()
      ensures items == Shown(added)
    {
      items := [];
      var it := head;
      while it != null
        invariant it == null || (it == head && items == [])
        invariant it == null ==> items == Shown(added)
        decreases if it == null then 0 else 1
      {
        items := items + [it.item];
        it := it.next;
      }
    }

    /** `list_free`; the result is the number of nodes given back. */
    method Free() returns (freed: nat)
      requires Valid()
      ensures freed == |Shown(added)|
      ensures freed == made <==> |added| <= 1
    {
      freed := 0;
      var n := head;
      while n != null
        invariant n == null || (n == head && freed == 0)
        invariant n == null ==> freed == |Shown(added)|
        decreases if n == null then 0 else 1
      {
        freed := freed + 1;
        n := n.next;
      }
    }
  }

  /** The list visits every added item in insertion order exactly when at most one was added. */
  lemma ShowsAllIff<T>(added: seq<T>)
    ensures Shown(added) == added <==> |added| <= 1
  {
    if Shown(added) == added {
      assert |Shown(added)| <= 1;
    }
  }
}
