/** The doubly linked list. Removing a node leaves its neighbour's link to it in
    place, so a link that leaves the list may lead to a node already freed. */
module LinkedLists {
  datatype Direction = Back | Front

  class Node<T> {
    var data: T
    var prev: Node?<T>
    var next: Node?<T>

    constructor (data: T)
      ensures this.data == data && prev == null && next == null
    {
      this.data := data;
      prev, next := null, null;
    }
  }

  /** Where following links leads: to a node of the list, to NULL, or to freed memory, after
      which nothing is defined. */
  datatype Walk<T> = Reached(node: Node<T>) | PastEnd | Dangling

  class LinkedList<T> {
    var begin: Node?<T>
    var end: Node?<T>
    var size: nat
    /** The nodes given back to the allocator. */
    var freed: set<Node<T>>
    ghost var nodes: seq<Node<T>>

    ghost predicate Valid()
      reads this, nodes
    {
      && |nodes| == size
      && (forall i, j :: 0 <= i < j < |nodes| ==> nodes[i] != nodes[j])
      && (forall i :: 0 <= i < |nodes| ==> nodes[i] !in freed)
      && (if size > 0 then begin == nodes[0] && end == nodes[size - 1]
          else (begin == null || begin in freed) && (end == null || end in freed))
      && (forall i {:trigger nodes[i].next} :: 0 <= i < |nodes| - 1 ==> nodes[i].next == nodes[i + 1])
      && (forall i {:trigger nodes[i].prev} :: 0 < i < |nodes| ==> nodes[i].prev == nodes[i - 1])
      && (size > 0 ==> nodes[size - 1].next == null || nodes[size - 1].next in freed)
      && (size > 0 ==> nodes[0].prev == null || nodes[0].prev in freed)
    }

    /** The values of the list, front to back. */
    ghost function Contents(): (s: seq<T>)
      reads this, nodes
      ensures |s| == |nodes|
    {
      seq(|nodes|, i requires 0 <= i < |nodes| reads this, nodes => nodes[i].data)
    }

    /** The link that leaves the list at its far end is NULL, not a pointer to a freed node. */
    ghost predicate EndIsNull(direction: Direction)
      requires Valid()
      reads this, nodes
    {
      if direction == Front
      then (if size == 0 then begin == null else nodes[size - 1].next == null)
      else (if size == 0 then end == null else nodes[0].prev == null)
    }

    /** Where the walk from the front stands after i steps, and what its next step finds. */
    lemma Along(i: nat)
      requires Valid() && i <= size
      ensures |nodes| == size && |Contents()| == size
      ensures i == 0 ==> (if size > 0 then begin == nodes[0] else begin == null || begin in freed)
      ensures i < size ==> nodes[i] !in freed && nodes[i].data == Contents()[i]
      ensures i + 1 < size ==> nodes[i].next == nodes[i + 1] && nodes[i + 1] !in freed
      ensures 0 < size == i + 1 ==> nodes[i].next == null || nodes[i].next in freed
      ensures i + 1 == size ==> (EndIsNull(Front) <==> nodes[i].next == null)
      ensures size == 0 ==> (EndIsNull(Front) <==> begin == null)
    {
    }

    constructor ()
      ensures Valid() && Contents() == [] && nodes == []
      ensures EndIsNull(Front) && EndIsNull(Back)
    {
      begin, end, size, freed, nodes := null, null, 0, {}, [];
    }

    /** The new last node ends the list properly, whatever was removed before. */
    method InsertBack(x: T) returns (node: Node<T>)
      requires Valid()
      modifies this, nodes
      ensures Valid() && fresh(node) && nodes == old(nodes) + [node]
      ensures Contents() == old(Contents()) + [x]
      ensures EndIsNull(Front)
      ensures EndIsNull(Back) <==> old(size) == 0 || old(EndIsNull(Back))
    {
      node := new Node(x);
      if size == 0 {
        begin, end, size := node, node, 1;
        nodes := [node];
        return;
      }
      var oldNode := end;
      end.next := node;
      end := node;
      end.prev := oldNode;
      size := size + 1;
      nodes := nodes + [node];
    }

    method InsertFront(x: T) returns (node: Node<T>)
      requires Valid()
      modifies this, nodes
      ensures Valid() && fresh(node) && nodes == [node] + old(nodes)
      ensures Contents() == [x] + old(Contents())
      ensures EndIsNull(Back)
      ensures EndIsNull(Front) <==> old(size) == 0 || old(EndIsNull(Front))
    {
      node := new Node(x);
      if size == 0 {
        begin, end, size := node, node, 1;
        nodes := [node];
        return;
      }
      var oldNode := begin;
      begin.prev := node;
      begin := node;
      begin.next := oldNode;
      size := size + 1;
      nodes := [node] + nodes;
    }

    /** Leaves the new first node pointing back at the freed one. */
    method RemoveFront() returns (removed: bool)
      requires Valid()
      modifies this
      ensures Valid() && removed == (old(Contents()) != [])
      ensures if removed then nodes == old(nodes)[1..] && Contents() == old(Contents())[1..]
              else nodes == old(nodes) && Contents() == old(Contents())
      ensures EndIsNull(Front) <==> old(EndIsNull(Front))
      ensures EndIsNull(Back) <==> old(size) == 1 || (old(size) == 0 && old(EndIsNull(Back)))
    {
      if size == 0 { return false; }
      var front := begin;
      begin := front.next;
      freed := freed + {front};
      if size == 1 { end := null; }
      size := size - 1;
      nodes := nodes[1..];
      removed := true;
    }

    /** Leaves the new last node pointing on to the freed one. */
    method RemoveBack() returns (removed: bool)
      requires Valid()
      modifies this
      ensures Valid() && removed == (old(Contents()) != [])
      ensures if removed then nodes == old(nodes)[..old(size) - 1] && Contents() == old(Contents())[..old(size) - 1]
              else nodes == old(nodes) && Contents() == old(Contents())
      ensures EndIsNull(Back) <==> old(EndIsNull(Back))
      ensures EndIsNull(Front) <==> old(size) == 1 || (old(size) == 0 && old(EndIsNull(Front)))
    {
      if size == 0 { return false; }
      var back := end;
      end := back.prev;
      freed := freed + {back};
      if size == 1 { begin := null; }
      size := size - 1;
      nodes := nodes[..size];
      removed := true;
    }

    /** The node `index` steps from the chosen end. An index past the other end finds NULL
        if and only if the link that leaves the list there is NULL. */
    method GetFromIndex(index: nat, direction: Direction) returns (w: Walk<T>)
      requires Valid()
      ensures index < size ==> w == Reached(nodes[if direction == Front then index else size - 1 - index])
      ensures index < size ==> w.node.data == Contents()[if direction == Front then index else size - 1 - index]
      ensures index >= size ==> w == if EndIsNull(direction) then PastEnd else Dangling
    {
      var left := index;
      var node := if direction == Front then begin else end;
      if node != null && node in freed { return Dangling; }
      if direction == Front {
        while left != 0 && node != null
          invariant 0 <= left <= index
          invariant if index - left < size then node == nodes[index - left] else node == null && EndIsNull(Front)
          decreases left
        {
          node := node.next;
          left := left - 1;
          if node != null && node in freed { return Dangling; }
        }
      } else {
        while left != 0 && node != null
          invariant 0 <= left <= index
          invariant if index - left < size then node == nodes[size - 1 - (index - left)]
                    else node == null && EndIsNull(Back)
          decreases left
        {
          node := node.prev;
          left := left - 1;
          if node != null && node in freed { return Dangling; }
        }
      }
      w := if node == null then PastEnd else Reached(node);
    }

    /** Index i from the front and index size - 1 - i from the back are the same node. */
    method FromBothEnds(i: nat) returns (f: Walk<T>, b: Walk<T>)
      requires Valid() && i < size
      ensures f == b == Reached(nodes[i])
    {
      f := GetFromIndex(i, Front);
      b := GetFromIndex(size - 1 - i, Back);
    }
  }

  /** Two pushes and a pop at either end: the index just past the other end finds the freed
      node instead of NULL, and so does every later one. */
  method PopThenIndex<T>(x: T, y: T, direction: Direction, index: nat) returns (list: LinkedList<T>, w: Walk<T>)
    requires index > 0
    ensures fresh(list) && list.Valid() && list.Contents() == [if direction == Front then x else y]
    ensures !list.EndIsNull(direction) && w == Dangling
  {
    list := new LinkedList();
    var a := list.InsertBack(x);
    var b := list.InsertBack(y);
    if direction == Front {
      var _ := list.RemoveBack();
    } else {
      var _ := list.RemoveFront();
    }
    w := list.GetFromIndex(index, direction);
  }
}
