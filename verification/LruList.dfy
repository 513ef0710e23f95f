/**
  LRUList (LRUList.h) as it lives in memory: a doubly linked list of nodes and a map from each
  element to its node, both updated in place, proved against the sequence of Recency.
 */
module LruList {
  import opened Wrappers
  import opened Recency

  /** A node of the list; the map holds references to nodes as list iterators. */
  class Node<T> {
    const elem: T
    var prev: Node?<T>
    var next: Node?<T>

    constructor (elem: T)
      ensures this.elem == elem && prev == null && next == null
    {
      this.elem := elem;
      prev, next := null, null;
    }
  }

  ghost function Cut<A>(s: seq<A>, k: nat): seq<A>
    requires k < |s|
  {
    s[..k] + s[k + 1..]
  }

  /** Each element's map entry is its own node; equal counts leave the map no other entry. */
  ghost predicate IndexOf<T(!new)>(nodes: seq<Node<T>>, contents: seq<T>, index: map<T, Node<T>>) {
    && |contents| == |nodes| == |index|
    && forall i :: 0 <= i < |nodes| ==>
         nodes[i].elem == contents[i] && contents[i] in index && index[contents[i]] == nodes[i]
  }

  lemma EntriesOf<T(!new)>(nodes: seq<Node<T>>, contents: seq<T>, index: map<T, Node<T>>)
    requires Distinct(nodes) && IndexOf(nodes, contents, index)
    ensures NoDup(contents)
    ensures index.Keys == Elems(contents)
  {
    forall i, j | 0 <= i < j < |contents|
      ensures contents[i] != contents[j]
    {
      assert nodes[i] != nodes[j];
    }
    NoDupIsDistinct(contents);
    CardinalityOfNoDup(contents);
    SubsetSize(Elems(contents), index.Keys);
  }

  /** An element in the map sits at one position, and cutting that out forgets it. */
  lemma Position<T(!new)>(nodes: seq<Node<T>>, contents: seq<T>, index: map<T, Node<T>>, element: T) returns (k: nat)
    requires Distinct(nodes) && IndexOf(nodes, contents, index) && element in index
    ensures k < |nodes| && contents[k] == element && nodes[k] == index[element]
    ensures Without(contents, element) == Cut(contents, k)
  {
    EntriesOf(nodes, contents, index);
    assert element in contents;
    k :| 0 <= k < |contents| && contents[k] == element;
    WithoutAt(contents, k);
  }

  lemma NoPosition<T(!new)>(nodes: seq<Node<T>>, contents: seq<T>, index: map<T, Node<T>>, element: T)
    requires Distinct(nodes) && IndexOf(nodes, contents, index) && element !in index
    ensures Without(contents, element) == contents
  {
    EntriesOf(nodes, contents, index);
    WithoutFacts(contents, element);
  }

  /** A new node at the head takes over the map entry of the node at position k. */
  lemma AdvancedIndex<T(!new)>(nodes: seq<Node<T>>, contents: seq<T>, index: map<T, Node<T>>, k: nat, n: Node<T>)
    requires IndexOf(nodes, contents, index) && Distinct(nodes)
    requires k < |nodes| && contents[k] == n.elem
    ensures IndexOf([n] + Cut(nodes, k), [n.elem] + Cut(contents, k), index[n.elem := n])
  {
    EntriesOf(nodes, contents, index);
    assert index[n.elem := n].Keys == index.Keys;
  }

  lemma RemovedIndex<T(!new)>(nodes: seq<Node<T>>, contents: seq<T>, index: map<T, Node<T>>, k: nat)
    requires IndexOf(nodes, contents, index) && Distinct(nodes) && k < |nodes|
    ensures IndexOf(Cut(nodes, k), Cut(contents, k), index - {nodes[k].elem})
  {
    EntriesOf(nodes, contents, index);
    assert index.Keys == (index - {nodes[k].elem}).Keys + {nodes[k].elem};
  }

  lemma ExtendedIndex<T(!new)>(nodes: seq<Node<T>>, contents: seq<T>, index: map<T, Node<T>>, n: Node<T>)
    requires IndexOf(nodes, contents, index) && n.elem !in index
    ensures IndexOf([n] + nodes, [n.elem] + contents, index[n.elem := n])
  {
    assert index[n.elem := n].Keys == index.Keys + {n.elem};
  }

  class LruList<T(==,!new)> {
    const maxSize: nat
    var front: Node?<T>
    var back: Node?<T>
    var itemsMap: map<T, Node<T>>
    ghost var nodes: seq<Node<T>>
    ghost var contents: seq<T>
    /** Every node the list has had. */
    ghost var Repr: set<Node<T>>

    /** front, back and the links spell out `nodes`. */
    ghost predicate Linked()
      reads this, Repr
    {
      && (forall i :: 0 <= i < |nodes| ==> nodes[i] in Repr)
      && Distinct(nodes)
      && (nodes == [] ==> front == null && back == null)
      && (nodes != [] ==> front == nodes[0] && back == nodes[|nodes| - 1])
      && (nodes != [] ==> nodes[0].prev == null && nodes[|nodes| - 1].next == null)
      && (forall i {:trigger nodes[i].next} :: 0 <= i < |nodes| - 1 ==> nodes[i].next == nodes[i + 1])
      && (forall i {:trigger nodes[i].prev} :: 0 < i < |nodes| ==> nodes[i].prev == nodes[i - 1])
    }

    ghost predicate Indexed()
      reads this
    {
      IndexOf(nodes, contents, itemsMap)
    }

    ghost predicate Valid()
      reads this, Repr
    {
      Linked() && Indexed() && |contents| <= maxSize
    }

    lemma Entries()
      requires Distinct(nodes) && Indexed()
      ensures NoDup(contents)
      ensures itemsMap.Keys == Elems(contents)
    {
      EntriesOf(nodes, contents, itemsMap);
    }

    constructor (maxSize: nat)
      ensures Valid() && this.maxSize == maxSize && nodes == [] && contents == [] && Repr == {}
    {
      this.maxSize := maxSize;
      front, back, itemsMap, nodes, contents, Repr := null, null, map[], [], [], {};
    }

    /** std::list::push_front */
    method PushFront(element: T) returns (n: Node<T>)
      requires Linked()
      modifies this, Repr
      ensures Linked() && nodes == [n] + old(nodes)
      ensures fresh(n) && n.elem == element && front == n && Repr == old(Repr) + {n}
      ensures itemsMap == old(itemsMap) && contents == old(contents)
    {
      n := new Node(element);
      n.next := front;
      if front == null {
        back := n;
      } else {
        front.prev := n;
      }
      front := n;
      nodes := [n] + nodes;
      Repr := Repr + {n};
    }

    /** std::list::erase of the node at position k */
    method Unlink(n: Node<T>, ghost k: nat)
      requires Linked() && k < |nodes| && nodes[k] == n
      modifies this, Repr
      ensures Linked() && nodes == Cut(old(nodes), k) && Repr == old(Repr)
      ensures itemsMap == old(itemsMap) && contents == old(contents)
    {
      if n.prev == null {
        assert k == 0;
        front := n.next;
      } else {
        n.prev.next := n.next;
      }
      if n.next == null {
        assert k == |nodes| - 1;
        back := n.prev;
      } else {
        n.next.prev := n.prev;
      }
      ghost var was := nodes;
      nodes := Cut(nodes, k);
      forall i | 0 <= i < |nodes| - 1
        ensures nodes[i].next == nodes[i + 1] && nodes[i + 1].prev == nodes[i]
      {
        assert nodes[i] == if i < k then was[i] else was[i + 1];
        assert nodes[i + 1] == if i + 1 < k then was[i + 1] else was[i + 2];
      }
    }

    /** Drops the node at position k and its map entry. */
    method Drop(n: Node<T>, ghost k: nat)
      requires Linked() && Indexed() && k < |nodes| && nodes[k] == n
      modifies this, Repr
      ensures Linked() && Indexed() && nodes == Cut(old(nodes), k) && Repr == old(Repr)
      ensures contents == Cut(old(contents), k)
    {
      RemovedIndex(nodes, contents, itemsMap, k);
      Unlink(n, k);
      itemsMap := itemsMap - {n.elem};
      contents := Cut(contents, k);
    }

    /** `put` of an element that is there: it moves to the head, its older node is gone. */
    method Advance(element: T)
      requires Linked() && Indexed() && element in itemsMap
      modifies this, Repr
      ensures Linked() && Indexed()
      ensures contents == Touch(old(contents), element)
      ensures fresh(Repr - old(Repr))
    {
      ghost var was, list, index := nodes, contents, itemsMap;
      ghost var k := Position(was, list, index, element);
      var n := PushFront(element);
      var stale := itemsMap[element];
      AdvancedIndex(was, list, index, k, n);
      assert Cut(nodes, k + 1) == [n] + Cut(was, k);
      Unlink(stale, k + 1);
      contents := [element] + Cut(contents, k);
      itemsMap := itemsMap[element := front];
    }

    /** `put` of a new element, before the capacity test. */
    method Insert(element: T)
      requires Linked() && Indexed() && element !in itemsMap
      modifies this, Repr
      ensures Linked() && Indexed()
      ensures contents == Touch(old(contents), element)
      ensures fresh(Repr - old(Repr))
    {
      ghost var was, list, index := nodes, contents, itemsMap;
      NoPosition(was, list, index, element);
      var n := PushFront(element);
      ExtendedIndex(was, list, index, n);
      contents := [element] + contents;
      itemsMap := itemsMap[element := front];
    }

    /**
      Inserts or advances `element`; returns 1 and the dropped element exactly when the list
      would otherwise exceed its maximum size.
     */
    method Put(element: T) returns (code: int, deletedValue: Option<T>)
      requires Valid()
      modifies this, Repr
      ensures Valid()
      ensures contents == Recency.Put(old(contents), element, maxSize)
      ensures deletedValue == Evicted(old(contents), element, maxSize)
      ensures code == if deletedValue.Some? then 1 else 0
      ensures fresh(Repr - old(Repr))
    {
      Entries();
      WithoutLength(contents, element);
      if element in itemsMap {
        Advance(element);
      } else {
        Insert(element);
      }
      code, deletedValue := 0, None;
      if |itemsMap| > maxSize {
        var lruIter := back;
        deletedValue := Some(lruIter.elem);
        Drop(lruIter, |nodes| - 1);
        code := 1;
      }
    }

    /** Deletes `element` if it is there. */
    method EraseElement(element: T)
      requires Valid()
      modifies this, Repr
      ensures Valid()
      ensures contents == Without(old(contents), element)
      ensures Repr == old(Repr)
    {
      if element !in itemsMap {
        NoPosition(nodes, contents, itemsMap, element);
        return;
      }
      var iter := itemsMap[element];
      ghost var k := Position(nodes, contents, itemsMap, element);
      Drop(iter, k);
    }

    /** The most recently used element; the list must not be empty. */
    method GetMRUElement() returns (element: T)
      requires Valid() && contents != []
      ensures element == contents[0]
    {
      element := front.elem;
    }

    /** The least recently used element; the list must not be empty. */
    method GetLRUElement() returns (element: T)
      requires Valid() && contents != []
      ensures element == contents[|contents| - 1]
    {
      element := back.elem;
    }

    method GetSize() returns (size: nat)
      requires Valid()
      ensures size == |contents|
    {
      size := |itemsMap|;
    }
  }
}
