/**
 * A singly linked list: `Node` objects chained through `next`, owned by a
 * `LinkedList` that holds the first node in `head`, as in `Linked_list.py`.
 * Insertion at the front only rewires `head`; every other operation walks the
 * chain from `head` with the same loop as `Linked_list.py`, and the insertions
 * and the deletion rewire `next` pointers in place.
 *
 * The abstract view of a list is the ghost pair `Nodes` (the chain of node
 * objects, from `head` to the last node) and `Contents` (their values, in the
 * same order); `Valid()` ties both to the real `head` and `next` fields.
 */
module LinkedLists {
  import opened ListSpec

  /** One element of the list. */
  class Node<T> {
    var data: T
    var next: Node?<T>

    constructor (data: T)
      ensures this.data == data && next == null
    {
      this.data := data;
      next := null;
    }
  }

  /** The node that follows position `i` of `chain`: the next one, or null after the last. */
  ghost function NextInChain<T>(chain: seq<Node<T>>, i: nat): Node?<T> {
    if i + 1 < |chain| then chain[i + 1] else null
  }

  /** Where the elements of `s` end up when `x` is put in behind position `i`. */
  lemma InsertedBehind<X>(s: seq<X>, i: nat, x: X)
    requires i < |s|
    ensures var r := s[..i + 1] + [x] + s[i + 1..];
            |r| == |s| + 1 && r[i + 1] == x &&
            (forall j | 0 <= j <= i :: r[j] == s[j]) &&
            (forall j | i + 1 < j < |r| :: r[j] == s[j - 1])
  {
  }

  /** Where the elements of `s` end up when position `i` is cut out. */
  lemma CutOut<X>(s: seq<X>, i: nat)
    requires i < |s|
    ensures var r := s[..i] + s[i + 1..];
            |r| == |s| - 1 &&
            (forall j | 0 <= j < i :: r[j] == s[j]) &&
            (forall j | i <= j < |r| :: r[j] == s[j + 1])
  {
  }

  class LinkedList<T(==)> {
    var head: Node?<T>

    // abstract view
    ghost var Contents: seq<T>
    ghost var Nodes: seq<Node<T>>

    /**
     * The chain that starts at `head` is exactly `Nodes`: each node's `next` is
     * the following node, the last one's is null, and no node occurs twice,
     * so the chain is finite and acyclic. The i-th node holds the i-th value.
     */
    ghost predicate Valid()
      reads this, Nodes
    {
      |Nodes| == |Contents| &&
      head == (if Nodes == [] then null else Nodes[0]) &&
      (forall i | 0 <= i < |Nodes| :: Nodes[i].data == Contents[i]) &&
      (forall i {:trigger Nodes[i].next} | 0 <= i < |Nodes| :: Nodes[i].next == NextInChain(Nodes, i)) &&
      (forall i, j | 0 <= i < j < |Nodes| :: Nodes[i] != Nodes[j])
    }

    /** A new list is empty. */
    constructor ()
      ensures Valid()
      ensures head == null && Contents == [] && Nodes == []
    {
      head := null;
      Contents, Nodes := [], [];
    }

    /** Puts a new node holding `data` in front of the old first node. */
    method InsertAtBeginning(data: T)
      requires Valid()
      modifies this
      ensures Valid()
      ensures Contents == [data] + old(Contents)
      ensures head != null && fresh(head) && Nodes == [head] + old(Nodes)
    {
      var newNode := new Node(data);
      newNode.next := head;
      head := newNode;
      Nodes := [newNode] + Nodes;
      Contents := [data] + Contents;
    }

    /** Hangs a new node holding `data` behind the last node, or makes it `head` of an empty list. */
    method InsertAtEnd(data: T)
      requires Valid()
      modifies this, Nodes
      ensures Valid()
      ensures Contents == old(Contents) + [data]
      ensures |Nodes| == |old(Nodes)| + 1 && Nodes[..|old(Nodes)|] == old(Nodes)
      ensures fresh(Nodes[|old(Nodes)|])
      ensures head == if old(head) == null then Nodes[0] else old(head)
    {
      var newNode := new Node(data);
      if head == null {
        head := newNode;
        Nodes, Contents := [newNode], [data];
        return;
      }
      var current := head;
      ghost var i := 0;
      while current.next != null
        invariant 0 <= i < |Nodes| && current == Nodes[i]
        decreases |Nodes| - i
      {
        current := current.next;
        i := i + 1;
      }
      current.next := newNode;
      Nodes := Nodes + [newNode];
      Contents := Contents + [data];
    }

    /**
     * Puts a new node holding `data` right after the first node holding
     * `targetData`; when there is no such node, the list is left as it was.
     */
    method InsertAfter(targetData: T, data: T)
      requires Valid()
      modifies this, Nodes
      ensures Valid()
      ensures Contents == InsertAfterFirst(old(Contents), targetData, data)
      ensures head == old(head)
      ensures targetData !in old(Contents) ==> Nodes == old(Nodes)
      ensures targetData in old(Contents) ==>
                var k := FirstIndex(old(Contents), targetData);
                |Nodes| == |old(Nodes)| + 1 && fresh(Nodes[k + 1]) &&
                Nodes == old(Nodes)[..k + 1] + [Nodes[k + 1]] + old(Nodes)[k + 1..]
    {
      var current := head;
      ghost var i := 0;
      while current != null && current.data != targetData
        invariant 0 <= i <= |Nodes|
        invariant current == if i < |Nodes| then Nodes[i] else null
        invariant forall j | 0 <= j < i :: Contents[j] != targetData
        decreases |Nodes| - i
      {
        current := current.next;
        i := i + 1;
      }
      if current == null {
        InsertAfterFirstAbsent(Contents, targetData, data);
        return;
      }
      ghost var values := Contents;
      var newNode := new Node(data);
      LinkAfter(i, current, newNode);
      assert FirstIndex(values, targetData) == i by {
        FirstIndexUnique(values, targetData, i);
      }
      assert Contents == InsertAfterFirst(values, targetData, data) by {
        InsertAfterFirstAt(values, targetData, data, i);
      }
    }

    /**
     * Splices `newNode`, a node not yet in the list, in right behind
     * `current`, the i-th node: the new node takes over `current`'s successor
     * and becomes `current`'s successor itself.
     */
    method LinkAfter(ghost i: nat, current: Node<T>, newNode: Node<T>)
      requires Valid() && i < |Nodes| && current == Nodes[i]
      requires forall j | 0 <= j < |Nodes| :: Nodes[j] != newNode
      modifies this, current, newNode
      ensures Valid()
      ensures newNode.data == old(newNode.data)
      ensures Nodes == old(Nodes[..i + 1]) + [newNode] + old(Nodes[i + 1..])
      ensures Contents == old(Contents[..i + 1]) + [newNode.data] + old(Contents[i + 1..])
      ensures head == old(head)
    {
      ghost var chain := Nodes;
      InsertedBehind(Nodes, i, newNode);
      InsertedBehind(Contents, i, newNode.data);
      newNode.next := current.next;
      current.next := newNode;
      Nodes := Nodes[..i + 1] + [newNode] + Nodes[i + 1..];
      Contents := Contents[..i + 1] + [newNode.data] + Contents[i + 1..];
      forall j | 0 <= j < |Nodes|
        ensures Nodes[j].next == NextInChain(Nodes, j)
        ensures Nodes[j].data == Contents[j]
      {
        if j < i {
          assert Nodes[j] == chain[j] != current;
          assert Nodes[j + 1] == chain[j + 1];
        } else if j == i {
          assert Nodes[j] == current && Nodes[j + 1] == newNode;
        } else if j == i + 1 {
          assert NextInChain(Nodes, j) == NextInChain(chain, i);
        } else {
          assert Nodes[j] == chain[j - 1] != current;
          assert NextInChain(Nodes, j) == NextInChain(chain, j - 1);
        }
      }
      forall a, b | 0 <= a < b < |Nodes| ensures Nodes[a] != Nodes[b] {
        if b == i + 1 {
          assert Nodes[a] == chain[a];
        } else if a == i + 1 {
          assert Nodes[b] == chain[b - 1];
        } else {
          assert Nodes[a] == chain[if a <= i then a else a - 1];
          assert Nodes[b] == chain[if b <= i then b else b - 1];
        }
      }
    }

    /**
     * Unlinks the first node holding `key`: `head` moves on to the second node
     * when the first one holds it, otherwise the node before it is linked past
     * it. When no node holds `key` the list is left as it was.
     */
    method DeleteNode(key: T)
      requires Valid()
      modifies this, Nodes
      ensures Valid()
      ensures Contents == RemoveFirst(old(Contents), key)
      ensures old(head) != null && old(head.data) == key ==> head == old(head.next)
      ensures key !in old(Contents) ==> Nodes == old(Nodes)
      ensures key in old(Contents) ==>
                var k := FirstIndex(old(Contents), key);
                Nodes == old(Nodes)[..k] + old(Nodes)[k + 1..]
    // the unlinked node itself keeps its value and its successor
    ensures key in old(Contents) ==> unchanged(old(Nodes)[FirstIndex(old(Contents), key)])
    {
      var current := head;
      if current != null && current.data == key {
        head := current.next;
        Nodes, Contents := Nodes[1..], Contents[1..];
        return;
      }
      var prev: Node?<T> := null;
      ghost var i := 0;
      while current != null && current.data != key
        invariant 0 <= i <= |Nodes|
        invariant current == if i < |Nodes| then Nodes[i] else null
        invariant prev == if i == 0 then null else Nodes[i - 1]
        invariant forall j | 0 <= j < i :: Contents[j] != key
        decreases |Nodes| - i
      {
        prev := current;
        current := current.next;
        i := i + 1;
      }
      if current == null {
        RemoveFirstAbsent(Contents, key);
        return;
      }
      ghost var values := Contents;
      Unlink(i, prev, current);
      assert FirstIndex(values, key) == i by {
        FirstIndexUnique(values, key, i);
      }
      assert Contents == RemoveFirst(values, key) by {
        RemoveFirstAt(values, key, i);
      }
    }

    /**
     * Takes `current`, the i-th node, out of the chain by linking `prev`, the
     * node before it, straight to `current`'s successor.
     */
    method Unlink(ghost i: nat, prev: Node<T>, current: Node<T>)
      requires Valid() && 0 < i < |Nodes| && prev == Nodes[i - 1] && current == Nodes[i]
      modifies this, prev
      ensures Valid()
      ensures Nodes == old(Nodes[..i]) + old(Nodes[i + 1..])
      ensures Contents == old(Contents[..i]) + old(Contents[i + 1..])
      ensures head == old(head)
    {
      ghost var chain := Nodes;
      CutOut(Nodes, i);
      CutOut(Contents, i);
      prev.next := current.next;
      Nodes := Nodes[..i] + Nodes[i + 1..];
      Contents := Contents[..i] + Contents[i + 1..];
      forall j | 0 <= j < |Nodes| ensures Nodes[j].next == NextInChain(Nodes, j) {
        if j < i - 1 {
          assert Nodes[j] == chain[j] != prev;
          assert Nodes[j + 1] == chain[j + 1];
        } else if j == i - 1 {
          assert NextInChain(Nodes, j) == NextInChain(chain, i);
        } else {
          assert Nodes[j] == chain[j + 1] != prev;
          assert NextInChain(Nodes, j) == NextInChain(chain, j + 1);
        }
      }
      forall a, b | 0 <= a < b < |Nodes| ensures Nodes[a] != Nodes[b] {
        assert Nodes[a] == chain[if a < i then a else a + 1];
        assert Nodes[b] == chain[if b < i then b else b + 1];
      }
    }

    /** Whether some node holds `key`; the list is only read. */
    method Search(key: T) returns (found: bool)
      requires Valid()
      ensures found <==> key in Contents
    {
      var current := head;
      ghost var i := 0;
      while current != null
        invariant 0 <= i <= |Nodes|
        invariant current == if i < |Nodes| then Nodes[i] else null
        invariant forall j | 0 <= j < i :: Contents[j] != key
        decreases |Nodes| - i
      {
        if current.data == key {
          return true;
        }
        current := current.next;
        i := i + 1;
      }
      return false;
    }
  }
}
