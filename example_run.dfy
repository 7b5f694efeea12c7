/**
 * The example session at the end of `Linked_list.py`: a list built by end, front and
 * after-value insertions, one deletion, and two searches. The session is cut
 * into stages, each of which hands the list it built to the next.
 */
module LinkedListExample {
  import opened ListSpec
  import opened LinkedLists

  /** A new list, then 10, 20 and 30 inserted at the end. */
  method ExampleAppends() returns (ll: LinkedList<int>)
    ensures fresh(ll) && fresh(ll.Nodes) && ll.Valid()
    ensures ll.Contents == [10, 20, 30]
  {
    ll := new LinkedList<int>();
    ll.InsertAtEnd(10);
    ll.InsertAtEnd(20);
    ll.InsertAtEnd(30);
  }

  /** Then 5 inserted at the beginning and 25 after 20. */
  method ExampleInserts() returns (ll: LinkedList<int>)
    ensures fresh(ll) && fresh(ll.Nodes) && ll.Valid()
    ensures ll.Contents == [5, 10, 20, 25, 30]
  {
    ll := ExampleAppends();
    ll.InsertAtBeginning(5);
    assert ll.Contents == [5, 10, 20, 30];
    FirstIndexUnique(ll.Contents, 20, 2);
    InsertAfterFirstAt(ll.Contents, 20, 25, 2);
    ll.InsertAfter(20, 25);
  }

  /** Then 10 deleted. */
  method ExampleDelete() returns (ll: LinkedList<int>)
    ensures fresh(ll) && fresh(ll.Nodes) && ll.Valid()
    ensures ll.Contents == [5, 20, 25, 30]
  {
    ll := ExampleInserts();
    FirstIndexUnique(ll.Contents, 10, 1);
    RemoveFirstAt(ll.Contents, 10, 1);
    ll.DeleteNode(10);
  }

  /** The whole session: 25 is found in the final list and 100 is not. */
  method ExampleRun() returns (found25: bool, found100: bool)
    ensures found25 && !found100
  {
    var ll := ExampleDelete();
    found25 := ll.Search(25);
    assert ll.Contents[2] == 25;
    found100 := ll.Search(100);
  }
}
