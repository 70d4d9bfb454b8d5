/** The FIFO frontier of breadth-first search. */
module Queues {
  import opened Results

  /** A first-in-first-out queue; `list` stands for the backing linked list, head first. */
  class Queue<T> {
    var list: seq<T>

    constructor ()
      ensures list == []
    {
      list := [];
    }

    /** `addLast`: the item joins the back. */
    method Enqueue(item: T)
      modifies this
      ensures list == old(list) + [item]
    {
      list := list + [item];
    }

    /** `removeFirst`: the oldest item leaves; an empty queue throws and stays empty. */
    method Dequeue() returns (r: Result<T>)
      modifies this
      ensures old(list) == [] ==> r == Failure(IllegalState("Queue is empty")) && list == []
      ensures old(list) != [] ==> r == Success(old(list)[0]) && list == old(list)[1..]
    {
      var empty := IsEmpty();
      if empty {
        return Failure(IllegalState("Queue is empty"));
      }
      r := Success(list[0]);
      list := list[1..];
    }

    /** `getFirst`: the oldest item, left in place; an empty queue throws. */
    method Peek() returns (r: Result<T>)
      ensures list == [] ==> r == Failure(IllegalState("Queue is empty"))
      ensures list != [] ==> r == Success(list[0])
    {
      var empty := IsEmpty();
      if empty {
        return Failure(IllegalState("Queue is empty"));
      }
      r := Success(list[0]);
    }

    method IsEmpty() returns (empty: bool)
      ensures empty <==> |list| == 0
    {
      empty := |list| == 0;
    }
  }

  /** Two items enqueued on an empty queue come out in the order they went in. */
  method FifoOrder<T>(a: T, b: T) returns (first: Result<T>, second: Result<T>, third: Result<T>)
    ensures first == Success(a) && second == Success(b)
    ensures third == Failure(IllegalState("Queue is empty"))
  {
    var q := new Queue<T>();
    q.Enqueue(a);
    q.Enqueue(b);
    first := q.Dequeue();
    second := q.Dequeue();
    third := q.Dequeue();
  }
}
