/** The LIFO frontier of depth-first search. */
module Stacks {
  import opened Results

  /** `s` read from its last element to its first. */
  function Reversed<T>(s: seq<T>): (r: seq<T>)
    ensures |r| == |s|
  {
    if s == [] then [] else [s[|s| - 1]] + Reversed(s[..|s| - 1])
  }

  /** The item added last comes first. */
  lemma ReversedSnoc<T>(s: seq<T>, x: T)
    ensures Reversed(s + [x]) == [x] + Reversed(s)
  {
    assert (s + [x])[..|s|] == s;
  }

  lemma {:induction false} ReversedSameItems<T>(s: seq<T>)
    ensures multiset(Reversed(s)) == multiset(s)
  {
    if s != [] {
      ReversedSameItems(s[..|s| - 1]);
      assert s == s[..|s| - 1] + [s[|s| - 1]];
    }
  }

  /** A last-in-first-out stack; `list` stands for the backing linked list, top first. */
  class Stack<T> {
    var list: seq<T>

    constructor ()
      ensures list == []
    {
      list := [];
    }

    /** `addFirst`: the item becomes the top. */
    method Push(item: T)
      modifies this
      ensures list == [item] + old(list)
    {
      list := [item] + list;
    }

    /** `removeFirst`: the top leaves; an empty stack throws and stays empty. */
    method Pop() returns (r: Result<T>)
      modifies this
      ensures old(list) == [] ==> r == Failure(IllegalState("Stack is empty")) && list == []
      ensures old(list) != [] ==> r == Success(old(list)[0]) && list == old(list)[1..]
    {
      var empty := IsEmpty();
      if empty {
        return Failure(IllegalState("Stack is empty"));
      }
      r := Success(list[0]);
      list := list[1..];
    }

    /** `getFirst`: the top, left in place; an empty stack throws. */
    method Peek() returns (r: Result<T>)
      ensures list == [] ==> r == Failure(IllegalState("Stack is empty"))
      ensures list != [] ==> r == Success(list[0])
    {
      var empty := IsEmpty();
      if empty {
        return Failure(IllegalState("Stack is empty"));
      }
      r := Success(list[0]);
    }

    method IsEmpty() returns (empty: bool)
      ensures empty <==> |list| == 0
    {
      empty := |list| == 0;
    }
  }

  /** Pushing an item and popping at once gives the item back and restores the stack. */
  method PushThenPop<T>(s: Stack<T>, x: T) returns (r: Result<T>)
    modifies s
    ensures r == Success(x) && s.list == old(s.list)
  {
    s.Push(x);
    r := s.Pop();
  }

  /** Items pushed one after another onto an empty stack pop in reverse order. */
  method LifoOrder<T>(a: T, b: T) returns (first: Result<T>, second: Result<T>, third: Result<T>)
    ensures first == Success(b) && second == Success(a)
    ensures third == Failure(IllegalState("Stack is empty"))
  {
    var s := new Stack<T>();
    s.Push(a);
    s.Push(b);
    first := s.Pop();
    second := s.Pop();
    third := s.Pop();
  }
}
