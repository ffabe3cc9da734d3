/** The generic last-in-first-out stack backed by a growable sequence. */
module Stacks {

  class Stack<T(0)> {
    var items: seq<T>

    constructor ()
      ensures items == []
    {
      items := [];
    }

    /** Appends `item` at the top. */
    method Push(item: T)
      modifies this
      ensures items == old(items) + [item]
    {
      items := items + [item];
    }

    /** Removes and returns the top item; on an empty stack reports `false` and changes nothing. */
    method Pop() returns (item: T, ok: bool)
      modifies this
      ensures ok <==> old(items) != []
      ensures ok ==> item == old(items)[|old(items)| - 1] && items == old(items)[..|old(items)| - 1]
      ensures !ok ==> items == old(items)
    {
      if |items| == 0 {
        item := *;  // the zero value of T
        return item, false;
      }
      item := items[|items| - 1];
      items := items[..|items| - 1];
      ok := true;
    }

    function IsEmpty(): (r: bool)
      reads this
      ensures r <==> items == []
    {
      |items| == 0
    }
  }

  /** Push followed by Pop hands back the pushed item and restores the stack. */
  method PushThenPop<T(0)>(s: Stack<T>, x: T) returns (y: T, ok: bool)
    modifies s
    ensures ok && y == x
    ensures s.items == old(s.items)
  {
    s.Push(x);
    y, ok := s.Pop();
  }
}
