/** PersistentStack<T> (Structures/PersistentStack.cs): an undo/redo history.
    A list of states and a cursor `index`; the first `index` entries are the
    live history and the rest can be redone. */
module PersistentStacks {
  import opened Common

  class PersistentStack<T> {
    var stack: seq<T>
    var index: nat

    /** The cursor never passes the end of the list. */
    predicate Valid()
      reads this
    {
      index <= |stack|
    }

    /** `new PersistentStack<T>()`: an empty list, cursor 0. */
    constructor ()
      ensures Valid()
      ensures stack == [] && index == 0
    {
      stack := [];
      index := 0;
    }

    /** `Add(item)`: drop every entry at or after the cursor, append the item
        and advance the cursor, so the item becomes current and the redo part
        is gone. */
    method Add(item: T)
      requires Valid()
      modifies this
      ensures Valid()
      ensures stack == old(stack[..index]) + [item]
      ensures index == old(index) + 1
      ensures Current() == Ok(item) && IsAtHead()
    {
      while |stack| > index
        invariant index == old(index) <= |stack| <= old(|stack|)
        invariant stack == old(stack)[..|stack|]
        decreases |stack|
      {
        stack := stack[..|stack| - 1];   // RemoveAt(Count - 1)
      }
      stack := stack + [item];
      index := index + 1;
    }

    /** `Current()`: the entry just before the cursor; an empty history throws. */
    function Current(): (r: Result<T>)
      reads this
      requires Valid()
      ensures r.Ok? <==> index > 0
      ensures r.Ok? ==> r.value == stack[index - 1]
      ensures r.Err? ==> r.error == InvalidState("Current on empty stack")
    {
      if IsEmpty() then Err(InvalidState("Current on empty stack")) else Ok(stack[index - 1])
    }

    /** `Pop()`: step the cursor back (undo); at 0 it throws. The list is kept. */
    method Pop() returns (r: Outcome)
      requires Valid()
      modifies this
      ensures Valid()
      ensures stack == old(stack)
      ensures r.Pass? <==> old(index) > 0
      ensures r.Pass? ==> index == old(index) - 1
      ensures r.Fail? ==> index == old(index) && r.error == InvalidState("Pop from empty stack")
    {
      if index == 0 {
        return Fail(InvalidState("Pop from empty stack"));
      }
      index := index - 1;
      r := Pass;
    }

    /** `Unpop()`: step the cursor forward (redo); at the head it throws. After
        a successful Pop, Unpop always succeeds and restores the cursor and
        Current(). */
    method Unpop() returns (r: Outcome)
      requires Valid()
      modifies this
      ensures Valid()
      ensures stack == old(stack)
      ensures r.Pass? <==> old(index) < |stack|
      ensures r.Pass? ==> index == old(index) + 1
      ensures r.Fail? ==> index == old(index) && r.error == InvalidState("Unpop from stack head")
    {
      if index == |stack| {
        return Fail(InvalidState("Unpop from stack head"));
      }
      index := index + 1;
      r := Pass;
    }

    /** `IsAtHead()`: nothing to redo. */
    predicate IsAtHead()
      reads this
    {
      index == |stack|
    }

    /** `IsEmpty()`: nothing to undo. */
    predicate IsEmpty()
      reads this
    {
      index == 0
    }

    /** `Clear()`: an empty list and cursor 0. */
    method Clear()
      modifies this
      ensures Valid()
      ensures stack == [] && index == 0
      ensures IsEmpty() && IsAtHead()
    {
      stack := [];
      index := 0;
    }

    /** `Count`: the cursor, not the length of the list. */
    function Count(): (r: nat)
      reads this
      requires Valid()
      ensures r <= |stack|
      ensures r == 0 <==> IsEmpty()
      ensures r == |stack| <==> IsAtHead()
    {
      index
    }
  }
}
