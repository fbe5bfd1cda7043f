/** `Stack<T>` (modulo-1/aula3): a LIFO stack over a Rust `Vec`, whose
    last element is the top. The wrapped vector is the field `elements`,
    reassigned by `Push` and `Pop`. */
module Stacks {
  import opened Primitives

  class Stack<T> {
    var elements: seq<T>

    /** `Stack::new`: an empty stack. */
    constructor ()
      ensures elements == []
      ensures IsEmpty() && Peek() == None
    {
      elements := [];
    }

    /** `Stack::push`: `value` goes on top of the elements already there;
        afterwards the stack is not empty and its top is `value`. */
    method Push(value: T)
      modifies this
      ensures elements == old(elements) + [value]
      ensures !IsEmpty() && Peek() == Some(value)
    {
      elements := elements + [value];
    }

    /** `Stack::pop`: removes and returns the top. An empty stack yields
        `None` and stays empty; otherwise the result is the value the last
        `Push` put there and the elements below it remain. */
    method Pop() returns (top: Option<T>)
      modifies this
      ensures old(elements) == [] ==> top == None && elements == []
      ensures old(elements) != [] ==> top == old(Peek()) && elements == old(elements[..|elements| - 1])
    {
      if elements == [] {
        top := None;
      } else {
        top := Some(elements[|elements| - 1]);
        elements := elements[..|elements| - 1];
      }
    }

    /** `Stack::peek`: the top element without removing it, `None` when
        the stack is empty. */
    function Peek(): (top: Option<T>)
      reads this
      ensures top.Some? <==> elements != []
      ensures top.Some? ==> top.value == elements[|elements| - 1]
    {
      if elements == [] then None else Some(elements[|elements| - 1])
    }

    /** `Stack::is_empty`: whether no element is on the stack. */
    function IsEmpty(): (empty: bool)
      reads this
      ensures empty <==> |elements| == 0
    {
      elements == []
    }
  }

  /** A push followed by a pop hands back the pushed value and leaves the
      stack as it was. */
  method PushThenPop<T>(s: Stack<T>, value: T) returns (popped: Option<T>)
    modifies s
    ensures popped == Some(value)
    ensures s.elements == old(s.elements)
  {
    ghost var before := s.elements;
    s.Push(value);
    popped := s.Pop();
    assert (before + [value])[..|before|] == before;
  }

  /** The unit test `test_stack_operations`: a new stack is empty; after
      pushing 10 and 20 the top is 20, the pops return 20 and then 10, and
      the stack is empty again. */
  method StackOperations() returns (emptyAtStart: bool, top: Option<I32>,
                                    first: Option<I32>, second: Option<I32>, emptyAtEnd: bool)
    ensures emptyAtStart && emptyAtEnd
    ensures top == Some(20) && first == Some(20) && second == Some(10)
  {
    var s := new Stack<I32>();
    emptyAtStart := s.IsEmpty();
    s.Push(10);
    s.Push(20);
    assert s.elements == [10, 20];
    top := s.Peek();
    first := s.Pop();
    assert s.elements == [10];
    second := s.Pop();
    emptyAtEnd := s.IsEmpty();
  }
}
