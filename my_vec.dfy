/** `MyVec` (modulo-1/vetores): a growable vector of `i32` wrapping a Rust
    `Vec`. The wrapped vector is the field `data`, reassigned by `Push`. */
module Vectors {
  import opened Primitives

  class MyVec {
    var data: seq<I32>

    /** `MyVec::new`: an empty vector, in which no index holds a value. */
    constructor ()
      ensures data == []
      ensures forall i: nat :: Get(i) == None
    {
      data := [];
    }

    /** `MyVec::push`: appends `value` at the end. The elements already
        there keep their indices and values, the new one sits at the old
        length, and nothing lies past it. */
    method Push(value: I32)
      modifies this
      ensures data == old(data) + [value]
      ensures forall i: nat :: i < |old(data)| ==> Get(i) == old(Get(i))
      ensures Get(|old(data)|) == Some(value)
      ensures Get(|old(data)| + 1) == None
    {
      data := data + [value];
    }

    /** `MyVec::get`: the element at `index` when the index is in bounds,
        `None` otherwise (Rust's bounds-checked `Vec::get`). */
    function Get(index: nat): (r: Option<I32>)
      reads this
      ensures r.Some? <==> index < |data|
      ensures r.Some? ==> r.value == data[index]
    {
      if index < |data| then Some(data[index]) else None
    }
  }

  /** The unit test `test_push_and_get`: after pushing 10 and 20 into a new
      vector, index 0 holds 10, index 1 holds 20 and index 2 holds nothing. */
  method PushAndGet() returns (first: Option<I32>, second: Option<I32>, third: Option<I32>)
    ensures first == Some(10) && second == Some(20) && third == None
  {
    var v := new MyVec();
    v.Push(10);
    v.Push(20);
    first := v.Get(0);
    second := v.Get(1);
    third := v.Get(2);
  }
}
