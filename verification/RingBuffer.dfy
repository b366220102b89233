/** The fixed-size ring buffer: one slot stays free, and pushing onto a full buffer drops the oldest item. */
module RingBuffer {

  // The slot k places behind `read`.
  function Slot(read: nat, k: nat, size: nat): nat {
    if read + k < size then read + k else read + k - size
  }

  class Ring {
    const size: nat
    const buffer: array<int>
    const init: int
    var read: nat
    var write: nat
    ghost var contents: seq<int>  // from the oldest item to the newest

    ghost predicate Valid()
      reads this, buffer
    {
      && size >= 2 && buffer.Length == size && read < size && write < size
      && |contents| < size && write == Slot(read, |contents|, size)
      && forall k :: 0 <= k < |contents| ==> buffer[Slot(read, k, size)] == contents[k]
    }

    constructor (length: nat, initial: int)
      requires length >= 2
      ensures Valid() && fresh(buffer) && size == length && init == initial && contents == []
    {
      size, init, read, write, contents := length, initial, 0, 0, [];
      buffer := new int[length](_ => initial);
    }

    function Step(index: nat): nat
      requires index < size
    {
      if index == size - 1 then 0 else index + 1
    }

    method PushFront(item: int)
      requires Valid()
      modifies this, buffer
      ensures Valid()
      ensures contents == (if |old(contents)| == size - 1 then old(contents)[1..] else old(contents)) + [item]
    {
      if Step(write) == read {
        assert |contents| == size - 1;
        read := Step(read);
        contents := contents[1..];
      }
      buffer[write] := item;
      write := Step(write);
      contents := contents + [item];
    }

    method Empty() returns (r: bool)
      requires Valid()
      ensures r <==> contents == []
    {
      r := write == read;
    }

    // The oldest item is taken out.
    method PopBack() returns (item: int)
      requires Valid()
      modifies this
      ensures Valid()
      ensures old(contents) == [] ==> item == init && contents == []
      ensures old(contents) != [] ==> item == old(contents)[0] && contents == old(contents)[1..]
    {
      item := init;
      var empty := Empty();
      if !empty {
        item := buffer[read];
        assert Slot(read, 0, size) == read;
        read := Step(read);
        contents := contents[1..];
      }
    }

    // The newest item is taken out.
    method PopFront() returns (item: int)
      requires Valid()
      modifies this
      ensures Valid()
      ensures old(contents) == [] ==> item == init && contents == []
      ensures old(contents) != [] ==>
                item == old(contents)[|old(contents)| - 1] && contents == old(contents)[..|old(contents)| - 1]
    {
      var empty := Empty();
      if empty {
        return init;
      }
      write := if write > 0 then write - 1 else size - 1;
      assert write == Slot(read, |contents| - 1, size);
      contents := contents[..|contents| - 1];
      item := buffer[write];
    }

    method Front() returns (item: int)
      requires Valid()
      ensures item == if contents == [] then init else contents[|contents| - 1]
    {
      var empty := Empty();
      if empty {
        return init;
      }
      var at := if write > 0 then write - 1 else size - 1;
      assert at == Slot(read, |contents| - 1, size);
      item := buffer[at];
    }
  }
}
