/** The mutex-protected queue that connects the threads. Each method is one
    critical section of the original, hence atomic here. */
module SafeFifo {
  class SafeFIFO<T> {
    var vec: seq<T>

    constructor ()
      ensures vec == []
    {
      vec := [];
    }

    /** Takes everything out of the queue. */
    method ReadAll() returns (data: seq<T>)
      modifies this
      ensures data == old(vec)
      ensures vec == []
    {
      data := [];
      var i := 0;
      while i < |vec|
        invariant 0 <= i <= |vec|
        invariant data == vec[..i]
        invariant vec == old(vec)
      {
        data := data + [vec[i]];
        i := i + 1;
      }
      vec := [];
    }

    /** Takes the oldest element. The original reads element 0 unguarded. */
    method ReadOne() returns (data: T)
      requires vec != []
      modifies this
      ensures [data] + vec == old(vec)
    {
      data := vec[0];
      vec := vec[1..];
    }

    /** Appends a run of elements, oldest first. */
    method WriteAll(data: seq<T>)
      modifies this
      ensures vec == old(vec) + data
    {
      var i := 0;
      while i < |data|
        invariant 0 <= i <= |data|
        invariant vec == old(vec) + data[..i]
      {
        vec := vec + [data[i]];
        i := i + 1;
      }
    }

    /** Appends one element. */
    method WriteOne(data: T)
      modifies this
      ensures vec == old(vec) + [data]
    {
      vec := vec + [data];
    }

    /** Drops the `size` oldest elements. */
    method Remove(size: nat)
      requires size <= |vec|
      modifies this
      ensures vec == old(vec)[size..]
    {
      vec := vec[size..];
    }

    function Size(): nat
      reads this
    {
      |vec|
    }

    predicate Empty()
      reads this
    {
      vec == []
    }
  }
}
