/** `vector`: a growing array. */
module Vectors {
  class Vector<T(0)> {
    var data: array<T>
    var size: nat
    var capacity: nat
    ghost var copied: nat   // elements copied by reallocations so far

    ghost predicate Valid()
      reads this
    {
      size <= capacity == data.Length
    }

    ghost function Contents(): (c: seq<T>)
      requires Valid()
      reads this, data
      ensures |c| == size
    {
      data[..size]
    }

    constructor ()
      ensures Valid() && fresh(data) && Contents() == [] && capacity == 0 && copied == 0
    {
      data := new T[0];
      size, capacity, copied := 0, 0, 0;
    }

    method Reserve(newCapacity: nat)
      requires Valid()
      modifies this`data, this`capacity, this`copied
      ensures Valid() && Contents() == old(Contents())
      ensures capacity == (if newCapacity > old(capacity) then newCapacity else old(capacity))
      ensures if newCapacity > old(capacity) then fresh(data) && copied == old(copied) + size
              else data == old(data) && copied == old(copied)
    {
      if newCapacity > capacity {
        var newData := new T[newCapacity];
        var i := 0;
        while i < size
          invariant 0 <= i <= size && newData[..i] == data[..i]
          invariant copied == old(copied) + i
          modifies newData, this`copied
        {
          newData[i] := data[i];
          copied := copied + 1;
          i := i + 1;
        }
        data := newData;
        capacity := newCapacity;
      }
    }

    method PushBack(value: T)
      requires Valid()
      modifies this, data
      ensures Valid() && Contents() == old(Contents()) + [value]
      ensures data == old(data) || fresh(data)
      ensures capacity == if old(size < capacity) then old(capacity)
                          else if old(capacity) == 0 then 1 else 2 * old(capacity)
      ensures copied == old(copied) + if old(size < capacity) then 0 else old(size)
    {
      if size == capacity {
        Reserve(if capacity == 0 then 1 else capacity * 2);
      }
      data[size] := value;
      size := size + 1;
    }

    method PopBack()
      requires Valid()
      modifies this`size
      ensures Valid() && Contents() == old(if size > 0 then Contents()[..size - 1] else [])
    {
      if size > 0 {
        size := size - 1;
      }
    }

    /** An empty vector without memory is not grown by `insert`, since twice nothing is nothing. */
    method Insert(index: nat, value: T)
      requires Valid() && index <= size && capacity > 0
      modifies this, data
      ensures Valid() && Contents() == old(Contents()[..index] + [value] + Contents()[index..])
      ensures data == old(data) || fresh(data)
    {
      if size == capacity {
        Reserve(capacity * 2);
      }
      ghost var before := Contents();
      forall i | index <= i < size {
        data[i + 1] := data[i];
      }
      data[index] := value;
      size := size + 1;
      ghost var after := before[..index] + [value] + before[index..];
      forall i | 0 <= i < size ensures data[i] == after[i] {
        if i > index {
          assert data[i - 1 + 1] == before[i - 1];
        }
      }
      assert Contents() == after;
    }

    /** Removes the element at `pos`; at the end it does nothing. The iterator it returns is one
        place behind the element that moved up: past the new end if the last one was removed. */
    method Erase(pos: nat) returns (next: nat)
      requires Valid() && pos <= size
      modifies this`size, data
      ensures Valid() && data == old(data) && capacity == old(capacity)
      ensures Contents() == old(if pos == size then Contents() else Contents()[..pos] + Contents()[pos + 1..])
      ensures next == if pos == old(size) then size else pos + 1
      ensures next > size <==> pos + 1 == old(size)
    {
      if pos == size {
        return size;
      }
      MoveDown(pos, pos + 1);
      PopBack();
      return pos + 1;
    }

    /** The loop of both kinds of erasure: the elements from `first` on move to `to` and behind. */
    method MoveDown(to: nat, first: nat)
      requires Valid() && to <= first <= size
      modifies data
      ensures data[..size - (first - to)] == old(data[..to] + data[first..size])
    {
      ghost var before := data[..];
      var i, j := to, first;
      while j != size
        invariant to <= i <= j <= size && j - i == first - to
        invariant forall k :: 0 <= k < i ==> data[k] == before[if k < to then k else k + (first - to)]
        invariant forall k :: j <= k < size ==> data[k] == before[k]
        decreases size - j
        modifies data
      {
        data[i] := data[j];
        i, j := i + 1, j + 1;
      }
    }

    /** Removes the elements from `first` up to `last`, and returns where the rest now starts. */
    method EraseRange(first: nat, last: nat) returns (next: nat)
      requires Valid() && first <= last <= size
      modifies this`size, data
      ensures Valid() && data == old(data) && capacity == old(capacity)
      ensures Contents() == old(Contents()[..first] + Contents()[last..])
      ensures next == first && Contents()[next..] == old(Contents()[last..])
    {
      if first == last {
        assert Contents() == Contents()[..first] + Contents()[last..];
        return last;
      }
      ghost var left := data[..first] + data[last..size];
      assert left == Contents()[..first] + Contents()[last..];
      MoveDown(first, last);
      var n, k := last - first, 0;
      ghost var full := size;
      while k < n
        invariant 0 <= k <= n && size == full - k && Valid()
        modifies this`size
      {
        PopBack();
        k := k + 1;
      }
      assert size == full - (last - first);
      assert Contents() == left;
      assert left[first..] == old(Contents()[last..]);
      return first;
    }

    method Resize(newSize: nat, default: T)
      requires Valid()
      modifies this, data
      ensures Valid() && |Contents()| == newSize
      ensures forall i :: 0 <= i < newSize ==> Contents()[i] == if i < old(size) then old(Contents())[i] else default
    {
      if newSize > size {
        Reserve(newSize);
        ghost var before := Contents();
        var i := size;
        while i < newSize
          invariant size <= i <= newSize
          invariant forall k :: 0 <= k < i ==> data[k] == if k < size then before[k] else default
          modifies data
        {
          data[i] := default;
          i := i + 1;
        }
      }
      size := newSize;
    }

    /** What holds of a vector that only ever was pushed to: reallocations have copied one
        element less than it has room for, and it has room for less than twice its size. */
    ghost predicate OnlyPushed()
      reads this
    {
      if size == 0 then capacity == 0 && copied == 0 else copied == capacity - 1 && capacity < 2 * size
    }

    /** Pushing n values copies fewer than 2n elements. */
    method PushAll(values: seq<T>)
      requires Valid() && size == 0 && OnlyPushed()
      modifies this, data
      ensures Valid() && Contents() == values && OnlyPushed()
      ensures values != [] ==> copied == capacity - 1 && copied < 2 * |values|
    {
      for i := 0 to |values|
        invariant Valid() && Contents() == values[..i] && OnlyPushed()
        invariant data == old(data) || fresh(data)
      {
        PushBack(values[i]);
      }
    }
  }
}
