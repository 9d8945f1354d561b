/** The growable array of vector/vector.h: a buffer of `capacity` slots whose
    first `size` slots hold the elements. Raw storage becomes a Dafny array of
    length `capacity` (an empty array where the source holds `nullptr`). */
module Vectors {
  import opened Arith

  /** The capacity `ensure_capacity(needed)` leaves behind: unchanged when it
      already suffices, otherwise the larger of one and a half times the old
      capacity and the capacity needed. */
  function GrownCapacity(capacity: nat, needed: nat): (c: nat)
  {
    if capacity >= needed then capacity else Max(capacity * 3 / 2, needed)
  }

  /** Growth never shrinks the buffer, always makes room for what was asked, and
      grows by at least half when it grows at all (so appends reallocate only
      every so often). */
  lemma GrownCapacityBounds(capacity: nat, needed: nat)
    ensures GrownCapacity(capacity, needed) >= capacity
    ensures GrownCapacity(capacity, needed) >= needed
    ensures GrownCapacity(capacity, needed) == capacity <==> capacity >= needed
    ensures capacity < needed ==> 2 * GrownCapacity(capacity, needed) >= 3 * capacity - 1
  {
  }

  /** s with x placed before position pos. */
  function Inserted<T>(s: seq<T>, pos: nat, x: T): (r: seq<T>)
    requires pos <= |s|
  {
    s[..pos] + [x] + s[pos..]
  }

  /** s without the positions l up to (not including) r. */
  function Erased<T>(s: seq<T>, l: nat, r: nat): (t: seq<T>)
    requires l <= r <= |s|
  {
    s[..l] + s[r..]
  }

  /** Inserting puts x at pos, keeps what was before it and moves the rest up by one. */
  lemma InsertedAt<T>(s: seq<T>, pos: nat, x: T)
    requires pos <= |s|
    ensures |Inserted(s, pos, x)| == |s| + 1 && Inserted(s, pos, x)[pos] == x
    ensures forall k :: 0 <= k < pos ==> Inserted(s, pos, x)[k] == s[k]
    ensures forall k :: pos < k <= |s| ==> Inserted(s, pos, x)[k] == s[k - 1]
  {
  }

  /** Erasing one position undoes inserting at that position. */
  lemma EraseInsert<T>(s: seq<T>, pos: nat, x: T)
    requires pos <= |s|
    ensures Erased(Inserted(s, pos, x), pos, pos + 1) == s
  {
    var t := Inserted(s, pos, x);
    assert t[..pos] == s[..pos];
    assert t[pos + 1..] == s[pos..];
  }

  /** Erasing [l, r) removes r - l elements, keeps the prefix and moves the
      suffix down. */
  lemma ErasedAt<T>(s: seq<T>, l: nat, r: nat)
    requires l <= r <= |s|
    ensures |Erased(s, l, r)| == |s| - (r - l)
    ensures forall k :: 0 <= k < l ==> Erased(s, l, r)[k] == s[k]
    ensures forall k :: l <= k < |s| - (r - l) ==> Erased(s, l, r)[k] == s[k + r - l]
  {
  }

  class Vector<T(0)> {
    var data: array<T>
    var size: nat
    var capacity: nat

    /** The buffer has `capacity` slots, and the size never exceeds it. */
    ghost predicate Valid()
      reads this
    {
      data.Length == capacity && size <= capacity
    }

    /** The elements: the first `size` slots. */
    ghost function Contents(): seq<T>
      reads this, data
    {
      if size <= data.Length then data[..size] else []
    }

    /** `vector()`: no buffer, no elements. */
    constructor ()
      ensures Valid() && fresh(data) && Contents() == [] && capacity == 0
    {
      data := new T[0];
      size := 0;
      capacity := 0;
    }

    /** `new_buffer`: move the elements into a fresh buffer of
        max(newCapacity, size) slots. */
    method NewBuffer(newCapacity: nat)
      requires Valid()
      modifies this
      ensures Valid() && fresh(data) && size == old(size)
      ensures capacity == Max(newCapacity, old(size))
      ensures Contents() == old(Contents())
    {
      var n := Max(newCapacity, size);
      var newData := new T[n];
      var i := 0;
      while i < size
        invariant 0 <= i <= size && newData[..i] == data[..i]
        modifies newData
      {
        newData[i] := data[i];
        i := i + 1;
      }
      assert newData[..size] == data[..size];
      data := newData;
      capacity := n;
    }

    /** `ensure_capacity`: reallocate to `GrownCapacity` when the buffer is
        too small. */
    method EnsureCapacity(needed: nat)
      requires Valid()
      modifies this
      ensures Valid() && size == old(size) && Contents() == old(Contents())
      ensures capacity == GrownCapacity(old(capacity), needed)
      ensures data == old(data) || fresh(data)
    {
      if capacity >= needed {
        return;
      }
      NewBuffer(Max(capacity * 3 / 2, needed));
    }

    /** The copy constructor: a buffer of exactly other's size holding copies of
        its elements. */
    constructor Copy(other: Vector<T>)
      requires other.Valid()
      ensures Valid() && fresh(data) && Contents() == other.Contents() && capacity == other.size
    {
      var n := other.size;
      var newData := new T[n];
      var i := 0;
      while i < n
        invariant 0 <= i <= n && newData[..i] == other.data[..i]
      {
        newData[i] := other.data[i];
        i := i + 1;
      }
      data := newData;
      size := n;
      capacity := n;
    }

    /** `operator=`: copy and swap, except on self-assignment, which changes nothing. */
    method Assign(other: Vector<T>)
      requires Valid() && other.Valid()
      modifies this
      ensures Valid() && Contents() == old(other.Contents())
      ensures other == this ==> capacity == old(capacity) && data == old(data)
      ensures other != this ==> capacity == old(other.size) && fresh(data)
    {
      if this != other {
        var copy := new Vector.Copy(other);
        Swap(copy);
      }
    }

    /** `operator[]` (read). */
    function Get(i: nat): (x: T)
      requires Valid() && i < size
      reads this, data
      ensures x == Contents()[i]
    {
      data[i]
    }

    /** `operator[]` (write through the returned reference). */
    method Set(i: nat, x: T)
      requires Valid() && i < size
      modifies data
      ensures Valid() && Contents() == old(Contents())[i := x]
    {
      data[i] := x;
    }

    function Size(): (n: nat)
      requires Valid()
      reads this, data
      ensures n == |Contents()|
    {
      size
    }

    function Empty(): (b: bool)
      requires Valid()
      reads this, data
      ensures b <==> Contents() == []
    {
      size == 0
    }

    function Front(): (x: T)
      requires Valid() && size > 0
      reads this, data
      ensures x == Contents()[0]
    {
      data[0]
    }

    function Back(): (x: T)
      requires Valid() && size > 0
      reads this, data
      ensures x == Contents()[|Contents()| - 1]
    {
      data[size - 1]
    }

    /** `push_back`: write into the next free slot, first growing the buffer when
        it is full. */
    method PushBack(x: T)
      requires Valid()
      modifies this, data
      ensures Valid() && Contents() == old(Contents()) + [x]
      ensures capacity == GrownCapacity(old(capacity), old(size) + 1)
      ensures data == old(data) || fresh(data)
    {
      if size < capacity {
        data[size] := x;
        size := size + 1;
      } else {
        var buf := x;
        EnsureCapacity(size + 1);
        data[size] := buf;
        size := size + 1;
      }
    }

    /** `pop_back` (the source requires a non-empty vector). */
    method PopBack()
      requires Valid() && size > 0
      modifies this
      ensures Valid() && data == old(data) && capacity == old(capacity)
      ensures Contents() == old(Contents())[..old(size) - 1]
    {
      size := size - 1;
    }

    /** `reserve`: grow to at least newCapacity, never shrink. */
    method Reserve(newCapacity: nat)
      requires Valid()
      modifies this
      ensures Valid() && Contents() == old(Contents())
      ensures capacity == GrownCapacity(old(capacity), newCapacity)
    {
      EnsureCapacity(newCapacity);
    }

    /** `shrink_to_fit`: reallocate to exactly `size` slots when there are spare ones. */
    method ShrinkToFit()
      requires Valid()
      modifies this
      ensures Valid() && Contents() == old(Contents()) && capacity == size
    {
      if capacity != size {
        NewBuffer(size);
      }
    }

    /** `clear`: no elements; the buffer is kept. */
    method Clear()
      requires Valid()
      modifies this
      ensures Valid() && Contents() == [] && data == old(data) && capacity == old(capacity)
    {
      size := 0;
    }

    /** `swap`: exchange buffers, sizes and capacities. */
    method Swap(other: Vector<T>)
      requires Valid() && other.Valid()
      modifies this, other
      ensures Valid() && other.Valid()
      ensures data == old(other.data) && size == old(other.size) && capacity == old(other.capacity)
      ensures other.data == old(data) && other.size == old(size) && other.capacity == old(capacity)
      ensures Contents() == old(other.Contents()) && other.Contents() == old(Contents())
    {
      data, other.data := other.data, data;
      size, other.size := other.size, size;
      capacity, other.capacity := other.capacity, capacity;
    }

    /** `insert`: append, then swap the new element down to position pos; returns
        the position it lands at. */
    method Insert(pos: nat, x: T) returns (at: nat)
      requires Valid() && pos <= size
      modifies this, data
      ensures Valid() && at == pos
      ensures Contents() == Inserted(old(Contents()), pos, x)
      ensures capacity == GrownCapacity(old(capacity), old(size) + 1)
      ensures data == old(data) || fresh(data)
    {
      ghost var s := Contents();
      PushBack(x);
      var i := size - 1;
      while i > pos
        invariant pos <= i < size == |s| + 1 && Valid()
        invariant data == old(data) || fresh(data)
        invariant data[i] == x
        invariant forall k :: 0 <= k < i ==> data[k] == s[k]
        invariant forall k :: i < k < size ==> data[k] == s[k - 1]
        modifies data
      {
        data[i - 1], data[i] := data[i], data[i - 1];
        i := i - 1;
      }
      InsertedAt(s, pos, x);
      assert Contents() == Inserted(s, pos, x);
      at := pos;
    }

    /** `erase(first, last)`: swap every element from `last` on down by
        last - first places, then drop the tail; returns `first`. */
    method Erase(first: nat, last: nat) returns (at: nat)
      requires Valid() && first <= last <= size
      modifies this, data
      ensures Valid() && at == first && data == old(data) && capacity == old(capacity)
      ensures Contents() == Erased(old(Contents()), first, last)
    {
      ghost var s := Contents();
      var dst, src := first, last;
      while src < size
        invariant last <= src <= size && dst == src - (last - first)
        invariant forall k :: 0 <= k < first ==> data[k] == s[k]
        invariant forall k :: first <= k < dst ==> data[k] == s[k + last - first]
        invariant forall k :: src <= k < size ==> data[k] == s[k]
        modifies data
      {
        data[dst], data[src] := data[src], data[dst];
        dst, src := dst + 1, src + 1;
      }
      size := size - (last - first);
      ErasedAt(s, first, last);
      assert Contents() == Erased(s, first, last);
      at := first;
    }

    /** `erase(pos)`: `erase(pos, pos + 1)`. */
    method EraseAt(pos: nat) returns (at: nat)
      requires Valid() && pos < size
      modifies this, data
      ensures Valid() && at == pos && data == old(data)
      ensures Contents() == Erased(old(Contents()), pos, pos + 1)
    {
      at := Erase(pos, pos + 1);
    }
  }
}
