/** The reference-counted block behind a dynamic optimized buffer:
    `shared_buffer` of bigint-optimized/optimized_buffer.h, and the revised
    `shared_buffer_t` helpers that bigint-optimized/optimized_buffer.cpp calls. */
module SharedBlocks {
  import opened Arith

  /** The first n elements of s, followed by copies of v when s is shorter. */
  function Resized<T>(s: seq<T>, n: nat, v: T): (r: seq<T>)
  {
    if n <= |s| then s[..n] else s + seq(n - |s|, _ => v)
  }

  /** Resizing keeps the common prefix and fills the rest with v. */
  lemma ResizedAt<T>(s: seq<T>, n: nat, v: T)
    ensures |Resized(s, n, v)| == n
    ensures forall k :: 0 <= k < Min(n, |s|) ==> Resized(s, n, v)[k] == s[k]
    ensures forall k :: |s| <= k < n ==> Resized(s, n, v)[k] == v
  {
  }

  /** Growing and then cutting back to the old length gives the old sequence;
      growing in two steps is growing in one. */
  lemma ResizedGrowShrink<T>(s: seq<T>, m: nat, n: nat, v: T)
    requires |s| <= m <= n
    ensures Resized(Resized(s, n, v), |s|, v) == s
    ensures Resized(Resized(s, m, v), n, v) == Resized(s, n, v)
  {
    assert Resized(s, n, v)[..|s|] == s;
    var t := Resized(s, m, v);
    assert Resized(t, n, v) == t + seq(n - m, _ => v);
  }

  /** Cutting a resized sequence back resizes to the shorter length. */
  lemma ResizedPrefix<T>(s: seq<T>, m: nat, n: nat, v: T)
    requires n <= m
    ensures Resized(s, m, v)[..n] == Resized(s, n, v)
  {
  }

  /** Replacing a member by another never makes a set larger. */
  lemma ReplaceHolder(s: set<object>, x: object, y: object)
    requires x in s
    ensures |s - {x} + {y}| <= |s|
  {
    CountWithout(s, x);
    if y !in s - {x} {
      assert s - {x} + {y} == (s - {x}) + {y};
    }
  }

  /** A block: its reference count, its capacity and its elements (the flexible
      array member, part of the block itself). `holders` names the buffers that
      point at it; every one of them is counted in `refCount`. */
  class SharedBlock<T(0)> {
    var refCount: nat
    const capacity: nat
    var data: seq<T>
    ghost var holders: set<object>

    ghost predicate Valid()
      reads this
    {
      |data| == capacity && |holders| <= refCount
    }

    /** The block is held by `holder` alone and its count says so. */
    ghost predicate UniquelyHeldBy(holder: object)
      reads this
    {
      Valid() && refCount == 1 && holders == {holder}
    }

    /** The raw allocation: count 1, the given capacity, elements not yet written. */
    constructor (capacity: nat, ghost holder: object)
      ensures UniquelyHeldBy(holder) && this.capacity == capacity
    {
      var unwritten: T := *;
      this.capacity := capacity;
      refCount := 1;
      data := seq(capacity, _ => unwritten);
      holders := {holder};
    }

    /** `allocate_buffer`: a block of capacity + reserved slots, count 1. */
    static method AllocateBuffer(capacity: nat, reserved: nat, ghost holder: object) returns (b: SharedBlock<T>)
      ensures fresh(b) && b.UniquelyHeldBy(holder) && b.capacity == capacity + reserved
    {
      b := new SharedBlock(capacity + reserved, holder);
    }

    /** `add_ref`: one more holder. */
    method AddRef(ghost holder: object)
      requires Valid() && holder !in holders
      modifies this
      ensures Valid() && refCount == old(refCount) + 1 && holders == old(holders) + {holder}
      ensures data == old(data)
    {
      refCount := refCount + 1;
      holders := holders + {holder};
    }

    /** `release`: nothing for a null block; otherwise one holder fewer. At count
        zero the source frees the block, which here simply stops being used. */
    static method Release(b: SharedBlock?<T>, ghost holder: object)
      requires b != null ==> b.Valid() && holder in b.holders
      modifies b
      ensures b != null ==> b.Valid() && b.refCount == old(b.refCount) - 1
      ensures b != null ==> b.holders == old(b.holders) - {holder} && b.data == old(b.data)
    {
      if b == null {
        return;
      }
      CountWithout(b.holders, holder);
      b.refCount := b.refCount - 1;
      b.holders := b.holders - {holder};
    }

    /** `std::fill` of the slots [from, to) with v. */
    method Fill(from: nat, to: nat, v: T)
      requires Valid() && from <= to <= capacity
      modifies this
      ensures Valid() && refCount == old(refCount) && holders == old(holders)
      ensures data == old(data)[..from] + seq(to - from, _ => v) + old(data)[to..]
    {
      var i := from;
      while i < to
        invariant from <= i <= to && |data| == capacity
        invariant forall k :: 0 <= k < |data| ==> data[k] == if from <= k < i then v else old(data)[k]
        invariant refCount == old(refCount) && holders == old(holders)
      {
        data := data[i := v];
        i := i + 1;
      }
      assert data == old(data)[..from] + seq(to - from, _ => v) + old(data)[to..];
    }

    /** `std::copy` of src into the slots from 0. */
    method CopyFrom(src: seq<T>)
      requires Valid() && |src| <= capacity
      modifies this
      ensures Valid() && refCount == old(refCount) && holders == old(holders)
      ensures data == src + old(data)[|src|..]
    {
      var i := 0;
      while i < |src|
        invariant 0 <= i <= |src| && |data| == capacity
        invariant forall k :: 0 <= k < |data| ==> data[k] == if k < i then src[k] else old(data)[k]
        invariant refCount == old(refCount) && holders == old(holders)
      {
        data := data[i := src[i]];
        i := i + 1;
      }
      assert data == src + old(data)[|src|..];
    }

    /** `is_unique` of the revised block: the count is one. */
    function IsUnique(): (r: bool)
      requires Valid()
      reads this
      ensures r <==> refCount == 1
      ensures r ==> forall h :: h in holders ==> holders == {h}
    {
      if refCount == 1 then
        assert forall h :: h in holders ==> holders == {h} by {
          forall h | h in holders ensures holders == {h} {
            OnlyHolder(holders, h);
          }
        }
        true
      else
        false
    }

    /** The revised `shared_buffer_t::allocate`, whose definition is not part of
        this model: a fresh block of at least newSize slots with count 1, holding
        the first min(oldSize, newSize) old elements and then copies of v. */
    static method Allocate(newSize: nat, v: T, oldData: seq<T>, ghost holder: object) returns (b: SharedBlock<T>)
      ensures fresh(b) && b.UniquelyHeldBy(holder) && b.capacity >= newSize
      ensures b.data[..newSize] == Resized(oldData, newSize, v)
    {
      b := new SharedBlock(newSize, holder);
      var copied := Min(|oldData|, newSize);
      b.CopyFrom(oldData[..copied]);
      b.Fill(copied, newSize, v);
      assert b.data == Resized(oldData, newSize, v);
    }

    /** The revised `shared_buffer_t::unshare`, whose definition is not part of
        this model: a block held by `holder` alone with at least newSize slots,
        holding the first size elements resized to newSize with v. When a new
        block is made, the old one loses `holder` and keeps its elements. */
    static method Unshare(b: SharedBlock<T>, size: nat, newSize: nat, v: T, ghost holder: object)
      returns (r: SharedBlock<T>)
      requires b.Valid() && holder in b.holders && size <= b.capacity
      modifies b
      ensures r.UniquelyHeldBy(holder) && r.capacity >= newSize
      ensures r.data[..newSize] == Resized(old(b.data[..size]), newSize, v)
      ensures r != b ==> fresh(r) && b.Valid() && b.data == old(b.data)
      ensures r != b ==> b.refCount == old(b.refCount) - 1 && b.holders == old(b.holders) - {holder}
      ensures r == b ==> old(b.refCount) == 1
    {
      r := Allocate(newSize, v, b.data[..size], holder);
      Release(b, holder);
    }

    /** The revised `shared_buffer_t::ensure_unique`, whose definition is not part
        of this model: the block itself when its count is one, otherwise an
        unshared copy of its first size elements. */
    static method EnsureUnique(b: SharedBlock<T>, size: nat, ghost holder: object) returns (r: SharedBlock<T>)
      requires b.Valid() && holder in b.holders && size <= b.capacity
      modifies b
      ensures r.Valid() && holder in r.holders && r.refCount == 1 && r.capacity >= size
      ensures r.data[..size] == old(b.data[..size])
      ensures r == b <==> old(b.refCount) == 1
      ensures r == b ==> r.data == old(b.data) && r.holders == old(b.holders)
      ensures r != b ==> fresh(r) && r.holders == {holder} && b.Valid() && b.data == old(b.data)
      ensures r != b ==> b.refCount == old(b.refCount) - 1 && b.holders == old(b.holders) - {holder}
    {
      if b.IsUnique() {
        return b;
      }
      var t: T := *;
      r := Unshare(b, size, size, t, holder);
    }
  }

  /** Removing a member lowers a set's size by one. */
  lemma CountWithout(s: set<object>, x: object)
    requires x in s
    ensures |s - {x}| == |s| - 1
  {
  }

  /** In a set of size at most one, a member is the only member. */
  lemma OnlyHolder(s: set<object>, x: object)
    requires x in s && |s| <= 1
    ensures s == {x}
  {
    CountWithout(s, x);
    assert s - {x} == {};
  }

  /** Two different members make a set of size at least two. */
  lemma TwoHolders(s: set<object>, x: object, y: object)
    requires x in s && y in s && x != y
    ensures |s| >= 2
  {
    CountWithout(s, x);
    assert y in s - {x};
  }

  /** The ghost side of `swap` between two buffers holding different blocks: each
      block's holder is replaced by the other buffer. */
  ghost method ExchangeHolders<T(0)>(mine: SharedBlock?<T>, theirs: SharedBlock?<T>, a: object, b: object)
    requires mine != theirs
    requires mine != null ==> mine.Valid() && a in mine.holders
    requires theirs != null ==> theirs.Valid() && b in theirs.holders
    modifies mine, theirs
    ensures mine != null ==> mine.Valid() && mine.holders == old(mine.holders) - {a} + {b}
    ensures theirs != null ==> theirs.Valid() && theirs.holders == old(theirs.holders) - {b} + {a}
    ensures mine != null ==> mine.data == old(mine.data) && mine.refCount == old(mine.refCount)
    ensures theirs != null ==> theirs.data == old(theirs.data) && theirs.refCount == old(theirs.refCount)
  {
    if mine != null {
      ReplaceHolder(mine.holders, a, b);
      mine.holders := mine.holders - {a} + {b};
    }
    if theirs != null {
      ReplaceHolder(theirs.holders, b, a);
      theirs.holders := theirs.holders - {b} + {a};
    }
  }
}
