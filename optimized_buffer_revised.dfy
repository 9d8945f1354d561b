/** The revised `optimized_buffer` of bigint-optimized/optimized_buffer.cpp: up to
    `STATIC_BUFFER_SIZE` places inline, more in a reference-counted block shared
    between copies (copy on write). The inline capacity is defined in a header
    that is not part of this model, so it is a constant of each buffer here and
    every proof holds whatever its value. The flag that tells the two variants
    apart is the tag of `Storage`.

    As in the header version, every method that changes a buffer takes a ghost
    `bystander` (any other valid buffer) and leaves its places unchanged. */
module OptimizedBufferRevised {
  import opened Words
  import opened SharedBlocks

  /** The union of the source: the inline array or a block pointer. */
  datatype Storage = Static(places: seq<Word32>) | Dynamic(block: SharedBlock<Word32>)

  class OptimizedBuffer {
    const staticSize: nat
    var storage: Storage
    var size: nat

    ghost function Footprint(): set<object>
      reads this
    {
      if storage.Dynamic? then {this, storage.block} else {this}
    }

    /** Inline: the array has `staticSize` slots and holds the places. Dynamic:
        a held block large enough for the places (the size may since have
        dropped to `staticSize` or below). */
    ghost predicate Valid()
      reads this, Footprint()
    {
      match storage
      case Static(places) => |places| == staticSize && size <= staticSize
      case Dynamic(b) => b.Valid() && size <= b.capacity && this in b.holders
    }

    ghost function Contents(): seq<Word32>
      requires Valid()
      reads this, Footprint()
    {
      match storage
      case Static(places) => places[..size]
      case Dynamic(b) => b.data[..size]
    }

    /** Another valid buffer, not this one. */
    ghost predicate Bystander(other: OptimizedBuffer)
      reads this, other, other.Footprint()
    {
      other != this && other.Valid()
    }

    /** A block whose count is one is held by no other valid buffer. */
    lemma SoleHolder(other: OptimizedBuffer)
      requires Valid() && Bystander(other) && storage.Dynamic? && storage.block.refCount <= 1
      ensures other.storage.Dynamic? ==> other.storage.block != storage.block
    {
      if other.storage.Dynamic? && other.storage.block == storage.block {
        TwoHolders(storage.block.holders, this, other);
      }
    }

    /** `allocate`: switch to a new block of count 1 holding the first oldSize
        places of oldData resized to newSize with defaultVal, and take newSize
        as the size. */
    method Allocate(newSize: nat, defaultVal: Word32, oldData: seq<Word32>)
      modifies this
      ensures storage.Dynamic? && fresh(storage.block) && storage.block.UniquelyHeldBy(this)
      ensures Valid() && size == newSize && Contents() == Resized(oldData, newSize, defaultVal)
    {
      var b := SharedBlock.Allocate(newSize, defaultVal, oldData, this);
      storage := Dynamic(b);
      size := newSize;
    }

    /** The size constructor: size copies of defaultVal, inline up to
        `staticSize` places, in a new block otherwise. (Inline slots past the
        size are never read; they start as zero here.) */
    constructor (size: nat, defaultVal: Word32, staticSize: nat)
      ensures Valid() && Contents() == seq(size, _ => defaultVal) && this.staticSize == staticSize
      ensures storage.Static? <==> size <= staticSize
      ensures storage.Dynamic? ==> fresh(storage.block) && storage.block.UniquelyHeldBy(this)
    {
      this.staticSize := staticSize;
      this.size := 0;
      storage := Static(seq(staticSize, _ => 0));
      new;
      if size <= staticSize {
        var places := seq(staticSize, _ => 0);
        places := FillPlaces(places, 0, size, defaultVal);
        storage := Static(places);
        this.size := size;
      } else {
        Allocate(size, defaultVal, []);
      }
    }

    /** The vector constructor: the places of vec, inline when they fit. */
    constructor FromSeq(vec: seq<Word32>, staticSize: nat)
      ensures Valid() && Contents() == vec && this.staticSize == staticSize
      ensures storage.Static? <==> |vec| <= staticSize
      ensures storage.Dynamic? ==> fresh(storage.block) && storage.block.UniquelyHeldBy(this)
    {
      this.staticSize := staticSize;
      size := 0;
      storage := Static(seq(staticSize, _ => 0));
      new;
      if |vec| <= staticSize {
        storage := Static(vec + seq(staticSize - |vec|, _ => 0));
        size := |vec|;
        assert Contents() == vec;
      } else {
        Allocate(|vec|, 0, vec);
      }
    }

    /** The copy constructor: inline places are copied; a block is shared and its
        count goes up by one (`add_ref`). */
    constructor Copy(other: OptimizedBuffer, ghost bystanders: set<OptimizedBuffer>)
      requires other.Valid() && forall o :: o in bystanders ==> o.Valid()
      modifies other.Footprint() - {other}
      ensures Valid() && Contents() == old(other.Contents()) && staticSize == other.staticSize
      ensures forall o :: o in bystanders ==> o.Valid() && o.Contents() == old(o.Contents())
      ensures storage == other.storage
      ensures other.storage.Dynamic? ==> other.storage.block.refCount == old(other.storage.block.refCount) + 1
      ensures other.storage.Dynamic? ==> other.storage.block.holders == old(other.storage.block.holders) + {this}
      ensures other.storage.Dynamic? ==> other.storage.block.data == old(other.storage.block.data)
    {
      staticSize := other.staticSize;
      size := other.size;
      storage := other.storage;
      new;
      if storage.Dynamic? {
        storage.block.AddRef(this);
      }
    }

    /** `operator=`: nothing on self-assignment; otherwise copy, swap, and let the
        copy release what this buffer held. The bystander may be `other`. */
    method Assign(other: OptimizedBuffer, ghost bystander: OptimizedBuffer)
      requires Valid() && other.Valid() && staticSize == other.staticSize
      requires Bystander(bystander)
      modifies this, Footprint(), other.Footprint() - {other}
      ensures Valid() && Contents() == old(other.Contents())
      ensures bystander.Valid() && bystander.Contents() == old(bystander.Contents())
    {
      if this == other {
        return;
      }
      var copy := new OptimizedBuffer.Copy(other, {this, bystander});
      copy.Swap(this, bystander);
      copy.Destroy({this, bystander});
    }

    /** `swap_static_dynamic_data`: this inline buffer takes the other's block,
        and the other takes the inline places. */
    method SwapStaticDynamic(other: OptimizedBuffer)
      requires storage.Static? && other.storage.Dynamic? && this != other
      modifies this, other
      ensures storage == old(other.storage) && other.storage == old(storage)
      ensures size == old(size) && other.size == old(other.size)
    {
      var tmp := other.storage.block;
      other.storage := Static(storage.places);
      storage := Dynamic(tmp);
    }

    /** `swap`: exchange the places and sizes in each combination of inline and
        dynamic storage; the reference counts do not change. */
    method Swap(other: OptimizedBuffer, ghost bystander: OptimizedBuffer)
      requires Valid() && other.Valid() && staticSize == other.staticSize
      requires Bystander(bystander) && bystander != other
      modifies this, other, Footprint(), other.Footprint()
      ensures Valid() && other.Valid()
      ensures Contents() == old(other.Contents()) && other.Contents() == old(Contents())
      ensures bystander.Valid() && bystander.Contents() == old(bystander.Contents())
    {
      if this == other {
        return;
      }
      ghost var mine := if storage.Dynamic? then storage.block else null;
      ghost var theirs := if other.storage.Dynamic? then other.storage.block else null;
      Exchange(other);
      if mine != theirs {
        ExchangeHolders(mine, theirs, this, other);
      }
    }

    /** The four cases of `swap`: inline with inline, inline with dynamic,
        dynamic with inline, dynamic with dynamic. */
    method Exchange(other: OptimizedBuffer)
      requires this != other
      modifies this, other
      ensures storage == old(other.storage) && other.storage == old(storage)
      ensures size == old(other.size) && other.size == old(size)
    {
      if storage.Static? {
        if other.storage.Static? {
          storage, other.storage := other.storage, storage;
        } else {
          SwapStaticDynamic(other);
        }
      } else {
        if other.storage.Static? {
          other.SwapStaticDynamic(this);
        } else {
          storage, other.storage := other.storage, storage;
        }
      }
      size, other.size := other.size, size;
    }

    /** The destructor: a block loses this holder. */
    method Destroy(ghost bystanders: set<OptimizedBuffer>)
      requires Valid() && forall o :: o in bystanders ==> o != this && o.Valid()
      modifies Footprint() - {this}
      ensures forall o :: o in bystanders ==> o.Valid() && o.Contents() == old(o.Contents())
      ensures old(storage).Dynamic? ==> old(storage).block.refCount == old(storage.block.refCount) - 1
      ensures old(storage).Dynamic? ==> old(storage).block.holders == old(storage.block.holders) - {this}
      ensures old(storage).Dynamic? ==> old(storage).block.data == old(storage.block.data)
    {
      if storage.Dynamic? {
        var b := storage.block;
        SharedBlock.Release(b, this);
        forall o | o in bystanders
          ensures o.Valid() && o.Contents() == old(o.Contents())
        {
          assert old(o.Valid()) && o.storage == old(o.storage) && o.size == old(o.size);
          if o.storage.Dynamic? && o.storage.block == b {
            assert o in old(b.holders) && o != this;
          }
        }
      }
    }

    /** `unshare(new_size, default_val)` (the source asserts a dynamic buffer
        whose block is shared or too small): a block of this buffer's own
        holding the places resized to newSize. */
    method Unshare(newSize: nat, defaultVal: Word32, ghost bystander: OptimizedBuffer)
      requires Valid() && storage.Dynamic?
      requires newSize > storage.block.capacity || !storage.block.IsUnique()
      requires Bystander(bystander)
      modifies this, Footprint()
      ensures Valid() && storage.Dynamic? && storage.block.UniquelyHeldBy(this) && size == newSize
      ensures Contents() == Resized(old(Contents()), newSize, defaultVal)
      ensures bystander.Valid() && bystander.Contents() == old(bystander.Contents())
    {
      if storage.block.refCount <= 1 {
        SoleHolder(bystander);
      }
      var b := SharedBlock.Unshare(storage.block, size, newSize, defaultVal, this);
      storage := Dynamic(b);
      size := newSize;
    }

    /** `unshare()`: `unshare(size())` with the default fill. */
    method UnshareAll(ghost bystander: OptimizedBuffer)
      requires Valid() && storage.Dynamic? && !storage.block.IsUnique()
      requires Bystander(bystander)
      modifies this, Footprint()
      ensures Valid() && storage.Dynamic? && storage.block.UniquelyHeldBy(this)
      ensures Contents() == old(Contents())
      ensures bystander.Valid() && bystander.Contents() == old(bystander.Contents())
    {
      Unshare(size, 0, bystander);
      assert Resized(old(Contents()), size, 0) == old(Contents());
    }

    /** `ensure_unique`: a dynamic buffer gets a block of its own when it shares
        one; inline places are left alone. */
    method EnsureUnique(ghost bystander: OptimizedBuffer)
      requires Valid() && Bystander(bystander)
      modifies this, Footprint()
      ensures Valid() && size == old(size) && Contents() == old(Contents())
      ensures storage.Static? == old(storage).Static?
      ensures storage.Dynamic? ==> storage.block.refCount == 1
      ensures storage.Dynamic? ==> fresh(storage.block) || storage.block == old(storage).block
      ensures bystander.Valid() && bystander.Contents() == old(bystander.Contents())
    {
      if storage.Dynamic? {
        if storage.block.refCount == 1 {
          SoleHolder(bystander);
        }
        var b := SharedBlock.EnsureUnique(storage.block, size, this);
        storage := Dynamic(b);
      }
    }

    /** `static_inflate` (the source asserts an inline buffer and a size past the
        inline capacity): copy the inline places out and allocate a block for
        newSize places. */
    method StaticInflate(newSize: nat, defaultVal: Word32)
      requires Valid() && storage.Static? && newSize > staticSize
      modifies this
      ensures Valid() && storage.Dynamic? && fresh(storage.block) && storage.block.UniquelyHeldBy(this)
      ensures size == newSize && Contents() == Resized(old(Contents()), newSize, defaultVal)
    {
      var buffer := storage.places[..size];
      Allocate(newSize, defaultVal, buffer);
    }

    /** `size()`. */
    function Size(): (n: nat)
      requires Valid()
      reads this, Footprint()
      ensures n == |Contents()|
    {
      size
    }

    /** `resize`: shrinking only sets the size; growing inflates inline places
        past the inline capacity, unshares a block that is shared or too small,
        and otherwise fills the new slots in place. */
    method Resize(newSize: nat, defaultVal: Word32, ghost bystander: OptimizedBuffer)
      requires Valid() && Bystander(bystander)
      modifies this, Footprint()
      ensures Valid() && size == newSize
      ensures Contents() == Resized(old(Contents()), newSize, defaultVal)
      ensures bystander.Valid() && bystander.Contents() == old(bystander.Contents())
    {
      if newSize <= size {
        size := newSize;
        assert Contents() == Resized(old(Contents()), newSize, defaultVal);
        return;
      }
      if storage.Static? && newSize > staticSize {
        StaticInflate(newSize, defaultVal);
      } else if storage.Dynamic? && (!storage.block.IsUnique() || newSize > storage.block.capacity) {
        Unshare(newSize, defaultVal, bystander);
      } else if storage.Static? {
        var places := FillPlaces(storage.places, size, newSize, defaultVal);
        storage := Static(places);
        size := newSize;
        assert Contents() == Resized(old(Contents()), newSize, defaultVal);
      } else {
        SoleHolder(bystander);
        storage.block.Fill(size, newSize, defaultVal);
        size := newSize;
        assert Contents() == Resized(old(Contents()), newSize, defaultVal);
        assert bystander.storage == old(bystander.storage) && bystander.size == old(bystander.size);
        assert bystander.storage.Dynamic? ==>
          bystander.storage.block.data == old(bystander.storage.block.data);
      }
    }

    /** `back() const`. */
    function Back(): (x: Word32)
      requires Valid() && size > 0
      reads this, Footprint()
      ensures x == Contents()[|Contents()| - 1]
    {
      match storage
      case Static(places) => places[size - 1]
      case Dynamic(b) => b.data[size - 1]
    }

    /** The mutable `back()` followed by a write through it: inline places are
        written directly; a block is made unique first. */
    method SetBack(x: Word32, ghost bystander: OptimizedBuffer)
      requires Valid() && size > 0 && Bystander(bystander)
      modifies this, Footprint()
      ensures Valid() && size == old(size) && Contents() == old(Contents())[size - 1 := x]
      ensures bystander.Valid() && bystander.Contents() == old(bystander.Contents())
    {
      if storage.Static? {
        storage := Static(storage.places[size - 1 := x]);
        assert Contents() == old(Contents())[size - 1 := x];
        return;
      }
      EnsureUnique(bystander);
      SoleHolder(bystander);
      storage.block.data := storage.block.data[size - 1 := x];
      assert Contents() == old(Contents())[size - 1 := x];
    }

    /** The mutable `data()` followed by a write through it at position i. */
    method Set(i: nat, x: Word32, ghost bystander: OptimizedBuffer)
      requires Valid() && i < size && Bystander(bystander)
      modifies this, Footprint()
      ensures Valid() && size == old(size) && Contents() == old(Contents())[i := x]
      ensures bystander.Valid() && bystander.Contents() == old(bystander.Contents())
    {
      EnsureUnique(bystander);
      if storage.Static? {
        storage := Static(storage.places[i := x]);
      } else {
        SoleHolder(bystander);
        storage.block.data := storage.block.data[i := x];
      }
      assert Contents() == old(Contents())[i := x];
    }

    /** `push_back`: `resize(size() + 1, val)`. */
    method PushBack(val: Word32, ghost bystander: OptimizedBuffer)
      requires Valid() && Bystander(bystander)
      modifies this, Footprint()
      ensures Valid() && Contents() == old(Contents()) + [val]
      ensures bystander.Valid() && bystander.Contents() == old(bystander.Contents())
    {
      Resize(size + 1, val, bystander);
    }

    /** `pop_back`: `resize(size() - 1)`; the source does not guard the empty
        buffer, where `size() - 1` wraps around. */
    method PopBack(ghost bystander: OptimizedBuffer)
      requires Valid() && size > 0 && Bystander(bystander)
      modifies this, Footprint()
      ensures Valid() && Contents() == old(Contents())[..old(size) - 1]
      ensures bystander.Valid() && bystander.Contents() == old(bystander.Contents())
    {
      Resize(size - 1, 0, bystander);
    }

    /** `operator==`: the same size and the same places. */
    function Equal(other: OptimizedBuffer): (r: bool)
      requires Valid() && other.Valid()
      reads this, Footprint(), other, other.Footprint()
      ensures r <==> Contents() == other.Contents()
    {
      if this == other then true
      else if size != other.size then false
      else Places() == other.Places()
    }

    /** `operator!=`. */
    function NotEqual(other: OptimizedBuffer): (r: bool)
      requires Valid() && other.Valid()
      reads this, Footprint(), other, other.Footprint()
      ensures r <==> Contents() != other.Contents()
    {
      !Equal(other)
    }

    /** `data() const` read over `size()` places. */
    function Places(): (s: seq<Word32>)
      requires Valid()
      reads this, Footprint()
      ensures s == Contents()
    {
      match storage
      case Static(places) => places[..size]
      case Dynamic(b) => b.data[..size]
    }
  }

  /** `std::fill` of slots [from, to) of an inline array. */
  method FillPlaces(places: seq<Word32>, from: nat, to: nat, v: Word32) returns (r: seq<Word32>)
    requires from <= to <= |places|
    ensures r == places[..from] + seq(to - from, _ => v) + places[to..]
  {
    r := places;
    var i := from;
    while i < to
      invariant from <= i <= to && |r| == |places|
      invariant forall k :: 0 <= k < |r| ==> r[k] == if from <= k < i then v else places[k]
    {
      r := r[i := v];
      i := i + 1;
    }
    assert r == places[..from] + seq(to - from, _ => v) + places[to..];
  }
}
