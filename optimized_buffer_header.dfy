/** `optimized_buffer` of bigint-optimized/optimized_buffer.h: a digit buffer that
    keeps a single place inline and more places in a reference-counted block
    shared between copies (copy on write). `place_t` is `uint32_t` where the
    buffer is used; the template's `reserved` is a constant of each buffer.

    Every method that changes a buffer takes a ghost `bystander`: any other
    valid buffer. Its contract says the bystander stays valid with the same
    elements, so a write through one copy never shows through another. */
module OptimizedBufferHeader {
  import opened Arith
  import opened Words
  import opened SharedBlocks


  /** The union of the source, tagged by the size: one inline place at size 1,
      a block pointer otherwise. */
  datatype Storage = Inline(value: Word32) | Shared(block: SharedBlock<Word32>)

  class OptimizedBuffer {
    const reserved: nat
    var storage: Storage
    var size: nat

    ghost function Footprint(): set<object>
      reads this
    {
      if storage.Shared? then {this, storage.block} else {this}
    }

    /** At least one place; inline exactly at size 1; a held block otherwise,
        large enough for the places. */
    ghost predicate Valid()
      reads this, Footprint()
    {
      size >= 1 && (storage.Inline? <==> size == 1) &&
      (storage.Shared? ==>
        storage.block.Valid() && size <= storage.block.capacity && this in storage.block.holders)
    }

    /** The places, whichever variant holds them. */
    ghost function Contents(): seq<Word32>
      requires Valid()
      reads this, Footprint()
    {
      match storage
      case Inline(v) => [v]
      case Shared(b) => b.data[..size]
    }

    /** Another valid buffer, not this one. */
    ghost predicate Bystander(other: OptimizedBuffer)
      reads this, other, other.Footprint()
    {
      other != this && other.Valid()
    }

    /** The size constructor: `size` copies of defaultVal, inline for one place,
        otherwise in a new block of size + reserved slots. */
    constructor (size: nat, defaultVal: Word32, reserved: nat)
      requires size > 0
      ensures Valid() && Contents() == seq(size, _ => defaultVal) && this.reserved == reserved
      ensures storage.Shared? ==> fresh(storage.block) && storage.block.UniquelyHeldBy(this)
      ensures storage.Shared? ==> storage.block.capacity == size + reserved
    {
      this.reserved := reserved;
      this.size := size;
      storage := Inline(defaultVal);
      new;
      if size != 1 {
        Allocate(size, defaultVal);
      }
    }

    /** The vector constructor: the places of vec. */
    constructor FromSeq(vec: seq<Word32>, reserved: nat)
      requires |vec| > 0
      ensures Valid() && Contents() == vec && this.reserved == reserved
      ensures storage.Shared? ==> fresh(storage.block) && storage.block.UniquelyHeldBy(this)
    {
      this.reserved := reserved;
      size := |vec|;
      storage := Inline(vec[0]);
      new;
      if |vec| != 1 {
        AllocateFrom(|vec|, vec, 0);
      }
    }

    /** The copy constructor: the inline place is copied; a block is shared and
        its count goes up by one. */
    constructor Copy(other: OptimizedBuffer, ghost bystanders: set<OptimizedBuffer>)
      requires other.Valid() && forall o :: o in bystanders ==> o.Valid()
      modifies other.Footprint() - {other}
      ensures Valid() && Contents() == old(other.Contents()) && reserved == other.reserved
      ensures forall o :: o in bystanders ==> o.Valid() && o.Contents() == old(o.Contents())
      ensures storage == other.storage && other.Valid() && other.Contents() == old(other.Contents())
      ensures other.storage.Shared? ==> other.storage.block.refCount == old(other.storage.block.refCount) + 1
      ensures other.storage.Shared? ==> other.storage.block.holders == old(other.storage.block.holders) + {this}
      ensures other.storage.Shared? ==> other.storage.block.data == old(other.storage.block.data)
    {
      reserved := other.reserved;
      size := other.size;
      storage := other.storage;
      new;
      if size != 1 {
        storage.block.AddRef(this);
      }
    }

    /** `allocate(new_size, default_val)`: a new block with count 1 whose first
        newSize slots hold defaultVal; the size is left to the caller. */
    method Allocate(newSize: nat, defaultVal: Word32)
      requires newSize > 1
      modifies this
      ensures size == old(size) && storage.Shared? && fresh(storage.block)
      ensures storage.block.UniquelyHeldBy(this) && storage.block.capacity == newSize + reserved
      ensures storage.block.data[..newSize] == seq(newSize, _ => defaultVal)
    {
      var b := SharedBlock.AllocateBuffer(newSize, reserved, this);
      b.Fill(0, newSize, defaultVal);
      storage := Shared(b);
    }

    /** `allocate(new_size, old_data, default_val)`: a new block with count 1 that
        starts with the first min(size, newSize) old places and is filled with
        defaultVal up to newSize. */
    method AllocateFrom(newSize: nat, oldData: seq<Word32>, defaultVal: Word32)
      requires newSize > 1 && |oldData| == size
      modifies this
      ensures size == old(size) && storage.Shared? && fresh(storage.block)
      ensures storage.block.UniquelyHeldBy(this) && storage.block.capacity == newSize + reserved
      ensures storage.block.data[..newSize] == Resized(oldData, newSize, defaultVal)
    {
      var b := SharedBlock.AllocateBuffer(newSize, reserved, this);
      b.CopyFrom(oldData[..Min(size, newSize)]);
      if newSize > size {
        b.Fill(size, newSize, defaultVal);
      }
      storage := Shared(b);
    }

    /** `unshare_resize`: take the places out of the inline slot or the old block,
        put newSize of them (filled with defaultVal) inline or in a block of its
        own with room for one and a half times the old size, and release the old
        block. The source's default newSize is the current size, used only on a
        shared block. */
    method UnshareResize(newSize: nat, defaultVal: Word32, ghost bystander: OptimizedBuffer)
      requires Valid() && newSize >= 1
      requires newSize != size || (size > 1 && storage.block.refCount > 1)
      requires Bystander(bystander)
      modifies this, Footprint()
      ensures Valid() && size == newSize
      ensures Contents() == Resized(old(Contents()), newSize, defaultVal)
      ensures storage.Shared? ==> fresh(storage.block) && storage.block.UniquelyHeldBy(this)
      ensures bystander.Valid() && bystander.Contents() == old(bystander.Contents())
    {
      var oldData: seq<Word32>;
      var toRelease: SharedBlock?<Word32> := null;
      if size == 1 {
        oldData := [storage.value];
      } else {
        oldData := storage.block.data[..size];
        toRelease := storage.block;
      }
      if newSize == 1 {
        storage := Inline(oldData[0]);
      } else {
        AllocateFrom(Max(size * 3 / 2, newSize), oldData, defaultVal);
        ResizedPrefix(oldData, Max(old(size) * 3 / 2, newSize), newSize, defaultVal);
      }
      SharedBlock.Release(toRelease, this);
      size := newSize;
      assert bystander.storage == old(bystander.storage) && bystander.size == old(bystander.size);
      assert bystander.storage.Shared? ==>
        bystander.storage.block.data == old(bystander.storage.block.data) &&
        bystander.storage.block.Valid();
    }

    /** `operator=`: nothing on self-assignment; otherwise copy, swap, and let the
        copy release what this buffer held. The bystander may be `other`, which
        therefore keeps its places. */
    method Assign(other: OptimizedBuffer, ghost bystander: OptimizedBuffer)
      requires Valid() && other.Valid() && reserved == other.reserved
      requires Bystander(bystander)
      modifies this, Footprint(), other.Footprint() - {other}
      ensures Valid() && Contents() == old(other.Contents())
      ensures bystander.Valid() && bystander.Contents() == old(bystander.Contents())
    {
      if this == other {
        return;
      }
      var copy := new OptimizedBuffer.Copy(other, {this, bystander});
      copy.Swap(this, bystander);
      copy.Destroy({this, bystander});
    }

    /** `swap`: exchange the places and sizes; the reference counts do not change,
        and a block held by only one of the two changes holder. */
    method Swap(other: OptimizedBuffer, ghost bystander: OptimizedBuffer)
      requires Valid() && other.Valid() && reserved == other.reserved
      requires Bystander(bystander) && bystander != other
      modifies this, other, Footprint(), other.Footprint()
      ensures Valid() && other.Valid()
      ensures Contents() == old(other.Contents()) && other.Contents() == old(Contents())
      ensures bystander.Valid() && bystander.Contents() == old(bystander.Contents())
    {
      if this == other {
        return;
      }
      ghost var mine := if storage.Shared? then storage.block else null;
      ghost var theirs := if other.storage.Shared? then other.storage.block else null;
      Exchange(other);
      if mine != theirs {
        ExchangeHolders(mine, theirs, this, other);
      }
    }

    /** The four cases of `swap`: inline with inline, inline with shared, shared
        with inline, shared with shared. */
    method Exchange(other: OptimizedBuffer)
      requires Valid() && other.Valid() && this != other
      modifies this, other
      ensures storage == old(other.storage) && other.storage == old(storage)
      ensures size == old(other.size) && other.size == old(size)
    {
      if size == 1 {
        if other.size == 1 {
          storage, other.storage := other.storage, storage;
        } else {
          var tmp := other.storage.block;
          other.storage := Inline(storage.value);
          storage := Shared(tmp);
        }
      } else {
        if other.size == 1 {
          var tmp := other.storage.value;
          other.storage := Shared(storage.block);
          storage := Inline(tmp);
        } else {
          storage, other.storage := other.storage, storage;
        }
      }
      size, other.size := other.size, size;
    }

    /** The destructor: a shared block loses this holder. */
    method Destroy(ghost bystanders: set<OptimizedBuffer>)
      requires Valid() && forall o :: o in bystanders ==> o != this && o.Valid()
      modifies Footprint() - {this}
      ensures forall o :: o in bystanders ==> o.Valid() && o.Contents() == old(o.Contents())
      ensures old(storage).Shared? ==> old(storage).block.refCount == old(storage.block.refCount) - 1
      ensures old(storage).Shared? ==> old(storage).block.holders == old(storage.block.holders) - {this}
      ensures old(storage).Shared? ==> old(storage).block.data == old(storage.block.data)
    {
      if size > 1 {
        var b := storage.block;
        SharedBlock.Release(b, this);
        forall o | o in bystanders
          ensures o.Valid() && o.Contents() == old(o.Contents())
        {
          assert old(o.Valid()) && o.storage == old(o.storage) && o.size == old(o.size);
          if o.storage.Shared? && o.storage.block == b {
            assert o in old(b.holders) && o != this;
          }
        }
      }
    }

    /** `size()`. */
    function Size(): (n: nat)
      requires Valid()
      reads this, Footprint()
      ensures n == |Contents()| && n >= 1
    {
      size
    }

    /** `resize`: grow only. In place when this buffer holds its block alone and
        the block is large enough; through `unshare_resize` otherwise. */
    method Resize(newSize: nat, defaultVal: Word32, ghost bystander: OptimizedBuffer)
      requires Valid() && newSize >= size && Bystander(bystander)
      modifies this, Footprint()
      ensures Valid() && size == newSize
      ensures Contents() == Resized(old(Contents()), newSize, defaultVal)
      ensures bystander.Valid() && bystander.Contents() == old(bystander.Contents())
    {
      if newSize == size {
        return;
      }
      if size == 1 || storage.block.refCount > 1 || newSize > storage.block.capacity {
        UnshareResize(newSize, defaultVal, bystander);
      } else {
        SoleHolder(bystander);
        storage.block.Fill(size, newSize, defaultVal);
        size := newSize;
        assert Contents() == Resized(old(Contents()), newSize, defaultVal);
      }
    }

    /** A block whose count is one is held by no other valid buffer. */
    lemma SoleHolder(other: OptimizedBuffer)
      requires Valid() && Bystander(other) && storage.Shared? && storage.block.refCount <= 1
      ensures other.storage.Shared? ==> other.storage.block != storage.block
    {
      if other.storage.Shared? && other.storage.block == storage.block {
        TwoHolders(storage.block.holders, this, other);
      }
    }

    /** `back() const`: the last place. */
    function Back(): (x: Word32)
      requires Valid()
      reads this, Footprint()
      ensures x == Contents()[|Contents()| - 1]
    {
      if size == 1 then storage.value else storage.block.data[size - 1]
    }

    /** The mutable `back()` and `data()` before they hand out a reference: a
        shared block is unshared, so that whatever is written through the
        reference reaches this buffer alone. */
    method MakeWritable(ghost bystander: OptimizedBuffer)
      requires Valid() && Bystander(bystander)
      modifies this, Footprint()
      ensures Valid() && size == old(size) && Contents() == old(Contents())
      ensures storage.Shared? ==> storage.block.refCount == 1
      ensures storage.Shared? ==> fresh(storage.block) || (old(storage).Shared? && storage.block == old(storage).block)
      ensures bystander.Valid() && bystander.Contents() == old(bystander.Contents())
    {
      if size > 1 && storage.block.refCount > 1 {
        UnshareResize(size, 0, bystander);
        assert Resized(old(Contents()), size, 0) == old(Contents());
      }
    }

    /** `back() = x`: the last place becomes x, in this buffer only. */
    method SetBack(x: Word32, ghost bystander: OptimizedBuffer)
      requires Valid() && Bystander(bystander)
      modifies this, Footprint()
      ensures Valid() && size == old(size) && Contents() == old(Contents())[size - 1 := x]
      ensures bystander.Valid() && bystander.Contents() == old(bystander.Contents())
    {
      Set(size - 1, x, bystander);
    }

    /** `data()[i] = x`: place i becomes x, in this buffer only. */
    method Set(i: nat, x: Word32, ghost bystander: OptimizedBuffer)
      requires Valid() && i < size && Bystander(bystander)
      modifies this, Footprint()
      ensures Valid() && size == old(size) && Contents() == old(Contents())[i := x]
      ensures bystander.Valid() && bystander.Contents() == old(bystander.Contents())
    {
      MakeWritable(bystander);
      if size == 1 {
        storage := Inline(x);
      } else {
        SoleHolder(bystander);
        storage.block.data := storage.block.data[i := x];
      }
    }

    /** `push_back`: `resize(size + 1, val)`. */
    method PushBack(val: Word32, ghost bystander: OptimizedBuffer)
      requires Valid() && Bystander(bystander)
      modifies this, Footprint()
      ensures Valid() && Contents() == old(Contents()) + [val]
      ensures bystander.Valid() && bystander.Contents() == old(bystander.Contents())
    {
      Resize(size + 1, val, bystander);
    }

    /** `pop_back` (the source asserts at least two places): from two places back
        to the inline one, otherwise one place fewer. */
    method PopBack(ghost bystander: OptimizedBuffer)
      requires Valid() && size > 1 && Bystander(bystander)
      modifies this, Footprint()
      ensures Valid() && Contents() == old(Contents())[..old(size) - 1]
      ensures bystander.Valid() && bystander.Contents() == old(bystander.Contents())
    {
      if size == 2 {
        UnshareResize(1, 0, bystander);
      } else {
        size := size - 1;
      }
    }

    /** `operator==`: the same size and the same places. */
    function Equal(other: OptimizedBuffer): (r: bool)
      requires Valid() && other.Valid()
      reads this, Footprint(), other, other.Footprint()
      ensures r <==> Contents() == other.Contents()
    {
      if this == other then true
      else if size != other.size then false
      else if size == 1 then storage.value == other.storage.value
      else storage.block.data[..size] == other.storage.block.data[..size]
    }

    /** `operator!=`. */
    function NotEqual(other: OptimizedBuffer): (r: bool)
      requires Valid() && other.Valid()
      reads this, Footprint(), other, other.Footprint()
      ensures r <==> Contents() != other.Contents()
    {
      !Equal(other)
    }
  }
}
