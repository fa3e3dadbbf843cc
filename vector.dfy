/** The type-erased growable array JC_Vector: a byte buffer holding
    `count` elements of `typeSize` bytes each, with room for `capacity`. */
module JcVector {
  import opened Wrappers
  import opened Layout
  import opened Sequences
  import Memory

  /** Smallest capacity a vector is constructed with. */
  const MinElements: nat := 20
  /** Ceiling on the bytes of one vector's storage. */
  const MaxSize: nat := 1000000
  /** Factor by which a full vector's capacity grows. */
  const ResizeFactor: nat := 2
  /** sizeof(JC_Vector): three size_t fields and a pointer, 8 bytes each. */
  const HeaderBytes: nat := 32

  /** Whether malloc/realloc can satisfy a request for that many bytes. */
  type Allocator = nat -> bool

  /** The capacity construction gives for a requested size: at least the floor. */
  function InitialCapacity(size: nat): (c: nat)
    ensures c >= MinElements && c >= size
    ensures c == size || c == MinElements
  {
    if size < MinElements then MinElements else size
  }

  /** Whether reserve(n) succeeds on a vector of capacity `c` and element width `t`. */
  ghost predicate ReserveSucceeds(c: nat, t: nat, n: nat, alloc: Allocator): (ok: bool)
    ensures n <= c ==> ok
    ensures ok && n > c ==> n * t <= MaxSize && alloc(n * t)
  {
    n <= c || (n * t <= MaxSize && alloc(n * t))
  }

  /** The capacity that repeated doubling from `c` first reaches at or above `n`. */
  function GrowTarget(c: nat, n: nat): (r: nat)
    requires c > 0
    ensures r >= n && r >= c
    ensures r > c ==> r < ResizeFactor * n
    decreases n - c
  {
    if n <= c then c else GrowTarget(c * ResizeFactor, n)
  }

  /** Whether every doubling from `c` up to `n` succeeds. */
  ghost predicate GrowsTo(c: nat, n: nat, t: nat, alloc: Allocator): (ok: bool)
    requires c > 0
    ensures ok && n > c ==> ReserveSucceeds(c, t, c * ResizeFactor, alloc)
    ensures ok && n > c ==> GrowTarget(c, n) * t <= MaxSize
    ensures ok && n > c ==> alloc(GrowTarget(c, n) * t)
    decreases n - c
  {
    n <= c || (ReserveSucceeds(c, t, c * ResizeFactor, alloc) && GrowsTo(c * ResizeFactor, n, t, alloc))
  }

  /** The capacity the grow-until loop leaves: the last doubling from `c`
      that succeeded, or the first at or above `n` when every one does. */
  ghost function GrowReached(c: nat, n: nat, t: nat, alloc: Allocator): (r: nat)
    requires c > 0
    ensures r >= c
    ensures r > c ==> r * t <= MaxSize && alloc(r * t)
    ensures GrowsTo(c, n, t, alloc) ==> r == GrowTarget(c, n)
    ensures !GrowsTo(c, n, t, alloc) ==> c <= r < n
    decreases n - c
  {
    if n <= c || !ReserveSucceeds(c, t, c * ResizeFactor, alloc) then c
    else GrowReached(c * ResizeFactor, n, t, alloc)
  }

  /** The byte size shrink_to_fit asks realloc for: one element's worth when
      at most one element is present. */
  function ShrinkBytes(a: nat, t: nat): (r: nat)
    ensures r >= a * t && r >= t
    ensures r == a * t || r == t
  {
    if a <= 1 then t else a * t
  }

  /** JC_vector_max_size: the byte ceiling, which is exactly the largest
      storage request that reserve accepts from any capacity. */
  function MaxBytes(): (r: nat)
    ensures forall c: nat, n: nat, t: nat, alloc: Allocator :: n > c && alloc(n * t) ==>
              (ReserveSucceeds(c, t, n, alloc) <==> n * t <= r)
  {
    MaxSize
  }

  class Vector {
    var capacity: nat
    /** The element count, `allocated` in JC_Vector. */
    var count: nat
    const typeSize: nat
    var data: array<bv8>

    /** The representation invariant: the count fits the capacity, and the
        capacity fits both the byte ceiling and the buffer. */
    ghost predicate Valid()
      reads this
    {
      && count <= capacity
      && capacity * typeSize <= MaxSize
      && capacity * typeSize <= data.Length
    }

    /** The logical contents: the first `count` elements of the buffer. */
    ghost function Elements(): (es: seq<seq<bv8>>)
      reads this, data
      requires Valid()
      ensures |es| == count
    {
      MulMono(count, capacity, typeSize);
      Chunks(data[..], count, typeSize)
    }

    /** The bytes of slot `i` below capacity, including stale slots past the end. */
    function SlotAt(i: nat): (s: seq<bv8>)
      reads this, data
      requires Valid() && i < capacity
      ensures |s| == typeSize
      ensures i < count ==> s == Elements()[i]
    {
      SlotBounds(i, capacity, typeSize);
      data[i * typeSize .. i * typeSize + typeSize]
    }

    constructor (capacity: nat, typeSize: nat)
      requires capacity * typeSize <= MaxSize
      ensures Valid() && fresh(data)
      ensures this.capacity == capacity && this.typeSize == typeSize && count == 0
      ensures data.Length == capacity * typeSize
      ensures Elements() == []
    {
      this.capacity := capacity;
      this.typeSize := typeSize;
      count := 0;
      data := new bv8[capacity * typeSize];
    }

    // ----------------------------------------------------------- element access

    /** Bounds-checked address of element `index`, as a byte offset. */
    function AtPtr(index: nat): (r: Option<nat>)
      reads this, data
      requires Valid()
      ensures r.Some? <==> index < count
      ensures r.Some? ==> r.value + typeSize <= data.Length
                          && data[r.value .. r.value + typeSize] == Elements()[index]
    {
      if index >= count then None
      else
        SlotBounds(index, count, typeSize);
        MulMono(count, capacity, typeSize);
        Some(index * typeSize)
    }

    /** Unchecked address of element `index`: agrees with AtPtr below the count
        and stays inside the buffer below the capacity. */
    function AtPtrUnsafe(index: nat): (r: nat)
      reads this, data
      requires Valid()
      ensures index < count ==> AtPtr(index) == Some(r)
      ensures index < capacity ==> r + typeSize <= data.Length && data[r .. r + typeSize] == SlotAt(index)
    {
      if index < capacity then
        SlotBounds(index, capacity, typeSize);
        index * typeSize
      else index * typeSize
    }

    function Front(): (r: Option<nat>)
      reads this, data
      requires Valid()
      ensures r.Some? <==> Elements() != []
      ensures r == AtPtr(0)
    {
      if count == 0 then None else Some(0)
    }

    function Back(): (r: Option<nat>)
      reads this, data
      requires Valid()
      ensures r.Some? <==> Elements() != []
      ensures r.Some? ==> r == AtPtr(count - 1)
    {
      if count == 0 then None
      else
        SlotBounds(count - 1, count, typeSize);
        Some((count - 1) * typeSize)
    }

    /** Start of the traversal range: the first element when there is one. */
    function Begin(): (r: nat)
      reads this, data
      requires Valid()
      ensures count > 0 ==> Front() == Some(r)
    {
      0
    }

    /** One past the last element: the range [Begin(), End()) covers the elements. */
    function End(): (r: nat)
      reads this, data
      requires Valid()
      ensures r <= data.Length
      ensures count == 0 ==> r == Begin()
      ensures count > 0 ==> r >= typeSize && Back() == Some(r - typeSize)
    {
      MulMono(count, capacity, typeSize);
      if count > 0 then SlotBounds(count - 1, count, typeSize); count * typeSize
      else 0
    }

    function Empty(): (r: bool)
      reads this, data
      requires Valid()
      ensures r <==> Elements() == []
    {
      count == 0
    }

    function Size(): (r: nat)
      reads this, data
      requires Valid()
      ensures r == |Elements()|
    {
      count
    }

    function Capacity(): (r: nat)
      reads this
      requires Valid()
      ensures r >= count && r * typeSize <= MaxSize
    {
      capacity
    }

    // ------------------------------------------------------------------ capacity

    method Reserve(size: nat, alloc: Allocator) returns (ok: bool)
      requires Valid()
      modifies this
      ensures Valid() && count == old(count) && Elements() == old(Elements())
      ensures ok == ReserveSucceeds(old(capacity), typeSize, size, alloc)
      ensures !ok || size <= old(capacity) ==> unchanged(this)
      ensures ok && size > old(capacity) ==>
                capacity == size && fresh(data) && data.Length == size * typeSize
      ensures SamePrefix(data[..], old(data[..]), old(capacity) * typeSize)
    {
      if size <= capacity {
        return true;
      }
      if size * typeSize > MaxSize {
        return false;
      }
      if !alloc(size * typeSize) {
        return false;
      }
      MulMono(capacity, size, typeSize);
      MulMono(count, capacity, typeSize);
      ghost var before := data[..];
      data := Memory.Reallocate(data, size * typeSize, capacity * typeSize);
      ghost var kept := capacity * typeSize;
      capacity := size;
      ChunksSamePrefix(data[..], before, kept, count, typeSize);
      return true;
    }

    /** The growth step used when a full vector needs one more slot; from
        capacity 0 it asks for 0 and succeeds without adding room. */
    method Grow(alloc: Allocator) returns (ok: bool)
      requires Valid()
      modifies this
      ensures Valid() && count == old(count) && Elements() == old(Elements())
      ensures ok == ReserveSucceeds(old(capacity), typeSize, old(capacity) * ResizeFactor, alloc)
      ensures !ok || old(capacity) == 0 ==> unchanged(this)
      ensures ok && old(capacity) > 0 ==>
                capacity == old(capacity) * ResizeFactor && fresh(data) && data.Length == capacity * typeSize
      ensures SamePrefix(data[..], old(data[..]), old(capacity) * typeSize)
    {
      ok := Reserve(capacity * ResizeFactor, alloc);
    }

    method ShrinkToFit(alloc: Allocator) returns (ok: bool)
      requires Valid()
      modifies this
      ensures Valid() && count == old(count) && Elements() == old(Elements())
      ensures ok == alloc(ShrinkBytes(old(count), typeSize))
      ensures !ok ==> unchanged(this)
      ensures ok ==> capacity == old(count) && fresh(data)
                     && data.Length == ShrinkBytes(old(count), typeSize)
      ensures ok ==> SamePrefix(data[..], old(data[..]),
                                if old(data.Length) <= data.Length then old(data.Length) else data.Length)
    {
      var bytes := if count <= 1 then typeSize else count * typeSize;
      if !alloc(bytes) {
        return false;
      }
      MulMono(count, capacity, typeSize);
      ghost var before := data[..];
      var kept := if data.Length <= bytes then data.Length else bytes;
      data := Memory.Reallocate(data, bytes, kept);
      capacity := count;
      assert count * typeSize <= kept;
      ChunksSamePrefix(data[..], before, kept, count, typeSize);
      return true;
    }

    // ----------------------------------------------------------------- modifiers

    /** Empties the vector; the bytes stay in the buffer, so the unchecked
        access still reads the old elements. */
    method Clear()
      requires Valid()
      modifies this`count
      ensures Valid() && count == 0 && Elements() == []
      ensures forall i :: 0 <= i < old(count) ==> SlotAt(i) == old(Elements())[i]
    {
      count := 0;
    }

    /** Drops the last element, if any; its bytes stay in the buffer. */
    method PopBack()
      requires Valid()
      modifies this`count
      ensures Valid()
      ensures count == if old(count) == 0 then 0 else old(count) - 1
      ensures Elements() == old(Elements())[..count]
      ensures old(count) > 0 ==> SlotAt(count) == old(Elements())[count]
    {
      if count == 0 {
        return;
      }
      MulMono(count, capacity, typeSize);
      ChunksTake(data[..], count - 1, count, typeSize);
      count := count - 1;
    }

    /** Opens a gap at element `index` by shifting the tail one slot right,
        growing first if the vector is full, and copies `value` into it. */
    method InsertPtr(index: nat, value: seq<bv8>, alloc: Allocator) returns (r: Option<nat>)
      requires Valid() && |value| == typeSize && capacity > 0
      modifies this, data
      ensures Valid()
      ensures r.Some? <==> (index <= old(count) && (old(count) < old(capacity) ||
                ReserveSucceeds(old(capacity), typeSize, old(capacity) * ResizeFactor, alloc)))
      ensures r.None? ==> unchanged(this) && unchanged(data)
      ensures r.Some? ==> count == old(count) + 1 && r == AtPtr(index)
      ensures r.Some? ==> Elements() == old(Elements())[..index] + [value] + old(Elements())[index..]
      ensures r.Some? ==> capacity == if old(count) == old(capacity) then old(capacity) * ResizeFactor
                                      else old(capacity)
      ensures r.Some? && old(count) < old(capacity) ==>
                data == old(data) && SameFrom(data[..], old(data[..]), count * typeSize)
      ensures r.Some? && old(count) == old(capacity) ==> fresh(data)
    {
      if index > count {
        return None;
      }
      if count == capacity {
        var grown := Grow(alloc);
        if !grown {
          return None;
        }
      }
      r := ShiftIn(index, value);
    }

    /** The memmove and memcpy of insert, on a vector with a free slot. */
    method ShiftIn(index: nat, value: seq<bv8>) returns (r: Option<nat>)
      requires Valid() && |value| == typeSize && index <= count < capacity
      modifies this`count, data
      ensures Valid() && count == old(count) + 1
      ensures r == AtPtr(index) && r.Some?
      ensures Elements() == old(Elements())[..index] + [value] + old(Elements())[index..]
      ensures SameFrom(data[..], old(data[..]), count * typeSize)
    {
      ghost var b := data[..];
      var t := typeSize;
      SlotBounds(count, capacity, t);
      MulMono(index, count, t);
      var pos := index * t;
      var end := count * t;
      var len := end - pos;
      Memory.Splice(data, pos, len, value);
      InsertLayout(b, data[..], index, count, t, value, pos, len, end);
      count := count + 1;
      assert count * typeSize == end + t;
      r := Some(pos);
    }

    /** Removes element `index` by shifting the tail one slot left; returns the
        erased position, which now holds the next element or, if the last one
        was erased, that element's stale bytes. */
    method Erase(index: nat) returns (r: Option<nat>)
      requires Valid()
      modifies this`count, data
      ensures Valid()
      ensures r.Some? <==> index < old(count)
      ensures r.None? ==> count == old(count) && unchanged(data)
      ensures r.Some? ==> count == old(count) - 1 && r == Some(AtPtrUnsafe(index))
      ensures r.Some? ==> Elements() == old(Elements())[..index] + old(Elements())[index + 1..]
      ensures r.Some? && index + 1 < old(count) ==> SlotAt(index) == old(Elements())[index + 1]
      ensures r.Some? && index + 1 == old(count) ==> SlotAt(index) == old(Elements())[index]
      ensures r.Some? ==> SameFrom(data[..], old(data[..]), count * typeSize)
    {
      if index >= count {
        return None;
      }
      var pos := ShiftOut(index);
      r := Some(pos);
    }

    /** The shifting half of erase, for an index known to be in range. */
    method ShiftOut(index: nat) returns (pos: nat)
      requires Valid() && index < count
      modifies this`count, data
      ensures Valid()
      ensures count == old(count) - 1 && pos == index * typeSize
      ensures Elements() == old(Elements())[..index] + old(Elements())[index + 1..]
      ensures index + 1 < old(count) ==> SlotAt(index) == old(Elements())[index + 1]
      ensures index + 1 == old(count) ==> SlotAt(index) == old(Elements())[index]
      ensures SameFrom(data[..], old(data[..]), count * typeSize)
    {
      ghost var b := data[..];
      var t := typeSize;
      MulMono(count, capacity, t);
      SlotBounds(index, count, t);
      pos := index * t;
      var end := count * t;
      var len := end - pos - t;
      Memory.Move(data, pos, pos + t, len);
      EraseLayout(b, data[..], index, count, t, pos, len, end);
      EraseSlot(b, data[..], index, count, t, pos, len, end);
      count := count - 1;
      assert count * typeSize == end - t;
    }

    /** Appends `value`, growing first if the vector is full. */
    method PushBackPtr(value: seq<bv8>, alloc: Allocator) returns (ok: bool)
      requires Valid() && |value| == typeSize && capacity > 0
      modifies this, data
      ensures Valid()
      ensures ok <==> old(count) < old(capacity) ||
                      ReserveSucceeds(old(capacity), typeSize, old(capacity) * ResizeFactor, alloc)
      ensures !ok ==> unchanged(this) && unchanged(data)
      ensures ok ==> count == old(count) + 1 && Elements() == old(Elements()) + [value]
      ensures ok ==> capacity == if old(count) == old(capacity) then old(capacity) * ResizeFactor
                                 else old(capacity)
      ensures ok && old(count) < old(capacity) ==>
                data == old(data) && SameFrom(data[..], old(data[..]), count * typeSize)
      ensures ok && old(count) == old(capacity) ==> fresh(data)
    {
      if count == capacity {
        var grown := Grow(alloc);
        if !grown {
          return false;
        }
      }
      ghost var b := data[..];
      var t := typeSize;
      SlotBounds(count, capacity, t);
      var end := count * t;
      Memory.Copy(data, end, value);
      PushLayout(b, data[..], count, t, value, end);
      count := count + 1;
      assert count * typeSize == end + t;
      return true;
    }

    /** The grow-until loop of resize: doubles the capacity until it reaches
        `n`, stopping at the first failed growth. */
    method GrowTo(n: nat, alloc: Allocator) returns (ok: bool)
      requires Valid() && capacity > 0
      modifies this
      ensures Valid() && count == old(count) && Elements() == old(Elements())
      ensures ok == GrowsTo(old(capacity), n, typeSize, alloc)
      ensures capacity == GrowReached(old(capacity), n, typeSize, alloc)
      ensures ok ==> capacity == GrowTarget(old(capacity), n)
      ensures !ok ==> capacity < n
      ensures capacity >= old(capacity)
      ensures capacity == old(capacity) ==> unchanged(this)
      ensures capacity > old(capacity) ==> fresh(data)
      ensures SamePrefix(data[..], old(data[..]), old(capacity) * typeSize)
    {
      while n > capacity
        invariant Valid() && count == old(count) && Elements() == old(Elements())
        invariant capacity >= old(capacity) && capacity > 0
        invariant GrowsTo(old(capacity), n, typeSize, alloc) == GrowsTo(capacity, n, typeSize, alloc)
        invariant GrowTarget(old(capacity), n) == GrowTarget(capacity, n)
        invariant GrowReached(old(capacity), n, typeSize, alloc) == GrowReached(capacity, n, typeSize, alloc)
        invariant capacity == old(capacity) ==> unchanged(this)
        invariant capacity > old(capacity) ==> fresh(data)
        invariant SamePrefix(data[..], old(data[..]), old(capacity) * typeSize)
        decreases n - capacity
      {
        ghost var b := data[..];
        ghost var c := capacity;
        var grown := Grow(alloc);
        if !grown {
          return false;
        }
        MulMono(old(capacity), c, typeSize);
        assert SamePrefix(data[..], b, c * typeSize);
        assert data[..old(capacity) * typeSize] == b[..old(capacity) * typeSize];
      }
      return true;
    }

    /** The truncating branch of resize and resize_ptr. */
    method Truncate(n: nat)
      requires Valid() && n <= count
      modifies this`count
      ensures Valid() && count == n && Elements() == old(Elements())[..n]
      ensures forall i :: n <= i < old(count) ==> SlotAt(i) == old(Elements())[i]
    {
      ChunksTake(data[..], n, count, typeSize);
      MulMono(count, capacity, typeSize);
      count := n;
    }

    /** The tail of resize on a vector with room for `n` elements: memset of
        the new slots' worth of bytes to zero at byte offset `off`, then the
        count update. Zero-filling at the first new slot's offset appends
        zero elements. */
    method ZeroFillTo(off: nat, n: nat, ghost orig: seq<bv8>, ghost kept: nat)
      requires Valid() && count < n <= capacity
      requires typeSize > 0 ==> off + (n - count) * typeSize <= data.Length
      requires SamePrefix(data[..], orig, kept)
      modifies this`count, data
      ensures Valid() && count == n
      ensures typeSize > 0 ==> ZeroedAt(old(data[..]), data[..], data.Length, off, n - old(count), typeSize)
      ensures typeSize > 0 ==> ZeroedAt(orig, data[..], kept, off, n - old(count), typeSize)
      ensures typeSize == 0 ==> unchanged(data)
      ensures off == old(count) * typeSize || typeSize == 0 ==>
                Elements() == old(Elements()) + Copies(Zeros(typeSize), n - old(count))
    {
      var t := typeSize;
      var m := n - count;
      var len := m * t;
      MulMono(n, capacity, t);
      MulSplit(count, n, t);
      var a := count;
      ghost var before := data[..];
      count := n;
      if t == 0 {
        // A zero-length memset writes nothing.
        ChunksWidthZero(before, n);
        ChunksWidthZero(before, a);
        assert Copies([], n) == Copies([], a) + Copies(Zeros(t), m);
        return;
      }
      Memory.Zero(data, off, len);
      ZeroSlots(orig, before, data[..], kept, off, m, t);
      if off == a * t {
        ZeroFill(before, data[..], a, m, t);
      }
    }

    /** resize as written: truncates, or grows and zero-fills the new slots.
        The memset starts at byte offset `count` rather than `count * typeSize`,
        so for elements wider than one byte the zeros overwrite the existing
        elements from byte `count` on and the tail of the new slots keeps
        whatever the buffer held; see ResizeCorrected. */
    method Resize(n: nat, alloc: Allocator) returns (ok: bool)
      requires Valid() && (n <= count || capacity > 0)
      modifies this, data
      ensures Valid()
      ensures ok <==> n <= old(count) || GrowsTo(old(capacity), n, typeSize, alloc)
      ensures n <= old(count) ==> count == n && Elements() == old(Elements())[..n]
                                  && capacity == old(capacity) && data == old(data) && unchanged(data)
      ensures !ok ==> count == old(count) && Elements() == old(Elements())
      ensures n > old(count) ==> capacity == GrowReached(old(capacity), n, typeSize, alloc)
      ensures ok && n > old(count) ==> count == n && capacity == GrowTarget(old(capacity), n)
      ensures ok && n > old(count) && typeSize > 0 ==>
                ZeroedAt(old(data[..]), data[..], old(capacity) * typeSize, old(count), n - old(count), typeSize)
      ensures ok && n > old(count) && (old(count) == 0 || typeSize <= 1) ==>
                Elements() == old(Elements()) + Copies(Zeros(typeSize), n - old(count))
    {
      if n <= count {
        Truncate(n);
        return true;
      }
      ghost var before := data[..];
      ok := GrowTo(n, alloc);
      if !ok {
        return false;
      }
      if typeSize > 0 {
        MulMono(n, capacity, typeSize);
        MulSplit(count, n, typeSize);
        MulMono(1, typeSize, count);
      }
      if count == 0 || typeSize == 1 {
        assert count == count * typeSize;
      }
      ZeroFillTo(count, n, before, old(capacity) * typeSize);
    }

    /** resize with the memset at the byte offset of the first new slot, as
        the surrounding code evidently intends: the new slots read as zero
        elements and the old ones are kept. */
    method ResizeCorrected(n: nat, alloc: Allocator) returns (ok: bool)
      requires Valid() && (n <= count || capacity > 0)
      modifies this, data
      ensures Valid()
      ensures ok <==> n <= old(count) || GrowsTo(old(capacity), n, typeSize, alloc)
      ensures n <= old(count) ==> count == n && Elements() == old(Elements())[..n]
                                  && capacity == old(capacity) && data == old(data) && unchanged(data)
      ensures !ok ==> count == old(count) && Elements() == old(Elements())
      ensures n > old(count) ==> capacity == GrowReached(old(capacity), n, typeSize, alloc)
      ensures ok && n > old(count) ==> count == n && capacity == GrowTarget(old(capacity), n)
      ensures ok && n > old(count) ==>
                Elements() == old(Elements()) + Copies(Zeros(typeSize), n - old(count))
    {
      if n <= count {
        Truncate(n);
        return true;
      }
      ok := GrowTo(n, alloc);
      if !ok {
        return false;
      }
      MulMono(n, capacity, typeSize);
      MulSplit(count, n, typeSize);
      MulMono(count, capacity, typeSize);
      ZeroFillTo(count * typeSize, n, data[..], 0);
    }

    /** The fill loop of resize_ptr on a vector with room for `n` elements:
        `value` copied into every slot from the count up to `n`. */
    method FillTo(n: nat, value: seq<bv8>)
      requires Valid() && |value| == typeSize && count <= n <= capacity
      modifies this`count, data
      ensures Valid() && count == n
      ensures Elements() == old(Elements()) + Copies(value, n - old(count))
    {
      var t := typeSize;
      var a := count;
      MulMono(a, capacity, t);
      MulMono(n, capacity, t);
      ghost var pre := data[..a * t];
      ghost var elems := Elements();
      var i := a;
      while i < n
        invariant a <= i <= n && count == a && Valid()
        invariant i * t <= data.Length
        invariant data[..i * t] == pre + Repeat(value, i - a)
        decreases n - i
      {
        SlotBounds(i, capacity, t);
        ghost var prev := data[..];
        Memory.Copy(data, i * t, value);
        FillStep(prev, data[..], pre, i, i - a, t, value);
        i := i + 1;
      }
      FilledElements(data[..], pre, a, n - a, t, value);
      ChunksSamePrefix(pre, old(data[..]), a * t, a, t);
      count := n;
    }

    /** resize_ptr: truncates, or grows and copies `value` into every new slot. */
    method ResizePtr(n: nat, value: seq<bv8>, alloc: Allocator) returns (ok: bool)
      requires Valid() && |value| == typeSize && (n <= count || capacity > 0)
      modifies this, data
      ensures Valid()
      ensures ok <==> n <= old(count) || GrowsTo(old(capacity), n, typeSize, alloc)
      ensures n <= old(count) ==> count == n && Elements() == old(Elements())[..n]
                                  && capacity == old(capacity) && data == old(data) && unchanged(data)
      ensures !ok ==> count == old(count) && Elements() == old(Elements())
      ensures n > old(count) ==> capacity == GrowReached(old(capacity), n, typeSize, alloc)
      ensures ok && n > old(count) ==> count == n && capacity == GrowTarget(old(capacity), n)
      ensures ok && n > old(count) ==> Elements() == old(Elements()) + Copies(value, n - old(count))
    {
      if n <= count {
        Truncate(n);
        return true;
      }
      ok := GrowTo(n, alloc);
      if !ok {
        return false;
      }
      FillTo(n, value);
    }

    /** memcmp of `value` with the bytes at at_ptr(i) reporting equality. */
    function SameAt(i: nat, value: seq<bv8>): (r: bool)
      reads this, data
      requires Valid() && i < count
      ensures r <==> Elements()[i] == value
    {
      var at := AtPtr(i);
      data[at.value .. at.value + typeSize] == value
    }

    /** One step of the bulk erase loops, with the elements split into the
        `i` already examined and kept and the `rest` not yet examined: erases
        slot `i` when the test on it succeeded and otherwise steps past it. */
    method ScanStep(i: nat, erase: bool, ghost kept: seq<seq<bv8>>, ghost rest: seq<seq<bv8>>,
                    ghost p: seq<bv8> -> bool) returns (next: nat, ghost kept': seq<seq<bv8>>)
      requires Valid() && Elements() == kept + rest && i == |kept| && i < count
      requires erase == p(Elements()[i])
      modifies this`count, data
      ensures Valid() && Elements() == kept' + rest[1..] && next == |kept'|
      ensures kept' + RemoveIf(rest[1..], p) == kept + RemoveIf(rest, p)
      ensures erase ==> count == old(count) - 1
      ensures !erase ==> count == old(count)
    {
      SplitAround(kept, rest);
      KeepStep(kept, rest, p);
      if erase {
        var _ := Erase(i);
        next, kept' := i, kept;
      } else {
        next, kept' := i + 1, kept + [rest[0]];
      }
    }

    /** erase_if_same: erases every element whose bytes equal `value`, keeping
        the order of the rest, and reports how many were erased. */
    method EraseIfSame(value: seq<bv8>) returns (numErased: nat)
      requires Valid() && |value| == typeSize
      modifies this`count, data
      ensures Valid()
      ensures Elements() == Without(old(Elements()), value)
      ensures numErased == old(count) - count == multiset(old(Elements()))[value]
    {
      ghost var es := Elements();
      ghost var kept: seq<seq<bv8>> := [];
      ghost var rest := es;
      numErased := 0;
      var i: nat := 0;
      while i < count
        invariant Valid() && Elements() == kept + rest && i == |kept|
        invariant Without(es, value) == kept + RemoveIf(rest, EqualTo(value))
        invariant numErased + count == |es|
        decreases |rest|
      {
        var same := SameAt(i, value);
        i, kept := ScanStep(i, same, kept, rest, EqualTo(value));
        rest := rest[1..];
        if same {
          numErased := numErased + 1;
        }
      }
      WithoutCount(es, value);
    }

    /** erase_if_predicate: erases every element whose bytes satisfy `pred`,
        keeping the order of the rest. */
    method EraseIfPredicate(pred: seq<bv8> -> bool)
      requires Valid()
      modifies this`count, data
      ensures Valid()
      ensures Elements() == RemoveIf(old(Elements()), pred)
    {
      ghost var es := Elements();
      ghost var kept: seq<seq<bv8>> := [];
      ghost var rest := es;
      var i: nat := 0;
      while i < count
        invariant Valid() && Elements() == kept + rest && i == |kept|
        invariant RemoveIf(es, pred) == kept + RemoveIf(rest, pred)
        decreases |rest|
      {
        i, kept := ScanStep(i, pred(SlotAt(i)), kept, rest, pred);
        rest := rest[1..];
      }
    }
  }

  /** JC_vector_construct: allocates the header, raises the requested size to
      the floor, refuses a storage request over the ceiling and allocates the
      storage; NULL when the header allocation fails or the request is too big. */
  method Construct(size: nat, typeSize: nat, alloc: Allocator) returns (v: Vector?)
    ensures v != null <==> alloc(HeaderBytes) && InitialCapacity(size) * typeSize <= MaxSize
    ensures v != null ==> fresh(v) && fresh(v.data) && v.Valid()
                          && v.capacity == InitialCapacity(size) && v.typeSize == typeSize
                          && v.count == 0 && v.Elements() == []
  {
    if !alloc(HeaderBytes) {
      return null;
    }
    var capacity := InitialCapacity(size);
    if capacity * typeSize > MaxSize {
      return null;
    }
    v := new Vector(capacity, typeSize);
  }

  /** A `JC_Vector*` variable, the thing destruct and swap take the address of. */
  class Handle {
    var vec: Vector?

    constructor (vec: Vector?)
      ensures this.vec == vec
    {
      this.vec := vec;
    }
  }

  /** JC_vector_destruct: does nothing for a NULL handle or a handle holding
      NULL, and otherwise releases the vector and sets the handle to NULL. */
  method Destruct(h: Handle?)
    modifies h
    ensures h != null ==> h.vec == null
  {
    if h == null || h.vec == null {
      return;
    }
    h.vec := null;
  }

  /** JC_vector_swap: exchanges the vectors two handles refer to. */
  method Swap(h1: Handle, h2: Handle)
    modifies h1, h2
    ensures h1.vec == old(h2.vec) && h2.vec == old(h1.vec)
  {
    var temp := h1.vec;
    h1.vec := h2.vec;
    h2.vec := temp;
  }

  /** JC_vector_are_same_shallow: same count, same element width and the same
      bytes over the elements -- that is, the same elements. */
  function AreSameShallow(v1: Vector, v2: Vector): (r: bool)
    reads v1, v2, v1.data, v2.data
    requires v1.Valid() && v2.Valid()
    ensures r <==> v1.count == v2.count && v1.typeSize == v2.typeSize && v1.Elements() == v2.Elements()
  {
    if v1.count != v2.count then false
    else if v1.typeSize != v2.typeSize then false
    else
      MulMono(v1.count, v1.capacity, v1.typeSize);
      MulMono(v2.count, v2.capacity, v2.typeSize);
      ChunksEqualIff(v1.data[..], v2.data[..], v1.count, v1.typeSize);
      v1.data[..v1.count * v1.typeSize] == v2.data[..v1.count * v1.typeSize]
  }
}
