/*
 * The dynamic array of src/utils/darray.c: a header (capacity, size,
 * stride) in front of a buffer of `capacity` slots of `stride` bytes. Here
 * the header is the object's fields and the buffer an array of typed slots;
 * a realloc that moves the buffer becomes a fresh array. Whether the
 * allocator grants a request is a parameter (`grant`).
 */
module DArrays {
  import opened Graph

  /** DARRAY_DEFAULT_CAPACITY: the capacity darray_create asks for. */
  const DefaultCapacity: nat := 3

  /** DARRAY_RESIZE_FACTOR: how many slots a full push adds. */
  const ResizeFactor: nat := 3

  /** The header fields impl_darray_get_header_field can read. */
  datatype HeaderField = CapacityField | SizeField | StrideField

  /** push_at must grow the buffer before writing: for an index past the end
      when the capacity is at most index + 1, otherwise when the array is full. */
  predicate PushAtGrows(capacity: nat, size: nat, index: nat) {
    if index > size then capacity <= index + 1 else capacity <= size
  }

  /** The capacity push_at grows to: room for the element at `index` and for
      every element the insertion keeps. For an index inside the array this
      is size + 1 (the source asks for index + 1; see PushAtGrowToAsWritten). */
  function PushAtGrowTo(size: nat, index: nat): (r: nat)
    ensures r > index && r > size
    ensures r == index + 1 || r == size + 1
  {
    if index > size then index + 1 else size + 1
  }

  /** The capacity the source's push_at asks for when it grows: index + 1 on
      both paths. */
  function PushAtGrowToAsWritten(size: nat, index: nat): nat {
    index + 1
  }

  /** On a full array an insertion before the last element asks for fewer
      slots than the array holds afterwards: the memmove then writes past
      the buffer. */
  lemma PushAtAsWrittenOverflows(capacity: nat, size: nat, index: nat)
    requires index < size && PushAtGrows(capacity, size, index)
    ensures PushAtGrowToAsWritten(size, index) < size + 1
    ensures PushAtGrowToAsWritten(size, index) < PushAtGrowTo(size, index)
  {
  }

  class DArray<T> {
    var data: array<T>
    var capacity: nat
    var size: nat
    const stride: nat
    /** The element whose bytes are all zero (what memset writes). */
    const zero: T

    ghost predicate Valid()
      reads this
    {
      capacity == data.Length && size <= capacity
    }

    /** The elements the array holds, in order. */
    ghost function Elements(): seq<T>
      reads this, data
      requires Valid()
    {
      data[..size]
    }

    /** `n` zero-filled elements. */
    ghost function Zeros(n: nat): (z: seq<T>)
      ensures |z| == n && forall i :: 0 <= i < n ==> z[i] == zero
    {
      seq(n, _ => zero)
    }

    /** impl_darray_create: an empty array of the given capacity and stride,
        every slot zeroed. */
    constructor (capacity: nat, stride: nat, zero: T)
      ensures Valid() && fresh(data)
      ensures this.capacity == capacity && this.stride == stride && this.zero == zero
      ensures Elements() == []
      ensures forall i :: 0 <= i < capacity ==> data[i] == zero
    {
      data := new T[capacity](_ => zero);
      this.capacity := capacity;
      size := 0;
      this.stride := stride;
      this.zero := zero;
    }

    /** impl_darray_get_header_field. */
    function GetHeaderField(field: HeaderField): (r: nat)
      reads this, data
      requires Valid()
      ensures field == SizeField ==> r == |Elements()|
      ensures field == CapacityField ==> r == data.Length && r >= |Elements()|
      ensures field == StrideField ==> r == stride
    {
      match field
      case CapacityField => capacity
      case SizeField => size
      case StrideField => stride
    }

    /** impl_darray_resize: realloc the buffer to `newCapacity` slots. The
        slots both buffers have keep their values; new slots are zeroed. On
        refusal nothing changes. */
    method Resize(newCapacity: nat, grant: bool) returns (ok: bool)
      requires Valid() && size <= newCapacity
      modifies this
      ensures Valid() && ok == grant
      ensures size == old(size) && Elements() == old(Elements())
      ensures ok ==> capacity == newCapacity && fresh(data)
      ensures ok ==> forall i :: 0 <= i < old(capacity) && i < newCapacity ==> data[i] == old(data[i])
      ensures !ok ==> capacity == old(capacity) && data == old(data)
    {
      if !grant {
        return false;
      }
      var z := zero;
      var buffer := new T[newCapacity](_ => z);
      var keep := if capacity < newCapacity then capacity else newCapacity;
      var i := 0;
      while i < keep
        invariant 0 <= i <= keep
        invariant forall t :: 0 <= t < i ==> buffer[t] == data[t]
        modifies buffer
      {
        buffer[i] := data[i];
        i := i + 1;
      }
      data := buffer;
      capacity := newCapacity;
      return true;
    }

    /** impl_darray_push: a full array first grows by ResizeFactor slots;
        then the element goes after the last one. */
    method Push(x: T, grant: bool) returns (ok: bool)
      requires Valid()
      modifies this, data
      ensures Valid() && (data == old(data) || fresh(data))
      ensures ok == (old(size) < old(capacity) || grant)
      ensures ok ==> Elements() == old(Elements()) + [x]
      ensures ok ==> capacity == if old(size) < old(capacity) then old(capacity) else old(capacity) + ResizeFactor
      ensures !ok ==> Elements() == old(Elements()) && capacity == old(capacity) && data == old(data)
    {
      if capacity <= size {
        ok := Resize(capacity + ResizeFactor, grant);
        if !ok {
          return;
        }
      }
      data[size] := x;
      size := size + 1;
      ok := true;
    }

    /** impl_darray_pop: nothing on an empty array, otherwise the last
        element, which the array no longer holds. */
    method Pop() returns (r: Option<T>)
      requires Valid()
      modifies this
      ensures Valid() && data == old(data) && capacity == old(capacity)
      ensures r.None? <==> old(size) == 0
      ensures r.None? ==> Elements() == old(Elements())
      ensures r.Some? ==> r.value == old(Elements())[old(size) - 1] && Elements() == old(Elements())[..old(size) - 1]
    {
      if size == 0 {
        return None;
      }
      size := size - 1;
      return Some(data[size]);
    }

    /** impl_darray_push_at: past the end, zero-fill up to `index` and put
        the element there; otherwise shift the tail right by one and insert. */
    method PushAt(index: nat, x: T, grant: bool) returns (ok: bool)
      requires Valid()
      modifies this, data
      ensures Valid() && (data == old(data) || fresh(data))
      ensures ok == (!PushAtGrows(old(capacity), old(size), index) || grant)
      ensures ok ==> capacity == if PushAtGrows(old(capacity), old(size), index) then PushAtGrowTo(old(size), index) else old(capacity)
      ensures ok && index > old(size) ==> Elements() == old(Elements()) + Zeros(index - old(size)) + [x]
      ensures ok && index <= old(size) ==> Elements() == old(Elements())[..index] + [x] + old(Elements())[index..]
      ensures !ok ==> Elements() == old(Elements()) && capacity == old(capacity) && data == old(data)
    {
      if PushAtGrows(capacity, size, index) {
        ok := Resize(PushAtGrowTo(size, index), grant);
        if !ok {
          return;
        }
      }
      if index > size {
        PlacePastEnd(index, x);
      } else {
        InsertBefore(index, x);
      }
      ok := true;
    }

    /** The past-the-end path of impl_darray_push_at, once the buffer is
        large enough: zero the slots from the size up to `index`, put the
        element at `index`, and make the size index + 1. */
    method PlacePastEnd(index: nat, x: T)
      requires Valid() && size < index < capacity
      modifies this, data
      ensures Valid() && data == old(data) && capacity == old(capacity)
      ensures Elements() == old(Elements()) + Zeros(index - old(size)) + [x]
    {
      ghost var before := Elements();
      var j := size;
      while j < index
        invariant size <= j <= index
        invariant data[..size] == before
        invariant forall t :: size <= t < j ==> data[t] == zero
        modifies data
      {
        data[j] := zero;
        j := j + 1;
      }
      data[index] := x;
      assert data[..index + 1] == before + Zeros(index - size) + [x];
      size := index + 1;
    }

    /** The insertion path of impl_darray_push_at, once the buffer has a
        free slot: move the elements from `index` on up by one (the
        memmove) and put the element at `index`. */
    method InsertBefore(index: nat, x: T)
      requires Valid() && index <= size < capacity
      modifies this, data
      ensures Valid() && data == old(data) && capacity == old(capacity)
      ensures Elements() == old(Elements())[..index] + [x] + old(Elements())[index..]
    {
      ghost var before := Elements();
      var j := size;
      while j > index
        invariant index <= j <= size
        invariant forall t :: 0 <= t < j ==> data[t] == before[t]
        invariant forall t :: j < t <= size ==> data[t] == before[t - 1]
        modifies data
      {
        data[j] := data[j - 1];
        j := j - 1;
      }
      data[index] := x;
      assert data[..size + 1] == before[..index] + [x] + before[index..];
      size := size + 1;
    }

    /** impl_darray_pop_at: the element at `index` (which must be held),
        with the tail shifted left by one over it. */
    method PopAt(index: nat) returns (x: T)
      requires Valid() && index < size
      modifies this, data
      ensures Valid() && data == old(data) && capacity == old(capacity)
      ensures x == old(Elements())[index]
      ensures Elements() == old(Elements())[..index] + old(Elements())[index + 1..]
    {
      ghost var before := Elements();
      x := data[index];
      var j := index;
      while j < size - 1
        invariant index <= j <= size - 1
        invariant forall t :: 0 <= t < j ==> data[t] == before[t + (if t < index then 0 else 1)]
        invariant forall t :: j <= t < size ==> data[t] == before[t]
        modifies data
      {
        data[j] := data[j + 1];
        j := j + 1;
      }
      size := size - 1;
      assert data[..size] == before[..index] + before[index + 1..];
    }

    /** impl_darray_clear: the array becomes empty; the buffer and header
        otherwise stay as they are. */
    method Clear()
      requires Valid()
      modifies this
      ensures Valid() && data == old(data) && capacity == old(capacity)
      ensures Elements() == []
    {
      size := 0;
    }
  }

  /** pop undoes a granted push: the pushed element comes back out and the
      array holds what it held before. */
  method PopUndoesPush<T>(d: DArray<T>, x: T) returns (r: Option<T>)
    requires d.Valid()
    modifies d, d.data
    ensures d.Valid() && r == Some(x) && d.Elements() == old(d.Elements())
  {
    var ok := d.Push(x, true);
    r := d.Pop();
  }

  /** pop_at undoes a granted push_at at the same index inside the array:
      the inserted element comes back out and the array holds what it held
      before. */
  method PopAtUndoesPushAt<T>(d: DArray<T>, index: nat, x: T) returns (r: T)
    requires d.Valid() && index <= d.size
    modifies d, d.data
    ensures d.Valid() && r == x && d.Elements() == old(d.Elements())
  {
    ghost var before := d.Elements();
    var ok := d.PushAt(index, x, true);
    ghost var t := d.Elements();
    assert t[..index] == before[..index] && t[index + 1..] == before[index..];
    r := d.PopAt(index);
  }
}
