/**
 * A bounds-checked buffer of `uint32_t` values with a length and a
 * capacity; the tile storage of every board.
 */
module UInt32Arrays {
  import opened Ints

  class UInt32Array {
    var items: array?<u32>
    var length: nat
    var capacity: nat

    /**
     * What C's memory safety needs: a missing buffer has length and
     * capacity 0, and a present one holds `capacity` items, of which the
     * first `length` are in use.
     */
    ghost predicate Valid()
      reads this
    {
      if items == null then length == 0 && capacity == 0
      else items.Length == capacity && length <= capacity
    }

    /** The items that get and set can reach. */
    ghost function Contents(): (c: seq<u32>)
      reads this, items
      requires Valid()
      ensures |c| == length
    {
      if items == null then [] else items[..length]
    }

    /** The compound literal `(UInt32Array){items, length, capacity}`. */
    constructor Wrap(items: array?<u32>, length: nat, capacity: nat)
      ensures this.items == items && this.length == length && this.capacity == capacity
    {
      this.items := items;
      this.length := length;
      this.capacity := capacity;
    }

    /**
     * `UInt32Array_create`: a zeroed buffer of `capacity` items, or the empty
     * array when the allocation fails (`allocFails` stands for `calloc`
     * returning NULL).
     */
    static method Create(length: nat, capacity: nat, allocFails: bool) returns (a: UInt32Array)
      requires length <= capacity
      ensures fresh(a) && a.Valid()
      ensures allocFails ==> a.items == null && a.length == 0 && a.capacity == 0
      ensures !allocFails ==> a.items != null && fresh(a.items)
      ensures !allocFails ==> a.length == length && a.capacity == capacity && a.items[..] == Zeros(capacity)
    {
      if allocFails {
        a := new UInt32Array.Wrap(null, 0, 0);
        return;
      }
      var raw := new u32[capacity](_ => 0);
      ZerosAreZero(capacity);
      a := new UInt32Array.Wrap(raw, length, capacity);
    }

    /** `UInt32Array_destroy`: drops the buffer once; a second call does nothing. */
    method Destroy()
      modifies this
      ensures items == null
      ensures old(items) != null ==> length == 0 && capacity == 0
      ensures old(items) == null ==> length == old(length) && capacity == old(capacity)
    {
      if items != null {
        items := null;
        length := 0;
        capacity := 0;
      }
    }

    /** `UInt32Array_get`: the item at `index` when it is in use, else 0. */
    function Get(index: nat): (r: u32)
      reads this, items
      requires Valid()
      ensures index < length ==> items != null && r == items[index]
      ensures index >= length ==> r == 0
    {
      if index < length then items[index] else 0
    }

    /**
     * `UInt32Array_set`: writes the one slot when the buffer exists and the
     * index is in use, and reports whether it did.
     */
    method Set(index: nat, value: u32) returns (ok: bool)
      requires Valid()
      modifies items
      ensures ok == (items != null && index < length)
      ensures items != null ==> items[..] == if ok then old(items[..])[index := value] else old(items[..])
      ensures Contents() == if ok then old(Contents())[index := value] else old(Contents())
      ensures ok ==> Get(index) == value
      ensures forall k :: k != index ==> Get(k) == old(Get(k))
    {
      if items == null || index >= length {
        return false;
      }
      items[index] := value;
      ok := true;
    }

    /**
     * `UInt32Array_copy`: a new buffer of the same capacity holding the
     * items in use and zeros after them, or the empty array when the
     * allocation fails. The new buffer is fresh, so later writes to either
     * array cannot reach the other.
     */
    static method Copy(src: UInt32Array, allocFails: bool) returns (c: UInt32Array)
      requires src.Valid()
      ensures fresh(c) && c.Valid()
      ensures allocFails ==> c.items == null && c.length == 0 && c.capacity == 0
      ensures !allocFails ==> c.items != null && fresh(c.items)
      ensures !allocFails ==> c.length == src.length && c.capacity == src.capacity
      ensures !allocFails ==> c.items[..] == src.Contents() + Zeros(src.capacity - src.length)
      ensures !allocFails ==> c.Contents() == src.Contents()
    {
      var length := src.length;
      var capacity := src.capacity;
      if allocFails {
        c := new UInt32Array.Wrap(null, 0, 0);
        return;
      }
      var raw := new u32[capacity](_ => 0);
      for i := 0 to length
        invariant raw[..i] == src.Contents()[..i]
        invariant forall k :: i <= k < capacity ==> raw[k] == 0
      {
        raw[i] := src.Get(i);
      }
      ZerosAreZero(capacity - length);
      assert raw[..] == raw[..length] + raw[length..];
      c := new UInt32Array.Wrap(raw, length, capacity);
    }
  }
}
