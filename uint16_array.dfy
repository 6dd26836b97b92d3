/** A heap-allocated, bounds-checked buffer of `uint16_t` values. */
module UInt16Arrays {
  import opened Ints

  class UInt16Array {
    var items: array<u16>
    var length: nat
    var capacity: nat

    /** The buffer holds `capacity` items, of which the first `length` are in use. */
    ghost predicate Valid()
      reads this
    {
      items.Length == capacity && length <= capacity
    }

    /** The items that Get and Set can reach. */
    ghost function Contents(): (c: seq<u16>)
      reads this, items
      requires Valid()
      ensures |c| == length
    {
      items[..length]
    }

    constructor Wrap(items: array<u16>, length: nat, capacity: nat)
      ensures this.items == items && this.length == length && this.capacity == capacity
    {
      this.items := items;
      this.length := length;
      this.capacity := capacity;
    }

    /**
     * `UInt16Array_Init`: NULL when either allocation fails (the struct, or
     * its items, in which case the struct is released again); otherwise a
     * fresh array whose `capacity` items are all 0.
     */
    static method Init(length: nat, capacity: nat, structFails: bool, itemsFails: bool)
      returns (a: UInt16Array?)
      requires length <= capacity
      ensures a == null <==> structFails || itemsFails
      ensures a != null ==> fresh(a) && fresh(a.items) && a.Valid()
      ensures a != null ==> a.length == length && a.capacity == capacity
      ensures a != null ==> forall k :: 0 <= k < capacity ==> a.items[k] == 0
    {
      if structFails {
        return null;
      }
      if itemsFails {
        return null;
      }
      var raw := new u16[capacity](_ => 0);
      a := new UInt16Array.Wrap(raw, length, capacity);
    }

    /** `UInt16Array_Get`: the item at `index` when it is in use, else 0. */
    function Get(index: nat): (r: u16)
      reads this, items
      requires Valid()
      ensures index < |Contents()| ==> r == Contents()[index]
      ensures index >= |Contents()| ==> r == 0
    {
      if index < length then items[index] else 0
    }

    /** `UInt16Array_Set`: writes only slot `index`, and only when it is in use. */
    method Set(index: nat, value: u16) returns (ok: bool)
      requires Valid()
      modifies items
      ensures ok == (index < length)
      ensures items[..] == if ok then old(items[..])[index := value] else old(items[..])
      ensures ok ==> Get(index) == value
      ensures forall k :: k != index ==> Get(k) == old(Get(k))
    {
      if index < length {
        items[index] := value;
        return true;
      }
      return false;
    }
  }
}
