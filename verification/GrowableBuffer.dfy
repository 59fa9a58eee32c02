/** EtwInternal::Buffer, the resizable array under every formatter, and the retry loop that relies on it. */
module GrowableBuffer {
  import opened Basics

  /** The capacity that doubling from `capacity` ends with; None when the request exceeds the maximum. */
  function Doubled(capacity: nat, required: nat, max: nat): Option<nat>
    requires 0 < capacity
    decreases if capacity <= max then max - capacity else 0
  {
    if capacity > max / 2 then
      if required <= max then Some(max) else None
    else if 2 * capacity < required then Doubled(2 * capacity, required, max)
    else Some(2 * capacity)
  }

  function GrownCapacity(capacity: nat, required: nat, max: nat): Option<nat> {
    Doubled(if capacity != 0 then capacity else 8, required, max)
  }

  /** Growing succeeds exactly for requests within the maximum; it never overshoots it or falls short. */
  lemma {:induction false} DoubledIsEnough(capacity: nat, required: nat, max: nat)
    requires 0 < capacity <= max
    ensures Doubled(capacity, required, max).Some? <==> required <= max
    ensures Doubled(capacity, required, max).Some? ==>
      var n := Doubled(capacity, required, max).value;
      required <= n <= max && (2 * capacity <= n || n == max) && (n <= 2 * capacity || n < 2 * required)
    decreases max - capacity
  {
    if capacity > max / 2 || 2 * capacity >= required {
    } else {
      DoubledIsEnough(2 * capacity, required, max);
    }
  }

  lemma GrowthIsEnough(capacity: nat, required: nat, max: nat)
    requires capacity < required && capacity <= max && 8 <= max
    ensures GrownCapacity(capacity, required, max).Some? <==> required <= max
    ensures required <= max ==>
      var n := GrownCapacity(capacity, required, max).value;
      required <= n <= max && (n == max || (2 * capacity <= n && (capacity == 0 ==> 16 <= n)))
  {
    DoubledIsEnough(if capacity != 0 then capacity else 8, required, max);
  }

  class Buffer<T(0)> {
    /** MaxCapacity: the largest element count whose byte size still fits in 32 bits. */
    const maxCapacity: nat
    /** The largest element count that the heap will still allocate. */
    const heapLimit: nat
    var data: array<T>
    var size: nat
    /** Elements moved by reallocations so far. */
    ghost var copied: nat

    ghost predicate Valid()
      reads this
    {
      size <= data.Length <= maxCapacity && 8 <= maxCapacity < 0x1_0000_0000
    }

    ghost function Contents(): (s: seq<T>)
      reads this, data
      requires Valid()
      ensures |s| == size
    {
      data[..size]
    }

    /** What one reallocation on behalf of `required` elements would need. */
    ghost predicate CanHold(required: nat)
      reads this
      requires Valid()
    {
      required <= data.Length
      || (required <= maxCapacity
          && var n := GrownCapacity(data.Length, required, maxCapacity); n.Some? && n.value <= heapLimit)
    }

    constructor (maxCapacity: nat, heapLimit: nat, staticCapacity: nat)
      requires staticCapacity <= maxCapacity && 8 <= maxCapacity < 0x1_0000_0000
      ensures Valid() && fresh(data) && Contents() == [] && data.Length == staticCapacity
      ensures this.maxCapacity == maxCapacity && this.heapLimit == heapLimit && copied == 0
    {
      this.maxCapacity := maxCapacity;
      this.heapLimit := heapLimit;
      data := new T[staticCapacity];
      size := 0;
      copied := 0;
    }

    /** Grow: doubles until the request fits; the 32-bit product cannot overflow. */
    method Grow(required: nat, keepExistingData: bool) returns (ok: bool)
      requires Valid() && data.Length < required
      modifies this`data, this`copied
      ensures Valid() && ok == old(CanHold(required))
      ensures ok ==>
        && fresh(data) && required <= data.Length
        && GrownCapacity(old(data.Length), required, maxCapacity) == Some(data.Length)
        && (keepExistingData ==> Contents() == old(Contents()))
        && copied == old(copied) + if keepExistingData then size else 0
      ensures !ok ==> data == old(data) && copied == old(copied)
    {
      GrowthIsEnough(data.Length, required, maxCapacity);
      var newCapacity := if data.Length != 0 then data.Length else 8;
      while true
        invariant 0 < newCapacity <= maxCapacity
        invariant Doubled(newCapacity, required, maxCapacity) == GrownCapacity(data.Length, required, maxCapacity)
        decreases maxCapacity - newCapacity
      {
        if newCapacity > maxCapacity / 2 {
          if required <= maxCapacity {
            newCapacity := maxCapacity;
            break;
          }
          return false;
        }
        assert newCapacity * 2 <= maxCapacity < 0x1_0000_0000;
        newCapacity := newCapacity * 2;
        if newCapacity >= required {
          break;
        }
      }
      if newCapacity > heapLimit {
        return false;
      }
      var newData := new T[newCapacity];
      if keepExistingData {
        forall i | 0 <= i < size {
          newData[i] := data[i];
        }
        copied := copied + size;
      }
      data := newData;
      ok := true;
    }

    method Clear()
      requires Valid()
      modifies this`size
      ensures Valid() && Contents() == []
    {
      size := 0;
    }

    /** resize_unchecked: elements up to the old size keep their values. */
    method ResizeUnchecked(newSize: nat)
      requires Valid() && newSize <= data.Length
      modifies this`size
      ensures Valid() && size == newSize
      ensures newSize <= old(size) ==> Contents() == old(Contents())[..newSize]
    {
      size := newSize;
    }

    method PushBack(value: T) returns (ok: bool)
      requires Valid()
      modifies this, data
      ensures Valid() && (data == old(data) || fresh(data)) && ok == old(CanHold(size + 1))
      ensures Contents() == if ok then old(Contents()) + [value] else old(Contents())
      ensures ok ==>
        if old(size) < old(data.Length) then data == old(data) && copied == old(copied)
        else
          && GrownCapacity(old(size), old(size) + 1, maxCapacity) == Some(data.Length)
          && copied == old(copied) + old(size)
      ensures ok ==> forall initial: nat ::
        initial <= maxCapacity && Pushed(initial, old(size), old(data.Length), old(copied)) ==>
        Pushed(initial, size, data.Length, copied)
      ensures !ok ==> data == old(data)
    {
      ok := true;
      if size >= data.Length {
        ok := Grow(size + 1, true);
      }
      if ok {
        data[size] := value;
        size := size + 1;
      }
    }

    /** The capacity and the cost are those of a run of `n` pushes into an empty buffer. */
    ghost predicate Pushed(initial: nat, n: nat, capacity: nat, copied: nat) {
      8 <= maxCapacity && initial <= maxCapacity && n <= maxCapacity
        && Pushes(n, initial, maxCapacity) == (capacity, copied)
    }

    method PopBack()
      requires Valid() && size != 0
      modifies this`size
      ensures Valid() && Contents() == old(Contents())[..old(size) - 1]
    {
      size := size - 1;
    }

    method Reserve(required: nat, keepExistingData: bool) returns (ok: bool)
      requires Valid()
      modifies this`data, this`copied
      ensures Valid() && (data == old(data) || fresh(data)) && ok == old(CanHold(required))
      ensures ok ==> required <= data.Length
      ensures keepExistingData || !ok ==> Contents() == old(Contents())
      ensures old(data.Length) >= required || !ok ==> data == old(data)
      ensures ok && old(data.Length) < required ==>
        fresh(data) && GrownCapacity(old(data.Length), required, maxCapacity) == Some(data.Length)
    {
      ok := true;
      if required > data.Length {
        ok := Grow(required, keepExistingData);
      }
    }

    method Resize(newSize: nat, keepExistingData: bool) returns (ok: bool)
      requires Valid()
      modifies this`data, this`copied, this`size
      ensures Valid() && (data == old(data) || fresh(data)) && ok == old(CanHold(newSize))
      ensures if ok then size == newSize else size == old(size) && Contents() == old(Contents())
      ensures ok && keepExistingData ==>
        forall n: nat {:trigger data[..n]} :: 0 <= n <= newSize && n <= old(size) ==> data[..n] == old(data[..n])
    {
      ok := true;
      if newSize > data.Length {
        ok := Grow(newSize, keepExistingData);
      }
      if ok {
        size := newSize;
      }
    }

    /** AppendWide: a run of characters. */
    method Append(values: seq<T>) returns (ok: bool)
      requires Valid()
      modifies this, data
      ensures Valid() && (data == old(data) || fresh(data)) && ok == old(CanHold(size + |values|))
      ensures Contents() == if ok then old(Contents()) + values else old(Contents())
      ensures old(size) + |values| <= old(data.Length) || !ok ==> data == old(data)
    {
      ok := Reserve(size + |values|, true);
      if ok {
        forall i | 0 <= i < |values| {
          data[size + i] := values[i];
        }
        size := size + |values|;
      }
    }
  }

  // ------------------------------------------------------------------ amortized cost

  /** The capacity after `n` pushes into an empty buffer of `initial` elements, and the elements they moved. */
  ghost function Pushes(n: nat, initial: nat, max: nat): (r: (nat, nat))
    requires n <= max && initial <= max && 8 <= max
    ensures n <= r.0 <= max
  {
    if n == 0 then (initial, 0)
    else
      var (capacity, copied) := Pushes(n - 1, initial, max);
      if n - 1 < capacity then (capacity, copied)
      else
        GrowthIsEnough(n - 1, n, max);
        (GrownCapacity(n - 1, n, max).value, copied + (n - 1))
  }

  /** Any run of push_back moves fewer than twice as many elements as it stores. */
  lemma {:induction false} PushesAreAmortized(n: nat, initial: nat, max: nat)
    requires 0 < n <= max && initial <= max && 8 <= max
    ensures Pushes(n, initial, max).1 < 2 * n
  {
    PushesInvariant(n, initial, max);
  }

  lemma {:induction false} PushesInvariant(n: nat, initial: nat, max: nat)
    requires n <= max && initial <= max && 8 <= max
    ensures var (capacity, copied) := Pushes(n, initial, max);
      (copied == 0 || copied < 2 * n) && (copied <= capacity || capacity == max)
  {
    if n == 0 {
    } else {
      PushesInvariant(n - 1, initial, max);
      if n - 1 >= Pushes(n - 1, initial, max).0 {
        GrowthIsEnough(n - 1, n, max);
      }
    }
  }

  // ------------------------------------------------------------------ the retry loop of StartEvent

  function Power2(k: nat): (p: nat)
    ensures 1 <= p
  {
    if k == 0 then 1 else 2 * Power2(k - 1)
  }

  lemma {:induction false} Power2Grows(j: nat, k: nat)
    requires j <= k
    ensures Power2(j) <= Power2(k)
    decreases k - j
  {
    if j == k {
    } else {
      Power2Grows(j + 1, k);
    }
  }

  lemma {:induction false} Power2Adds(j: nat, k: nat)
    ensures Power2(j + k) == Power2(j) * Power2(k)
  {
    if j == 0 {
    } else {
      Power2Adds(j - 1, k);
    }
  }

  lemma DoubledPower(k: nat)
    ensures Power2(0) == 1 && Power2(k + 1) == 2 * Power2(k)
  {
  }

  lemma Power2Of32()
    ensures Power2(32) == 0x1_0000_0000
  {
    Power2Adds(8, 8);
    Power2Adds(16, 16);
    assert Power2(8) == 0x100;
  }

  /** A 32-bit capacity doubles at most 31 times. */
  lemma CallsAreFew(call: nat, capacity: nat)
    requires Power2(call) <= capacity < 0x1_0000_0000
    ensures call <= 31
  {
    hide Power2;
    Power2Of32();
    if call > 31 {
      Power2Grows(32, call);
    }
  }

  /** What the callback reports on call number `call`, given the buffer's capacity. */
  type Callback = (nat, nat) -> (Status, U32)

  /**
   StartEvent's loop: asks for the event information, and retries with a larger buffer as long as the
   callback reports a larger size. It ends for every callback, after at most 33 calls.
   */
  method GetEventInformation(buffer: Buffer<Byte>, callback: Callback) returns (status: Status, ghost calls: nat)
    requires buffer.Valid() && buffer.size == 0
    modifies buffer
    ensures buffer.Valid() && 1 <= calls <= 33
    ensures buffer.data == old(buffer.data) || fresh(buffer.data)
    ensures status == Success ==> callback(calls - 1, buffer.data.Length).0 == Success
    ensures status == InsufficientBuffer ==>
      callback(calls - 1, buffer.data.Length).0 == InsufficientBuffer
      && callback(calls - 1, buffer.data.Length).1 <= buffer.data.Length
    ensures status != Success && status != OutOfMemory ==> callback(calls - 1, buffer.data.Length).0 == status
  {
    hide Doubled, GrownCapacity, Power2;
    calls := 0;
    var call := 0;
    while true
      invariant buffer.Valid() && buffer.size == 0 && calls == call <= 32
      invariant buffer.data == old(buffer.data) || fresh(buffer.data)
      invariant call > 0 ==> buffer.data.Length == buffer.maxCapacity || Power2(call) <= buffer.data.Length
      decreases buffer.maxCapacity - buffer.data.Length
    {
      var (answer, needed) := callback(call, buffer.data.Length);
      call := call + 1;
      calls := call;
      if answer == Success {
        return Success, calls;
      } else if answer != InsufficientBuffer || buffer.data.Length >= needed {
        return answer, calls;
      }
      ghost var before := buffer.data.Length;
      if call > 1 && before != buffer.maxCapacity {
        CallsAreFew(call - 1, before);
      }
      GrowthIsEnough(before, needed, buffer.maxCapacity);
      DoubledPower(call - 1);
      var ok := buffer.Reserve(needed, false);
      if !ok {
        return OutOfMemory, calls;
      }
    }
  }
}
