/** AppendPrintf: formats into whatever room there is, and retries with 100 more characters until the text fits. */
module FormattedText {
  import opened Basics
  import opened GrowableBuffer

  const STEP := 100

  /** The capacity that the retries end with: `needed`, or the last one from which the buffer could not grow. */
  function Climb(capacity: nat, needed: nat, max: nat, heap: nat): (c: nat)
    requires capacity <= max && 8 <= max
    ensures capacity <= c <= max
    decreases max - capacity
  {
    if needed <= capacity then capacity
    else
      GrowthIsEnough(capacity, capacity + STEP, max);
      var grown := GrownCapacity(capacity, capacity + STEP, max);
      if grown.None? || grown.value > heap then capacity else Climb(grown.value, needed, max, heap)
  }

  /** The largest capacity that retries can reach. */
  function Summit(capacity: nat, max: nat, heap: nat): (c: nat)
    requires capacity <= max && 8 <= max
    ensures capacity <= c <= max
  {
    Climb(capacity, max + 1, max, heap)
  }

  /** Whatever was needed on the way, the retries pass through the same capacities. */
  lemma {:induction false} ClimbTwice(capacity: nat, a: nat, b: nat, max: nat, heap: nat)
    requires capacity <= max && 8 <= max && a <= b
    ensures Climb(Climb(capacity, a, max, heap), b, max, heap) == Climb(capacity, b, max, heap)
    decreases max - capacity
  {
    hide GrownCapacity;
    if a > capacity {
      GrowthIsEnough(capacity, capacity + STEP, max);
      var grown := GrownCapacity(capacity, capacity + STEP, max);
      if grown.Some? && grown.value <= heap {
        ClimbTwice(grown.value, a, b, max, heap);
      }
    }
  }

  /** A text fits exactly when it does not end above the summit, and writing it does not move the summit. */
  lemma {:induction false} FitsBelowSummit(capacity: nat, needed: nat, max: nat, heap: nat)
    requires capacity <= max && 8 <= max
    ensures needed <= Climb(capacity, needed, max, heap) <==> needed <= Summit(capacity, max, heap)
    ensures Summit(Climb(capacity, needed, max, heap), max, heap) == Summit(capacity, max, heap)
    decreases max - capacity
  {
    hide GrownCapacity;
    if needed > capacity {
      GrowthIsEnough(capacity, capacity + STEP, max);
      var grown := GrownCapacity(capacity, capacity + STEP, max);
      if grown.Some? && grown.value <= heap {
        FitsBelowSummit(grown.value, needed, max, heap);
      }
    }
  }

  /**
   With a heap that never runs out, the last 99 characters below the maximum are the only ones that may be out
   of reach.
   */
  lemma {:induction false} SummitIsHigh(capacity: nat, max: nat, heap: nat)
    requires capacity <= max <= heap && 8 <= max
    ensures max < Summit(capacity, max, heap) + 100
    decreases max - capacity
  {
    hide GrownCapacity;
    GrowthIsEnough(capacity, capacity + STEP, max);
    var grown := GrownCapacity(capacity, capacity + STEP, max);
    if grown.Some? && grown.value <= heap {
      SummitIsHigh(grown.value, max, heap);
    }
  }

  /** They are: the buffer with room for 100 characters and a maximum of 199 does not take a text of 101. */
  lemma SummitBelowMaximum()
    ensures Summit(100, 199, 1000) == 100
  {
  }

  /** The largest size to which formatted text can make a buffer grow. */
  ghost function SummitOf(output: Buffer<char>): nat
    requires output.Valid()
    reads output
  {
    Summit(output.data.Length, output.maxCapacity, output.heapLimit)
  }

  /** AppendPrintfV, given the text that the format stands for. Storage may have grown even when it fails. */
  method AppendPrintf(output: Buffer<char>, text: string) returns (status: Status)
    requires output.Valid()
    modifies output, output.data
    ensures output.Valid() && (output.data == old(output.data) || fresh(output.data))
    ensures status == if old(output.size) + |text| <= old(SummitOf(output)) then Success else OutOfMemory
    ensures output.Contents() == old(output.Contents()) + if status == Success then text else ""
    ensures SummitOf(output) == old(SummitOf(output))
    ensures output.data.Length
      == Climb(old(output.data.Length), old(output.size) + |text|, output.maxCapacity, output.heapLimit)
  {
    hide GrownCapacity;
    ghost var needed := output.size + |text|;
    ghost var capacity := output.data.Length;
    FitsBelowSummit(capacity, needed, output.maxCapacity, output.heapLimit);
    while true
      invariant output.Valid() && (output.data == old(output.data) || fresh(output.data))
      invariant output.Contents() == old(output.Contents())
      invariant Climb(output.data.Length, needed, output.maxCapacity, output.heapLimit)
        == Climb(capacity, needed, output.maxCapacity, output.heapLimit)
      decreases output.maxCapacity - output.data.Length
    {
      var available := output.data.Length - output.size;
      if |text| <= available {
        WriteText(output, text);
        return Success;
      }
      GrowthIsEnough(output.data.Length, output.data.Length + STEP, output.maxCapacity);
      var ok := output.Reserve(output.data.Length + STEP, true);
      if !ok {
        return OutOfMemory;
      }
    }
  }

  /** The formatting itself, when there is room. */
  method WriteText(output: Buffer<char>, text: string)
    requires output.Valid() && output.size + |text| <= output.data.Length
    modifies output`size, output.data
    ensures output.Valid() && output.Contents() == old(output.Contents()) + text
  {
    forall i | 0 <= i < |text| {
      output.data[output.size + i] := text[i];
    }
    output.ResizeUnchecked(output.size + |text|);
  }
}
