/** Whole runs of the enumerator: they list exactly what the reference decoder decodes, and they end. */
module Runs {
  import opened Basics
  import opened Schema
  import opened Values
  import opened Decoder
  import opened Machine

  /** The state after `k` calls of MoveNext (calls stop once the precondition is gone). */
  ghost function Steps(e: Event, s: State, k: nat): (r: State)
    requires Valid(e, s)
    ensures Valid(e, r)
    decreases k
  {
    if k == 0 || !CanMove(s) then s
    else
      NextRefines(e, s);
      Steps(e, Next(e, s), k - 1)
  }

  /** `s` is where a run that produced trace `t` in full has stopped. */
  ghost predicate Stopped(t: Trace, s: State) {
    && s.pos == t.pos && s.ints == t.ints
    && match t.outcome
       case Done => s.sub.AfterLast? && s.lastError == Success
       case Failed(error) => s.sub.InError? && s.lastError == error
  }

  /** From any reachable state, k calls visit the first k items that are left, then the run stops. */
  lemma {:induction false} StepsFollowRest(e: Event, s: State, k: nat)
    requires Valid(e, s) && CanMove(s)
    ensures var t := Rest(e, s); var s' := Steps(e, s, k);
      if k <= |t.visits| then
        (k > 0 ==> OnItem(s') && View(s') == t.visits[k - 1]) && CanMove(s')
        && Rest(e, s') == t.(visits := t.visits[k..])
      else Stopped(t, s')
    decreases k
  {
    hide Group, Rest, Next, Enter;
    if k == 0 {
    } else {
      NextRefines(e, s);
      var next := Next(e, s);
      var t := Rest(e, s);
      if OnItem(next) {
        StepsFollowRest(e, next, k - 1);
        assert Rest(e, next) == t.(visits := t.visits[1..]);
        if k <= |t.visits| {
          assert t.visits[k..] == t.visits[1..][k - 1..];
        }
      }
    }
  }

  /**
   Enumerating an event from its reset state visits exactly the items of the recursive decoder, in
   order, with the same types, extents and counters, and stops with the same cursor, the same
   integer table and the same success or error. It takes one call per item plus a final one.
   */
  lemma EnumerationIsDecoding(e: Event, ints: seq<U16>)
    requires WellFormed(e) && |ints| == |e.props|
    ensures var t := Decode(e, ints); var s := Reset(e, ints);
      && Valid(e, s) && CanMove(s)
      && (forall k :: 1 <= k <= |t.visits| ==> OnItem(Steps(e, s, k)) && View(Steps(e, s, k)) == t.visits[k - 1])
      && (forall k :: k > |t.visits| ==> Stopped(t, Steps(e, s, k)))
  {
    var t := Decode(e, ints);
    var s := Reset(e, ints);
    assert Wrap16(e.topLevel) == e.topLevel;
    assert Rest(e, s) == t;
    forall k | k > |t.visits| ensures Stopped(t, Steps(e, s, k)) {
      StepsFollowRest(e, s, k);
    }
    forall k | 1 <= k <= |t.visits|
      ensures OnItem(Steps(e, s, k)) && View(Steps(e, s, k)) == t.visits[k - 1]
    {
      StepsFollowRest(e, s, k);
    }
  }

  // ------------------------------------------------------------------ a bound that ignores the payload

  const MAX_COUNT := 0xffff

  /** The most items properties lo, ..., hi - 1 can produce, whatever the payload says. */
  function GroupBound(e: Event, lo: nat, hi: nat): nat
    requires WellFormed(e) && hi <= |e.props|
    decreases |e.props| - lo, 1
  {
    if lo >= hi then 0 else PropertyBound(e, lo) + GroupBound(e, lo + 1, hi)
  }

  function PropertyBound(e: Event, i: nat): nat
    requires WellFormed(e) && i < |e.props|
    decreases |e.props| - i, 0
  {
    var p := e.props[i];
    assert WellFormedProperty(e, i);
    if p.isStruct then
      var element := 2 + GroupBound(e, p.structStart, MemberEnd(p));
      if IsArray(p) then 2 + Bytes(MAX_COUNT, element) else element
    else if IsArray(p) then 2 + MAX_COUNT
    else 1
  }

  lemma {:induction false} GroupIsBounded(e: Event, lo: nat, hi: nat, pos: nat, ints: seq<U16>)
    requires Start(e, pos, ints) && lo <= hi <= |e.props|
    ensures |Group(e, lo, hi, pos, ints).visits| <= GroupBound(e, lo, hi)
    decreases |e.props| - lo, 3, 0
  {
    hide One, PropertyBound;
    if lo == hi {
    } else {
      PropertyIsBounded(e, lo, pos, ints);
      var first := One(e, lo, pos, ints);
      if first.outcome.Done? {
        GroupIsBounded(e, lo + 1, hi, first.pos, first.ints);
      }
    }
  }

  lemma {:induction false} PropertyIsBounded(e: Event, i: nat, pos: nat, ints: seq<U16>)
    requires Start(e, pos, ints) && i < |e.props|
    ensures |One(e, i, pos, ints).visits| <= PropertyBound(e, i)
    decreases |e.props| - i, 2, 0
  {
    hide DecodeValue, Group, GroupBound, Elements, FixedElements, Structs;
    assert WellFormedProperty(e, i);
    var p := e.props[i];
    var n := ArrayCount(p, ints);
    if p.isStruct {
      var count := if IsArray(p) then n as nat else 1;
      var element := 2 + GroupBound(e, p.structStart, MemberEnd(p));
      StructsAreBounded(e, i, 0, count, IsArray(p), pos, ints, element);
      CountBound(n, element);
    } else if IsArray(p) && One(e, i, pos, ints).visits != [] {
      if ArrayElement(e, p) == 0 {
        ElementsAreBounded(e, i, 0, n, pos, ints);
      } else {
        FixedElementsAreBounded(e, i, 0, n, pos, ints);
      }
    }
  }

  lemma CountBound(n: U16, element: nat)
    ensures Bytes(n, element) <= Bytes(MAX_COUNT, element)
  {
  }

  lemma {:induction false} StructsAreBounded(
      e: Event, i: nat, k: nat, n: nat, isArray: bool, pos: nat, ints: seq<U16>, element: nat)
    requires Start(e, pos, ints) && i < |e.props| && e.props[i].isStruct && k <= n
    requires MemberEnd(e.props[i]) <= |e.props|
    requires element == 2 + GroupBound(e, e.props[i].structStart, MemberEnd(e.props[i]))
    ensures |Structs(e, i, k, n, isArray, pos, ints).visits| <= Bytes(n - k, element) + if isArray then 1 else 0
    decreases |e.props| - i, 1, n - k
  {
    hide Bytes, Group, GroupBound;
    if k == n {
    } else {
      var p := e.props[i];
      assert WellFormedProperty(e, i);
      GroupIsBounded(e, p.structStart, MemberEnd(p), pos, ints);
      var body := Group(e, p.structStart, MemberEnd(p), pos, ints);
      OneElement(n - k, element);
      if body.outcome.Done? {
        StructsAreBounded(e, i, k + 1, n, isArray, body.pos, body.ints, element);
        StructsLength(e, i, k, n, isArray, pos, ints);
      }
    }
  }

  lemma StructsLength(e: Event, i: nat, k: nat, n: nat, isArray: bool, pos: nat, ints: seq<U16>)
    requires Start(e, pos, ints) && i < |e.props| && e.props[i].isStruct && k < n
    requires e.props[i].structStart <= MemberEnd(e.props[i]) <= |e.props|
    requires Group(e, e.props[i].structStart, MemberEnd(e.props[i]), pos, ints).outcome.Done?
    ensures var body := Group(e, e.props[i].structStart, MemberEnd(e.props[i]), pos, ints);
      |Structs(e, i, k, n, isArray, pos, ints).visits|
      == 2 + |body.visits| + |Structs(e, i, k + 1, n, isArray, body.pos, body.ints).visits|
  {
    hide Group;
  }

  lemma {:induction false} ElementsAreBounded(e: Event, i: nat, k: nat, n: nat, pos: nat, ints: seq<U16>)
    requires Start(e, pos, ints) && i < |e.props| && k <= n
    ensures |Elements(e, i, k, n, pos, ints).visits| <= n - k + 1
    decreases n - k
  {
    hide Bytes, DecodeValue;
    if k == n {
    } else {
      var d := DecodeValue(e, i, pos, ints);
      if d.Read? {
        ElementsAreBounded(e, i, k + 1, n, pos + d.item.raw, d.ints);
      }
    }
  }

  lemma {:induction false} FixedElementsAreBounded(e: Event, i: nat, k: nat, n: nat, pos: nat, ints: seq<U16>)
    requires Start(e, pos, ints) && i < |e.props| && k <= n
    requires pos + Bytes(n - k, ArrayElement(e, e.props[i])) <= |e.data|
    ensures |FixedElements(e, i, k, n, pos, ints).visits| == n - k + 1
    decreases n - k
  {
    hide Bytes, ShapeOf, CookedType;
    if k == n {
    } else {
      var size := ArrayElement(e, e.props[i]);
      OneElement(n - k, size);
      FixedElementsAreBounded(e, i, k + 1, n, pos + size, ints);
    }
  }

  /** Every run stops, within a number of calls that the property table alone decides. */
  lemma RunsTerminate(e: Event, ints: seq<U16>)
    requires WellFormed(e) && |ints| == |e.props|
    ensures Valid(e, Reset(e, ints))
    ensures !CanMove(Steps(e, Reset(e, ints), GroupBound(e, 0, e.topLevel) + 1))
  {
    hide Group, GroupBound;
    EnumerationIsDecoding(e, ints);
    GroupIsBounded(e, 0, e.topLevel, 0, ints);
  }
}
