/** The decoder reads the payload front to back, every byte once. */
module Conservation {
  import opened Basics
  import opened Schema
  import opened Values
  import opened Decoder

  /** Bytes the cursor moves by when the enumerator leaves an item. */
  function Consumed(v: Visit): nat {
    if v.kind.Value? then v.item.raw else 0
  }

  /** Each item starts where the one before it ended; the first at `from`, the end of the last is `to`. */
  ghost predicate Chained(visits: seq<Visit>, from: nat, to: nat) {
    if visits == [] then from == to
    else visits[0].pos == from && Chained(visits[1..], from + Consumed(visits[0]), to)
  }

  /** The raw slices of the value items, in order. */
  function RawBytes(e: Event, visits: seq<Visit>): seq<Byte> {
    if visits == [] then []
    else
      var v := visits[0];
      (if v.kind.Value? && v.pos + v.item.raw <= |e.data| then e.data[v.pos..v.pos + v.item.raw] else [])
      + RawBytes(e, visits[1..])
  }

  lemma {:induction false} ChainedAppend(a: seq<Visit>, b: seq<Visit>, from: nat, mid: nat, to: nat)
    requires Chained(a, from, mid) && Chained(b, mid, to)
    ensures Chained(a + b, from, to)
  {
    if a == [] {
      assert a + b == b;
    } else {
      ChainedAppend(a[1..], b, from + Consumed(a[0]), mid, to);
      assert (a + b)[1..] == a[1..] + b;
    }
  }

  lemma ChainedPrepend(v: Visit, t: Trace, to: nat)
    requires Chained(t.visits, v.pos + Consumed(v), to)
    ensures Chained(Prepend(v, t).visits, v.pos, to)
  {
    assert ([v] + t.visits)[1..] == t.visits;
  }

  lemma {:induction false} GroupChained(e: Event, lo: nat, hi: nat, pos: nat, ints: seq<U16>)
    requires Start(e, pos, ints) && lo <= hi <= |e.props|
    ensures Chained(Group(e, lo, hi, pos, ints).visits, pos, Group(e, lo, hi, pos, ints).pos)
    decreases |e.props| - lo, 3, 0
  {
    hide Bytes, DecodeValue, ShapeOf, CookedType, One;
    if lo == hi {
    } else {
      OneChained(e, lo, pos, ints);
      var first := One(e, lo, pos, ints);
      if first.outcome.Done? {
        GroupChained(e, lo + 1, hi, first.pos, first.ints);
        var rest := Group(e, lo + 1, hi, first.pos, first.ints);
        ChainedAppend(first.visits, rest.visits, pos, first.pos, rest.pos);
      }
    }
  }

  lemma {:induction false} OneChained(e: Event, i: nat, pos: nat, ints: seq<U16>)
    requires Start(e, pos, ints) && i < |e.props|
    ensures Chained(One(e, i, pos, ints).visits, pos, One(e, i, pos, ints).pos)
    decreases |e.props| - i, 2, 0
  {
    hide MeasureShape, Remember, Group, Structs, Elements, FixedElements;
    var p := e.props[i];
    assert WellFormedProperty(e, i);
    if !IsScalar(p) {
      var n := ArrayCount(p, ints);
      if !IsArray(p) {
        StructsChained(e, i, 0, 1, false, pos, ints);
      } else if p.isStruct {
        StructsChained(e, i, 0, n, true, pos, ints);
        ChainedPrepend(BeginArray(e, i, n, pos), Structs(e, i, 0, n, true, pos, ints), One(e, i, pos, ints).pos);
      } else if One(e, i, pos, ints).visits != [] {
        if ArrayElement(e, p) == 0 {
          ElementsChained(e, i, 0, n, pos, ints);
          ChainedPrepend(BeginArray(e, i, n, pos), Elements(e, i, 0, n, pos, ints), One(e, i, pos, ints).pos);
        } else {
          FixedElementsChained(e, i, 0, n, pos, ints);
          ChainedPrepend(BeginArray(e, i, n, pos), FixedElements(e, i, 0, n, pos, ints), One(e, i, pos, ints).pos);
        }
      }
    }
  }

  lemma {:induction false} StructsChained(e: Event, i: nat, k: nat, n: nat, isArray: bool, pos: nat, ints: seq<U16>)
    requires Start(e, pos, ints) && i < |e.props| && e.props[i].isStruct && k <= n
    ensures Chained(Structs(e, i, k, n, isArray, pos, ints).visits, pos, Structs(e, i, k, n, isArray, pos, ints).pos)
    decreases |e.props| - i, 1, n - k
  {
    hide Bytes, DecodeValue, ShapeOf, CookedType, Group;
    if k == n {
    } else {
      var p := e.props[i];
      assert WellFormedProperty(e, i);
      GroupChained(e, p.structStart, MemberEnd(p), pos, ints);
      var body := Group(e, p.structStart, MemberEnd(p), pos, ints);
      var begin := BeginStruct(i, k, n, isArray, pos);
      if body.outcome.Failed? {
        ChainedPrepend(begin, body, body.pos);
      } else {
        StructsChained(e, i, k + 1, n, isArray, body.pos, body.ints);
        var rest := Structs(e, i, k + 1, n, isArray, body.pos, body.ints);
        ChainedPrepend(EndStruct(i, k, n, isArray, body.pos), rest, rest.pos);
        var tail := Prepend(EndStruct(i, k, n, isArray, body.pos), rest);
        ChainedAppend(body.visits, tail.visits, pos, body.pos, rest.pos);
        ChainedPrepend(begin, Append(body, tail), rest.pos);
      }
    }
  }

  lemma {:induction false} ElementsChained(e: Event, i: nat, k: nat, n: nat, pos: nat, ints: seq<U16>)
    requires Start(e, pos, ints) && i < |e.props| && k <= n
    ensures Chained(Elements(e, i, k, n, pos, ints).visits, pos, Elements(e, i, k, n, pos, ints).pos)
    decreases n - k
  {
    hide Bytes, DecodeValue, ShapeOf, CookedType;
    if k == n {
    } else {
      var d := DecodeValue(e, i, pos, ints);
      if d.Read? {
        ElementsChained(e, i, k + 1, n, pos + d.item.raw, d.ints);
        var rest := Elements(e, i, k + 1, n, pos + d.item.raw, d.ints);
        ChainedPrepend(Visit(Kind.Value, i, k, n, true, pos, d.item), rest, rest.pos);
      }
    }
  }

  lemma {:induction false} FixedElementsChained(e: Event, i: nat, k: nat, n: nat, pos: nat, ints: seq<U16>)
    requires Start(e, pos, ints) && i < |e.props| && k <= n
    requires pos + Bytes(n - k, ArrayElement(e, e.props[i])) <= |e.data|
    ensures Chained(FixedElements(e, i, k, n, pos, ints).visits, pos, FixedElements(e, i, k, n, pos, ints).pos)
    decreases n - k
  {
    hide Bytes, DecodeValue, ShapeOf, CookedType;
    if k == n {
    } else {
      var size := ArrayElement(e, e.props[i]);
      OneElement(n - k, size);
      FixedElementsChained(e, i, k + 1, n, pos + size, ints);
      var rest := FixedElements(e, i, k + 1, n, pos + size, ints);
      var item := Item(pos, size, size, CookedType(e.props[i].inType), size);
      ChainedPrepend(Visit(Kind.Value, i, k, n, true, pos, item), rest, rest.pos);
    }
  }

  /** A chain moves forward only, and its value slices are together the bytes it spans. */
  lemma {:induction false} ChainedSlices(e: Event, visits: seq<Visit>, from: nat, to: nat)
    requires Chained(visits, from, to) && to <= |e.data|
    ensures from <= to && RawBytes(e, visits) == e.data[from..to]
    ensures forall j :: 0 <= j < |visits| ==> from <= visits[j].pos && visits[j].pos + Consumed(visits[j]) <= to
    ensures forall j, k :: 0 <= j < k < |visits| ==> visits[j].pos + Consumed(visits[j]) <= visits[k].pos
    decreases |visits|
  {
    if visits == [] {
    } else {
      var v := visits[0];
      ChainedSlices(e, visits[1..], from + Consumed(v), to);
      SliceSplits(e.data, from, from + Consumed(v), to);
      forall j | 0 <= j < |visits|
        ensures from <= visits[j].pos && visits[j].pos + Consumed(visits[j]) <= to
      {
        if j > 0 { assert visits[j] == visits[1..][j - 1]; }
      }
      forall j, k | 0 <= j < k < |visits|
        ensures visits[j].pos + Consumed(visits[j]) <= visits[k].pos
      {
        assert visits[k] == visits[1..][k - 1];
        if j > 0 { assert visits[j] == visits[1..][j - 1]; }
      }
    }
  }

  /**
   Nothing of the payload is lost, repeated or reordered: the raw slices of the value items, in
   order, followed by the data that remains, are the payload - also when decoding stops early.
   */
  lemma PayloadConserved(e: Event, ints: seq<U16>)
    requires WellFormed(e) && |ints| == |e.props|
    ensures var t := Decode(e, ints);
      && RawBytes(e, t.visits) + e.data[t.pos..] == e.data
      && (forall j :: 0 <= j < |t.visits| ==> t.visits[j].pos + Consumed(t.visits[j]) <= t.pos <= |e.data|)
      && (forall j, k :: 0 <= j < k < |t.visits| ==>
            t.visits[j].pos + Consumed(t.visits[j]) <= t.visits[k].pos)
  {
    var t := Decode(e, ints);
    GroupChained(e, 0, e.topLevel, 0, ints);
    ChainedSlices(e, t.visits, 0, t.pos);
  }
}
