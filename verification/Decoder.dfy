/**
 The reference decoder: a recursive walk of the property table that threads the payload cursor
 and the last-seen-integer table. The enumerator (Machine, Enumerator) must agree with it.
 */
module Decoder {
  import opened Basics
  import opened Schema
  import opened Values

  datatype Kind = Value | ArrayBegin | ArrayEnd | StructBegin | StructEnd

  /** Everything a caller can observe when the enumerator stops at an item. */
  datatype Visit = Visit(
    kind: Kind, index: nat, arrayIndex: nat, arrayCount: nat, isArray: bool, pos: nat, item: Item)

  datatype Outcome = Done | Failed(error: Status)

  /** A (partial) decoding: the items in order, and where it left the cursor and the table. */
  datatype Trace = Trace(visits: seq<Visit>, pos: nat, ints: seq<U16>, outcome: Outcome)

  ghost predicate Start(e: Event, pos: nat, ints: seq<U16>) {
    WellFormed(e) && |ints| == |e.props| && pos <= |e.data|
  }

  /** The cursor has not moved back and stays inside the payload. */
  ghost predicate Ends(e: Event, pos: nat, t: Trace) {
    |t.ints| == |e.props| && pos <= t.pos <= |e.data|
  }

  function Append(first: Trace, second: Trace): Trace {
    second.(visits := first.visits + second.visits)
  }

  function Prepend(v: Visit, t: Trace): Trace {
    t.(visits := [v] + t.visits)
  }

  function Marker(pos: nat, t: InType, element: nat): Item {
    Item(pos, 0, 0, t, element)
  }

  function BeginStruct(i: nat, k: nat, n: nat, isArray: bool, pos: nat): Visit {
    Visit(StructBegin, i, k, n, isArray, pos, Marker(pos, InType.Null, 0))
  }

  function EndStruct(i: nat, k: nat, n: nat, isArray: bool, pos: nat): Visit {
    Visit(StructEnd, i, k, n, isArray, pos, Marker(pos, InType.Null, 0))
  }

  /** The type an array reports at its begin and end items. */
  function ArrayType(p: Property): InType {
    if p.isStruct then InType.Null else CookedType(p.inType)
  }

  function ArrayElement(e: Event, p: Property): nat {
    if p.isStruct then 0 else ElementSize(p.inType, e.pointerSize)
  }

  /** The size of `n` elements. */
  function Bytes(n: nat, size: nat): nat {
    n * size
  }

  lemma OneElement(n: nat, size: nat)
    requires 0 < n
    ensures Bytes(n, size) == size + Bytes(n - 1, size)
  {
  }

  lemma NoBytes(n: nat)
    ensures Bytes(n, 0) == 0
  {
  }

  /** An array's begin item exposes the bytes of the whole array when its elements have a fixed size. */
  function BeginArray(e: Event, i: nat, n: nat, pos: nat): Visit
    requires i < |e.props|
  {
    var p := e.props[i];
    var size := Bytes(n, ArrayElement(e, p));
    Visit(ArrayBegin, i, 0, n, true, pos, Item(pos, size, size, ArrayType(p), ArrayElement(e, p)))
  }

  function EndArray(e: Event, i: nat, n: nat, pos: nat): Visit
    requires i < |e.props|
  {
    var p := e.props[i];
    Visit(ArrayEnd, i, n, n, true, pos, Marker(pos, ArrayType(p), ArrayElement(e, p)))
  }

  /** The number of elements of an array property. */
  function ArrayCount(p: Property, ints: seq<U16>): U16
    requires p.paramCount ==> p.count < |ints|
  {
    if p.paramCount then ints[p.count] else p.count
  }

  /** Properties lo, lo + 1, ..., hi - 1 one after the other. */
  function Group(e: Event, lo: nat, hi: nat, pos: nat, ints: seq<U16>): (t: Trace)
    requires Start(e, pos, ints) && lo <= hi <= |e.props|
    ensures Ends(e, pos, t)
    decreases |e.props| - lo, 3, 0
  {
    if lo == hi then Trace([], pos, ints, Done)
    else
      var first := One(e, lo, pos, ints);
      if first.outcome.Failed? then first
      else Append(first, Group(e, lo + 1, hi, first.pos, first.ints))
  }

  /** One property: a value, a struct, or an array of either. */
  function One(e: Event, i: nat, pos: nat, ints: seq<U16>): (t: Trace)
    requires Start(e, pos, ints) && i < |e.props|
    ensures Ends(e, pos, t)
    decreases |e.props| - i, 2, 0
  {
    var p := e.props[i];
    assert WellFormedProperty(e, i);
    if IsScalar(p) then
      match DecodeValue(e, i, pos, ints)
      case Rejected(error) => Trace([], pos, ints, Failed(error))
      case Read(item, ints') => Trace([Visit(Value, i, 0, 1, false, pos, item)], pos + item.raw, ints', Done)
    else if !IsArray(p) then
      Structs(e, i, 0, 1, false, pos, ints)
    else
      var n := ArrayCount(p, ints);
      if p.isStruct then Prepend(BeginArray(e, i, n, pos), Structs(e, i, 0, n, true, pos, ints))
      else if ShapeOf(p.inType, e.pointerSize).Unknown? then Trace([], pos, ints, Failed(UnsupportedType))
      else if ArrayElement(e, p) == 0 then Prepend(BeginArray(e, i, n, pos), Elements(e, i, 0, n, pos, ints))
      else if |e.data| - pos < Bytes(n, ArrayElement(e, p)) then Trace([], pos, ints, Failed(InvalidData))
      else Prepend(BeginArray(e, i, n, pos), FixedElements(e, i, 0, n, pos, ints))
  }

  /** Elements k, ..., n - 1 of struct property i, then the end of the array if it is one. */
  function Structs(e: Event, i: nat, k: nat, n: nat, isArray: bool, pos: nat, ints: seq<U16>): (t: Trace)
    requires Start(e, pos, ints) && i < |e.props| && e.props[i].isStruct && k <= n
    ensures Ends(e, pos, t)
    decreases |e.props| - i, 1, n - k
  {
    if k == n then
      Trace(if isArray then [EndArray(e, i, n, pos)] else [], pos, ints, Done)
    else
      var p := e.props[i];
      assert WellFormedProperty(e, i);
      var body := Group(e, p.structStart, MemberEnd(p), pos, ints);
      if body.outcome.Failed? then Prepend(BeginStruct(i, k, n, isArray, pos), body)
      else
        Prepend(BeginStruct(i, k, n, isArray, pos),
          Append(body,
            Prepend(EndStruct(i, k, n, isArray, body.pos),
              Structs(e, i, k + 1, n, isArray, body.pos, body.ints))))
  }

  /** Elements k, ..., n - 1 of an array whose elements have no fixed size, then its end. */
  function Elements(e: Event, i: nat, k: nat, n: nat, pos: nat, ints: seq<U16>): (t: Trace)
    requires Start(e, pos, ints) && i < |e.props| && k <= n
    ensures Ends(e, pos, t)
    decreases n - k
  {
    if k == n then Trace([EndArray(e, i, n, pos)], pos, ints, Done)
    else
      match DecodeValue(e, i, pos, ints)
      case Rejected(error) => Trace([], pos, ints, Failed(error))
      case Read(item, ints') =>
        Prepend(Visit(Value, i, k, n, true, pos, item), Elements(e, i, k + 1, n, pos + item.raw, ints'))
  }

  /** Elements k, ..., n - 1 of an array of fixed-size elements, then its end. */
  function FixedElements(e: Event, i: nat, k: nat, n: nat, pos: nat, ints: seq<U16>): (t: Trace)
    requires Start(e, pos, ints) && i < |e.props| && k <= n
    requires pos + Bytes(n - k, ArrayElement(e, e.props[i])) <= |e.data|
    ensures Ends(e, pos, t)
    ensures t.pos == pos + Bytes(n - k, ArrayElement(e, e.props[i])) && t.ints == ints && t.outcome.Done?
    decreases n - k
  {
    if k == n then Trace([EndArray(e, i, n, pos)], pos, ints, Done)
    else
      var size := ArrayElement(e, e.props[i]);
      OneElement(n - k, size);
      Prepend(Visit(Value, i, k, n, true, pos, Item(pos, size, size, CookedType(e.props[i].inType), size)),
        FixedElements(e, i, k + 1, n, pos + size, ints))
  }

  /** The whole event. */
  function Decode(e: Event, ints: seq<U16>): (t: Trace)
    requires WellFormed(e) && |ints| == |e.props|
    ensures Ends(e, 0, t)
  {
    Group(e, 0, e.topLevel, 0, ints)
  }
}
