/**
 The bytes behind each value that the decoder reports: where they are, and that encoding a value and
 decoding it gives the value back.
 */
module Slices {
  import opened Basics
  import opened Schema
  import opened Values
  import opened Decoder

  // ------------------------------------------------------------------ every reported value

  /** The item of `v` is what StartValue reports for its property at its place, with some integer table. */
  ghost predicate IsRead(e: Event, v: Visit)
    requires WellFormed(e)
  {
    && v.index < |e.props| && v.pos <= |e.data|
    && exists ints: seq<U16> :: ReadWith(e, v, ints)
  }

  ghost predicate ReadWith(e: Event, v: Visit, ints: seq<U16>)
    requires WellFormed(e) && v.index < |e.props| && v.pos <= |e.data|
  {
    |ints| == |e.props| && DecodeValue(e, v.index, v.pos, ints).Read?
      && DecodeValue(e, v.index, v.pos, ints).item == v.item
  }

  ghost predicate AllRead(e: Event, visits: seq<Visit>)
    requires WellFormed(e)
  {
    forall v :: v in visits && v.kind.Value? ==> IsRead(e, v)
  }

  lemma {:induction false} GroupReads(e: Event, lo: nat, hi: nat, pos: nat, ints: seq<U16>)
    requires Start(e, pos, ints) && lo <= hi <= |e.props|
    ensures AllRead(e, Group(e, lo, hi, pos, ints).visits)
    decreases |e.props| - lo, 3, 0
  {
    hide One, IsRead;
    if lo == hi {
    } else {
      OneReads(e, lo, pos, ints);
      var first := One(e, lo, pos, ints);
      if first.outcome.Done? {
        GroupReads(e, lo + 1, hi, first.pos, first.ints);
      }
    }
  }

  lemma {:induction false} OneReads(e: Event, i: nat, pos: nat, ints: seq<U16>)
    requires Start(e, pos, ints) && i < |e.props|
    ensures AllRead(e, One(e, i, pos, ints).visits)
    decreases |e.props| - i, 2, 0
  {
    hide DecodeValue, Group, Structs, Elements, FixedElements, IsRead;
    var p := e.props[i];
    assert WellFormedProperty(e, i);
    var n := ArrayCount(p, ints);
    if IsScalar(p) {
      ValueReads(e, i, 0, 1, false, pos, ints);
    } else if p.isStruct {
      StructsRead(e, i, 0, if IsArray(p) then n else 1, IsArray(p), pos, ints);
    } else if One(e, i, pos, ints).visits != [] {
      if ArrayElement(e, p) == 0 {
        ElementsRead(e, i, 0, n, pos, ints);
      } else {
        FixedElementsRead(e, i, 0, n, pos, ints);
      }
    }
  }

  lemma ValueReads(e: Event, i: nat, k: nat, n: nat, isArray: bool, pos: nat, ints: seq<U16>)
    requires Start(e, pos, ints) && i < |e.props|
    ensures var d := DecodeValue(e, i, pos, ints); d.Read? ==>
      IsRead(e, Visit(Kind.Value, i, k, n, isArray, pos, d.item))
  {
    hide DecodeValue;
    var d := DecodeValue(e, i, pos, ints);
    if d.Read? {
      assert ReadWith(e, Visit(Kind.Value, i, k, n, isArray, pos, d.item), ints);
    }
  }

  lemma {:induction false} StructsRead(e: Event, i: nat, k: nat, n: nat, isArray: bool, pos: nat, ints: seq<U16>)
    requires Start(e, pos, ints) && i < |e.props| && e.props[i].isStruct && k <= n
    ensures AllRead(e, Structs(e, i, k, n, isArray, pos, ints).visits)
    decreases |e.props| - i, 1, n - k
  {
    hide Group, IsRead;
    if k == n {
    } else {
      var p := e.props[i];
      assert WellFormedProperty(e, i);
      GroupReads(e, p.structStart, MemberEnd(p), pos, ints);
      var body := Group(e, p.structStart, MemberEnd(p), pos, ints);
      if body.outcome.Done? {
        StructsRead(e, i, k + 1, n, isArray, body.pos, body.ints);
      }
    }
  }

  lemma {:induction false} ElementsRead(e: Event, i: nat, k: nat, n: nat, pos: nat, ints: seq<U16>)
    requires Start(e, pos, ints) && i < |e.props| && k <= n
    ensures AllRead(e, Elements(e, i, k, n, pos, ints).visits)
    decreases n - k
  {
    hide DecodeValue, IsRead, ArrayElement, ArrayType;
    if k == n {
    } else {
      ValueReads(e, i, k, n, true, pos, ints);
      var d := DecodeValue(e, i, pos, ints);
      if d.Read? {
        ElementsRead(e, i, k + 1, n, pos + d.item.raw, d.ints);
      }
    }
  }

  lemma {:induction false} FixedElementsRead(e: Event, i: nat, k: nat, n: nat, pos: nat, ints: seq<U16>)
    requires Start(e, pos, ints) && i < |e.props| && k <= n && ArrayElement(e, e.props[i]) != 0
    requires pos + Bytes(n - k, ArrayElement(e, e.props[i])) <= |e.data|
    ensures AllRead(e, FixedElements(e, i, k, n, pos, ints).visits)
    decreases n - k
  {
    hide Bytes, DecodeValue, IsRead, ArrayType, ArrayElement, CookedType;
    if k == n {
    } else {
      var size := ArrayElement(e, e.props[i]);
      OneElement(n - k, size);
      FixedReads(e, i, pos, ints);
      ValueReads(e, i, k, n, true, pos, ints);
      FixedElementsRead(e, i, k + 1, n, pos + size, ints);
    }
  }

  /** An element of a simple array, which is not decoded, is what decoding would report. */
  lemma FixedReads(e: Event, i: nat, pos: nat, ints: seq<U16>)
    requires Start(e, pos, ints) && i < |e.props|
    requires var size := ArrayElement(e, e.props[i]); size != 0 && pos + size <= |e.data|
    ensures var size := ArrayElement(e, e.props[i]); var d := DecodeValue(e, i, pos, ints);
      d.Read? && d.item == Item(pos, size, size, CookedType(e.props[i].inType), size)
  {
    hide CookedType;
    assert WellFormedProperty(e, i);
  }

  /**
   Every value that a pass reports has its raw slice inside the payload, and its cooked slice inside
   the raw one exactly when its stored count did not wrap; otherwise the cooked slice leaves the payload.
   */
  lemma DecodedSlices(e: Event, ints: seq<U16>, v: Visit)
    requires WellFormed(e) && |ints| == |e.props|
    requires v in Decode(e, ints).visits && v.kind.Value?
    ensures v.index < |e.props| && v.pos + v.item.raw <= |e.data|
    ensures v.pos <= v.item.cookedPos && v.item.cookedPos + v.item.cooked <= v.pos + v.item.raw
      <==> PrefixFits(e, v.index, v.pos)
    ensures v.item.cookedPos + v.item.cooked <= |e.data| <==> PrefixFits(e, v.index, v.pos)
    ensures CookedType(e.props[v.index].inType) == UnicodeString ==> v.item.cooked % 2 == 0
  {
    hide DecodeValue, PrefixFits, CookedType;
    GroupReads(e, 0, e.topLevel, 0, ints);
    var with: seq<U16> :| ReadWith(e, v, with);
    CookedInsideRaw(e, v.index, v.pos, with);
    WideValuesAreEven(e, v.index, v.pos, with);
  }

  /**
   The condition can fail: here the two bytes of a count are accepted as a value of 65534 bytes behind the
   payload.
   */
  lemma WrappedCountEscapes()
    ensures exists e: Event, ints: seq<U16> ::
      && WellFormed(e) && |ints| == |e.props| && |e.data| == 2
      && Decode(e, ints).outcome.Done?
      && exists v :: v in Decode(e, ints).visits && v.item.raw == 0 && v.item.cookedPos == 2 && v.item.cooked == 65534
  {
    var p := Property("s", false, false, false, false, false, 1, 0, CountedAnsiString, false, 0, 0);
    var e := Event([p], 1, [0xfe, 0xff], 8);
    var ints: seq<U16> := [0xffff];
    assert WellFormedProperty(e, 0);
    var v := Visit(Kind.Value, 0, 0, 1, false, 0, Item(2, 65534, 0, AnsiString, 0));
    assert CountAt(e.data, 0, false) == 65534;
    assert One(e, 0, 0, ints) == Trace([v], 0, ints, Done);
    assert Group(e, 1, 1, 0, ints) == Trace([], 0, ints, Done);
    assert v in Decode(e, ints).visits;
  }

  // ------------------------------------------------------------------ encoding

  /** The low and the high byte of a count. */
  function CountBytes(n: nat): seq<Byte> {
    [n % 0x100, n / 0x100 % 0x100]
  }

  function Encoding(shape: Shape, body: seq<Byte>): seq<Byte> {
    match shape
    case Text(wide) => body + if wide then [0, 0] else [0]
    case Counted(bigEndian) =>
      (if bigEndian then [CountBytes(|body|)[1], CountBytes(|body|)[0]] else CountBytes(|body|)) + body
    case Dump => CountBytes(|body|) + [0, 0] + body
    case _ => body
  }

  /** `body` can be stored as a value of property `p`: terminated, counted, or of the size that is stated for it. */
  ghost predicate Encodable(p: Property, pointerSize: nat, ints: seq<U16>, body: seq<Byte>)
    requires p.paramLength ==> p.length < |ints|
  {
    match ShapeOf(p.inType, pointerSize)
    case Fixed(size) => |body| == size
    case Text(wide) =>
      && PropertyLength(p, ints).None?
      && if wide then |body| % 2 == 0 && forall k: nat :: k < |body| / 2 ==> !WideNul(body, 2 * k) else 0 !in body
    case Sized => PropertyLength(p, ints) == Some(|body|)
    case Counted(_) => |body| + 2 < 0x1_0000 && (RoundsToWide(p.inType) ==> |body| % 2 == 0)
    case Dump => |body| + 4 < 0x1_0000
    case _ => false
  }

  /** The payload holds `bytes` at `pos`. */
  predicate HoldsAt(data: seq<Byte>, pos: nat, bytes: seq<Byte>) {
    pos + |bytes| <= |data| && data[pos..pos + |bytes|] == bytes
  }

  lemma HoldsParts(data: seq<Byte>, pos: nat, a: seq<Byte>, b: seq<Byte>)
    requires HoldsAt(data, pos, a + b)
    ensures HoldsAt(data, pos, a) && HoldsAt(data, pos + |a|, b)
    ensures forall k :: 0 <= k < |a| ==> data[pos + k] == a[k]
  {
    var all := data[pos..pos + |a + b|];
    assert all[..|a|] == data[pos..pos + |a|] && all[|a|..] == data[pos + |a|..pos + |a| + |b|];
    assert forall k :: 0 <= k < |a| ==> data[pos + k] == all[k];
  }

  /** Decoding finds `body` behind `skip` bytes, in a raw slice of `raw` bytes. */
  ghost predicate Finds(e: Event, d: Decoded, pos: nat, skip: nat, body: seq<Byte>, raw: nat) {
    d.Read? && d.item.cookedPos == pos + skip && d.item.cooked == |body| && d.item.raw == raw
    && HoldsAt(e.data, pos + skip, body)
  }

  /** Decoding an encoded value consumes the encoding and exposes exactly the value. */
  lemma EncodedReads(e: Event, i: nat, pos: nat, ints: seq<U16>, body: seq<Byte>)
    requires Start(e, pos, ints) && i < |e.props|
    requires e.props[i].paramLength ==> e.props[i].length < |ints|
    requires Encodable(e.props[i], e.pointerSize, ints, body)
    requires HoldsAt(e.data, pos, Encoding(ShapeOf(e.props[i].inType, e.pointerSize), body))
    ensures var d := DecodeValue(e, i, pos, ints);
      var encoding := Encoding(ShapeOf(e.props[i].inType, e.pointerSize), body);
      d.Read? && d.item.raw == |encoding| && d.item.cooked == |body| && HoldsAt(e.data, d.item.cookedPos, body)
  {
    hide DecodeValue, ShapeOf, HoldsAt;
    assert WellFormedProperty(e, i);
    match ShapeOf(e.props[i].inType, e.pointerSize) {
      case Text(_) => TextReads(e, i, pos, ints, body);
      case Counted(_) => CountedReads(e, i, pos, ints, body);
      case Dump => DumpReads(e, i, pos, ints, body);
      case _ => PlainReads(e, i, pos, ints, body);
    }
  }

  lemma TextReads(e: Event, i: nat, pos: nat, ints: seq<U16>, body: seq<Byte>)
    requires Start(e, pos, ints) && i < |e.props|
    requires e.props[i].paramLength ==> e.props[i].length < |ints|
    requires var shape := ShapeOf(e.props[i].inType, e.pointerSize);
      shape.Text? && Encodable(e.props[i], e.pointerSize, ints, body) && HoldsAt(e.data, pos, Encoding(shape, body))
    ensures var end := if ShapeOf(e.props[i].inType, e.pointerSize).wide then 2 else 1;
      Finds(e, DecodeValue(e, i, pos, ints), pos, 0, body, |body| + end)
  {
    hide ShapeOf, CookedType, HoldsAt, Remember;
    assert WellFormedProperty(e, i);
    if ShapeOf(e.props[i].inType, e.pointerSize).wide {
      WideTextEnds(e.data, pos, body);
      HoldsParts(e.data, pos, body, [0, 0]);
    } else {
      NarrowTextEnds(e.data, pos, body);
      HoldsParts(e.data, pos, body, [0]);
    }
  }

  lemma CountedReads(e: Event, i: nat, pos: nat, ints: seq<U16>, body: seq<Byte>)
    requires Start(e, pos, ints) && i < |e.props|
    requires e.props[i].paramLength ==> e.props[i].length < |ints|
    requires var shape := ShapeOf(e.props[i].inType, e.pointerSize);
      shape.Counted? && Encodable(e.props[i], e.pointerSize, ints, body) && HoldsAt(e.data, pos, Encoding(shape, body))
    ensures Finds(e, DecodeValue(e, i, pos, ints), pos, 2, body, |body| + 2)
  {
    hide ShapeOf, CookedType, Remember;
    var bigEndian := ShapeOf(e.props[i].inType, e.pointerSize).bigEndian;
    var count := if bigEndian then [CountBytes(|body|)[1], CountBytes(|body|)[0]] else CountBytes(|body|);
    HoldsParts(e.data, pos, count, body);
    assert e.data[pos + 0] == count[0] && e.data[pos + 1] == count[1];
    assert CountAt(e.data, pos, bigEndian) == |body|;
  }

  lemma DumpReads(e: Event, i: nat, pos: nat, ints: seq<U16>, body: seq<Byte>)
    requires Start(e, pos, ints) && i < |e.props|
    requires e.props[i].paramLength ==> e.props[i].length < |ints|
    requires ShapeOf(e.props[i].inType, e.pointerSize).Dump? && Encodable(e.props[i], e.pointerSize, ints, body)
    requires HoldsAt(e.data, pos, Encoding(Dump, body))
    ensures Finds(e, DecodeValue(e, i, pos, ints), pos, 4, body, |body| + 4)
  {
    hide ShapeOf, CookedType, Remember;
    var count := CountBytes(|body|) + [0, 0];
    HoldsParts(e.data, pos, count, body);
    assert e.data[pos + 0] == count[0] && e.data[pos + 1] == count[1];
    assert CountAt(e.data, pos, false) == |body|;
  }

  lemma PlainReads(e: Event, i: nat, pos: nat, ints: seq<U16>, body: seq<Byte>)
    requires Start(e, pos, ints) && i < |e.props|
    requires e.props[i].paramLength ==> e.props[i].length < |ints|
    requires var shape := ShapeOf(e.props[i].inType, e.pointerSize);
      (shape.Fixed? || shape.Sized?) && Encodable(e.props[i], e.pointerSize, ints, body) && HoldsAt(e.data, pos, body)
    ensures Finds(e, DecodeValue(e, i, pos, ints), pos, 0, body, |body|)
  {
    hide ShapeOf, CookedType, Remember;
    assert WellFormedProperty(e, i);
  }

  lemma NarrowTextEnds(data: seq<Byte>, pos: nat, body: seq<Byte>)
    requires HoldsAt(data, pos, body + [0]) && 0 !in body
    ensures NarrowLength(data, pos, |data| - pos) == |body| < |data| - pos
  {
    var n := NarrowLength(data, pos, |data| - pos);
    NarrowLengthIsFirst(data, pos, |data| - pos);
    HoldsParts(data, pos, body, [0]);
    assert data[pos + |body|] == (body + [0])[|body|] == data[pos..pos + |body| + 1][|body|];
    assert forall k :: 0 <= k < |body| ==> data[pos + k] == body[k] && body[k] in body;
  }

  lemma WideTextEnds(data: seq<Byte>, pos: nat, body: seq<Byte>)
    requires HoldsAt(data, pos, body + [0, 0]) && |body| % 2 == 0
    requires forall k: nat :: k < |body| / 2 ==> !WideNul(body, 2 * k)
    ensures WideLength(data, pos, (|data| - pos) / 2) == |body| / 2 < (|data| - pos) / 2
  {
    var n := WideLength(data, pos, (|data| - pos) / 2);
    WideLengthIsFirst(data, pos, (|data| - pos) / 2);
    HoldsParts(data, pos, body, [0, 0]);
    var end: seq<Byte> := [0, 0];
    assert end + [] == end;
    HoldsParts(data, pos + |body|, end, []);
    assert data[pos + |body| + 0] == end[0] && data[pos + |body| + 1] == end[1];
    forall k: nat | k < |body| / 2 ensures !WideNul(data, pos + 2 * k) {
      assert !WideNul(body, 2 * k);
      assert data[pos + 2 * k] == body[2 * k] && data[pos + (2 * k + 1)] == body[2 * k + 1];
    }
    assert WideNul(data, pos + |body|);
  }
}
