/**
 How one value is laid out in the payload: the meaning of the big switch of StartValue,
 stated per wire shape instead of per type code.
 */
module Values {
  import opened Basics
  import opened Schema

  /** What the enumerator exposes about the current item (GetItemInfo, GetRawItemInfo). */
  datatype Item = Item(cookedPos: nat, cooked: nat, raw: nat, cookedType: InType, element: nat)

  datatype Shape =
    | Fixed(size: nat)
    | Text(wide: bool)           // sized by a length, or terminated by a nul unit
    | Sized                      // sized by a length
    | Counted(bigEndian: bool)   // two-byte prefix
    | Dump                       // four-byte prefix, of which two are used
    | Remainder                  // everything that is left
    | Empty
    | SecurityId(skip: nat)      // preceded by `skip` bytes
    | Unknown

  function ShapeOf(t: InType, pointerSize: nat): Shape {
    match t
    case Int8 | UInt8 | AnsiChar => Fixed(1)
    case Int16 | UInt16 | UnicodeChar => Fixed(2)
    case Int32 | UInt32 | HexInt32 | Float | Boolean => Fixed(4)
    case Int64 | UInt64 | Double | FileTime | HexInt64 => Fixed(8)
    case Guid | SystemTime => Fixed(16)
    case Pointer | SizeT => Fixed(pointerSize)
    case UnicodeString => Text(true)
    case AnsiString => Text(false)
    case Binary => Sized
    case ManifestCountedString | CountedString
       | ManifestCountedAnsiString | CountedAnsiString | ManifestCountedBinary => Counted(false)
    case ReversedCountedString | ReversedCountedAnsiString => Counted(true)
    case HexDump => Dump
    case NonNullTerminatedString | NonNullTerminatedAnsiString => Remainder
    case Null => Empty
    case Sid => SecurityId(0)
    case WbemSid => SecurityId(2 * pointerSize)
    case Unrecognized(_) => Unknown
  }

  /** The type reported to callers, after prefixes and terminators are stripped. */
  function CookedType(t: InType): InType {
    match t
    case ManifestCountedString | CountedString
       | ReversedCountedString | NonNullTerminatedString => UnicodeString
    case ManifestCountedAnsiString | CountedAnsiString
       | ReversedCountedAnsiString | NonNullTerminatedAnsiString => AnsiString
    case ManifestCountedBinary | HexDump => Binary
    case WbemSid => Sid
    case _ => t
  }

  /** Size of an array element or value whose size the type alone decides, else 0. */
  function ElementSize(t: InType, pointerSize: nat): nat {
    var shape := ShapeOf(t, pointerSize);
    if shape.Fixed? then shape.size else 0
  }

  /** Text whose cooked size is rounded down to whole 16-bit units. */
  predicate RoundsToWide(t: InType) {
    t != UnicodeString && CookedType(t) == UnicodeString
  }

  /** The value types whose latest value later lengths and counts may refer to. */
  predicate IsReferable(t: InType) {
    t.UInt8? || t.UInt16? || t.UInt32? || t.HexInt32?
  }

  function LittleEndian(bytes: seq<Byte>): (n: nat)
    ensures |bytes| == 1 ==> n < 0x100
    ensures |bytes| == 2 ==> n < 0x1_0000
  {
    if bytes == [] then 0
    else
      var rest := LittleEndian(bytes[1..]);
      assert |bytes| == 1 ==> rest == 0;
      assert |bytes| == 2 ==> rest < 0x100;
      bytes[0] + 0x100 * rest
  }

  /** The two-byte size at `pos`. */
  function CountAt(data: seq<Byte>, pos: nat, bigEndian: bool): (n: U16)
    requires pos + 2 <= |data|
  {
    var (low, high) := if bigEndian then (data[pos + 1], data[pos]) else (data[pos], data[pos + 1]);
    low as int + 0x100 * high as int
  }

  /** strnlen: the number of bytes before the first nul among at most `max` of them. */
  function NarrowLength(data: seq<Byte>, pos: nat, max: nat): (n: nat)
    requires pos + max <= |data|
    ensures n <= max
    decreases max
  {
    if max == 0 || data[pos] == 0 then 0 else 1 + NarrowLength(data, pos + 1, max - 1)
  }

  predicate WideNul(data: seq<Byte>, pos: nat)
    requires pos + 2 <= |data|
  {
    data[pos] == 0 && data[pos + 1] == 0
  }

  /** unaligned_wcsnlen: the number of 16-bit units before the first nul unit. */
  function WideLength(data: seq<Byte>, pos: nat, max: nat): (n: nat)
    requires pos + 2 * max <= |data|
    ensures n <= max
    decreases max
  {
    if max == 0 || WideNul(data, pos) then 0 else 1 + WideLength(data, pos + 2, max - 1)
  }

  /** CurrentPropertyLength: a reference, a fixed length, or no length at all. */
  function PropertyLength(p: Property, ints: seq<U16>): Option<U16>
    requires p.paramLength ==> p.length < |ints|
  {
    if p.paramLength then Some(ints[p.length])
    else if p.length != 0 || p.paramFixedLength then Some(p.length)
    else None
  }

  /** Bytes skipped, bytes exposed and bytes consumed; None when a prefix does not fit. */
  datatype Extent = Extent(skip: nat, cooked: nat, raw: nat)

  function TextExtent(data: seq<Byte>, pos: nat, wide: bool, length: Option<U16>): (x: Extent)
    requires pos <= |data| < 0x1_0000
    ensures length.None? ==> x.raw <= |data| - pos
  {
    var remaining := |data| - pos;
    match length
    case Some(n) =>
      var size := if wide then Wrap16(2 * n as nat) else n;
      Extent(0, size, size)
    case None =>
      // A missing terminator at the end of the payload is tolerated.
      if wide then
        var n := WideLength(data, pos, remaining / 2);
        Extent(0, 2 * n, if n == remaining / 2 then remaining else 2 * n + 2)
      else
        var n := NarrowLength(data, pos, remaining);
        Extent(0, n, if n == remaining then remaining else n + 1)
  }

  function MeasureShape(e: Event, p: Property, pos: nat, ints: seq<U16>): Option<Extent>
    requires pos <= |e.data| < 0x1_0000
    requires p.paramLength ==> p.length < |ints|
  {
    var remaining := |e.data| - pos;
    match ShapeOf(p.inType, e.pointerSize)
    case Fixed(size) => Some(Extent(0, size, size))
    case Text(wide) => Some(TextExtent(e.data, pos, wide, PropertyLength(p, ints)))
    case Sized =>
      var n := match PropertyLength(p, ints)
        case Some(n) => n
        case None => if p.outIPv6 then 16 else 0;
      Some(Extent(0, n, n))
    case Counted(bigEndian) =>
      if remaining < 2 then None
      else
        var n: nat := CountAt(e.data, pos, bigEndian);
        Some(Extent(2, if RoundsToWide(p.inType) then RoundEven(n) else n, Wrap16(n + 2)))
    case Dump =>
      if remaining < 4 then None
      else var n: nat := CountAt(e.data, pos, false); Some(Extent(4, n, Wrap16(n + 4)))
    case Remainder =>
      Some(Extent(0, if RoundsToWide(p.inType) then RoundEven(remaining) else remaining, remaining))
    case Empty => Some(Extent(0, 0, 0))
    case SecurityId(skip) =>
      if remaining < skip + 8 then None
      else
        var n := 8 + 4 * e.data[pos + skip + 1] as nat;
        Some(Extent(skip, n, skip + n))
    case Unknown => None
  }

  datatype Decoded = Read(item: Item, ints: seq<U16>) | Rejected(error: Status)

  /** The last-seen-integer table after reading the value at `pos` as property `i`. */
  function Remember(e: Event, i: nat, pos: nat, ints: seq<U16>): (r: seq<U16>)
    requires i < |e.props| == |ints|
    requires pos + ElementSize(e.props[i].inType, e.pointerSize) <= |e.data|
    ensures |r| == |ints|
    ensures forall j :: 0 <= j < |ints| && j != i ==> r[j] == ints[j]
  {
    var t := e.props[i].inType;
    if IsReferable(t) then
      var n := LittleEndian(e.data[pos..pos + ElementSize(t, e.pointerSize)]);
      ints[i := if n > 0xffff then 0xffff else n]
    else ints
  }

  /** StartValue as a function: property `i`, not a struct, read at `pos`. */
  function DecodeValue(e: Event, i: nat, pos: nat, ints: seq<U16>): (d: Decoded)
    requires WellFormed(e)
    requires i < |e.props| == |ints| && pos <= |e.data|
    ensures d.Read? ==> pos + d.item.raw <= |e.data| && |d.ints| == |ints|
    ensures d.Read? ==>
      d.item.element == ElementSize(e.props[i].inType, e.pointerSize)
        && d.item.cookedType == CookedType(e.props[i].inType)
    ensures d.Rejected? ==> d.error != Success
  {
    var p := e.props[i];
    assert WellFormedProperty(e, i);
    var shape := ShapeOf(p.inType, e.pointerSize);
    if shape.Unknown? then Rejected(UnsupportedType)
    else
      match MeasureShape(e, p, pos, ints)
      case None => Rejected(InvalidData)
      case Some(x) =>
        if |e.data| - pos < x.raw then Rejected(InvalidData)
        else
          Read(
            Item(pos + x.skip, x.cooked, x.raw, CookedType(p.inType), ElementSize(p.inType, e.pointerSize)),
            Remember(e, i, pos, ints))
  }

  // ------------------------------------------------------------------ properties

  /** NarrowLength finds the first nul: none before it, and one at it unless the range ran out. */
  lemma {:induction false} NarrowLengthIsFirst(data: seq<Byte>, pos: nat, max: nat)
    requires pos + max <= |data|
    ensures var n := NarrowLength(data, pos, max);
      (forall k: nat :: pos <= k < pos + n ==> data[k] != 0) && (n < max ==> data[pos + n] == 0)
    decreases max
  {
    if max == 0 || data[pos] == 0 {
    } else {
      NarrowLengthIsFirst(data, pos + 1, max - 1);
    }
  }

  /** WideLength finds the first nul unit: none before it, and one at it unless the range ran out. */
  lemma {:induction false} WideLengthIsFirst(data: seq<Byte>, pos: nat, max: nat)
    requires pos + 2 * max <= |data|
    ensures var n := WideLength(data, pos, max);
      && (forall k: nat :: pos <= k < pos + 2 * n && (k - pos) % 2 == 0 ==> !WideNul(data, k))
      && (n < max ==> WideNul(data, pos + 2 * n))
    decreases max
  {
    if max == 0 || WideNul(data, pos) {
    } else {
      WideLengthIsFirst(data, pos + 2, max - 1);
    }
  }

  /** The stored count plus its prefix fits in 16 bits, so the raw size did not wrap. */
  predicate PrefixFits(e: Event, i: nat, pos: nat)
    requires i < |e.props| && pos <= |e.data|
  {
    match ShapeOf(e.props[i].inType, e.pointerSize)
    case Counted(bigEndian) => pos + 2 <= |e.data| ==> CountAt(e.data, pos, bigEndian) as nat + 2 < 0x1_0000
    case Dump => pos + 4 <= |e.data| ==> CountAt(e.data, pos, false) as nat + 4 < 0x1_0000
    case _ => true
  }

  /**
   An accepted value's cooked slice lies inside its raw slice exactly when the count did not wrap; when
   it did wrap, the slice does not even lie inside the payload.
   */
  lemma CookedInsideRaw(e: Event, i: nat, pos: nat, ints: seq<U16>)
    requires WellFormed(e) && i < |e.props| == |ints| && pos <= |e.data|
    requires DecodeValue(e, i, pos, ints).Read?
    ensures var v := DecodeValue(e, i, pos, ints).item;
      && (pos <= v.cookedPos && v.cookedPos + v.cooked <= pos + v.raw <==> PrefixFits(e, i, pos))
      && (v.cookedPos + v.cooked <= |e.data| <==> PrefixFits(e, i, pos))
  {
  }

  /** Text exposed as UTF-16 always consists of whole 16-bit units. */
  lemma WideValuesAreEven(e: Event, i: nat, pos: nat, ints: seq<U16>)
    requires WellFormed(e) && i < |e.props| == |ints| && pos <= |e.data|
    requires DecodeValue(e, i, pos, ints).Read?
    ensures CookedType(e.props[i].inType) == UnicodeString ==> DecodeValue(e, i, pos, ints).item.cooked % 2 == 0
  {
  }

  /**
   A string without a length is exactly the payload up to its first nul unit (which is consumed
   but not exposed), or, when there is none, all whole units that are left.
   */
  lemma TerminatedTextExtent(e: Event, i: nat, pos: nat, ints: seq<U16>)
    requires WellFormed(e) && i < |e.props| == |ints| && pos <= |e.data|
    requires e.props[i].inType == UnicodeString || e.props[i].inType == AnsiString
    requires e.props[i].paramLength ==> e.props[i].length < |ints|
    requires PropertyLength(e.props[i], ints).None?
    ensures DecodeValue(e, i, pos, ints).Read?
    ensures var v := DecodeValue(e, i, pos, ints).item;
      var unit := if e.props[i].inType == UnicodeString then 2 else 1;
      && v.cookedPos == pos && v.cooked % unit == 0 && v.cooked <= v.raw
      && pos + v.raw <= |e.data|
      && (forall k: nat :: pos <= k < pos + v.cooked && (k - pos) % unit == 0 ==>
            if unit == 2 then k + 2 <= |e.data| && !WideNul(e.data, k) else e.data[k] != 0)
      && if v.raw == v.cooked + unit
         then (if unit == 2 then WideNul(e.data, pos + v.cooked) else e.data[pos + v.cooked] == 0)
         else pos + v.raw == |e.data| && v.raw - v.cooked < unit
  {
    var remaining := |e.data| - pos;
    if e.props[i].inType == UnicodeString {
      WideLengthIsFirst(e.data, pos, remaining / 2);
    } else {
      NarrowLengthIsFirst(e.data, pos, remaining);
    }
  }

  /** A value with a prefix, a stated size or an implied size consumes exactly that many bytes. */
  lemma SizedExtent(e: Event, i: nat, pos: nat, ints: seq<U16>)
    requires WellFormed(e) && i < |e.props| == |ints| && pos <= |e.data|
    requires DecodeValue(e, i, pos, ints).Read? && PrefixFits(e, i, pos)
    ensures var v := DecodeValue(e, i, pos, ints).item; var p := e.props[i];
      match ShapeOf(p.inType, e.pointerSize)
      case Fixed(size) => v.raw == v.cooked == size && v.cookedPos == pos
      case Counted(bigEndian) =>
        var n: nat := CountAt(e.data, pos, bigEndian);
        v.raw == 2 + n && v.cookedPos == pos + 2
          && (v.cooked == n || (RoundsToWide(p.inType) && v.cooked == n - 1 && n % 2 == 1))
      case Dump =>
        var n: nat := CountAt(e.data, pos, false);
        v.raw == 4 + n && v.cookedPos == pos + 4 && v.cooked == n
      case Remainder => pos + v.raw == |e.data| && v.cookedPos == pos && v.raw - v.cooked <= 1
      case SecurityId(skip) =>
        v.raw == skip + v.cooked && v.cookedPos == pos + skip && v.cooked == 8 + 4 * (e.data[v.cookedPos + 1] as nat)
      case Empty => v.raw == v.cooked == 0
      case Text(_) => v.raw == v.cooked || PropertyLength(p, ints).None?
      case Sized => v.raw == v.cooked
      case Unknown => true
  {
    var p := e.props[i];
    assert WellFormedProperty(e, i);
    match ShapeOf(p.inType, e.pointerSize)
    case Counted(bigEndian) =>
      var n: nat := CountAt(e.data, pos, bigEndian);
      assert Wrap16(n + 2) == n + 2;
    case Dump =>
      var n: nat := CountAt(e.data, pos, false);
      assert Wrap16(n + 4) == n + 4;
    case _ =>
  }

  /**
   A string or binary value with a stated length has that size, in bytes or 16-bit units; twice a
   length of 0x8000 or more does not fit in 16 bits, and exactly then the size is another one.
   */
  lemma StatedLength(e: Event, i: nat, pos: nat, ints: seq<U16>, n: U16)
    requires WellFormed(e) && i < |e.props| == |ints| && pos <= |e.data|
    requires e.props[i].paramLength ==> e.props[i].length < |ints|
    requires PropertyLength(e.props[i], ints) == Some(n) && DecodeValue(e, i, pos, ints).Read?
    ensures var v := DecodeValue(e, i, pos, ints).item; var t := e.props[i].inType;
      && (t == AnsiString || t == Binary ==> v.cookedPos == pos && v.cooked == v.raw == n)
      && (t == UnicodeString ==> v.cookedPos == pos && v.cooked == v.raw && (v.raw == 2 * n as nat <==> n < 0x8000))
  {
    assert WellFormedProperty(e, i);
  }
}
