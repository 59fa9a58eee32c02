/**
 How each type is stored, type by type and byte by byte, and what lengths and counts that refer to an
 integer do: decoding finds every value where this format puts it.
 */
module WireFormat {
  import opened Basics
  import opened Schema
  import opened Values
  import opened Decoder
  import opened Replay
  import opened Slices

  // ------------------------------------------------------------------ values

  /** Decoding gives an item of `raw` bytes that exposes `body`, as a value of type `t`, behind `skip` bytes. */
  ghost predicate Exposes(
      e: Event, i: nat, pos: nat, ints: seq<U16>, t: InType, skip: nat, body: seq<Byte>, raw: nat)
    requires Start(e, pos, ints) && i < |e.props|
  {
    var d := DecodeValue(e, i, pos, ints);
    Finds(e, d, pos, skip, body, raw) && d.item.cookedType == t
  }

  predicate HasSize(t: InType, pointerSize: nat, size: nat) {
    match size
    case 1 => t in {Int8, UInt8, AnsiChar}
    case 2 => t in {Int16, UInt16, UnicodeChar}
    case 4 => t in {Int32, UInt32, HexInt32, Float, Boolean} || (t in {Pointer, SizeT} && pointerSize == 4)
    case 8 => t in {Int64, UInt64, HexInt64, Double, FileTime} || (t in {Pointer, SizeT} && pointerSize == 8)
    case 16 => t in {Guid, SystemTime}
    case _ => false
  }

  /** A number, a character, a GUID or a time takes the bytes of its type, and is what arrays have as elements. */
  lemma TypeSizeReads(e: Event, i: nat, pos: nat, ints: seq<U16>, body: seq<Byte>)
    requires Start(e, pos, ints) && i < |e.props|
    requires HasSize(e.props[i].inType, e.pointerSize, |body|) && HoldsAt(e.data, pos, body)
    ensures Exposes(e, i, pos, ints, e.props[i].inType, 0, body, |body|)
    ensures DecodeValue(e, i, pos, ints).item.element == |body|
  {
    hide Remember, ShapeOf, CookedType, HasSize;
    assert WellFormedProperty(e, i);
    SizeIsShape(e.props[i].inType, e.pointerSize, |body|);
  }

  lemma SizeIsShape(t: InType, pointerSize: nat, size: nat)
    requires HasSize(t, pointerSize, size)
    ensures ShapeOf(t, pointerSize) == Fixed(size) && CookedType(t) == t
  {
  }

  /** The property says nothing about its length. */
  predicate HasNoLength(p: Property) {
    !p.paramLength && !p.paramFixedLength && p.length == 0
  }

  /** Without a length, text ends in a nul character, which is not part of it. */
  lemma TerminatedReads(e: Event, i: nat, pos: nat, ints: seq<U16>, body: seq<Byte>)
    requires Start(e, pos, ints) && i < |e.props| && HasNoLength(e.props[i])
    ensures e.props[i].inType == AnsiString && HoldsAt(e.data, pos, body + [0]) && 0 !in body ==>
      Exposes(e, i, pos, ints, AnsiString, 0, body, |body| + 1)
    ensures
      && e.props[i].inType == UnicodeString && HoldsAt(e.data, pos, body + [0, 0]) && |body| % 2 == 0
      && (forall k: nat :: k < |body| / 2 ==> !(body[2 * k] == 0 == body[2 * k + 1]))
      ==> Exposes(e, i, pos, ints, UnicodeString, 0, body, |body| + 2)
  {
    hide DecodeValue, HoldsAt;
    var t := e.props[i].inType;
    if t == AnsiString && HoldsAt(e.data, pos, body + [0]) && 0 !in body {
      TextReads(e, i, pos, ints, body);
      ReportsType(e, i, pos, ints);
    }
    if t == UnicodeString && HoldsAt(e.data, pos, body + [0, 0]) && |body| % 2 == 0
      && forall k: nat :: k < |body| / 2 ==> !(body[2 * k] == 0 == body[2 * k + 1]) {
      TextReads(e, i, pos, ints, body);
      ReportsType(e, i, pos, ints);
    }
  }

  lemma ReportsType(e: Event, i: nat, pos: nat, ints: seq<U16>)
    requires Start(e, pos, ints) && i < |e.props| && DecodeValue(e, i, pos, ints).Read?
    ensures DecodeValue(e, i, pos, ints).item.cookedType == CookedType(e.props[i].inType)
  {
  }

  /** The number of units of a property with a length: its own, or the integer it refers to. */
  function LengthOf(p: Property, ints: seq<U16>): nat
    requires p.paramLength ==> p.length < |ints|
  {
    if p.paramLength then ints[p.length] else p.length
  }

  /** With a length, text and binary data have that many units; a binary IPv6 address has 16 bytes without one. */
  lemma StatedReads(e: Event, i: nat, pos: nat, ints: seq<U16>, body: seq<Byte>)
    requires Start(e, pos, ints) && i < |e.props| && HoldsAt(e.data, pos, body)
    ensures var p := e.props[i];
      && (p.paramLength ==> p.length < |ints|)
      && (p.inType == AnsiString && !HasNoLength(p) && |body| == LengthOf(p, ints) ==>
            Exposes(e, i, pos, ints, AnsiString, 0, body, |body|))
      && (p.inType == UnicodeString && !HasNoLength(p) && |body| == 2 * LengthOf(p, ints) ==>
            Exposes(e, i, pos, ints, UnicodeString, 0, body, |body|))
      && (p.inType == Binary && |body| == (if HasNoLength(p) && p.outIPv6 then 16 else LengthOf(p, ints)) ==>
            Exposes(e, i, pos, ints, Binary, 0, body, |body|))
  {
    hide Remember;
    assert WellFormedProperty(e, i);
  }

  /** Two bytes in front of the value count its bytes, low byte first or high byte first. */
  lemma PrefixedReads(e: Event, i: nat, pos: nat, ints: seq<U16>, body: seq<Byte>, t: InType)
    requires Start(e, pos, ints) && i < |e.props| && |body| + 2 < 0x1_0000
    requires
      || (t == UnicodeString && |body| % 2 == 0
          && e.props[i].inType in {ManifestCountedString, CountedString, ReversedCountedString})
      || (t == AnsiString
          && e.props[i].inType in {ManifestCountedAnsiString, CountedAnsiString, ReversedCountedAnsiString})
      || (t == Binary && e.props[i].inType == ManifestCountedBinary)
    requires
      var (low, high) := (|body| % 0x100, |body| / 0x100);
      var reversed := e.props[i].inType in {ReversedCountedString, ReversedCountedAnsiString};
      HoldsAt(e.data, pos, (if reversed then [high, low] else [low, high]) + body)
    ensures Exposes(e, i, pos, ints, t, 2, body, |body| + 2)
  {
    hide DecodeValue, HoldsAt;
    assert WellFormedProperty(e, i);
    assert |body| / 0x100 % 0x100 == |body| / 0x100;
    CountedReads(e, i, pos, ints, body);
    ReportsType(e, i, pos, ints);
  }

  /** Of an odd number of bytes, UTF-16 text exposes one less; it consumes all of them. */
  lemma OddPrefixedReads(e: Event, i: nat, pos: nat, ints: seq<U16>, n: nat)
    requires Start(e, pos, ints) && i < |e.props|
    requires e.props[i].inType in {ManifestCountedString, CountedString, ReversedCountedString}
    requires pos + 2 <= |e.data|
    requires var (first, second) := (e.data[pos] as nat, e.data[pos + 1] as nat);
      n == if e.props[i].inType == ReversedCountedString then first * 0x100 + second else second * 0x100 + first
    requires n % 2 == 1 && pos + 2 + n <= |e.data|
    ensures Exposes(e, i, pos, ints, UnicodeString, 2, e.data[pos + 2..pos + 1 + n], n + 2)
  {
    hide Remember, MeasureShape;
    assert WellFormedProperty(e, i);
    OddIsRounded(e, e.props[i], pos, ints, n);
  }

  lemma OddIsRounded(e: Event, p: Property, pos: nat, ints: seq<U16>, n: nat)
    requires WellFormed(e) && pos + 2 <= |e.data| && (p.paramLength ==> p.length < |ints|)
    requires p.inType in {ManifestCountedString, CountedString, ReversedCountedString}
    requires var (first, second) := (e.data[pos] as nat, e.data[pos + 1] as nat);
      n == if p.inType == ReversedCountedString then first * 0x100 + second else second * 0x100 + first
    requires n % 2 == 1 && pos + 2 + n <= |e.data|
    ensures MeasureShape(e, p, pos, ints) == Some(Extent(2, n - 1, n + 2))
  {
    assert CountAt(e.data, pos, p.inType == ReversedCountedString) == n;
  }

  /** Of the four bytes in front of a hex dump, the first two count its bytes. */
  lemma HexDumpReads(e: Event, i: nat, pos: nat, ints: seq<U16>, body: seq<Byte>, a: Byte, b: Byte)
    requires Start(e, pos, ints) && i < |e.props| && e.props[i].inType == HexDump && |body| + 4 < 0x1_0000
    requires HoldsAt(e.data, pos, [|body| % 0x100, |body| / 0x100, a, b] + body)
    ensures Exposes(e, i, pos, ints, Binary, 4, body, |body| + 4)
  {
    hide Remember;
    HoldsParts(e.data, pos, [|body| % 0x100, |body| / 0x100, a, b], body);
    assert e.data[pos + 0] == |body| % 0x100 && e.data[pos + 1] == |body| / 0x100;
    assert CountAt(e.data, pos, false) == |body|;
    assert WellFormedProperty(e, i);
  }

  /** Text that takes all that is left of the payload; UTF-16 text in whole units. */
  lemma RestReads(e: Event, i: nat, pos: nat, ints: seq<U16>)
    requires Start(e, pos, ints) && i < |e.props|
    ensures e.props[i].inType == NonNullTerminatedAnsiString ==>
      Exposes(e, i, pos, ints, AnsiString, 0, e.data[pos..], |e.data| - pos)
    ensures e.props[i].inType == NonNullTerminatedString ==>
      Exposes(e, i, pos, ints, UnicodeString, 0, e.data[pos..|e.data| - (|e.data| - pos) % 2], |e.data| - pos)
  {
    hide Remember, MeasureShape;
    assert WellFormedProperty(e, i);
    RestIsMeasured(e, e.props[i], pos, ints);
  }

  lemma RestIsMeasured(e: Event, p: Property, pos: nat, ints: seq<U16>)
    requires WellFormed(e) && pos <= |e.data| && (p.paramLength ==> p.length < |ints|)
    ensures var n := |e.data| - pos;
      && (p.inType == NonNullTerminatedAnsiString ==> MeasureShape(e, p, pos, ints) == Some(Extent(0, n, n)))
      && (p.inType == NonNullTerminatedString ==> MeasureShape(e, p, pos, ints) == Some(Extent(0, n - n % 2, n)))
  {
  }

  /** A security identifier has eight bytes and four for each of the authorities that its second byte counts. */
  lemma SidReads(e: Event, i: nat, pos: nat, ints: seq<U16>, user: seq<Byte>, body: seq<Byte>)
    requires Start(e, pos, ints) && i < |e.props| && 2 <= |body| == 8 + 4 * body[1] as nat
    requires match e.props[i].inType
      case Sid => user == []
      case WbemSid => |user| == 2 * e.pointerSize
      case _ => false
    requires HoldsAt(e.data, pos, user + body)
    ensures Exposes(e, i, pos, ints, Sid, |user|, body, |user| + |body|)
  {
    hide Remember;
    assert WellFormedProperty(e, i);
    HoldsParts(e.data, pos, user, body);
    assert body + [] == body;
    HoldsParts(e.data, pos + |user|, body, []);
    assert e.data[pos + |user| + 1] == body[1];
  }

  /** A null has no bytes, and an unknown type is refused. */
  lemma NullReads(e: Event, i: nat, pos: nat, ints: seq<U16>)
    requires Start(e, pos, ints) && i < |e.props|
    ensures e.props[i].inType == Null ==> Exposes(e, i, pos, ints, Null, 0, [], 0)
    ensures e.props[i].inType.Unrecognized? <==> DecodeValue(e, i, pos, ints) == Rejected(UnsupportedType)
  {
    hide Remember;
    assert WellFormedProperty(e, i);
  }

  // ------------------------------------------------------------------ integers

  /** The bytes of the integers that lengths and counts may refer to. */
  predicate IsStored(t: InType, n: nat, bytes: seq<Byte>) {
    match t
    case UInt8 => bytes == [n]
    case UInt16 => |bytes| == 2 && n == bytes[0] as nat + 0x100 * bytes[1] as nat
    case UInt32 | HexInt32 =>
      |bytes| == 4
      && n == bytes[0] as nat + 0x100 * bytes[1] as nat + 0x1_0000 * bytes[2] as nat + 0x100_0000 * bytes[3] as nat
    case _ => false
  }

  /** What a length or a count can be of such a number. */
  function Saturated(n: nat): U16 {
    if n < 0x1_0000 then n else 0xffff
  }

  /** Reading an integer leaves that number in the property's own entry of the table, and no other entry changes. */
  lemma IntegerIsRemembered(e: Event, i: nat, pos: nat, ints: seq<U16>, n: nat, bytes: seq<Byte>)
    requires Start(e, pos, ints) && i < |e.props|
    requires IsStored(e.props[i].inType, n, bytes) && HoldsAt(e.data, pos, bytes)
    ensures var d := DecodeValue(e, i, pos, ints);
      d.Read? && d.item.raw == |bytes| && d.ints == ints[i := Saturated(n)]
  {
    hide Remember;
    assert WellFormedProperty(e, i);
    RemembersNumber(e, i, pos, ints, n, bytes);
  }

  lemma RemembersNumber(e: Event, i: nat, pos: nat, ints: seq<U16>, n: nat, bytes: seq<Byte>)
    requires Start(e, pos, ints) && i < |e.props|
    requires IsStored(e.props[i].inType, n, bytes) && HoldsAt(e.data, pos, bytes)
    ensures Remember(e, i, pos, ints) == ints[i := Saturated(n)]
  {
    var t := e.props[i].inType;
    assert ElementSize(t, e.pointerSize) == |bytes|;
    NumberIsRead(t, n, bytes);
  }

  lemma NumberIsRead(t: InType, n: nat, bytes: seq<Byte>)
    requires IsStored(t, n, bytes)
    ensures LittleEndian(bytes) == n
  {
    LittleEndianNothing();
    if |bytes| == 4 {
      var tail := bytes[1..][1..];
      assert tail == [bytes[2], bytes[3]] && tail[1..] == [bytes[3]] && tail[1..][1..] == [];
      assert LittleEndian(tail) == bytes[2] as nat + 0x100 * bytes[3] as nat;
    } else if |bytes| == 2 {
      assert bytes[1..] == [bytes[1]] && bytes[1..][1..] == [];
    } else {
      assert bytes[1..] == [];
    }
  }

  lemma LittleEndianNothing()
    ensures LittleEndian([]) == 0
  {
  }

  /** Values of other types change no entry. */
  lemma OthersAreNotRemembered(e: Event, i: nat, pos: nat, ints: seq<U16>)
    requires Start(e, pos, ints) && i < |e.props| && e.props[i].inType !in {UInt8, UInt16, UInt32, HexInt32}
    requires DecodeValue(e, i, pos, ints).Read?
    ensures DecodeValue(e, i, pos, ints).ints == ints
  {
  }

  // ------------------------------------------------------------------ counts and lengths

  /** The number of elements that an array property has: the integer it refers to, or its own number. */
  function CountOf(p: Property, ints: seq<U16>): nat
    requires p.paramCount ==> p.count < |ints|
  {
    if p.paramCount then ints[p.count] else p.count
  }

  /** `visits` are the items of an array of `n` values: its begin, its elements in order, and its end. */
  ghost predicate ListsValues(visits: seq<Visit>, i: nat, n: nat) {
    && |visits| == n + 2
    && visits[0].kind == ArrayBegin && visits[0].arrayCount == n
    && (forall k :: 1 <= k <= n ==> IsElementOf(visits[k], i, k - 1, n))
    && visits[n + 1].kind == ArrayEnd
    && forall k :: 0 <= k < n + 2 ==> visits[k].index == i
  }

  predicate IsElementOf(v: Visit, i: nat, k: nat, n: nat) {
    v.kind == Kind.Value && v.index == i && v.arrayIndex == k && v.arrayCount == n && v.isArray
  }

  lemma {:induction false} ElementsListed(e: Event, i: nat, k: nat, n: nat, pos: nat, ints: seq<U16>)
    requires Start(e, pos, ints) && i < |e.props| && k <= n && Elements(e, i, k, n, pos, ints).outcome.Done?
    ensures Remaining(Elements(e, i, k, n, pos, ints).visits, i, k, n)
    decreases n - k
  {
    hide DecodeValue, ArrayElement, ArrayType;
    if k == n {
    } else {
      var d := DecodeValue(e, i, pos, ints);
      var rest := Elements(e, i, k + 1, n, pos + d.item.raw, d.ints);
      ElementsListed(e, i, k + 1, n, pos + d.item.raw, d.ints);
      RemainingPrepends(Visit(Kind.Value, i, k, n, true, pos, d.item), rest.visits, i, k, n);
    }
  }

  lemma {:induction false} FixedElementsListed(e: Event, i: nat, k: nat, n: nat, pos: nat, ints: seq<U16>)
    requires Start(e, pos, ints) && i < |e.props| && k <= n
    requires pos + Bytes(n - k, ArrayElement(e, e.props[i])) <= |e.data|
    ensures Remaining(FixedElements(e, i, k, n, pos, ints).visits, i, k, n)
    decreases n - k
  {
    hide Bytes, ArrayElement, ArrayType, CookedType;
    if k == n {
    } else {
      var size := ArrayElement(e, e.props[i]);
      OneElement(n - k, size);
      FixedElementsListed(e, i, k + 1, n, pos + size, ints);
      var item := Item(pos, size, size, CookedType(e.props[i].inType), size);
      RemainingPrepends(
        Visit(Kind.Value, i, k, n, true, pos, item), FixedElements(e, i, k + 1, n, pos + size, ints).visits, i, k, n);
    }
  }

  /** Elements k, ..., n - 1 and the end of the array. */
  ghost predicate Remaining(visits: seq<Visit>, i: nat, k: nat, n: nat) {
    && k <= n && |visits| == n - k + 1
    && (forall j :: 0 <= j < n - k ==> IsElementOf(visits[j], i, k + j, n))
    && visits[n - k].kind == ArrayEnd && visits[n - k].index == i
  }

  lemma RemainingPrepends(v: Visit, visits: seq<Visit>, i: nat, k: nat, n: nat)
    requires k < n && IsElementOf(v, i, k, n) && Remaining(visits, i, k + 1, n)
    ensures Remaining([v] + visits, i, k, n)
  {
    forall j | 0 <= j < n - k ensures IsElementOf(([v] + visits)[j], i, k + j, n) {
      if j > 0 {
        assert IsElementOf(visits[j - 1], i, k + 1 + (j - 1), n);
      }
    }
  }

  /** The property is an array, also of one element when its count is marked as fixed. */
  predicate IsListed(p: Property) {
    p.paramCount || p.paramFixedCount || p.count != 1
  }

  /** An array of values that is decoded lists as many of them as its count says. */
  lemma ArrayListsCount(e: Event, i: nat, pos: nat, ints: seq<U16>)
    requires Start(e, pos, ints) && i < |e.props| && !e.props[i].isStruct && IsListed(e.props[i])
    requires One(e, i, pos, ints).outcome.Done?
    ensures e.props[i].paramCount ==> e.props[i].count < |ints|
    ensures ListsValues(One(e, i, pos, ints).visits, i, CountOf(e.props[i], ints))
  {
    hide Elements, FixedElements, Bytes, ArrayType, CookedType, DecodeValue, ArrayElement, ShapeOf;
    var p := e.props[i];
    assert WellFormedProperty(e, i);
    var n := CountOf(p, ints);
    var rest: seq<Visit>;
    if ArrayElement(e, p) == 0 {
      ElementsListed(e, i, 0, n, pos, ints);
      rest := Elements(e, i, 0, n, pos, ints).visits;
    } else {
      FixedElementsListed(e, i, 0, n, pos, ints);
      rest := FixedElements(e, i, 0, n, pos, ints).visits;
    }
    ListsBehindBegin(BeginArray(e, i, n, pos), rest, i, n);
  }

  lemma ListsBehindBegin(v: Visit, visits: seq<Visit>, i: nat, n: nat)
    requires v.kind == ArrayBegin && v.index == i && v.arrayCount == n && Remaining(visits, i, 0, n)
    ensures ListsValues([v] + visits, i, n)
  {
    forall k | 1 <= k <= n ensures IsElementOf(([v] + visits)[k], i, k - 1, n) {
      assert IsElementOf(visits[k - 1], i, 0 + (k - 1), n);
    }
  }

  /** The begin item shows the bytes of the whole array if its elements have a size, and otherwise none. */
  lemma BeginShowsArray(e: Event, i: nat, pos: nat, ints: seq<U16>, n: nat, size: nat)
    requires Start(e, pos, ints) && i < |e.props| && IsListed(e.props[i]) && One(e, i, pos, ints).visits != []
    requires (e.props[i].paramCount ==> e.props[i].count < |ints|) && n == CountOf(e.props[i], ints)
    ensures var begin := One(e, i, pos, ints).visits[0]; var t := e.props[i].inType;
      && begin.kind == ArrayBegin && begin.index == i && begin.arrayCount == n && begin.isArray && begin.pos == pos
      && (e.props[i].isStruct ==> begin.item == Item(pos, 0, 0, Null, 0))
      && (!e.props[i].isStruct && HasSize(t, e.pointerSize, size) ==>
            begin.item == Item(pos, n * size, n * size, t, size))
      && (!e.props[i].isStruct && (forall s :: !HasSize(t, e.pointerSize, s)) ==>
            begin.item.raw == begin.item.cooked == begin.item.element == 0)
  {
    hide Structs, Elements, FixedElements, DecodeValue;
    assert WellFormedProperty(e, i);
    if !e.props[i].isStruct {
      var element := ArrayElement(e, e.props[i]);
      assert element != 0 ==> HasSize(e.props[i].inType, e.pointerSize, element);
      NoBytes(n);
    }
  }

  /** Elements of fixed size follow each other, and each shows its own bytes. */
  lemma {:induction false} FixedElementsFollow(
      e: Event, i: nat, k: nat, n: nat, pos: nat, ints: seq<U16>, size: nat, j: nat)
    requires Start(e, pos, ints) && i < |e.props| && k <= j < n && size == ArrayElement(e, e.props[i])
    requires pos + Bytes(n - k, size) <= |e.data|
    ensures var visits := FixedElements(e, i, k, n, pos, ints).visits; var at := pos + Bytes(j - k, size);
      j - k < |visits| && visits[j - k].pos == at && visits[j - k].item.cookedPos == at
      && visits[j - k].item.cooked == visits[j - k].item.raw == visits[j - k].item.element == size
    decreases n - k
  {
    hide Bytes, ArrayElement, ArrayType, CookedType;
    OneElement(n - k, size);
    if j > k {
      FixedElementsFollow(e, i, k + 1, n, pos + size, ints, size, j);
      OneElement(j - k, size);
    } else {
      NoElements(size);
    }
  }

  lemma NoElements(size: nat)
    ensures Bytes(0, size) == 0
  {
  }

  /** In an array of such elements the one with index `j` starts behind the `j` before it. */
  lemma ElementIsAt(e: Event, i: nat, pos: nat, ints: seq<U16>, size: nat, j: nat)
    requires Start(e, pos, ints) && i < |e.props| && !e.props[i].isStruct && IsListed(e.props[i])
    requires HasSize(e.props[i].inType, e.pointerSize, size) && One(e, i, pos, ints).outcome.Done?
    requires (e.props[i].paramCount ==> e.props[i].count < |ints|) && j < CountOf(e.props[i], ints)
    ensures var visits := One(e, i, pos, ints).visits; var at := pos + j * size;
      && j + 1 < |visits| && visits[j + 1].pos == at
      && visits[j + 1].item == Item(at, size, size, visits[j + 1].item.cookedType, size)
  {
    hide Elements, FixedElements, ArrayType, DecodeValue;
    assert WellFormedProperty(e, i);
    assert ArrayElement(e, e.props[i]) == size;
    FixedElementsFollow(e, i, 0, CountOf(e.props[i], ints), pos, ints, size, j);
  }

  /** Elements of fixed size are all there, or the array is refused. */
  lemma FixedArrayIsThere(e: Event, i: nat, pos: nat, ints: seq<U16>, size: nat)
    requires Start(e, pos, ints) && i < |e.props| && !e.props[i].isStruct && IsListed(e.props[i])
    requires HasSize(e.props[i].inType, e.pointerSize, size)
    ensures e.props[i].paramCount ==> e.props[i].count < |ints|
    ensures var t := One(e, i, pos, ints); var bytes := CountOf(e.props[i], ints) * size;
      if pos + bytes <= |e.data| then t.outcome.Done? && t.pos == pos + bytes
      else t.outcome == Failed(InvalidData) && t.visits == []
  {
    hide Elements, FixedElements, ArrayType, CookedType, DecodeValue;
    assert WellFormedProperty(e, i);
    assert ArrayElement(e, e.props[i]) == size;
  }

  /** A property that is neither a struct nor an array lists one value. */
  lemma ScalarListsOne(e: Event, i: nat, pos: nat, ints: seq<U16>)
    requires Start(e, pos, ints) && i < |e.props| && !e.props[i].isStruct && !IsListed(e.props[i])
    requires One(e, i, pos, ints).outcome.Done?
    ensures var visits := One(e, i, pos, ints).visits;
      |visits| == 1 && visits[0].kind == Kind.Value && visits[0].index == i && !visits[0].isArray
  {
    hide DecodeValue;
    assert WellFormedProperty(e, i);
  }

  /** A struct lists, between its begin and its end, the members that its property names. */
  lemma StructListsMembers(e: Event, i: nat, pos: nat, ints: seq<U16>)
    requires Start(e, pos, ints) && i < |e.props| && e.props[i].isStruct && !IsListed(e.props[i])
    requires One(e, i, pos, ints).outcome.Done?
    ensures var p := e.props[i];
      && p.structStart + p.structMembers <= |e.props|
      && var members := Group(e, p.structStart, p.structStart + p.structMembers, pos, ints).visits;
        var visits := One(e, i, pos, ints).visits; var n := |members|;
        && |visits| == n + 2 && visits[1..n + 1] == members
        && visits[0].kind == StructBegin && visits[n + 1].kind == StructEnd
        && visits[0].index == visits[n + 1].index == i && !visits[0].isArray
  {
    hide Group, DecodeValue;
    var p := e.props[i];
    assert WellFormedProperty(e, i);
    assert MemberEnd(p) == p.structStart + p.structMembers;
    var body := Group(e, p.structStart, MemberEnd(p), pos, ints);
    assert Structs(e, i, 1, 1, false, body.pos, body.ints).visits == [];
  }

  /** The struct begin items of property `i`. */
  function Begins(visits: seq<Visit>, i: nat): nat {
    if visits == [] then 0
    else (if visits[0].kind == StructBegin && visits[0].index == i then 1 else 0) + Begins(visits[1..], i)
  }

  lemma {:induction false} BeginsJoin(a: seq<Visit>, b: seq<Visit>, i: nat)
    ensures Begins(a + b, i) == Begins(a, i) + Begins(b, i)
  {
    if a == [] {
      assert a + b == b;
    } else {
      assert (a + b)[1..] == a[1..] + b;
      BeginsJoin(a[1..], b, i);
    }
  }

  lemma BeginsPrepend(v: Visit, visits: seq<Visit>, i: nat)
    ensures Begins([v] + visits, i) == (if v.kind == StructBegin && v.index == i then 1 else 0) + Begins(visits, i)
  {
    assert ([v] + visits)[1..] == visits;
  }

  /** Later properties have no begin items of an earlier one. */
  lemma {:induction false} GroupBegins(e: Event, lo: nat, hi: nat, pos: nat, ints: seq<U16>, i: nat)
    requires Start(e, pos, ints) && i < lo <= hi <= |e.props|
    ensures Begins(Group(e, lo, hi, pos, ints).visits, i) == 0
    decreases |e.props| - lo, 3, 0
  {
    hide One;
    if lo == hi {
    } else {
      OneBegins(e, lo, pos, ints, i);
      var first := One(e, lo, pos, ints);
      if first.outcome.Done? {
        GroupBegins(e, lo + 1, hi, first.pos, first.ints, i);
        BeginsJoin(first.visits, Group(e, lo + 1, hi, first.pos, first.ints).visits, i);
      }
    }
  }

  lemma {:induction false} OneBegins(e: Event, j: nat, pos: nat, ints: seq<U16>, i: nat)
    requires Start(e, pos, ints) && i < j < |e.props|
    ensures Begins(One(e, j, pos, ints).visits, i) == 0
    decreases |e.props| - j, 2, 0
  {
    hide Group, Structs, Elements, FixedElements, Bytes, DecodeValue, ArrayType, CookedType;
    var p := e.props[j];
    assert WellFormedProperty(e, j);
    var n := ArrayCount(p, ints);
    var begin := BeginArray(e, j, n, pos);
    if IsScalar(p) {
    } else if p.isStruct {
      var k := if IsArray(p) then n else 1;
      StructsBegin(e, j, 0, k, IsArray(p), pos, ints, i);
      BeginsPrepend(begin, Structs(e, j, 0, k, IsArray(p), pos, ints).visits, i);
    } else if One(e, j, pos, ints).visits != [] {
      if ArrayElement(e, p) == 0 {
        ElementsBegin(e, j, 0, n, pos, ints, i);
        BeginsPrepend(begin, Elements(e, j, 0, n, pos, ints).visits, i);
      } else {
        FixedElementsBegin(e, j, 0, n, pos, ints, i);
        BeginsPrepend(begin, FixedElements(e, j, 0, n, pos, ints).visits, i);
      }
    }
  }

  lemma {:induction false} ElementsBegin(e: Event, j: nat, k: nat, n: nat, pos: nat, ints: seq<U16>, i: nat)
    requires Start(e, pos, ints) && j < |e.props| && k <= n
    ensures Begins(Elements(e, j, k, n, pos, ints).visits, i) == 0
    decreases n - k
  {
    hide DecodeValue, ArrayElement, ArrayType;
    if k == n {
    } else {
      var d := DecodeValue(e, j, pos, ints);
      if d.Read? {
        ElementsBegin(e, j, k + 1, n, pos + d.item.raw, d.ints, i);
        var rest := Elements(e, j, k + 1, n, pos + d.item.raw, d.ints);
        BeginsPrepend(Visit(Kind.Value, j, k, n, true, pos, d.item), rest.visits, i);
      }
    }
  }

  lemma {:induction false} FixedElementsBegin(e: Event, j: nat, k: nat, n: nat, pos: nat, ints: seq<U16>, i: nat)
    requires Start(e, pos, ints) && j < |e.props| && k <= n
    requires pos + Bytes(n - k, ArrayElement(e, e.props[j])) <= |e.data|
    ensures Begins(FixedElements(e, j, k, n, pos, ints).visits, i) == 0
    decreases n - k
  {
    hide Bytes, ArrayElement, ArrayType, CookedType;
    if k == n {
    } else {
      var size := ArrayElement(e, e.props[j]);
      OneElement(n - k, size);
      FixedElementsBegin(e, j, k + 1, n, pos + size, ints, i);
      var item := Item(pos, size, size, CookedType(e.props[j].inType), size);
      var rest := FixedElements(e, j, k + 1, n, pos + size, ints);
      BeginsPrepend(Visit(Kind.Value, j, k, n, true, pos, item), rest.visits, i);
    }
  }

  /** Of a struct property itself, there is one begin item for each element. */
  lemma {:induction false} StructsBegin(
      e: Event, j: nat, k: nat, n: nat, isArray: bool, pos: nat, ints: seq<U16>, i: nat)
    requires Start(e, pos, ints) && i <= j < |e.props| && e.props[j].isStruct && k <= n
    ensures var t := Structs(e, j, k, n, isArray, pos, ints);
      (i < j ==> Begins(t.visits, i) == 0) && (i == j && t.outcome.Done? ==> Begins(t.visits, i) == n - k)
    decreases |e.props| - j, 1, n - k
  {
    hide Group, ArrayType, CookedType;
    if k == n {
      if isArray {
        BeginsPrepend(EndArray(e, j, n, pos), [], i);
      }
    } else {
      var p := e.props[j];
      assert WellFormedProperty(e, j);
      GroupBegins(e, p.structStart, MemberEnd(p), pos, ints, i);
      var body := Group(e, p.structStart, MemberEnd(p), pos, ints);
      var begin := BeginStruct(j, k, n, isArray, pos);
      if body.outcome.Failed? {
        BeginsPrepend(begin, body.visits, i);
      } else {
        var rest := Structs(e, j, k + 1, n, isArray, body.pos, body.ints);
        StructsBegin(e, j, k + 1, n, isArray, body.pos, body.ints, i);
        var end := EndStruct(j, k, n, isArray, body.pos);
        BeginsPrepend(end, rest.visits, i);
        BeginsJoin(body.visits, [end] + rest.visits, i);
        BeginsPrepend(begin, body.visits + ([end] + rest.visits), i);
      }
    }
  }

  /** An array of structs that is decoded begins as many of them as its count says. */
  lemma StructArrayListsCount(e: Event, i: nat, pos: nat, ints: seq<U16>)
    requires Start(e, pos, ints) && i < |e.props| && e.props[i].isStruct && IsListed(e.props[i])
    requires One(e, i, pos, ints).outcome.Done?
    ensures e.props[i].paramCount ==> e.props[i].count < |ints|
    ensures var n := CountOf(e.props[i], ints); var visits := One(e, i, pos, ints).visits;
      && visits != [] && visits[0].kind == ArrayBegin && visits[0].arrayCount == n
      && Begins(visits, i) == n
  {
    hide Structs, Bytes, ArrayType, CookedType;
    assert WellFormedProperty(e, i);
    var n := CountOf(e.props[i], ints);
    StructsBegin(e, i, 0, n, true, pos, ints, i);
    BeginsPrepend(BeginArray(e, i, n, pos), Structs(e, i, 0, n, true, pos, ints).visits, i);
  }

  // ------------------------------------------------------------------ references

  /** Property `k` is a single integer and holds `n` where decoding comes to it. */
  ghost predicate HoldsNumber(e: Event, k: nat, pos: nat, n: nat, bytes: seq<Byte>)
    requires k < |e.props|
  {
    var p := e.props[k];
    !p.isStruct && !IsListed(p) && IsStored(p.inType, n, bytes) && HoldsAt(e.data, pos, bytes)
  }

  /**
   When decoding comes to a later top-level property, whatever is between the two, the table still has
   that number.
   */
  lemma NumberArrives(e: Event, k: nat, i: nat, pos: nat, ints: seq<U16>, n: nat, bytes: seq<Byte>)
    requires Start(e, pos, ints) && k < i <= e.topLevel && HoldsNumber(e, k, pos, n, bytes)
    ensures Group(e, k, i, pos, ints).ints[k] == Saturated(n)
  {
    hide Group, DecodeValue, HoldsAt, IsStored;
    assert WellFormedProperty(e, k);
    IntegerIsRemembered(e, k, pos, ints, n, bytes);
    var first := One(e, k, pos, ints);
    assert first.outcome.Done? && first.ints[k] == Saturated(n);
    GroupUnfolds(e, k, i, pos, ints);
    GroupWrites(e, k + 1, i, first.pos, first.ints, k);
  }

  lemma GroupUnfolds(e: Event, lo: nat, hi: nat, pos: nat, ints: seq<U16>)
    requires Start(e, pos, ints) && lo < hi <= |e.props| && One(e, lo, pos, ints).outcome.Done?
    ensures var first := One(e, lo, pos, ints);
      Group(e, lo, hi, pos, ints) == Append(first, Group(e, lo + 1, hi, first.pos, first.ints))
  {
    hide One;
  }

  /** An array whose count refers to the integer lists exactly that many values or structs. */
  lemma ReferredCount(e: Event, k: nat, i: nat, pos: nat, ints: seq<U16>, n: nat, bytes: seq<Byte>)
    requires Start(e, pos, ints) && k < i < e.topLevel && HoldsNumber(e, k, pos, n, bytes)
    requires e.props[i].paramCount && e.props[i].count == k
    ensures var a := Group(e, k, i, pos, ints); var t := One(e, i, a.pos, a.ints);
      && (t.outcome.Done? ==>
            if e.props[i].isStruct then Begins(t.visits, i) == Saturated(n) else ListsValues(t.visits, i, Saturated(n)))
      && (forall size :: !e.props[i].isStruct && HasSize(e.props[i].inType, e.pointerSize, size) ==>
            (t.outcome.Done? <==> a.pos + Saturated(n) * size <= |e.data|))
  {
    hide Group, One, HoldsNumber, HasSize, ListsValues;
    var a := Group(e, k, i, pos, ints);
    NumberArrives(e, k, i, pos, ints, n, bytes);
    if One(e, i, a.pos, a.ints).outcome.Done? {
      if e.props[i].isStruct {
        StructArrayListsCount(e, i, a.pos, a.ints);
      } else {
        ArrayListsCount(e, i, a.pos, a.ints);
      }
    }
    forall size | !e.props[i].isStruct && HasSize(e.props[i].inType, e.pointerSize, size)
      ensures One(e, i, a.pos, a.ints).outcome.Done? <==> a.pos + Saturated(n) * size <= |e.data|
    {
      FixedArrayIsThere(e, i, a.pos, a.ints, size);
    }
  }

  /** The items of property `i` in a complete pass: as many values or structs as the number says. */
  ghost predicate IsCounted(e: Event, visits: seq<Visit>, i: nat, n: nat)
    requires i < |e.props|
  {
    if e.props[i].isStruct then Begins(visits, i) == n else ListsValues(visits, i, n)
  }

  /** So in a complete pass over an event, the number in its payload is the number of elements that are listed. */
  lemma CountDecides(e: Event, k: nat, i: nat, ints: seq<U16>, n: nat, bytes: seq<Byte>)
    requires Start(e, 0, ints) && k < i < e.topLevel && Decode(e, ints).outcome.Done?
    requires HoldsNumber(e, k, Group(e, 0, k, 0, ints).pos, n, bytes)
    requires e.props[i].paramCount && e.props[i].count == k
    ensures exists before, items, after ::
      Decode(e, ints).visits == before + items + after && IsCounted(e, items, i, Saturated(n))
  {
    hide Group, One, HoldsNumber, ListsValues;
    GroupSplits(e, 0, k, e.topLevel, 0, ints);
    var a := Group(e, 0, k, 0, ints);
    GroupSplits(e, k, i, e.topLevel, a.pos, a.ints);
    var b := Group(e, k, i, a.pos, a.ints);
    ReferredCount(e, k, i, a.pos, a.ints, n, bytes);
    PropertySucceeds(e, i, e.topLevel, b.pos, b.ints);
    var t := One(e, i, b.pos, b.ints);
    GroupUnfolds(e, i, e.topLevel, b.pos, b.ints);
    var rest := Group(e, i + 1, e.topLevel, t.pos, t.ints);
    assert a.visits + (b.visits + (t.visits + rest.visits)) == (a.visits + b.visits) + t.visits + rest.visits;
    assert IsCounted(e, t.visits, i, Saturated(n));
  }

  /** A string or binary value whose length refers to the integer has exactly that many units. */
  lemma ReferredLength(e: Event, k: nat, i: nat, pos: nat, ints: seq<U16>, n: nat, bytes: seq<Byte>)
    requires Start(e, pos, ints) && k < i < e.topLevel && HoldsNumber(e, k, pos, n, bytes)
    requires e.props[i].paramLength && e.props[i].length == k
    requires e.props[i].inType in {AnsiString, Binary} || (e.props[i].inType == UnicodeString && n < 0x8000)
    ensures var a := Group(e, k, i, pos, ints); var unit := if e.props[i].inType == UnicodeString then 2 else 1;
      var size := unit * Saturated(n);
      if a.pos + size <= |e.data| then
        Exposes(e, i, a.pos, a.ints, e.props[i].inType, 0, e.data[a.pos..a.pos + size], size)
      else DecodeValue(e, i, a.pos, a.ints) == Rejected(InvalidData)
  {
    hide Group, One, HoldsNumber, DecodeValue;
    var a := Group(e, k, i, pos, ints);
    NumberArrives(e, k, i, pos, ints, n, bytes);
    var unit := if e.props[i].inType == UnicodeString then 2 else 1;
    var size := unit * Saturated(n);
    if a.pos + size <= |e.data| {
      StatedReads(e, i, a.pos, a.ints, e.data[a.pos..a.pos + size]);
    } else {
      TooLong(e, i, a.pos, a.ints, size);
    }
  }

  lemma TooLong(e: Event, i: nat, pos: nat, ints: seq<U16>, size: nat)
    requires Start(e, pos, ints) && i < |e.props| && e.props[i].paramLength && e.props[i].length < |ints|
    requires e.props[i].inType in {AnsiString, Binary, UnicodeString} && size < 0x1_0000 && pos + size > |e.data|
    requires size == ints[e.props[i].length] as nat * if e.props[i].inType == UnicodeString then 2 else 1
    ensures DecodeValue(e, i, pos, ints) == Rejected(InvalidData)
  {
  }
}
