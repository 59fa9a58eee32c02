/** The enumerator itself: a class whose methods update its fields, step by step, as the original does. */
module Enumerator {
  import opened Basics
  import opened Schema
  import opened Values
  import opened Decoder
  import opened Machine
  import opened Siblings

  /** EtwEnumeratorState. */
  datatype PublicState =
    | StateError | StateAfterLastItem | StateBeforeFirstItem
    | StateValue | StateArrayBegin | StateStructBegin | StateArrayEnd | StateStructEnd

  function PublicOf(sub: Sub): PublicState {
    match sub
    case InError => StateError
    case AfterLast => StateAfterLastItem
    case BeforeFirst => StateBeforeFirstItem
    case Scalar | SimpleElement | ComplexElement => StateValue
    case AtArrayBegin => StateArrayBegin
    case AtStructBegin => StateStructBegin
    case AtArrayEnd => StateArrayEnd
    case AtStructEnd => StateStructEnd
  }

  /** The state that callers see tells what kind of item there is, and whether there is one. */
  lemma PublicIsKind(s: State)
    ensures PublicOf(s.sub) == StateError <==> s.sub.InError?
    ensures PublicOf(s.sub) == StateBeforeFirstItem <==> s.sub.BeforeFirst?
    ensures PublicOf(s.sub) == StateAfterLastItem <==> s.sub.AfterLast?
    ensures PublicOf(s.sub) == StateValue <==> OnItem(s) && View(s).kind.Value?
    ensures PublicOf(s.sub) == StateArrayBegin <==> OnItem(s) && View(s).kind.ArrayBegin?
    ensures PublicOf(s.sub) == StateArrayEnd <==> OnItem(s) && View(s).kind.ArrayEnd?
    ensures PublicOf(s.sub) == StateStructBegin <==> OnItem(s) && View(s).kind.StructBegin?
    ensures PublicOf(s.sub) == StateStructEnd <==> OnItem(s) && View(s).kind.StructEnd?
  {
  }

  /** Forgets the fields that no caller may look at in the given sub-state. */
  function Observable(s: State): State {
    match s.sub
    case BeforeFirst | AfterLast =>
      s.(top := Frame(s.top.index, s.top.end, 0, 0, false, false), item := Marker(s.pos, InType.Null, 0))
    case InError => s.(item := Marker(s.pos, InType.Null, 0))
    case _ => s
  }

  lemma OnlyUnrecognized(t: InType, pointerSize: nat)
    ensures ShapeOf(t, pointerSize).Unknown? <==> t.Unrecognized?
  {
  }

  lemma CountIsIndex(e: Event, i: nat)
    requires WellFormed(e) && i < |e.props|
    ensures e.props[i].paramCount ==> e.props[i].count < |e.props|
  {
    assert WellFormedProperty(e, i);
  }

  /** The three ways StartArray can end. */
  lemma OpensArray(e: Event, s: State, s': State, supported: bool)
    requires s.top.index < |e.props| && s.pos <= |e.data|
    requires var p := e.props[s.top.index]; var total := Bytes(s.top.arrayCount, ArrayElement(e, p));
      && supported == (p.isStruct || !ShapeOf(p.inType, e.pointerSize).Unknown?)
      && if !supported then Observable(s') == Fail(s, UnsupportedType)
        else if |e.data| - s.pos < total then Observable(s') == Fail(s, InvalidData)
        else
          s' == s.(sub := AtArrayBegin, item := Item(s.pos, total, total, ArrayType(p), ArrayElement(e, p)),
            lastError := Success)
    ensures Observable(s') == OpenArray(e, s) && s'.sub == OpenArray(e, s).sub
  {
    hide ShapeOf, CookedType, Bytes;
  }

  class EtwEnumerator {
    const event: Event
    /** How many stack frames the heap can hold. */
    const stackLimit: nat

    var dataNext: nat             // m_pbDataNext, relative to UserData
    var cookedPos: nat            // m_pbCooked, relative to UserData
    var cooked: U16
    var raw: U16
    var cookedInType: InType
    var element: U16
    var stackTop: Frame
    var stack: seq<Frame>
    var state: PublicState
    var subState: Sub
    var lastError: Status
    const integerValues: array<U16>

    /** The fields as one value. */
    ghost function Fields(): State
      reads this, integerValues
    {
      State(subState, dataNext, stackTop, stack, integerValues[..],
        Item(cookedPos, cooked, raw, cookedInType, element), lastError)
    }

    ghost function Abs(): State
      reads this, integerValues
    {
      Observable(Fields())
    }

    ghost predicate Ok()
      reads this, integerValues
    {
      Valid(event, Abs()) && state == PublicOf(subState)
    }

    /** What the helpers need: consistent sizes and a property to work on. */
    ghost predicate Ready()
      reads this, integerValues
    {
      && Start(event, dataNext, integerValues[..])
      && stackTop.index < stackTop.end <= |event.props|
      && WellFormedProperty(event, stackTop.index)
      && lastError == Success
    }

    /** The extent of the current property's value has been found, or found not to fit. */
    ghost predicate Measured()
      reads this, integerValues
      requires Ready()
    {
      var p := event.props[stackTop.index];
      && cookedInType == CookedType(p.inType)
      && element == ElementSize(p.inType, event.pointerSize)
      && match MeasureShape(event, p, dataNext, integerValues[..])
         case None => raw > |event.data| - dataNext
         case Some(x) => cookedPos == dataNext + x.skip && cooked == x.cooked && raw == x.raw
    }

    /** The enumerator stopped because a struct could not be entered. */
    ghost predicate OutOfStack()
      reads this
    {
      subState == InError && lastError == OutOfMemory && |stack| >= stackLimit
    }

    /** A successful StartEventWithTraceEventInfo. */
    constructor (event: Event, stackLimit: nat)
      requires WellFormed(event)
      ensures this.event == event && this.stackLimit == stackLimit && Ok()
      ensures Abs() == Machine.Reset(event, seq(|event.props|, _ => 0xffff))
    {
      this.event := event;
      this.stackLimit := stackLimit;
      this.integerValues := new U16[|event.props|](_ => 0xffff);
      this.cookedPos, this.cooked, this.raw, this.element := 0, 0, 0, 0;
      this.cookedInType := InType.Null;
      this.dataNext := 0;
      this.stack := [];
      this.stackTop := Frame(0, Wrap16(event.topLevel), 0, 0, false, false);
      this.state, this.subState := StateBeforeFirstItem, BeforeFirst;
      this.lastError := Success;
      new;
      assert integerValues[..] == seq(|event.props|, _ => 0xffff);
    }

    /** ResetImpl: back to the start, keeping the integer table. */
    method Reset()
      requires WellFormed(event) && integerValues.Length == |event.props|
      modifies this
      ensures Ok() && Abs() == Machine.Reset(event, old(integerValues[..]))
    {
      dataNext := 0;
      stack := [];
      stackTop := stackTop.(index := 0, end := Wrap16(event.topLevel));
      SetState(StateBeforeFirstItem, BeforeFirst);
      lastError := Success;
    }

    method SetState(newState: PublicState, newSub: Sub)
      modifies this`state, this`subState
      ensures state == newState && subState == newSub
    {
      state, subState := newState, newSub;
    }

    method SetErrorState(error: Status) returns (moved: bool)
      modifies this`state, this`subState, this`lastError
      ensures state == StateError && subState == InError && lastError == error && !moved
    {
      state, subState, lastError := StateError, InError, error;
      moved := false;
    }

    method SetEndState(newState: PublicState, newSub: Sub)
      modifies this`cookedPos, this`cooked, this`raw, this`state, this`subState
      ensures cookedPos == dataNext && cooked == 0 && raw == 0 && state == newState && subState == newSub
    {
      cookedPos, cooked, raw := dataNext, 0, 0;
      state, subState := newState, newSub;
    }

    /** CurrentPropertyLength. */
    method CurrentPropertyLength() returns (hasLength: bool, length: U16)
      requires Ready()
      ensures PropertyLength(event.props[stackTop.index], integerValues[..])
        == if hasLength then Some(length) else None
      ensures !hasLength ==> length == 0
    {
      var p := event.props[stackTop.index];
      assert WellFormedProperty(event, stackTop.index);
      if p.paramLength {
        hasLength, length := true, integerValues[p.length];
      } else if p.length != 0 || p.paramFixedLength {
        hasLength, length := true, p.length;
      } else {
        hasLength, length := false, 0;
      }
    }

    /** unaligned_wcsnlen, the loop. */
    method CountWideChars(max: nat) returns (i: nat)
      requires dataNext + 2 * max <= |event.data|
      ensures i == WideLength(event.data, dataNext, max)
    {
      i := 0;
      while i != max
        invariant i <= max
        invariant WideLength(event.data, dataNext, max) == i + WideLength(event.data, dataNext + 2 * i, max - i)
      {
        if WideNul(event.data, dataNext + 2 * i) {
          break;
        }
        i := i + 1;
      }
    }

    /** StartValueCounted and StartValueReversedCounted. */
    method StartValueCounted(bigEndian: bool)
      requires Start(event, dataNext, integerValues[..])
      modifies this`raw, this`cooked, this`cookedPos
      ensures if |event.data| - dataNext < 2 then raw == 2 && cooked == old(cooked) && cookedPos == old(cookedPos)
        else
          && cookedPos == dataNext + 2
          && cooked == CountAt(event.data, dataNext, bigEndian) && raw == Wrap16(cooked as nat + 2)
    {
      var remaining := |event.data| - dataNext;
      if remaining < 2 {
        raw := 2;
      } else {
        cookedPos := dataNext + 2;
        cooked := CountAt(event.data, dataNext, bigEndian);
        raw := Wrap16(cooked as nat + 2);
      }
    }

    /** The types whose size is fixed: sizes only; the payload check comes later. */
    method MeasureFixed(size: U16)
      requires Ready() && cookedPos == dataNext
      requires ShapeOf(event.props[stackTop.index].inType, event.pointerSize) == Fixed(size)
      requires cookedInType == CookedType(event.props[stackTop.index].inType)
      modifies this`raw, this`cooked, this`element
      ensures Measured() && raw == cooked == element == size
    {
      raw, cooked, element := size, size, size;
    }

    /** TDH_INTYPE_UINT8, UINT16, UINT32 and HEXINT32: remembers the integer for later lengths and counts. */
    method StartInteger(size: U16) returns (done: bool)
      requires Ready() && cookedPos == dataNext
      requires IsReferable(event.props[stackTop.index].inType)
      requires ShapeOf(event.props[stackTop.index].inType, event.pointerSize) == Fixed(size)
      requires cookedInType == CookedType(event.props[stackTop.index].inType)
      modifies this`raw, this`cooked, this`element, integerValues
      ensures Ready() && Measured()
      ensures raw == size && done == (size <= |event.data| - dataNext)
      ensures MeasureShape(event, event.props[stackTop.index], dataNext, integerValues[..])
        == MeasureShape(event, event.props[stackTop.index], dataNext, old(integerValues[..]))
      ensures integerValues[..]
        == if done then Remember(event, stackTop.index, dataNext, old(integerValues[..])) else old(integerValues[..])
    {
      MeasureFixed(size);
      done := false;
      if raw <= |event.data| - dataNext {
        var value := LittleEndian(event.data[dataNext..dataNext + size]);
        integerValues[stackTop.index] := if value > 0xffff then 0xffff else value;
        done := true;
      }
    }

    /** TDH_INTYPE_UNICODESTRING. */
    method StartWideString() returns (done: bool)
      requires Ready() && cookedPos == dataNext && element == 0
      requires event.props[stackTop.index].inType == UnicodeString == cookedInType
      modifies this`raw, this`cooked
      ensures Measured() && (done ==> raw <= |event.data| - dataNext)
    {
      var remaining := |event.data| - dataNext;
      var hasLength, length := CurrentPropertyLength();
      done := !hasLength;
      if hasLength {
        cooked := Wrap16(2 * length as nat);
        raw := cooked;
      } else {
        var count := CountWideChars(remaining / 2);
        cooked := count * 2;
        raw := if remaining / 2 == count then remaining else cooked + 2;
      }
    }

    /** TDH_INTYPE_ANSISTRING. */
    method StartNarrowString() returns (done: bool)
      requires Ready() && cookedPos == dataNext && element == 0
      requires event.props[stackTop.index].inType == AnsiString == cookedInType
      modifies this`raw, this`cooked
      ensures Measured() && (done ==> raw <= |event.data| - dataNext)
    {
      var remaining := |event.data| - dataNext;
      var hasLength, length := CurrentPropertyLength();
      done := !hasLength;
      if hasLength {
        raw, cooked := length, length;
      } else {
        var count := NarrowLength(event.data, dataNext, remaining);
        cooked := count;
        raw := if remaining == count then remaining else cooked + 1;
      }
    }

    /** TDH_INTYPE_BINARY; 16 bytes when an IPv6 address was declared without a length. */
    method MeasureBinary()
      requires Ready() && cookedPos == dataNext && element == 0
      requires event.props[stackTop.index].inType == Binary == cookedInType
      modifies this`raw, this`cooked
      ensures Measured()
    {
      var hasLength, length := CurrentPropertyLength();
      if !hasLength && event.props[stackTop.index].outIPv6 {
        length := 16;
      }
      raw, cooked := length, length;
    }

    /** The counted types: a two-byte size in either byte order. */
    method MeasureCounted(bigEndian: bool, cookedType: InType)
      requires Ready() && cookedPos == dataNext && element == 0
      requires ShapeOf(event.props[stackTop.index].inType, event.pointerSize) == Counted(bigEndian)
      requires cookedType == CookedType(event.props[stackTop.index].inType)
      modifies this`raw, this`cooked, this`cookedPos, this`cookedInType
      ensures Measured()
    {
      cookedInType := cookedType;
      StartValueCounted(bigEndian);
      if cookedType == UnicodeString {
        cooked := RoundEven(cooked);
      }
    }

    /** TDH_INTYPE_HEXDUMP: a four-byte size of which the low half is used. */
    method MeasureHexDump()
      requires Ready() && cookedPos == dataNext && element == 0
      requires event.props[stackTop.index].inType == HexDump
      modifies this`raw, this`cooked, this`cookedPos, this`cookedInType
      ensures Measured()
    {
      cookedInType := Binary;
      if |event.data| - dataNext < 4 {
        raw := 4;
      } else {
        cookedPos := dataNext + 4;
        cooked := CountAt(event.data, dataNext, false);
        raw := Wrap16(cooked as nat + 4);
      }
    }

    /** The strings that take everything that is left. */
    method MeasureRemainder(cookedType: InType)
      requires Ready() && cookedPos == dataNext && element == 0
      requires ShapeOf(event.props[stackTop.index].inType, event.pointerSize) == Remainder
      requires cookedType == CookedType(event.props[stackTop.index].inType)
      modifies this`raw, this`cooked, this`cookedInType
      ensures Measured()
    {
      var remaining := |event.data| - dataNext;
      cookedInType := cookedType;
      cooked := if cookedType == UnicodeString then RoundEven(remaining) else remaining;
      raw := remaining;
    }

    /** TDH_INTYPE_SID, and TDH_INTYPE_WBEMSID with its TOKEN_USER prefix. */
    method MeasureSid(skip: nat)
      requires Ready() && cookedPos == dataNext && element == 0
      requires ShapeOf(event.props[stackTop.index].inType, event.pointerSize) == SecurityId(skip) && skip <= 16
      modifies this`raw, this`cooked, this`cookedPos, this`cookedInType
      ensures Measured()
    {
      cookedInType := Sid;
      if |event.data| - dataNext < skip + 8 {
        raw := skip + 8;
      } else {
        cookedPos := cookedPos + skip;
        cooked := 8 + event.data[dataNext + skip + 1] as int * 4;
        raw := Wrap16(skip + cooked);
      }
    }

    /** TDH_INTYPE_NULL. */
    method MeasureEmpty()
      requires Ready() && cookedPos == dataNext && element == 0
      requires event.props[stackTop.index].inType == InType.Null == cookedInType
      modifies this`raw, this`cooked
      ensures Measured()
    {
      raw, cooked := 0, 0;
    }

    /** The switch of StartValue, the types without a fixed size. */
    method MeasureVariable() returns (done: bool)
      requires Ready() && cookedPos == dataNext && element == 0
      requires cookedInType == event.props[stackTop.index].inType
      requires var shape := ShapeOf(event.props[stackTop.index].inType, event.pointerSize);
        !shape.Unknown? && !shape.Fixed?
      modifies this`cookedPos, this`cooked, this`raw, this`cookedInType
      ensures Measured() && (done ==> raw <= |event.data| - dataNext)
    {
      hide MeasureShape;
      done := false;
      match event.props[stackTop.index].inType {
        case UnicodeString => done := StartWideString();
        case AnsiString => done := StartNarrowString();
        case Binary => MeasureBinary();
        case ManifestCountedString | CountedString => MeasureCounted(false, UnicodeString);
        case ReversedCountedString => MeasureCounted(true, UnicodeString);
        case ManifestCountedAnsiString | CountedAnsiString => MeasureCounted(false, AnsiString);
        case ReversedCountedAnsiString => MeasureCounted(true, AnsiString);
        case ManifestCountedBinary => MeasureCounted(false, Binary);
        case HexDump => MeasureHexDump();
        case NonNullTerminatedString => MeasureRemainder(UnicodeString);
        case NonNullTerminatedAnsiString => MeasureRemainder(AnsiString);
        case Null => MeasureEmpty();
        case Sid => MeasureSid(0);
        case WbemSid => MeasureSid(2 * event.pointerSize);
      }
    }

    /** The switch of StartValue; `done` when the value is already known to fit. */
    method MeasureValue() returns (done: bool)
      requires Ready() && cookedPos == dataNext && element == 0
      requires cookedInType == event.props[stackTop.index].inType
      requires !ShapeOf(event.props[stackTop.index].inType, event.pointerSize).Unknown?
      modifies this`cookedPos, this`cooked, this`raw, this`cookedInType, this`element, integerValues
      ensures Ready() && Measured()
      ensures done ==> raw <= |event.data| - dataNext
      ensures raw <= |event.data| - dataNext ==>
        integerValues[..] == Remember(event, stackTop.index, dataNext, old(integerValues[..]))
      ensures raw > |event.data| - dataNext ==> integerValues[..] == old(integerValues[..])
      ensures MeasureShape(event, event.props[stackTop.index], dataNext, integerValues[..])
        == MeasureShape(event, event.props[stackTop.index], dataNext, old(integerValues[..]))
    {
      hide MeasureShape;
      var t := event.props[stackTop.index].inType;
      if t.UInt8? {
        done := StartInteger(1);
      } else if t.UInt16? {
        done := StartInteger(2);
      } else if t.UInt32? || t.HexInt32? {
        done := StartInteger(4);
      } else {
        done := MeasureOther();
      }
    }

    /** The switch of StartValue, the types that are not remembered. */
    method MeasureOther() returns (done: bool)
      requires Ready() && cookedPos == dataNext && element == 0
      requires cookedInType == event.props[stackTop.index].inType
      requires !IsReferable(cookedInType) && !cookedInType.Unrecognized?
      modifies this`cookedPos, this`cooked, this`raw, this`cookedInType, this`element
      ensures Measured() && (done ==> raw <= |event.data| - dataNext)
    {
      hide MeasureShape;
      done := false;
      match event.props[stackTop.index].inType {
        case Int8 | AnsiChar => MeasureFixed(1);
        case Int16 | UnicodeChar => MeasureFixed(2);
        case Int32 | Float | Boolean => MeasureFixed(4);
        case Int64 | UInt64 | Double | FileTime | HexInt64 => MeasureFixed(8);
        case Guid | SystemTime => MeasureFixed(16);
        case Pointer | SizeT => MeasureFixed(event.pointerSize);
        case UnicodeString | AnsiString | Binary
           | ManifestCountedString | CountedString | ReversedCountedString
           | ManifestCountedAnsiString | CountedAnsiString | ReversedCountedAnsiString
           | ManifestCountedBinary | HexDump | NonNullTerminatedString | NonNullTerminatedAnsiString
           | Null | Sid | WbemSid =>
          done := MeasureVariable();
      }
    }

    /** StartValue: measures the value of the current property, and checks that it fits. */
    method StartValue() returns (moved: bool)
      requires Ready() && !stackTop.isStruct && !event.props[stackTop.index].isStruct
      modifies this`cookedPos, this`cooked, this`raw, this`cookedInType, this`element
      modifies this`state, this`subState, this`lastError, integerValues
      ensures var s := old(Fields());
        match DecodeValue(event, s.top.index, s.pos, s.ints)
        case Rejected(error) => !moved && Abs() == Fail(s, error) && state == StateError
        case Read(item, ints) =>
          moved && Fields() == s.(item := item, ints := ints, lastError := Success) && state == old(state)
    {
      hide MeasureShape, Remember, ShapeOf, CookedType;
      var p := event.props[stackTop.index];
      cookedPos := dataNext;
      cookedInType := p.inType;
      element := 0;

      OnlyUnrecognized(p.inType, event.pointerSize);
      if p.inType.Unrecognized? {
        raw, cooked := 0, 0;
        moved := SetErrorState(UnsupportedType);
        return;
      }
      moved := MeasureValue();
      if moved {
        lastError := Success;
      } else if |event.data| - dataNext < raw {
        raw, cooked := 0, 0;
        moved := SetErrorState(InvalidData);
      } else {
        lastError, moved := Success, true;
      }
    }

    /** StartStruct. */
    method StartStruct()
      requires lastError == Success
      modifies this`cookedPos, this`cooked, this`raw, this`cookedInType, this`element, this`state, this`subState
      ensures Fields() == OpenStruct(old(Fields())) && state == StateStructBegin
    {
      cookedPos, cooked, raw := dataNext, 0, 0;
      cookedInType := InType.Null;
      element := 0;
      SetState(StateStructBegin, AtStructBegin);
    }

    /** The switch of StartArray: the type and size of the elements. */
    method ClassifyElements() returns (supported: bool)
      requires Ready() && element == 0
      requires cookedInType == event.props[stackTop.index].inType
      modifies this`cookedInType, this`element
      ensures var p := event.props[stackTop.index];
        && supported == (p.isStruct || !ShapeOf(p.inType, event.pointerSize).Unknown?)
        && (supported ==> cookedInType == ArrayType(p) && element == ArrayElement(event, p))
    {
      var p := event.props[stackTop.index];
      supported := true;
      if p.isStruct {
        cookedInType := InType.Null;
        return;
      }
      match p.inType {
        case Int8 | UInt8 | AnsiChar => element := 1;
        case Int16 | UInt16 | UnicodeChar => element := 2;
        case Int32 | UInt32 | HexInt32 | Float | Boolean => element := 4;
        case Int64 | UInt64 | Double | FileTime | HexInt64 => element := 8;
        case Guid | SystemTime => element := 16;
        case Pointer | SizeT => element := event.pointerSize;
        case Null | UnicodeString | AnsiString | Binary | Sid =>
        case ManifestCountedString | CountedString | ReversedCountedString | NonNullTerminatedString =>
          cookedInType := UnicodeString;
        case ManifestCountedAnsiString | CountedAnsiString | ReversedCountedAnsiString | NonNullTerminatedAnsiString =>
          cookedInType := AnsiString;
        case ManifestCountedBinary | HexDump => cookedInType := Binary;
        case WbemSid => cookedInType := Sid;
        case Unrecognized(_) => supported := false;
      }
    }

    /** StartArray: decides the element size and, when there is one, checks the whole array against the payload. */
    method StartArray() returns (moved: bool)
      requires Ready() && stackTop.isStruct == event.props[stackTop.index].isStruct
      modifies this`cookedPos, this`cooked, this`raw, this`cookedInType, this`element
      modifies this`state, this`subState, this`lastError
      ensures Abs() == OpenArray(event, old(Fields())) && state == PublicOf(subState) && moved == OnItem(Abs())
    {
      hide ShapeOf, Bytes, ArrayType, ArrayElement, WellFormed, WellFormedProperty, OpenArray, PropertyLength;
      ghost var before := Fields();
      cookedPos, cooked, raw, cookedInType, element := dataNext, 0, 0, event.props[stackTop.index].inType, 0;
      SetState(StateArrayBegin, AtArrayBegin);
      var supported := ClassifyElements();
      if supported {
        moved := AcceptArray();
      } else {
        moved := SetErrorState(UnsupportedType);
      }
      OpensArray(event, before, Fields(), supported);
    }

    /** Arrays of elements without a fixed size are checked element by element, others as a whole. */
    method AcceptArray() returns (moved: bool)
      requires Start(event, dataNext, integerValues[..]) && state == StateArrayBegin && subState == AtArrayBegin
      requires cookedPos == dataNext && cooked == 0 && raw == 0 && lastError == Success
      modifies this`cooked, this`raw, this`state, this`subState, this`lastError
      ensures moved == (Bytes(stackTop.arrayCount, element) <= |event.data| - dataNext)
      ensures if moved
        then Fields() == old(Fields()).(item := Item(dataNext, Bytes(stackTop.arrayCount, element),
               Bytes(stackTop.arrayCount, element), cookedInType, element)) && state == StateArrayBegin
        else Abs() == Fail(old(Fields()), InvalidData) && state == StateError
    {
      hide Bytes;
      NoBytes(stackTop.arrayCount);
      if element == 0 {
        lastError, moved := Success, true;
      } else {
        moved := CheckArray();
      }
    }

    /** The check that the whole array is there, so that no element needs a check of its own. */
    method CheckArray() returns (moved: bool)
      requires Start(event, dataNext, integerValues[..]) && state == StateArrayBegin && subState == AtArrayBegin
      modifies this`cooked, this`raw, this`state, this`subState, this`lastError
      ensures moved == (Bytes(stackTop.arrayCount, element) <= |event.data| - dataNext)
      ensures if moved
        then Fields() == old(Fields()).(item := Item(cookedPos, Bytes(stackTop.arrayCount, element),
               Bytes(stackTop.arrayCount, element), cookedInType, element)) && state == StateArrayBegin
        else Abs() == Fail(old(Fields()), InvalidData) && state == StateError
    {
      var total := Bytes(stackTop.arrayCount, element);
      if |event.data| - dataNext < total {
        moved := SetErrorState(InvalidData);
      } else {
        raw, cooked := Wrap16(total), Wrap16(total);
        moved := true;
      }
    }

    /** StartValueSimple: every assertion of the original is a precondition here. */
    method StartValueSimple()
      requires stackTop.arrayIndex < stackTop.arrayCount && !stackTop.isStruct && stackTop.isArray
      requires element != 0 && cooked == element && raw == element
      requires dataNext + raw <= |event.data| && state == StateValue
      modifies this`cookedPos
      ensures cookedPos == dataNext
    {
      cookedPos := dataNext;
    }

    /** NextProperty: starts the property that `stackTop` was just moved to, or leaves the group. */
    method NextProperty() returns (moved: bool)
      requires Start(event, dataNext, integerValues[..]) && Frames(event, stack) && lastError == Success
      requires stackTop.index <= stackTop.end <= |event.props|
      modifies this`cookedPos, this`cooked, this`raw, this`cookedInType, this`element, this`stackTop, this`stack
      modifies this`state, this`subState, this`lastError, integerValues
      ensures Abs() == Enter(event, old(Fields())) && state == PublicOf(subState) && moved == OnItem(Abs())
    {
      hide DecodeValue, OpenArray, WellFormed, WellFormedProperty;
      if stackTop.end == stackTop.index {
        moved := LeaveGroup();
      } else {
        moved := StartProperty();
      }
    }

    /** NextProperty, behind the last property of the event or of a struct. */
    method LeaveGroup() returns (moved: bool)
      requires Start(event, dataNext, integerValues[..]) && Frames(event, stack) && lastError == Success
      requires stackTop.index == stackTop.end <= |event.props|
      modifies this`cookedPos, this`cooked, this`raw, this`cookedInType, this`element, this`stackTop, this`stack
      modifies this`state, this`subState, this`lastError
      ensures Abs() == Enter(event, old(Fields())) && state == PublicOf(subState) && moved == OnItem(Abs())
    {
      hide DecodeValue, OpenArray, WellFormed, WellFormedProperty;
      if |stack| == 0 {
        SetEndState(StateAfterLastItem, AfterLast);
        lastError, moved := Success, false;
      } else {
        stackTop := stack[|stack| - 1];
        stack := stack[..|stack| - 1];
        cookedInType := InType.Null;
        element := 0;
        SetEndState(StateStructEnd, AtStructEnd);
        lastError, moved := Success, true;
      }
    }

    /** NextProperty, when there is a property to start. */
    method StartProperty() returns (moved: bool)
      requires Start(event, dataNext, integerValues[..]) && lastError == Success
      requires stackTop.index < stackTop.end <= |event.props|
      modifies this`cookedPos, this`cooked, this`raw, this`cookedInType, this`element, this`stackTop
      modifies this`state, this`subState, this`lastError, integerValues
      ensures Abs() == Enter(event, old(Fields())) && state == PublicOf(subState) && moved == OnItem(Abs())
    {
      hide DecodeValue, OpenArray, WellFormedProperty;
      var p := event.props[stackTop.index];
      assert WellFormedProperty(event, stackTop.index);
      CountIsIndex(event, stackTop.index);
      if !p.isStruct && !p.paramCount && !p.paramFixedCount && p.count == 1 {
        stackTop := stackTop.(arrayIndex := 0, arrayCount := 1, isStruct := false, isArray := false);
        SetState(StateValue, Scalar);
        moved := StartValue();
        return;
      }
      stackTop := stackTop.(arrayIndex := 0, isStruct := p.isStruct);
      if p.paramCount {
        stackTop := stackTop.(arrayCount := integerValues[p.count], isArray := true);
        moved := StartArray();
      } else if p.count != 1 || p.paramFixedCount {
        stackTop := stackTop.(arrayCount := p.count, isArray := true);
        moved := StartArray();
      } else {
        stackTop := stackTop.(arrayCount := p.count, isArray := false);
        StartStruct();
        moved := true;
      }
    }

    /** MoveNext from a value of an array with fixed-size elements: no per-element check. */
    method MoveInSimpleArray()
      requires Ok() && subState == SimpleElement
      modifies this`dataNext, this`cookedPos, this`cooked, this`raw, this`stackTop, this`state, this`subState
      ensures Ok() && Abs() == Next(event, old(Abs()))
    {
      hide ShapeOf, CookedType, Bytes;
      assert state == StateValue && !stackTop.isStruct && stackTop.isArray;
      assert stackTop.arrayIndex < stackTop.arrayCount && element != 0;
      OneElement(stackTop.arrayCount - stackTop.arrayIndex, element);
      dataNext := dataNext + raw;
      stackTop := stackTop.(arrayIndex := stackTop.arrayIndex + 1);
      if stackTop.arrayCount == stackTop.arrayIndex {
        SetEndState(StateArrayEnd, AtArrayEnd);
      } else {
        OneElement(stackTop.arrayCount - stackTop.arrayIndex, element);
        StartValueSimple();
      }
    }

    /** MoveNext from a value of an array whose elements have no fixed size. */
    method MoveInComplexArray() returns (moved: bool)
      requires Ok() && subState == ComplexElement
      modifies this`dataNext, this`cookedPos, this`cooked, this`raw, this`cookedInType, this`element, this`stackTop
      modifies this`state, this`subState, this`lastError, integerValues
      ensures Abs() == Next(event, old(Abs())) && state == PublicOf(subState) && moved == OnItem(Abs())
    {
      hide DecodeValue, ShapeOf, CookedType;
      assert WellFormedProperty(event, stackTop.index);
      assert state == StateValue && !stackTop.isStruct && stackTop.isArray;
      assert stackTop.arrayIndex < stackTop.arrayCount && element == 0;
      dataNext := dataNext + raw;
      stackTop := stackTop.(arrayIndex := stackTop.arrayIndex + 1);
      if stackTop.arrayCount == stackTop.arrayIndex {
        SetEndState(StateArrayEnd, AtArrayEnd);
        moved := true;
      } else {
        moved := StartValue();
      }
    }

    /** MoveNext from the begin item of an array. */
    method MoveIntoArray() returns (moved: bool)
      requires Ok() && subState == AtArrayBegin
      modifies this`cookedPos, this`cooked, this`raw, this`cookedInType, this`element
      modifies this`state, this`subState, this`lastError, integerValues
      ensures Abs() == Next(event, old(Abs())) && state == PublicOf(subState) && moved == OnItem(Abs())
    {
      hide DecodeValue, ShapeOf, CookedType, Bytes;
      assert WellFormedProperty(event, stackTop.index);
      assert state == StateArrayBegin && stackTop.isArray && stackTop.arrayIndex == 0;
      moved := true;
      if stackTop.arrayCount == 0 {
        SetEndState(StateArrayEnd, AtArrayEnd);
      } else if element != 0 {
        assert !stackTop.isStruct;
        OneElement(stackTop.arrayCount, element);
        cooked := element;
        raw := cooked;
        SetState(StateValue, SimpleElement);
        StartValueSimple();
      } else if !stackTop.isStruct {
        SetState(StateValue, ComplexElement);
        moved := StartValue();
      } else {
        StartStruct();
      }
    }

    /** MoveNext from the end item of a struct. */
    method MoveFromStruct() returns (moved: bool)
      requires Ok() && subState == AtStructEnd
      modifies this`cookedPos, this`cooked, this`raw, this`cookedInType, this`element, this`stackTop, this`stack
      modifies this`state, this`subState, this`lastError, integerValues
      ensures Abs() == Next(event, old(Abs())) && state == PublicOf(subState) && moved == OnItem(Abs())
    {
      hide Enter, ShapeOf, CookedType;
      assert state == StateStructEnd && stackTop.isStruct && raw == 0;
      stackTop := stackTop.(arrayIndex := stackTop.arrayIndex + 1);
      if stackTop.arrayCount != stackTop.arrayIndex {
        assert stackTop.isArray && stackTop.arrayIndex < stackTop.arrayCount;
        StartStruct();
        moved := true;
      } else if stackTop.isArray {
        SetEndState(StateArrayEnd, AtArrayEnd);
        moved := true;
      } else {
        stackTop := stackTop.(index := stackTop.index + 1);
        moved := this.NextProperty();
      }
    }

    /** MoveNext from the begin item of a struct, when the stack can grow. */
    method MoveIntoStruct() returns (moved: bool)
      requires Ok() && subState == AtStructBegin
      modifies this`cookedPos, this`cooked, this`raw, this`cookedInType, this`element, this`stackTop, this`stack
      modifies this`state, this`subState, this`lastError, integerValues
      ensures Abs() == Next(event, old(Abs())) && state == PublicOf(subState) && moved == OnItem(Abs())
    {
      hide Enter, ShapeOf, CookedType;
      assert WellFormedProperty(event, stackTop.index);
      assert state == StateStructBegin;
      ghost var before := stack;
      stack := stack + [stackTop];
      assert forall j :: 0 <= j < |stack| ==> stack[j] == if j < |before| then before[j] else stackTop;
      var p := event.props[stackTop.index];
      stackTop := stackTop.(index := p.structStart, end := Wrap16(p.structStart + p.structMembers));
      moved := this.NextProperty();
    }

    /** MoveNext; calling it before the first or after the last possible move is an error, too. */
    method MoveNext() returns (moved: bool)
      requires Ok()
      modifies this, integerValues
      ensures Ok() && moved == OnItem(Abs())
      ensures if !CanMove(old(Abs())) then Abs() == Fail(old(Fields()), InvalidState)
        else if old(subState) == AtStructBegin && old(|stack|) >= stackLimit then Abs() == Fail(old(Abs()), OutOfMemory)
        else Abs() == Next(event, old(Abs()))
    {
      hide Enter, Rest, SubStateAgrees;
      if CanMove(Abs()) {
        NextRefines(event, Abs());
      }
      match subState {
        case BeforeFirst =>
          EnterIgnores(event, Abs(), Fields());
          moved := this.NextProperty();
        case Scalar =>
          moved := MoveFromScalar();
        case SimpleElement =>
          MoveInSimpleArray();
          moved := true;
        case ComplexElement =>
          moved := MoveInComplexArray();
        case AtArrayBegin =>
          moved := MoveIntoArray();
        case AtArrayEnd =>
          moved := MoveFromArray();
        case AtStructBegin =>
          if |stack| >= stackLimit {
            moved := SetErrorState(OutOfMemory);
          } else {
            moved := MoveIntoStruct();
          }
        case AtStructEnd =>
          moved := MoveFromStruct();
        case _ =>
          moved := SetErrorState(InvalidState);
      }
    }

    /** MoveNext from the end item of an array. */
    method MoveFromArray() returns (moved: bool)
      requires Ok() && subState == AtArrayEnd
      modifies this`cookedPos, this`cooked, this`raw, this`cookedInType, this`element, this`stackTop, this`stack
      modifies this`state, this`subState, this`lastError, integerValues
      ensures Abs() == Next(event, old(Abs())) && state == PublicOf(subState) && moved == OnItem(Abs())
    {
      hide Enter, ShapeOf, CookedType;
      assert state == StateArrayEnd && stackTop.isArray && stackTop.arrayCount == stackTop.arrayIndex;
      stackTop := stackTop.(index := stackTop.index + 1);
      moved := this.NextProperty();
    }

    /** MoveNext from a value that is not in an array. */
    method MoveFromScalar() returns (moved: bool)
      requires Ok() && subState == Scalar
      modifies this`dataNext, this`cookedPos, this`cooked, this`raw, this`cookedInType, this`element, this`stackTop
      modifies this`stack, this`state, this`subState, this`lastError, integerValues
      ensures Abs() == Next(event, old(Abs())) && state == PublicOf(subState) && moved == OnItem(Abs())
    {
      hide Enter, ShapeOf, CookedType;
      assert state == StateValue && !stackTop.isStruct && !stackTop.isArray;
      dataNext := dataNext + raw;
      stackTop := stackTop.(index := stackTop.index + 1);
      moved := this.NextProperty();
    }

    /** The shortcut of MoveNextSibling over an array of fixed-size elements. */
    method JumpOverSimpleArray() returns (moved: bool)
      requires Ok() && subState == AtArrayBegin && element != 0
      modifies this, integerValues
      ensures Ok() && moved == OnItem(Abs()) && Abs() == Jump(event, old(Abs()))
    {
      hide Enter, ShapeOf, CookedType, Bytes, Walk, Rest;
      JumpIsWalk(event, Abs(), 0);
      assert state == StateArrayBegin && stackTop.isArray && stackTop.arrayIndex == 0 && !stackTop.isStruct;
      dataNext := dataNext + Bytes(stackTop.arrayCount, element);
      stackTop := stackTop.(index := stackTop.index + 1);
      moved := this.NextProperty();
    }

    /**
     MoveNextSibling: ends exactly where calling MoveNext past the end of the current item would end,
     although it does not visit the elements of simple arrays.
     */
    method MoveNextSibling() returns (moved: bool)
      requires Ok() && CanMove(Abs())
      modifies this, integerValues
      ensures Ok() && moved == OnItem(Abs())
      ensures Abs() == (if old(OnItem(Abs())) then Walk(event, old(Abs()), 0).end else Next(event, old(Abs())))
        || OutOfStack()
    {
      hide Next, Walk, Rest, SubStateAgrees;
      ghost var start := Abs();
      var depth: int := 0;
      while true
        invariant Ok() && CanMove(Abs())
        invariant depth == 0 ==> Abs() == start
        invariant depth >= 0 && (depth > 0 ==> OnItem(start) && OnItem(Abs()))
        invariant OnItem(start) ==> Walk(event, Abs(), depth).end == Walk(event, start, 0).end
        decreases |Rest(event, Abs()).visits|
      {
        ghost var s := Abs();
        if OnItem(s) {
          WalkUnfolds(event, s, depth);
        }
        if subState == AtArrayBegin && element != 0 {
          JumpIsWalk(event, s, depth);
          moved := JumpOverSimpleArray();
        } else {
          depth := depth + if subState == AtArrayEnd || subState == AtStructEnd then -1
            else if subState == AtStructBegin || subState == AtArrayBegin then 1 else 0;
          NextShrinks(event, s);
          moved := this.MoveNext();
        }
        if !(depth > 0 && moved) {
          break;
        }
      }
    }
  }
}
