/** The property table of an event (TRACE_EVENT_INFO) together with the event's payload. */
module Schema {
  import opened Basics

  /** TDH_INTYPE values; `Unrecognized` stands for every code the decoder rejects. */
  datatype InType =
    | Null | UnicodeString | AnsiString
    | Int8 | UInt8 | Int16 | UInt16 | Int32 | UInt32 | Int64 | UInt64
    | Float | Double | Boolean | Binary | Guid | Pointer | FileTime | SystemTime | Sid
    | HexInt32 | HexInt64
    | ManifestCountedString | ManifestCountedAnsiString | ManifestCountedBinary
    | CountedString | CountedAnsiString | ReversedCountedString | ReversedCountedAnsiString
    | NonNullTerminatedString | NonNullTerminatedAnsiString
    | UnicodeChar | AnsiChar | SizeT | HexDump | WbemSid
    | Unrecognized(code: U16)

  /**
   One EVENT_PROPERTY_INFO. `count` and `length` are the C++ unions: they hold a property
   index instead of a number when `paramCount` or `paramLength` is set.
   */
  datatype Property = Property(
    name: string,
    isStruct: bool,
    paramCount: bool,
    paramFixedCount: bool,
    paramLength: bool,
    paramFixedLength: bool,
    count: U16,
    length: U16,
    inType: InType,
    outIPv6: bool,
    structStart: U16,
    structMembers: U16)

  datatype Event = Event(props: seq<Property>, topLevel: nat, data: seq<Byte>, pointerSize: nat)

  /**
   What the decoder takes for granted about an event: sizes fit in 16 bits (so USHORT sums
   do not wrap), references and struct member ranges lie inside the table, and the members of
   a struct come after the struct itself and after all top-level properties.
   */
  ghost predicate WellFormed(e: Event) {
    && |e.props| < 0x1_0000
    && e.topLevel <= |e.props|
    && |e.data| < 0x1_0000
    && (e.pointerSize == 4 || e.pointerSize == 8)
    && forall i :: 0 <= i < |e.props| ==> WellFormedProperty(e, i)
  }

  ghost predicate WellFormedProperty(e: Event, i: nat)
    requires i < |e.props|
  {
    var p := e.props[i];
    && (p.paramCount ==> p.count < |e.props|)
    && (p.paramLength ==> p.length < |e.props|)
    && (p.isStruct ==>
          i < p.structStart && e.topLevel <= p.structStart
          && p.structStart + p.structMembers <= |e.props|)
  }

  /** One past the last member of a struct property (USHORT arithmetic). */
  function MemberEnd(p: Property): U16 {
    Wrap16(p.structStart + p.structMembers)
  }

  /** Neither a struct nor an array: the property is one value. */
  predicate IsScalar(p: Property) {
    !p.isStruct && !p.paramCount && !p.paramFixedCount && p.count == 1
  }

  /** A property is an array when its count is a reference, is not one, or is marked as fixed. */
  predicate IsArray(p: Property) {
    p.paramCount || p.count != 1 || p.paramFixedCount
  }
}
