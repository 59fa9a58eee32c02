/** AddCurrentEventAsJson: the event's members, then the selected metadata, as one JSON object. */
module EventJson {
  import opened Basics
  import opened Schema
  import opened Decoder
  import opened Machine
  import opened Runs
  import opened Enumerator
  import opened GrowableBuffer
  import opened FormattedText
  import opened JsonTree
  import opened JsonStructure
  import opened JsonItems
  import opened JsonPrinter
  import A = Attributes
  import D = Digits
  import J = JsonText

  /** EtwJsonSuffixFlags. */
  datatype Suffix =
    | Provider | EventName | Time | Cpu | Pid | Tid | Id | Version | Channel | Level | Opcode | Task
    | Keywords | Tags | Activity | RelatedActivity | ProcessorTime | KernelTime | UserTime | Attributes

  /** What the header, the descriptor and the property table say about the event. */
  datatype Header = Header(
    providerName: Option<string>, providerFallback: string,
    eventName: Option<string>,
    timeText: string,
    cpu: U32, processId: U32, threadId: U32,
    id: U16, version: Byte,
    channel: Byte, channelName: Option<string>,
    level: Byte, levelName: Option<string>,
    opcode: Byte, opcodeName: Option<string>,
    task: U16, taskName: Option<string>,
    keyword: nat, keywordsName: Option<string>,
    tags: U32,
    activity: Option<string>, relatedActivity: Option<string>,
    isWbem: bool, privateSession: bool, noCpuTime: bool, isTraceGuid: bool,
    processorTime: nat, kernelMilliseconds: U32, userMilliseconds: U32,
    attributes: Option<string>)

  function KeyOf(f: Suffix): string {
    match f
    case Provider => "provider"
    case EventName => "event"
    case Time => "time"
    case Cpu => "cpu"
    case Pid => "pid"
    case Tid => "tid"
    case Id => "id"
    case Version => "version"
    case Channel => "channel"
    case Level => "level"
    case Opcode => "opcode"
    case Task => "task"
    case Keywords => "keywords"
    case Tags => "tags"
    case Activity => "activity"
    case RelatedActivity => "relatedActivity"
    case ProcessorTime => "ptime"
    case KernelTime => "ktime"
    case UserTime => "utime"
    case Attributes => "attribs"
  }

  function NameOrNumber(name: Option<string>, number: nat): Rendered {
    match name
    case Some(text) => JsonString(text)
    case None => JsonLiteral(D.Decimal(number))
  }

  function Hex(n: nat): string {
    "0x" + D.Render(n, 16, true)
  }

  function AttributeOf(h: Header, name: string): Option<string> {
    if h.attributes.Some? then A.Lookup(h.attributes.value, 0, name) else None
  }

  function NumberedName(h: Header): string {
    D.Decimal(h.id) + "v" + D.Decimal(h.version)
  }

  /**
   The name of an event without a name: file and line when the attributes have both, else id and version.
   A file without a line is not dropped: it stays in front of them.
   */
  function FallbackName(h: Header): string {
    var (file, line) := (AttributeOf(h, "FILE"), AttributeOf(h, "LINE"));
    if file.Some? then file.value + (if line.Some? then line.value else NumberedName(h)) else NumberedName(h)
  }

  /** The value of a metadata member; None when the event has nothing to say there. */
  function MetaValue(f: Suffix, h: Header): Option<Rendered> {
    match f
    case Provider => Some(if h.providerName.Some? then JsonString(h.providerName.value)
      else CleanString(h.providerFallback))
    case EventName => Some(JsonString(if h.eventName.Some? then h.eventName.value else FallbackName(h)))
    case Time => Some(CleanString(h.timeText))
    case Cpu => Some(JsonLiteral(D.Decimal(h.cpu)))
    case Pid => if h.processId == 0xffff_ffff then None else Some(JsonLiteral(D.Decimal(h.processId)))
    case Tid => if h.threadId == 0xffff_ffff then None else Some(JsonLiteral(D.Decimal(h.threadId)))
    case Id => Some(JsonLiteral(D.Decimal(h.id)))
    case Version => if h.version == 0 then None else Some(JsonLiteral(D.Decimal(h.version)))
    case Channel => if h.channel == 0 then None else Some(NameOrNumber(h.channelName, h.channel))
    case Level => if h.level == 0 then None else Some(NameOrNumber(h.levelName, h.level))
    case Opcode => if h.opcode == 0 || h.isWbem then None else Some(NameOrNumber(h.opcodeName, h.opcode))
    case Task => if h.task == 0 && !h.isWbem then None else Some(NameOrNumber(h.taskName, h.task))
    case Keywords =>
      if h.keyword == 0 then None
      else Some(if h.keywordsName.Some? then JsonString(h.keywordsName.value) else CleanString(Hex(h.keyword)))
    case Tags => if h.tags == 0 then None else Some(CleanString(Hex(h.tags)))
    case Activity => if h.activity.Some? then Some(CleanString(h.activity.value)) else None
    case RelatedActivity => if h.relatedActivity.Some? then Some(CleanString(h.relatedActivity.value)) else None
    case ProcessorTime =>
      if h.privateSession && !h.isTraceGuid then Some(JsonLiteral(D.Decimal(h.processorTime))) else None
    case KernelTime =>
      if !h.privateSession && !h.noCpuTime then Some(JsonLiteral(D.Decimal(h.kernelMilliseconds))) else None
    case UserTime =>
      if !h.privateSession && !h.noCpuTime then Some(JsonLiteral(D.Decimal(h.userMilliseconds))) else None
    case Attributes => if h.attributes.Some? then Some(JsonString(h.attributes.value)) else None
  }

  /** The order of the members. */
  const ORDER: seq<Suffix> := [
    Provider, EventName, Time, Cpu, Pid, Tid, Id, Version, Channel, Level, Opcode, Task, Keywords, Tags, Activity,
    RelatedActivity, ProcessorTime, KernelTime, UserTime, Attributes]

  function MetaMembers(order: seq<Suffix>, flags: set<Suffix>, h: Header): seq<J.Member> {
    if order == [] then []
    else
      var value := MetaValue(order[0], h);
      (if order[0] in flags && value.Some? then [J.Member(KeyOf(order[0]), ValueTree(value.value))] else [])
      + MetaMembers(order[1..], flags, h)
  }

  /** The tree AddCurrentEventAsJson prints. */
  function EventTree(members: seq<J.Member>, flags: set<Suffix>, h: Header): J.Json {
    J.Object(members + if flags == {} then [] else [J.Member("meta", J.Object(MetaMembers(ORDER, flags, h)))])
  }

  /**
   GUIDs, times and the provider fallback contain nothing that JSON escapes; strings are C strings, and fit in
   32-bit sums.
   */
  ghost predicate CleanHeader(h: Header) {
    && J.Escape(h.providerFallback) == h.providerFallback && J.Escape(h.timeText) == h.timeText
    && (h.activity.Some? ==> J.Escape(h.activity.value) == h.activity.value)
    && (h.relatedActivity.Some? ==> J.Escape(h.relatedActivity.value) == h.relatedActivity.value)
    && (h.attributes.Some? ==> '\0' !in h.attributes.value)
    && forall f :: MetaValue(f, h).Some? && !(f.EventName? && h.eventName.None?) ==>
      |MetaValue(f, h).value.text| <= J.MAX_CHARS
  }

  // ------------------------------------------------------------------ well-formed values

  lemma DecimalIsLiteral(n: nat)
    ensures J.IsLiteral(D.Decimal(n))
  {
    var s := D.Decimal(n);
    D.RenderRoundTrips(n, 10, false);
    D.NoLeadingZero(n, 10, false);
    assert forall i :: 0 <= i < |s| ==> D.IsDigitOf(s[i], 10);
    assert forall i :: 0 <= i < |s| ==> IsDigit(s[i]);
    DigitsToEnd(s, 0);
    if s[0] == '0' {
      assert s == "0";
    }
  }

  lemma {:induction false} DigitsToEnd(s: string, i: nat)
    requires i <= |s| && forall j :: i <= j < |s| ==> IsDigit(s[j])
    ensures J.DigitsEnd(s, i) == |s|
    decreases |s| - i
  {
    if i == |s| {
    } else {
      DigitsToEnd(s, i + 1);
    }
  }

  lemma {:induction false} PlainTextEscapesToItself(s: string)
    requires forall i :: 0 <= i < |s| ==> !J.IsControl(s[i]) && s[i] != '"' && s[i] != '\\'
    ensures J.Escape(s) == s
  {
    if s == "" {
    } else {
      PlainTextEscapesToItself(s[1..]);
      assert [s[0]] + s[1..] == s;
    }
  }

  lemma HexIsClean(n: nat)
    ensures J.Escape(Hex(n)) == Hex(n)
  {
    D.RenderRoundTrips(n, 16, true);
    var s := D.Render(n, 16, true);
    assert forall i :: 0 <= i < |s| ==> D.IsDigitOf(s[i], 16);
    PlainTextEscapesToItself(Hex(n));
  }

  /** A member's text prints its tree, and its tree is printable. */
  lemma MetaValuePrints(f: Suffix, h: Header)
    requires CleanHeader(h) && MetaValue(f, h).Some?
    ensures var r := MetaValue(f, h).value;
      ValueText(r) == J.Print(ValueTree(r), false) && J.Printable(ValueTree(r))
  {
    hide J.Escape, J.IsLiteral, D.Decimal, Hex;
    HexIsClean(h.keyword);
    HexIsClean(h.tags);
    forall n: nat ensures J.IsLiteral(D.Decimal(n)) {
      DecimalIsLiteral(n);
    }
  }

  // ------------------------------------------------------------------ writing the metadata

  function MetaText(order: seq<Suffix>, flags: set<Suffix>, h: Header, comma: bool): string {
    MembersText(MetaMembers(order, flags, h), comma, false)
  }

  predicate NextComma(order: seq<Suffix>, flags: set<Suffix>, h: Header, comma: bool) {
    comma || MetaMembers(order, flags, h) != []
  }

  lemma {:induction false} MetaMembersJoin(a: seq<Suffix>, b: seq<Suffix>, flags: set<Suffix>, h: Header)
    ensures MetaMembers(a + b, flags, h) == MetaMembers(a, flags, h) + MetaMembers(b, flags, h)
  {
    hide MetaValue, KeyOf;
    if a == [] {
      assert a + b == b;
    } else {
      assert (a + b)[1..] == a[1..] + b;
      MetaMembersJoin(a[1..], b, flags, h);
    }
  }

  lemma {:induction false} MembersTextJoin(a: seq<J.Member>, b: seq<J.Member>, comma: bool)
    ensures MembersText(a + b, comma, false) == MembersText(a, comma, false) + MembersText(b, comma || a != [], false)
  {
    hide J.PrintMember;
    if a == [] {
      assert a + b == b;
    } else {
      assert (a + b)[1..] == a[1..] + b;
      MembersTextJoin(a[1..], b, true);
    }
  }

  lemma MetaTextJoin(before: string, a: seq<Suffix>, b: seq<Suffix>, flags: set<Suffix>, h: Header, comma: bool)
    ensures before + MetaText(a, flags, h, comma) + MetaText(b, flags, h, NextComma(a, flags, h, comma))
      == before + MetaText(a + b, flags, h, comma)
    ensures NextComma(b, flags, h, NextComma(a, flags, h, comma)) == NextComma(a + b, flags, h, comma)
  {
    hide MetaMembers, MembersText;
    MetaMembersJoin(a, b, flags, h);
    MembersTextJoin(MetaMembers(a, flags, h), MetaMembers(b, flags, h), comma);
  }

  lemma MetaTextOne(f: Suffix, flags: set<Suffix>, h: Header, comma: bool)
    requires CleanHeader(h)
    ensures MetaText([f], flags, h, comma)
      == if f in flags && MetaValue(f, h).Some?
         then (if comma then "," else "") + ("\"" + KeyOf(f) + "\":") + ValueText(MetaValue(f, h).value)
         else ""
    ensures NextComma([f], flags, h, comma) == (comma || (f in flags && MetaValue(f, h).Some?))
  {
    hide MetaValue, J.Escape, ValueText, ValueTree, CleanHeader, J.Print, KeyOf, J.PrintMember;
    assert [f][1..] == [];
    assert MetaMembers([], flags, h) == [];
    if f in flags && MetaValue(f, h).Some? {
      MetaValuePrints(f, h);
      KeysAreClean(f);
      var m := J.Member(KeyOf(f), ValueTree(MetaValue(f, h).value));
      assert MetaMembers([f], flags, h) == [m];
      assert [m][1..] == [];
      MemberTextOne(m, comma);
    }
  }

  lemma MemberTextOne(m: J.Member, comma: bool)
    requires J.Escape(m.name) == m.name
    ensures MembersText([m], comma, false)
      == (if comma then "," else "") + ("\"" + m.name + "\":") + J.Print(m.value, false)
  {
  }

  lemma KeysAreClean(f: Suffix)
    ensures J.Escape(KeyOf(f)) == KeyOf(f)
  {
    hide J.Escape;
    var key := KeyOf(f);
    assert forall i :: 0 <= i < |key| ==> 'A' <= key[i] <= 'z' && key[i] != '\\';
    PlainTextEscapesToItself(key);
  }

  /** One member of the metadata: its condition, the comma, the key and the value. */
  method AppendMeta(
      output: Buffer<char>, f: Suffix, flags: set<Suffix>, h: Header, needComma: bool,
      ghost before: string, ghost written: seq<Suffix>)
    returns (status: Status, comma: bool)
    requires output.Valid() && output.maxCapacity <= J.MAX_CHARS && CleanHeader(h) && f != EventName
    requires Progress(output, before, written, flags, h, needComma)
    modifies output, output.data
    ensures output.Valid() && (output.data == old(output.data) || fresh(output.data)) && FailsFor(status, false)
    ensures status == Success ==> Progress(output, before, written + [f], flags, h, comma)
  {
    hide MetaValue, MetaText, NextComma, J.Escape, GrownCapacity, KeyOf;
    ghost var now := output.Contents();
    status, comma := Success, needComma;
    MetaTextOne(f, flags, h, needComma);
    MetaTextJoin(before, written, [f], flags, h, false);
    var value := MetaValue(f, h);
    if f !in flags || value.None? {
      assert now + "" == now;
      return;
    }
    if needComma {
      var ok := output.PushBack(',');
      if !ok { return OutOfMemory, comma; }
    }
    comma := true;
    ghost var separator := if needComma then "," else "";
    var key := "\"" + KeyOf(f) + "\":";
    assert output.Contents() == now + separator;
    var ok := output.Append(key);
    if !ok { return OutOfMemory, comma; }
    status := AppendRendered(output, value.value);
    Gather(now, separator, key, ValueText(value.value));
  }

  /** The members of `written` have been written, and `comma` tells whether there were any. */
  ghost predicate Progress(
      output: Buffer<char>, before: string, written: seq<Suffix>, flags: set<Suffix>, h: Header, comma: bool)
    reads output, output.data
  {
    output.Valid() && output.Contents() == before + MetaText(written, flags, h, false)
    && comma == NextComma(written, flags, h, false)
  }

  lemma Gather(a: string, b: string, c: string, d: string)
    ensures a + b + c + d == a + (b + c + d)
  {
  }

  method AppendRendered(output: Buffer<char>, value: Rendered) returns (status: Status)
    requires output.Valid() && output.maxCapacity <= J.MAX_CHARS && |value.text| <= J.MAX_CHARS
    modifies output, output.data
    ensures output.Valid() && (output.data == old(output.data) || fresh(output.data)) && FailsFor(status, false)
    ensures status == Success ==> output.Contents() == old(output.Contents()) + ValueText(value)
  {
    hide J.Escape, GrownCapacity;
    match value {
      case JsonString(text) =>
        status := J.AppendStringAsJson(output, text);
      case CleanString(text) =>
        var ok := output.Append("\"" + text + "\"");
        status := if ok then Success else OutOfMemory;
      case JsonLiteral(text) =>
        var ok := output.Append(text);
        status := if ok then Success else OutOfMemory;
    }
  }

  /** Something may be left on the scratch buffer only when the event has no name, and its fallback has failed. */
  ghost predicate Restored(scratch: Buffer<char>, was: string, status: Status, flags: set<Suffix>, h: Header)
    requires scratch.Valid()
    reads scratch, scratch.data
  {
    && was <= scratch.Contents()
    && (status == Success || EventName !in flags || h.eventName.Some? ==> scratch.Contents() == was)
  }

  /** The "event" member: the event's name, or the fallback, which is made on the scratch buffer. */
  method AppendMetaEvent(
      output: Buffer<char>, scratch: Buffer<char>, flags: set<Suffix>, h: Header, needComma: bool,
      ghost before: string, ghost written: seq<Suffix>)
    returns (status: Status, comma: bool)
    requires Buffers(output, scratch) && CleanHeader(h)
    requires Progress(output, before, written, flags, h, needComma)
    modifies output, output.data, scratch, scratch.data
    ensures Buffers(output, scratch) && FailsFor(status, false)
    ensures output.data == old(output.data) || fresh(output.data)
    ensures scratch.data == old(scratch.data) || fresh(scratch.data)
    ensures Restored(scratch, old(scratch.Contents()), status, flags, h)
    ensures status == Success ==> Progress(output, before, written + [EventName], flags, h, comma)
  {
    hide MetaValue, MetaText, NextComma, J.Escape, GrownCapacity, KeyOf, CleanHeader;
    ghost var now := output.Contents();
    HasEventName(h);
    status, comma := Success, needComma;
    MetaTextOne(EventName, flags, h, needComma);
    MetaTextJoin(before, written, [EventName], flags, h, false);
    if EventName !in flags {
      assert now + "" == now;
      return;
    }
    if needComma {
      var ok := output.PushBack(',');
      if !ok { return OutOfMemory, comma; }
    }
    comma := true;
    ghost var separator := if needComma then "," else "";
    assert output.Contents() == now + separator;
    var key := "\"" + KeyOf(EventName) + "\":";
    var ok := output.Append(key);
    if !ok { return OutOfMemory, comma; }
    status := AppendEventName(output, scratch, flags, h);
    Gather(now, separator, key, ValueText(MetaValue(EventName, h).value));
  }

  lemma HasEventName(h: Header)
    ensures MetaValue(EventName, h).Some?
  {
  }

  method AppendEventName(output: Buffer<char>, scratch: Buffer<char>, ghost flags: set<Suffix>, h: Header)
    returns (status: Status)
    requires Buffers(output, scratch) && CleanHeader(h) && EventName in flags
    modifies output, output.data, scratch, scratch.data
    ensures Buffers(output, scratch) && FailsFor(status, false)
    ensures output.data == old(output.data) || fresh(output.data)
    ensures scratch.data == old(scratch.data) || fresh(scratch.data)
    ensures Restored(scratch, old(scratch.Contents()), status, flags, h)
    ensures status == Success ==>
      output.Contents() == old(output.Contents()) + ValueText(MetaValue(EventName, h).value)
  {
    hide J.Escape, GrownCapacity, FallbackName;
    if h.eventName.Some? {
      assert MetaValue(EventName, h).value.text == h.eventName.value;
      status := J.AppendStringAsJson(output, h.eventName.value);
      return;
    }
    var oldSize := scratch.size;
    ghost var below := scratch.Contents();
    status := AppendFallbackName(scratch, h);
    if status != Success { return; }
    var name := scratch.data[oldSize..scratch.size];
    assert name == scratch.Contents()[oldSize..] == FallbackName(h);
    status := J.AppendStringAsJson(output, name);
    if status != Success { return; }
    scratch.ResizeUnchecked(oldSize);
    assert scratch.Contents() == below;
  }

  /** AppendCurrentEventNameFallback. */
  method AppendFallbackName(scratch: Buffer<char>, h: Header) returns (status: Status)
    requires scratch.Valid() && (h.attributes.Some? ==> '\0' !in h.attributes.value)
    modifies scratch, scratch.data
    ensures scratch.Valid() && (scratch.data == old(scratch.data) || fresh(scratch.data)) && FailsFor(status, false)
    ensures old(scratch.Contents()) <= scratch.Contents()
    ensures status == Success ==> scratch.Contents() == old(scratch.Contents()) + FallbackName(h)
  {
    hide A.Lookup, GrownCapacity, Climb, Summit;
    ghost var before := scratch.Contents();
    var text := if h.attributes.Some? then h.attributes.value else "";
    NoAttributes(h, "FILE");
    NoAttributes(h, "LINE");
    status := A.AppendEventAttribute(scratch, text, "FILE");
    if status == Success {
      ghost var file := AttributeOf(h, "FILE").value;
      Associate(before, file, if AttributeOf(h, "LINE").Some? then AttributeOf(h, "LINE").value else NumberedName(h));
      status := A.AppendEventAttribute(scratch, text, "LINE");
      if status == Success { return; }
    }
    if status != NotFound { return; }
    status := AppendPrintf(scratch, D.Decimal(h.id) + "v" + D.Decimal(h.version));
  }

  lemma NoAttributes(h: Header, name: string)
    ensures AttributeOf(h, name) == A.Lookup(if h.attributes.Some? then h.attributes.value else "", 0, name)
  {
  }

  /** The fallback for attributes that were written as a list of pairs. */
  lemma FallbackOfPairs(h: Header, pairs: seq<A.Pair>, quote: string -> bool)
    requires h.attributes == Some(A.Write(pairs, quote)) && forall k :: 0 <= k < |pairs| ==> pairs[k] != A.Pair("", "")
    ensures var (file, line) := (A.First(pairs, "FILE"), A.First(pairs, "LINE"));
      FallbackName(h) ==
        if file.None? then NumberedName(h)
        else if line.None? then file.value + NumberedName(h)
        else file.value + line.value
  {
    hide A.Lookup, A.Split, A.First, A.Write, NumberedName;
    var s := A.Write(pairs, quote);
    assert s[0..0 + |s|] == s;
    A.WriteRoundTrips(s, 0, pairs, quote);
    A.LookupIsFirst(s, 0, "FILE");
    A.LookupIsFirst(s, 0, "LINE");
  }

  /** The members about the event's origin. */
  method AppendMetaOrigin(output: Buffer<char>, scratch: Buffer<char>, flags: set<Suffix>, h: Header,
    ghost before: string)
    returns (status: Status, comma: bool)
    requires Buffers(output, scratch) && CleanHeader(h)
    requires Progress(output, before, [], flags, h, false)
    modifies output, output.data, scratch, scratch.data
    ensures Buffers(output, scratch) && FailsFor(status, false)
    ensures output.data == old(output.data) || fresh(output.data)
    ensures scratch.data == old(scratch.data) || fresh(scratch.data)
    ensures Restored(scratch, old(scratch.Contents()), status, flags, h)
    ensures status == Success ==> Progress(output, before, ORDER[..8], flags, h, comma)
  {
    hide CleanHeader, Progress;
    status, comma := AppendMeta(output, Provider, flags, h, false, before, []);
    if status != Success { return; }
    status, comma := AppendMetaEvent(output, scratch, flags, h, comma, before, [] + [Provider]);
    if status != Success { return; }
    RestoredBefore(scratch, old(scratch.Contents()), flags, h);
    status, comma := AppendMetaNumbers(output, flags, h, comma, before);
  }

  lemma RestoredBefore(scratch: Buffer<char>, was: string, flags: set<Suffix>, h: Header)
    requires scratch.Valid() && Restored(scratch, was, Success, flags, h)
    ensures forall status :: Restored(scratch, was, status, flags, h)
  {
  }

  /** The members about the event's time and number. */
  method AppendMetaNumbers(output: Buffer<char>, flags: set<Suffix>, h: Header, needComma: bool, ghost before: string)
    returns (status: Status, comma: bool)
    requires output.Valid() && output.maxCapacity <= J.MAX_CHARS && CleanHeader(h)
    requires Progress(output, before, [] + [Provider] + [EventName], flags, h, needComma)
    modifies output, output.data
    ensures output.Valid() && (output.data == old(output.data) || fresh(output.data)) && FailsFor(status, false)
    ensures status == Success ==> Progress(output, before, ORDER[..8], flags, h, comma)
  {
    hide CleanHeader, Progress;
    status, comma := AppendMeta(output, Time, flags, h, needComma, before, [] + [Provider] + [EventName]);
    if status != Success { return; }
    assert [] + [Provider] + [EventName] + [Time] == ORDER[..3];
    status, comma := AppendMeta(output, Cpu, flags, h, comma, before, ORDER[..3]);
    if status != Success { return; }
    assert ORDER[..3] + [Cpu] == ORDER[..4];
    status, comma := AppendMeta(output, Pid, flags, h, comma, before, ORDER[..4]);
    if status != Success { return; }
    assert ORDER[..4] + [Pid] == ORDER[..5];
    status, comma := AppendMeta(output, Tid, flags, h, comma, before, ORDER[..5]);
    if status != Success { return; }
    assert ORDER[..5] + [Tid] == ORDER[..6];
    status, comma := AppendMeta(output, Id, flags, h, comma, before, ORDER[..6]);
    if status != Success { return; }
    assert ORDER[..6] + [Id] == ORDER[..7];
    status, comma := AppendMeta(output, Version, flags, h, comma, before, ORDER[..7]);
    assert ORDER[..7] + [Version] == ORDER[..8];
  }

  /** The members from the event descriptor. */
  method AppendMetaDescriptor(output: Buffer<char>, flags: set<Suffix>, h: Header, needComma: bool,
    ghost before: string)
    returns (status: Status, comma: bool)
    requires output.Valid() && output.maxCapacity <= J.MAX_CHARS && CleanHeader(h)
    requires Progress(output, before, ORDER[..8], flags, h, needComma)
    modifies output, output.data
    ensures output.Valid() && (output.data == old(output.data) || fresh(output.data)) && FailsFor(status, false)
    ensures status == Success ==> Progress(output, before, ORDER[..14], flags, h, comma)
  {
    hide CleanHeader, Progress;
    status, comma := AppendMeta(output, Channel, flags, h, needComma, before, ORDER[..8]);
    if status != Success { return; }
    assert ORDER[..8] + [Channel] == ORDER[..9];
    status, comma := AppendMeta(output, Level, flags, h, comma, before, ORDER[..9]);
    if status != Success { return; }
    assert ORDER[..9] + [Level] == ORDER[..10];
    status, comma := AppendMeta(output, Opcode, flags, h, comma, before, ORDER[..10]);
    if status != Success { return; }
    assert ORDER[..10] + [Opcode] == ORDER[..11];
    status, comma := AppendMeta(output, Task, flags, h, comma, before, ORDER[..11]);
    if status != Success { return; }
    assert ORDER[..11] + [Task] == ORDER[..12];
    status, comma := AppendMeta(output, Keywords, flags, h, comma, before, ORDER[..12]);
    if status != Success { return; }
    assert ORDER[..12] + [Keywords] == ORDER[..13];
    status, comma := AppendMeta(output, Tags, flags, h, comma, before, ORDER[..13]);
    assert ORDER[..13] + [Tags] == ORDER[..14];
  }

  /** The members about activities, times and attributes. */
  method AppendMetaRest(output: Buffer<char>, flags: set<Suffix>, h: Header, needComma: bool, ghost before: string)
    returns (status: Status, comma: bool)
    requires output.Valid() && output.maxCapacity <= J.MAX_CHARS && CleanHeader(h)
    requires Progress(output, before, ORDER[..14], flags, h, needComma)
    modifies output, output.data
    ensures output.Valid() && (output.data == old(output.data) || fresh(output.data)) && FailsFor(status, false)
    ensures status == Success ==> Progress(output, before, ORDER, flags, h, comma)
  {
    hide CleanHeader, Progress;
    status, comma := AppendMeta(output, Activity, flags, h, needComma, before, ORDER[..14]);
    if status != Success { return; }
    assert ORDER[..14] + [Activity] == ORDER[..15];
    status, comma := AppendMeta(output, RelatedActivity, flags, h, comma, before, ORDER[..15]);
    if status != Success { return; }
    assert ORDER[..15] + [RelatedActivity] == ORDER[..16];
    status, comma := AppendMeta(output, ProcessorTime, flags, h, comma, before, ORDER[..16]);
    if status != Success { return; }
    assert ORDER[..16] + [ProcessorTime] == ORDER[..17];
    status, comma := AppendMeta(output, KernelTime, flags, h, comma, before, ORDER[..17]);
    if status != Success { return; }
    assert ORDER[..17] + [KernelTime] == ORDER[..18];
    status, comma := AppendMeta(output, UserTime, flags, h, comma, before, ORDER[..18]);
    if status != Success { return; }
    assert ORDER[..18] + [UserTime] == ORDER[..19];
    status, comma := AppendMeta(output, Attributes, flags, h, comma, before, ORDER[..19]);
    assert ORDER[..19] + [Attributes] == ORDER;
  }

  /** The members of the "meta" object, in the original's order. */
  method AppendMetaMembers(output: Buffer<char>, scratch: Buffer<char>, flags: set<Suffix>, h: Header)
    returns (status: Status)
    requires Buffers(output, scratch) && CleanHeader(h)
    modifies output, output.data, scratch, scratch.data
    ensures Buffers(output, scratch) && FailsFor(status, false)
    ensures output.data == old(output.data) || fresh(output.data)
    ensures scratch.data == old(scratch.data) || fresh(scratch.data)
    ensures Restored(scratch, old(scratch.Contents()), status, flags, h)
    ensures status == Success ==> output.Contents() == old(output.Contents()) + MetaText(ORDER, flags, h, false)
  {
    hide CleanHeader, GrownCapacity;
    ghost var before := output.Contents();
    var comma;
    assert before + "" == before;
    status, comma := AppendMetaOrigin(output, scratch, flags, h, before);
    if status != Success { return; }
    RestoredBefore(scratch, old(scratch.Contents()), flags, h);
    status, comma := AppendMetaDescriptor(output, flags, h, comma, before);
    if status != Success { return; }
    status, comma := AppendMetaRest(output, flags, h, comma, before);
  }

  // ------------------------------------------------------------------ the whole event

  lemma {:induction false} MetaIsPrintable(order: seq<Suffix>, flags: set<Suffix>, h: Header)
    requires CleanHeader(h)
    ensures J.PrintableMembers(MetaMembers(order, flags, h))
  {
    hide MetaValue, ValueTree, J.Printable, CleanHeader;
    if order == [] {
    } else {
      MetaIsPrintable(order[1..], flags, h);
      var rest := MetaMembers(order[1..], flags, h);
      assert [] + rest == rest;
      if MetaValue(order[0], h).Some? {
        MetaValuePrints(order[0], h);
        var m := J.Member(KeyOf(order[0]), ValueTree(MetaValue(order[0], h).value));
        assert ([m] + rest)[1..] == rest;
      }
    }
  }

  lemma {:induction false} PrintableJoin(a: seq<J.Member>, b: seq<J.Member>)
    requires J.PrintableMembers(a) && J.PrintableMembers(b)
    ensures J.PrintableMembers(a + b)
  {
    hide J.Printable;
    if a == [] {
      assert a + b == b;
    } else {
      assert (a + b)[1..] == a[1..] + b;
      PrintableJoin(a[1..], b);
    }
  }

  /** The event's text, piece by piece as it is written, is the text of the event's tree. */
  lemma EventTextPrints(members: seq<J.Member>, flags: set<Suffix>, h: Header)
    requires CleanHeader(h) && flags != {}
    ensures "{" + MembersText(members, false, false) + (if members != [] then "," else "")
        + "\"meta\":{" + MetaText(ORDER, flags, h, false) + "}" + "}"
      == J.Print(EventTree(members, flags, h), false)
  {
    hide MetaMembers, MembersText, J.Print, J.Escape, CleanHeader;
    var meta := J.Object(MetaMembers(ORDER, flags, h));
    var m := J.Member("meta", meta);
    PlainTextEscapesToItself("meta");
    MembersTextJoin(members, [m], false);
    MemberTextOne(m, members != []);
    MembersTextPrints(members + [m], false);
    MembersTextPrints(MetaMembers(ORDER, flags, h), false);
    PrintObject(members + [m]);
    PrintObject(MetaMembers(ORDER, flags, h));
    var (a, b) := (MembersText(members, false, false), if members != [] then "," else "");
    var c := MetaText(ORDER, flags, h, false);
    assert "\"" + "meta" + "\":" == "\"meta\":";
    Nest(a, b, c);
  }

  lemma Nest(a: string, b: string, c: string)
    ensures "{" + a + b + "\"meta\":{" + c + "}" + "}" == "{" + (a + (b + "\"meta\":" + ("{" + c + "}"))) + "}"
  {
  }

  lemma PrintObject(members: seq<J.Member>)
    ensures J.Print(J.Object(members), false) == "{" + J.PrintMembers(members, false) + "}"
  {
    hide J.PrintMembers;
  }

  /**
   The text of a whole event, with any selection of metadata, is a JSON text that parses to the
   decoder's tree followed by the selected metadata.
   */
  lemma EventTextParses(e: Event, ints: seq<U16>, render: Renderer, flags: set<Suffix>, h: Header)
    requires WellFormed(e) && |ints| == |e.props| && Decode(e, ints).outcome.Done?
    requires Sound(render) && AllRendered(Decode(e, ints).visits, render) && CleanHeader(h)
    ensures var tree := EventTree(GroupTree(e, 0, e.topLevel, 0, ints, render), flags, h);
      J.ParseValue(J.Print(tree, false)) == Some((tree, ""))
  {
    hide Group, GroupTree, MetaMembers, AllRendered, Sound, CleanHeader;
    var members := GroupTree(e, 0, e.topLevel, 0, ints, render);
    GroupPrints(e, 0, e.topLevel, 0, ints, render, false, false);
    MetaIsPrintable(ORDER, flags, h);
    var m := J.Member("meta", J.Object(MetaMembers(ORDER, flags, h)));
    assert [m][1..] == [];
    PrintableJoin(members, if flags == {} then [] else [m]);
    var tree := EventTree(members, flags, h);
    J.PrintRoundTrips(tree, false, "");
    assert J.Print(tree, false) + "" == J.Print(tree, false);
  }

  /** What has to be said about an event for its text: the tree, and the members' trees in it. */
  ghost function TreeOf(e: Event, ints: seq<U16>, render: Renderer, flags: set<Suffix>, h: Header): J.Json
    requires WellFormed(e) && |ints| == |e.props|
  {
    EventTree(GroupTree(e, 0, e.topLevel, 0, ints, render), flags, h)
  }

  /**
   AddCurrentEventAsJson: on success the text of the decoder's tree and the selected metadata has been
   appended, and it parses to exactly that.
   */
  method AddCurrentEventAsJson(
      en: EtwEnumerator, output: Buffer<char>, scratch: Buffer<char>, render: Renderer, flags: set<Suffix>, h: Header)
    returns (ok: bool)
    requires en.Ok() && ShortNames(en.event) && Buffers(output, scratch)
    requires en.state == StateBeforeFirstItem && Sound(render) && CleanHeader(h)
    modifies en, en.integerValues, output, output.data, scratch, scratch.data
    ensures Buffers(output, scratch) && ok == (en.lastError == Success)
    ensures output.data == old(output.data) || fresh(output.data)
    ensures scratch.data == old(scratch.data) || fresh(scratch.data)
    ensures Restored(scratch, old(scratch.Contents()), en.lastError, flags, h)
    ensures var t := Decode(en.event, old(en.integerValues[..]));
      if ok then
        && t.outcome.Done? && Stopped(t, en.Abs()) && AllRendered(t.visits, render)
        && var tree := TreeOf(en.event, old(en.integerValues[..]), render, flags, h);
          && output.Contents() == old(output.Contents()) + J.Print(tree, false)
          && J.ParseValue(J.Print(tree, false)) == Some((tree, ""))
      else FailsFor(en.lastError, !AllRendered(t.visits, render)) || t.outcome == Outcome.Failed(en.lastError)
  {
    hide Group, GroupTree, MetaText, MembersText, EventTree, EmitAll, AllRendered, Sound, CleanHeader, Valid, Stopped;
    hide GrownCapacity;
    hide IsJson;
    ghost var before := output.Contents();
    ghost var ints := en.integerValues[..];
    StartsAtReset(en);
    WalkIsDecoding(en.event, ints);
    ok := output.PushBack('{');
    if !ok {
      en.lastError := OutOfMemory;
      return;
    }
    var oldSize := output.size;
    ok := AddCurrentItemAsJsonAndMoveNext(en, output, scratch, render, true, false);
    if !ok {
      StoppedIsFailed(Decode(en.event, ints), JsonWalk(en.event, Machine.Reset(en.event, ints)).end);
      return;
    }
    var needComma := oldSize != output.size;
    ghost var members := GroupTree(en.event, 0, en.event.topLevel, 0, ints, render);
    StoppedIsDone(Decode(en.event, ints), en.Abs());
    GroupPrints(en.event, 0, en.event.topLevel, 0, ints, render, false, false);
    MembersTextEmpty(members);
    EventTextParses(en.event, ints, render, flags, h);
    var status := AppendSuffix(output, scratch, needComma, flags, h, before, members);
    if status != Success {
      en.lastError := status;
      ok := false;
    }
  }

  lemma StoppedIsFailed(t: Trace, s: State)
    requires Stopped(t, s)
    ensures s.sub.InError? ==> t.outcome == Outcome.Failed(s.lastError)
  {
  }

  lemma StartsAtReset(en: EtwEnumerator)
    requires en.Ok() && en.state == StateBeforeFirstItem
    ensures en.Abs() == Machine.Reset(en.event, en.integerValues[..])
    ensures WellFormed(en.event) && en.integerValues.Length == |en.event.props|
  {
  }

  lemma StoppedIsDone(t: Trace, s: State)
    requires Stopped(t, s) && !s.sub.InError?
    ensures t.outcome.Done?
  {
  }

  lemma MembersTextEmpty(members: seq<J.Member>)
    ensures MembersText(members, false, false) == "" <==> members == []
  {
  }

  /** What follows the members: the comma, the "meta" object and the closing brace. */
  method AppendSuffix(
      output: Buffer<char>, scratch: Buffer<char>, needComma: bool, flags: set<Suffix>, h: Header,
      ghost before: string, ghost members: seq<J.Member>)
    returns (status: Status)
    requires Buffers(output, scratch) && CleanHeader(h)
    requires output.Contents() == before + "{" + MembersText(members, false, false) && needComma == (members != [])
    modifies output, output.data, scratch, scratch.data
    ensures Buffers(output, scratch) && FailsFor(status, false)
    ensures output.data == old(output.data) || fresh(output.data)
    ensures scratch.data == old(scratch.data) || fresh(scratch.data)
    ensures Restored(scratch, old(scratch.Contents()), status, flags, h)
    ensures status == Success ==> output.Contents() == before + J.Print(EventTree(members, flags, h), false)
  {
    hide MetaText, MembersText, EventTree, J.Print, CleanHeader, GrownCapacity;
    ghost var text := MembersText(members, false, false);
    ghost var comma := if needComma then "," else "";
    var ok;
    if flags != {} {
      if needComma {
        ok := output.PushBack(',');
        if !ok { return OutOfMemory; }
      }
      assert output.Contents() == before + "{" + text + comma;
      status := AppendMetaObject(output, scratch, flags, h);
      if status != Success { return; }
      RestoredBefore(scratch, old(scratch.Contents()), flags, h);
      EventTextPrints(members, flags, h);
      Enclose(before, text, comma, MetaText(ORDER, flags, h, false));
    } else {
      PlainTextPrints(members, flags, h, before);
    }
    ok := output.PushBack('}');
    status := if ok then Success else OutOfMemory;
  }

  /** The "meta" member. */
  method AppendMetaObject(output: Buffer<char>, scratch: Buffer<char>, flags: set<Suffix>, h: Header)
    returns (status: Status)
    requires Buffers(output, scratch) && CleanHeader(h)
    modifies output, output.data, scratch, scratch.data
    ensures Buffers(output, scratch) && FailsFor(status, false)
    ensures output.data == old(output.data) || fresh(output.data)
    ensures scratch.data == old(scratch.data) || fresh(scratch.data)
    ensures Restored(scratch, old(scratch.Contents()), status, flags, h)
    ensures status == Success ==>
      output.Contents() == old(output.Contents()) + ("\"meta\":{" + MetaText(ORDER, flags, h, false) + "}")
  {
    hide MetaText, CleanHeader, GrownCapacity;
    ghost var before := output.Contents();
    var ok := output.Append("\"meta\":{");
    if !ok { return OutOfMemory; }
    status := AppendMetaMembers(output, scratch, flags, h);
    if status != Success { return; }
    RestoredBefore(scratch, old(scratch.Contents()), flags, h);
    ok := output.PushBack('}');
    if !ok { return OutOfMemory; }
    Gather(before, "\"meta\":{", MetaText(ORDER, flags, h, false), "}");
  }

  lemma PlainTextPrints(members: seq<J.Member>, flags: set<Suffix>, h: Header, before: string)
    requires flags == {}
    ensures before + "{" + MembersText(members, false, false) + "}"
      == before + J.Print(EventTree(members, flags, h), false)
  {
    hide J.Print, MembersText, J.PrintMembers;
    MembersTextPrints(members, false);
    PrintObject(members);
    assert members + [] == members;
    var text := MembersText(members, false, false);
    assert before + "{" + text + "}" == before + ("{" + text + "}");
  }

  lemma Enclose(before: string, a: string, b: string, c: string)
    ensures before + "{" + a + b + ("\"meta\":{" + c + "}") + "}"
      == before + ("{" + a + b + "\"meta\":{" + c + "}" + "}")
  {
  }
}
