/** What the JSON of an event says about the event: its "meta" object, member by member. */
module EventMembers {
  import opened Basics
  import opened EventJson
  import D = Digits
  import J = JsonText
  import JsonTree

  /** The value of the first member with a name. */
  function Find(members: seq<J.Member>, name: string): Option<J.Json> {
    if members == [] then None
    else if members[0].name == name then Some(members[0].value)
    else Find(members[1..], name)
  }

  // ------------------------------------------------------------------ what a member says

  /** The member is there if and only if it is `shown`, and it is the number `n`. */
  predicate SaysNumber(meta: seq<J.Member>, name: string, shown: bool, n: nat) {
    var v := Find(meta, name);
    v.Some? == shown && (shown ==> v.value.Literal? && D.Denotes(v.value.token, 10, n))
  }

  /** The same for a string. */
  predicate SaysText(meta: seq<J.Member>, name: string, shown: bool, text: string) {
    Find(meta, name) == if shown then Some(J.Text(text)) else None
  }

  /** The same for a hexadecimal number, which is a string with capital digits behind 0x. */
  predicate SaysHex(meta: seq<J.Member>, name: string, shown: bool, n: nat) {
    var v := Find(meta, name);
    && v.Some? == shown
    && (shown ==>
          && v.value.Text? && |v.value.s| > 2 && v.value.s[..2] == "0x"
          && D.Denotes(v.value.s[2..], 16, n) && D.HasCase(v.value.s[2..], true))
  }

  /** The same for something that has a number and may have a name. */
  predicate SaysNameOrNumber(meta: seq<J.Member>, name: string, shown: bool, text: Option<string>, n: nat) {
    if text.Some? then SaysText(meta, name, shown, text.value) else SaysNumber(meta, name, shown, n)
  }

  predicate SaysOptional(meta: seq<J.Member>, name: string, selected: bool, text: Option<string>) {
    if text.Some? then SaysText(meta, name, selected, text.value) else Find(meta, name) == None
  }

  function Either(text: Option<string>, otherwise: string): string {
    if text.Some? then text.value else otherwise
  }

  /** What the "meta" object says about the event's origin. */
  ghost predicate SaysOrigin(meta: seq<J.Member>, flags: set<Suffix>, h: Header) {
    && SaysText(meta, "provider", Provider in flags, Either(h.providerName, h.providerFallback))
    && SaysText(meta, "event", EventName in flags, Either(h.eventName, FallbackName(h)))
    && SaysText(meta, "time", Time in flags, h.timeText)
    && SaysNumber(meta, "cpu", Cpu in flags, h.cpu)
    && SaysNumber(meta, "pid", Pid in flags && h.processId != 0xffff_ffff, h.processId)
    && SaysNumber(meta, "tid", Tid in flags && h.threadId != 0xffff_ffff, h.threadId)
  }

  /** What it says about the event's descriptor. */
  ghost predicate SaysDescriptor(meta: seq<J.Member>, flags: set<Suffix>, h: Header) {
    && SaysNumber(meta, "id", Id in flags, h.id)
    && SaysNumber(meta, "version", Version in flags && h.version != 0, h.version)
    && SaysNameOrNumber(meta, "channel", Channel in flags && h.channel != 0, h.channelName, h.channel)
    && SaysNameOrNumber(meta, "level", Level in flags && h.level != 0, h.levelName, h.level)
    && SaysNameOrNumber(meta, "opcode", Opcode in flags && h.opcode != 0 && !h.isWbem, h.opcodeName, h.opcode)
    && SaysNameOrNumber(meta, "task", Task in flags && (h.task != 0 || h.isWbem), h.taskName, h.task)
  }

  /** What it says about keywords and tags. */
  ghost predicate SaysBits(meta: seq<J.Member>, flags: set<Suffix>, h: Header) {
    && (var shown := Keywords in flags && h.keyword != 0;
        if h.keywordsName.Some? then SaysText(meta, "keywords", shown, h.keywordsName.value)
        else SaysHex(meta, "keywords", shown, h.keyword))
    && SaysHex(meta, "tags", Tags in flags && h.tags != 0, h.tags)
  }

  /** What it says about activities, times and attributes. */
  ghost predicate SaysRest(meta: seq<J.Member>, flags: set<Suffix>, h: Header) {
    && SaysOptional(meta, "activity", Activity in flags, h.activity)
    && SaysOptional(meta, "relatedActivity", RelatedActivity in flags, h.relatedActivity)
    && SaysNumber(meta, "ptime", ProcessorTime in flags && h.privateSession && !h.isTraceGuid, h.processorTime)
    && SaysNumber(meta, "ktime", KernelTime in flags && !h.privateSession && !h.noCpuTime, h.kernelMilliseconds)
    && SaysNumber(meta, "utime", UserTime in flags && !h.privateSession && !h.noCpuTime, h.userMilliseconds)
    && SaysOptional(meta, "attribs", Attributes in flags, h.attributes)
  }

  /** All names that may occur, in their order. */
  const NAMES: seq<string> := [
    "provider", "event", "time", "cpu", "pid", "tid", "id", "version", "channel", "level", "opcode", "task", "keywords",
    "tags", "activity", "relatedActivity", "ptime", "ktime", "utime", "attribs"]

  /** The members' names are some of `names`, each at most once, in that order. */
  predicate InOrderOf(members: seq<J.Member>, names: seq<string>) {
    if members == [] then true
    else if names == [] then false
    else if members[0].name == names[0] then InOrderOf(members[1..], names[1..])
    else InOrderOf(members, names[1..])
  }

  // ------------------------------------------------------------------ proofs

  predicate IsShown(f: Suffix, flags: set<Suffix>, h: Header) {
    f in flags && MetaValue(f, h).Some?
  }

  lemma SameKey(f: Suffix, g: Suffix)
    requires KeyOf(f) == KeyOf(g)
    ensures f == g
  {
  }

  lemma {:induction false} Finds(order: seq<Suffix>, f: Suffix, flags: set<Suffix>, h: Header)
    ensures Find(MetaMembers(order, flags, h), KeyOf(f))
      == if f in order && IsShown(f, flags, h) then Some(JsonTree.ValueTree(MetaValue(f, h).value)) else None
    decreases |order|
  {
    hide MetaValue, KeyOf, JsonTree.ValueTree;
    if order == [] {
    } else {
      Finds(order[1..], f, flags, h);
      assert order == [order[0]] + order[1..];
      var rest := MetaMembers(order[1..], flags, h);
      assert [] + rest == rest;
      if IsShown(order[0], flags, h) {
        var m := J.Member(KeyOf(order[0]), JsonTree.ValueTree(MetaValue(order[0], h).value));
        assert ([m] + rest)[1..] == rest;
        if KeyOf(order[0]) == KeyOf(f) {
          SameKey(order[0], f);
        }
      }
    }
  }

  lemma FindsAll(flags: set<Suffix>, h: Header)
    ensures forall f ::
      Find(MetaMembers(ORDER, flags, h), KeyOf(f))
      == if IsShown(f, flags, h) then Some(JsonTree.ValueTree(MetaValue(f, h).value)) else None
  {
    hide MetaValue, KeyOf, JsonTree.ValueTree, MetaMembers, Find;
    forall f ensures Find(MetaMembers(ORDER, flags, h), KeyOf(f))
      == if IsShown(f, flags, h) then Some(JsonTree.ValueTree(MetaValue(f, h).value)) else None
    {
      Finds(ORDER, f, flags, h);
      InOrder(f);
    }
  }

  lemma InOrder(f: Suffix)
    ensures f in ORDER
  {
  }

  lemma NumbersDenote()
    ensures forall n: nat :: D.Denotes(D.Decimal(n), 10, n)
  {
    forall n: nat ensures D.Denotes(D.Decimal(n), 10, n) {
      D.RenderDenotes(n, 10, false);
    }
  }

  lemma HexDenotes(n: nat)
    ensures var s := Hex(n); |s| > 2 && s[..2] == "0x" && D.Denotes(s[2..], 16, n) && D.HasCase(s[2..], true)
  {
    hide D.Render, D.Denotes, D.HasCase;
    D.RenderDenotes(n, 16, true);
    assert Hex(n)[2..] == D.Render(n, 16, true);
  }

  lemma OriginIsSaid(flags: set<Suffix>, h: Header)
    ensures SaysOrigin(MetaMembers(ORDER, flags, h), flags, h)
  {
    hide MetaMembers, Find, D.Render, D.Denotes, FallbackName;
    FindsAll(flags, h);
    NumbersDenote();
    var meta := MetaMembers(ORDER, flags, h);
    assert Find(meta, KeyOf(Provider)) == Find(meta, "provider") && Find(meta, KeyOf(EventName)) == Find(meta, "event");
    assert Find(meta, KeyOf(Time)) == Find(meta, "time") && Find(meta, KeyOf(Cpu)) == Find(meta, "cpu");
    assert Find(meta, KeyOf(Pid)) == Find(meta, "pid") && Find(meta, KeyOf(Tid)) == Find(meta, "tid");
  }

  lemma DescriptorIsSaid(flags: set<Suffix>, h: Header)
    ensures SaysDescriptor(MetaMembers(ORDER, flags, h), flags, h)
  {
    hide MetaMembers, Find, D.Render, D.Denotes, FallbackName, Hex;
    FindsAll(flags, h);
    NumbersDenote();
    var meta := MetaMembers(ORDER, flags, h);
    assert Find(meta, KeyOf(Id)) == Find(meta, "id") && Find(meta, KeyOf(Version)) == Find(meta, "version");
    assert Find(meta, KeyOf(Channel)) == Find(meta, "channel") && Find(meta, KeyOf(Level)) == Find(meta, "level");
    assert Find(meta, KeyOf(Opcode)) == Find(meta, "opcode") && Find(meta, KeyOf(Task)) == Find(meta, "task");
  }

  lemma BitsAreSaid(flags: set<Suffix>, h: Header)
    ensures SaysBits(MetaMembers(ORDER, flags, h), flags, h)
  {
    hide MetaMembers, Find, D.Denotes, D.HasCase, FallbackName, Hex;
    FindsAll(flags, h);
    HexDenotes(h.keyword);
    HexDenotes(h.tags);
    var meta := MetaMembers(ORDER, flags, h);
    assert Find(meta, KeyOf(Keywords)) == Find(meta, "keywords") && Find(meta, KeyOf(Tags)) == Find(meta, "tags");
  }

  lemma RestIsSaid(flags: set<Suffix>, h: Header)
    ensures SaysRest(MetaMembers(ORDER, flags, h), flags, h)
  {
    hide MetaMembers, Find, D.Render, D.Denotes, FallbackName;
    FindsAll(flags, h);
    NumbersDenote();
    var meta := MetaMembers(ORDER, flags, h);
    assert Find(meta, KeyOf(Activity)) == Find(meta, "activity");
    assert Find(meta, KeyOf(RelatedActivity)) == Find(meta, "relatedActivity");
    assert Find(meta, KeyOf(ProcessorTime)) == Find(meta, "ptime");
    assert Find(meta, KeyOf(KernelTime)) == Find(meta, "ktime") && Find(meta, KeyOf(UserTime)) == Find(meta, "utime");
    assert Find(meta, KeyOf(Attributes)) == Find(meta, "attribs");
  }

  lemma {:induction false} KeysAreInOrder(order: seq<Suffix>, flags: set<Suffix>, h: Header, names: seq<string>)
    requires |names| == |order| && forall k :: 0 <= k < |order| ==> names[k] == KeyOf(order[k])
    requires forall j, k :: 0 <= j < k < |order| ==> order[j] != order[k]
    ensures InOrderOf(MetaMembers(order, flags, h), names)
    ensures forall m :: m in MetaMembers(order, flags, h) ==> m.name in names
    decreases |order|
  {
    hide MetaValue, KeyOf, JsonTree.ValueTree;
    if order == [] {
    } else {
      KeysAreInOrder(order[1..], flags, h, names[1..]);
      assert names == [names[0]] + names[1..];
      var rest := MetaMembers(order[1..], flags, h);
      assert [] + rest == rest;
      if IsShown(order[0], flags, h) {
        var m := J.Member(KeyOf(order[0]), JsonTree.ValueTree(MetaValue(order[0], h).value));
        assert ([m] + rest)[1..] == rest;
      } else if rest != [] {
        assert rest[0] in rest && rest[0].name in names[1..];
        if names[0] in names[1..] {
          var k :| 0 < k < |names| && names[k] == names[0];
          SameKey(order[k], order[0]);
        }
      }
    }
  }

  lemma AllKeysAreInOrder(flags: set<Suffix>, h: Header)
    ensures InOrderOf(MetaMembers(ORDER, flags, h), NAMES)
  {
    hide MetaMembers, InOrderOf, MetaValue, KeyOf;
    NamesAreKeys();
    KeysAreInOrder(ORDER, flags, h, NAMES);
  }

  lemma NamesAreKeys()
    ensures |NAMES| == |ORDER| && forall k :: 0 <= k < |ORDER| ==> NAMES[k] == KeyOf(ORDER[k])
  {
  }

  /**
   The event's tree has the members of its properties and then, if anything is selected, one more member "meta": an
   object with exactly the selected facts of the header that there is something to say about, each under its name.
   */
  lemma MetaIsTheHeader(members: seq<J.Member>, flags: set<Suffix>, h: Header)
    ensures var tree := EventTree(members, flags, h);
      && tree.Object?
      && if flags == {} then tree.members == members
        else
          && |tree.members| == |members| + 1 && tree.members[..|members|] == members
          && var last := tree.members[|members|];
            && last.name == "meta" && last.value.Object?
            && var meta := last.value.members;
              && SaysOrigin(meta, flags, h) && SaysDescriptor(meta, flags, h)
              && SaysBits(meta, flags, h) && SaysRest(meta, flags, h)
              && InOrderOf(meta, NAMES)
  {
    hide MetaMembers, SaysOrigin, SaysDescriptor, SaysBits, SaysRest, InOrderOf;
    OriginIsSaid(flags, h);
    DescriptorIsSaid(flags, h);
    BitsAreSaid(flags, h);
    RestIsSaid(flags, h);
    AllKeysAreInOrder(flags, h);
    assert members + [] == members;
  }

  /** The name of an event that has neither a name nor a file is its id and its version. */
  lemma NumberedNameReads(h: Header)
    ensures exists id, version ::
      NumberedName(h) == id + "v" + version && D.Denotes(id, 10, h.id) && D.Denotes(version, 10, h.version)
  {
    hide D.Render, D.Denotes;
    NumbersDenote();
    assert NumberedName(h) == D.Decimal(h.id) + "v" + D.Decimal(h.version);
  }
}
