/** FormatCurrentEvent: the event's message or, when a message it mentions is missing, the event as JSON. */
module EventText {
  import opened Basics
  import opened Schema
  import opened Values
  import opened Decoder
  import opened Machine
  import opened Replay
  import opened Enumerator
  import opened GrowableBuffer
  import opened JsonTree
  import opened JsonStructure
  import opened JsonPrinter
  import opened PropertyTable
  import Formatter
  import opened EventJson
  import opened EventMessage
  import J = JsonText
  import X = Expansion

  // ------------------------------------------------------------------ why decoding fails

  /** The payload ends early, or a property has a type that is not known. */
  predicate IsDecoders(outcome: Outcome) {
    outcome.Failed? ==> outcome.error == InvalidData || outcome.error == UnsupportedType
  }

  lemma {:induction false} GroupErrors(e: Event, lo: nat, hi: nat, pos: nat, ints: seq<U16>)
    requires Start(e, pos, ints) && lo <= hi <= |e.props|
    ensures IsDecoders(Group(e, lo, hi, pos, ints).outcome)
    decreases |e.props| - lo, 3, 0
  {
    hide One;
    if lo < hi {
      OneErrors(e, lo, pos, ints);
      var first := One(e, lo, pos, ints);
      if first.outcome.Done? {
        GroupErrors(e, lo + 1, hi, first.pos, first.ints);
      }
    }
  }

  lemma {:induction false} OneErrors(e: Event, i: nat, pos: nat, ints: seq<U16>)
    requires Start(e, pos, ints) && i < |e.props|
    ensures IsDecoders(One(e, i, pos, ints).outcome)
    decreases |e.props| - i, 2, 0
  {
    hide Group, Structs, Elements, FixedElements, Bytes, CookedType, DecodeValue;
    var p := e.props[i];
    assert WellFormedProperty(e, i);
    if IsScalar(p) {
      ValueErrors(e, i, pos, ints);
    } else if p.isStruct {
      StructsErrors(e, i, 0, if IsArray(p) then ArrayCount(p, ints) else 1, IsArray(p), pos, ints);
    } else {
      ElementsErrors(e, i, 0, ArrayCount(p, ints), pos, ints);
    }
  }

  lemma ValueErrors(e: Event, i: nat, pos: nat, ints: seq<U16>)
    requires Start(e, pos, ints) && i < |e.props|
    ensures var d := DecodeValue(e, i, pos, ints); d.Rejected? ==> d.error == InvalidData || d.error == UnsupportedType
  {
  }

  lemma {:induction false} StructsErrors(e: Event, i: nat, k: nat, n: nat, isArray: bool, pos: nat, ints: seq<U16>)
    requires Start(e, pos, ints) && i < |e.props| && e.props[i].isStruct && k <= n
    ensures IsDecoders(Structs(e, i, k, n, isArray, pos, ints).outcome)
    decreases |e.props| - i, 1, n - k
  {
    hide Group, One;
    if k < n {
      var p := e.props[i];
      assert WellFormedProperty(e, i);
      GroupErrors(e, p.structStart, MemberEnd(p), pos, ints);
      var body := Group(e, p.structStart, MemberEnd(p), pos, ints);
      if body.outcome.Done? {
        StructsErrors(e, i, k + 1, n, isArray, body.pos, body.ints);
      }
    }
  }

  lemma {:induction false} ElementsErrors(e: Event, i: nat, k: nat, n: nat, pos: nat, ints: seq<U16>)
    requires Start(e, pos, ints) && i < |e.props| && k <= n
    ensures IsDecoders(Elements(e, i, k, n, pos, ints).outcome)
    decreases n - k
  {
    hide DecodeValue;
    if k < n {
      ValueErrors(e, i, pos, ints);
      var d := DecodeValue(e, i, pos, ints);
      if d.Read? {
        ElementsErrors(e, i, k + 1, n, pos + d.item.raw, d.ints);
      }
    }
  }

  // ------------------------------------------------------------------ which tree

  /** When references point backwards, the integers left from an earlier pass do not show in the event's tree. */
  lemma TreeIsSame(e: Event, ints: seq<U16>, now: seq<U16>, render: Renderer, flags: set<Suffix>, h: Header)
    requires Passed(e, ints) && |now| == |e.props| && CleanHeader(h)
    requires Sound(render) && AllRendered(Decode(e, ints).visits, render)
    ensures AllRendered(Decode(e, now).visits, render) && Decode(e, now).outcome.Done?
    ensures TreeOf(e, now, render, flags, h) == TreeOf(e, ints, render, flags, h)
  {
    hide Group, GroupTree, EmitAll, AllRendered, Sound, CleanHeader, BackwardGroup, MembersText, EventTree;
    ReplayIsIdentical(e, ints, now);
    var (a, b) := (GroupTree(e, 0, e.topLevel, 0, ints, render), GroupTree(e, 0, e.topLevel, 0, now, render));
    GroupPrints(e, 0, e.topLevel, 0, ints, render, false, false);
    GroupPrints(e, 0, e.topLevel, 0, now, render, false, false);
    SameMembers(a, b);
  }

  /** Members with the same text are the same. */
  lemma SameMembers(a: seq<J.Member>, b: seq<J.Member>)
    requires J.PrintableMembers(a) && J.PrintableMembers(b)
      && MembersText(a, false, false) == MembersText(b, false, false)
    ensures a == b
  {
    hide MembersText, J.PrintMembers, J.PrintableMembers;
    MembersTextPrints(a, false);
    MembersTextPrints(b, false);
    PrintObject(a);
    PrintObject(b);
    J.PrintRoundTrips(J.Object(a), false, "");
    J.PrintRoundTrips(J.Object(b), false, "");
  }

  // ------------------------------------------------------------------ the event's text

  /**
   FormatCurrentEvent, behind the prefix that `output` holds; `format` is null for an event without a
   message. `now` is the integer table when the event is printed as JSON.
   */
  method FormatCurrentEvent(
      en: EtwEnumerator, propInfo: Buffer<PropInfo>, output: Buffer<char>, scratch: Buffer<char>, c: Callbacks,
      format: array?<char>, ghost fmt: string, flags: set<Suffix>, h: Header)
    returns (ok: bool, ghost env: X.Env, ghost now: seq<U16>)
    requires WellFormed(en.event) && en.integerValues.Length == |en.event.props| && ShortNames(en.event)
    requires propInfo.Valid() && Buffers(output, scratch) && Sound(c.render) && CleanHeader(h)
    requires format != null ==> Formatter.Holds(format, 0, fmt) && format != output.data && format != scratch.data
    modifies en, en.integerValues, propInfo, propInfo.data, output, output.data, scratch, scratch.data
    ensures Buffers(output, scratch) && ok == (en.lastError == Success) && |now| == |en.event.props|
    ensures ok ==> scratch.Contents() == []
    ensures var ints := old(en.integerValues[..]); var t := Decode(en.event, ints);
      var x := X.ExpandMessage(env, fmt, 3, 3, {}, t.ints);
      var u := Decode(en.event, now);
      var byMessage := format != null && t.outcome.Done? && Means(env, en.event, ints, c);
      if ok then
        if byMessage && x.Text? then output.Contents() == old(output.Contents()) + x.text
        else
          && (if format == null then now == ints else byMessage && x == X.Failure(MessageNotFound))
          && u.outcome.Done? && AllRendered(u.visits, c.render)
          && output.Contents() == old(output.Contents()) + J.Print(TreeOf(en.event, now, c.render, flags, h), false)
      else
        || en.lastError == OutOfMemory
        || t.outcome == Outcome.Failed(en.lastError)
        || (byMessage && x == X.Failure(en.lastError) && en.lastError != MessageNotFound)
        || u.outcome == Outcome.Failed(en.lastError)
        || (en.lastError == RenderFailed && !AllRendered(u.visits, c.render))
  {
    hide X.ExpandMessage, Group, Means, GrownCapacity, SubStateAgrees, AllRendered, Sound, CleanHeader, EventTree;
    hide J.Print, J.ParseValue, TreeOf, Valid;
    scratch.Clear();
    en.Reset();
    StartsOver(en);
    now := en.integerValues[..];
    env := LeafOf([], c);
    GroupErrors(en.event, 0, en.event.topLevel, 0, now);
    if format != null {
      var oldSize := output.size;
      ghost var prefix := output.Contents();
      var status;
      status, env := AddCurrentEvent(en, propInfo, output, scratch, c, format, fmt, true);
      en.lastError := status;
      if status != MessageNotFound {
        return status == Success, env, now;
      }
      output.ResizeUnchecked(oldSize);
      assert output.Contents() == prefix;
      scratch.Clear();
      en.Reset();
      now := en.integerValues[..];
      StartsOver(en);
    }
    ok := AddCurrentEventAsJson(en, output, scratch, c.render, flags, h);
  }

  lemma StartsOver(en: EtwEnumerator)
    requires en.Ok() && en.Abs() == Machine.Reset(en.event, en.integerValues[..])
    ensures en.state == StateBeforeFirstItem
  {
  }
}
