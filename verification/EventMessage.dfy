/** FormatContext::AddCurrentEvent: one pass to find the properties, then the expansion of the event's message. */
module EventMessage {
  import opened Basics
  import opened Schema
  import opened Decoder
  import opened Machine
  import opened Replay
  import opened Enumerator
  import opened GrowableBuffer
  import opened JsonPrinter
  import opened PropertyTable
  import opened Formatter
  import JsonTree
  import X = Expansion

  /** InitialRecursionLimit and MaxRecursionLimit. */
  const INITIAL_LIMIT := 3
  const MAX_LIMIT := 255

  /** Leaf rendering and what the formatter asks of its surroundings. */
  datatype Callbacks = Callbacks(
    render: JsonTree.Renderer,
    direct: (Visit, string, char) -> X.Direct,
    printString: (string, string) -> Option<string>,
    message: nat -> (Status, string),
    variable: string -> string)

  /**
   What the numbers in the event's message stand for: a simple property for its rendered value, any
   other for what a jump to the place where the pass has found it prints, with the integers of then.
   */
  ghost predicate Means(env: X.Env, e: Event, ints: seq<U16>, c: Callbacks)
    requires Start(e, 0, ints)
  {
    && |env.kinds| == e.topLevel
    && (forall i :: 0 <= i < e.topLevel ==> MeansAt(env, e, i, ints, c))
    && env.printString == c.printString && env.message == c.message && env.variable == c.variable
  }

  ghost predicate MeansAt(env: X.Env, e: Event, i: nat, ints: seq<U16>, c: Callbacks)
    requires Start(e, 0, ints) && i < e.topLevel == |env.kinds|
  {
    var t := InOrder(e, i, ints);
    if IsScalar(e.props[i]) then
      && env.kinds[i] == X.RecursiveValue && t.visits != []
      && env.value(i) == c.render(t.visits[0])
      && forall kept, specifier :: env.direct(i, kept, specifier) == c.direct(t.visits[0], kept, specifier)
    else
      && env.kinds[i] == X.AsJson
      && forall now :: |now| == |e.props| ==> env.json(i, now) == JumpTo(e, i, Before(e, i, ints).pos, now, c.render)
  }

  /** The table's renderings, as the formatter computes them. */
  function LeafOf(infos: seq<PropInfo>, c: Callbacks): X.Env {
    X.Env(
      seq(|infos|, i requires 0 <= i < |infos| => if infos[i].CookedData? then X.RecursiveValue else X.AsJson),
      (i: nat) => if i < |infos| && infos[i].CookedData? then c.render(infos[i].visit) else None,
      (i: nat, now: seq<U16>) => X.Failure(RenderFailed),
      (i: nat) => "",
      (i: nat, kept: string, specifier: char) =>
        if i < |infos| && infos[i].CookedData? then c.direct(infos[i].visit, kept, specifier) else X.Unsuitable,
      c.printString, c.message, c.variable)
  }

  ghost function EnvOf(infos: seq<PropInfo>, e: Event, ints: seq<U16>, c: Callbacks): X.Env
    requires Start(e, 0, ints)
  {
    LeafOf(infos, c).(json := (i: nat, now: seq<U16>) =>
      if i < e.topLevel && |now| == |e.props| then JumpTo(e, i, Before(e, i, ints).pos, now, c.render)
      else X.Failure(RenderFailed))
  }

  lemma TableMeans(infos: seq<PropInfo>, e: Event, ints: seq<U16>, c: Callbacks)
    requires Start(e, 0, ints) && |infos| == e.topLevel
    requires forall i :: 0 <= i < e.topLevel ==> Describes(e, i, ints, infos[i])
    ensures Means(EnvOf(infos, e, ints, c), e, ints, c)
  {
    hide JumpTo, Before, InOrder;
  }

  lemma EnvOfTable(infos: seq<PropInfo>, e: Event, ints: seq<U16>, c: Callbacks)
    requires Start(e, 0, ints) && |infos| == e.topLevel
    requires forall i :: 0 <= i < e.topLevel ==> Describes(e, i, ints, infos[i])
    ensures var (leaf, env) := (LeafOf(infos, c), EnvOf(infos, e, ints, c));
      && leaf == env.(json := leaf.json) && |env.kinds| == e.topLevel
      && (forall i :: 0 <= i < e.topLevel && env.kinds[i].AsJson? ==>
            infos[i].RawData? && infos[i].start == Before(e, i, ints).pos)
      && forall i, now :: 0 <= i < e.topLevel && env.kinds[i].AsJson? && |now| == |e.props| ==>
        env.json(i, now) == JumpTo(e, i, Before(e, i, ints).pos, now, c.render)
  {
    hide JumpTo, Before, InOrder;
  }

  // ------------------------------------------------------------------ in order

  /** Integer tables that no reference can tell from the one of the finished pass. */
  ghost function Interchangeable(e: Event, ints: seq<U16>): seq<U16> -> bool {
    (now: seq<U16>) => Passed(e, ints) && |now| == |ints| && Current(e, ints, now)
  }

  /** Every property that is printed as JSON stands for the tree that the pass has found there in order. */
  ghost function WithTrees(env: X.Env, e: Event, ints: seq<U16>, c: Callbacks): X.Env {
    env.(json := (i: nat, now: seq<U16>) =>
      if Start(e, 0, ints) && i < e.topLevel then X.OfOption(JsonOf(e, i, ints, c.render), now)
      else X.Failure(RenderFailed))
  }

  lemma TreesAreSame(env: X.Env, e: Event, ints: seq<U16>, c: Callbacks)
    requires Passed(e, ints) && JsonTree.Sound(c.render) && Means(env, e, ints, c)
    ensures X.SameJson(env, WithTrees(env, e, ints, c), Interchangeable(e, ints))
    ensures Interchangeable(e, ints)(Decode(e, ints).ints)
  {
    hide Group, JumpTo, JsonOf, BackwardGroup, JsonTree.Sound, KnownBefore;
    var agrees := Interchangeable(e, ints);
    var env' := WithTrees(env, e, ints, c);
    forall i: nat, a, b | i < |env.kinds| && env.kinds[i].AsJson? && agrees(a) && agrees(b)
      ensures X.SameText(env.json(i, a), env'.json(i, b), agrees)
    {
      assert MeansAt(env, e, i, ints, c);
      JumpIsInOrder(e, i, ints, a, c.render);
    }
  }

  /**
   When references point backwards, the message stands for the text in which every number is its property
   as the recursive decoder finds it, in whatever order and however often the message mentions them.
   */
  lemma MessageIsInOrder(
      env: X.Env, e: Event, ints: seq<U16>, c: Callbacks, fmt: string, limit: nat, trimLevel: nat, inUse: set<nat>)
    requires Passed(e, ints) && JsonTree.Sound(c.render) && Means(env, e, ints, c)
    ensures var final := Decode(e, ints).ints;
      X.SameText(
        X.ExpandMessage(env, fmt, limit, trimLevel, inUse, final),
        X.ExpandMessage(WithTrees(env, e, ints, c), fmt, limit, trimLevel, inUse, final),
        Interchangeable(e, ints))
  {
    hide Group, Means, X.SameJson, X.SameText, X.ExpandMessage, BackwardGroup, JsonTree.Sound, WithTrees;
    hide Interchangeable;
    TreesAreSame(env, e, ints, c);
    var final := Decode(e, ints).ints;
    X.MessageExpandsAlike(
      env, WithTrees(env, e, ints, c), Interchangeable(e, ints), fmt, limit, trimLevel, inUse, final, final);
  }

  // ------------------------------------------------------------------ the formatter

  /** The formatter, once the properties have been found. */
  method FormatWith(
      table: FormatTable, output: Buffer<char>, scratch: Buffer<char>, c: Callbacks,
      format: array<char>, ghost fmt: string, trimLevel: nat, ghost ints: seq<U16>)
    returns (status: Status, ghost env: X.Env)
    requires WellFormed(table.en.event) && table.Filled(ints, table.en.event.topLevel) && table.Movable()
    requires ShortNames(table.en.event) && trimLevel >= INITIAL_LIMIT
    requires Buffers(output, scratch) && Holds(format, 0, fmt) && format != output.data && format != scratch.data
    modifies table.en, table.en.integerValues, output, output.data, scratch, scratch.data
    ensures Buffers(output, scratch) && Start(table.en.event, 0, ints) && Means(env, table.en.event, ints, c)
    ensures output.data == old(output.data) || fresh(output.data)
    ensures scratch.data == old(scratch.data) || fresh(scratch.data)
    ensures old(output.Contents()) <= output.Contents()
    ensures status == Success ==> scratch.Contents() == old(scratch.Contents())
    ensures var x := X.ExpandMessage(env, fmt, INITIAL_LIMIT, trimLevel, {}, old(table.en.integerValues[..]));
      if status == Success then
        x.Text? && output.Contents() == old(output.Contents()) + x.text && table.en.integerValues[..] == x.table
      else status == OutOfMemory || x == X.Failure(status)
  {
    hide X.ExpandMessage, Means, LeafOf, EnvOf, JumpTo, GrownCapacity, Describes;
    var infos := table.propInfo.data[..table.propInfo.size];
    env := EnvOf(infos, table.en.event, ints, c);
    TableMeans(infos, table.en.event, ints, c);
    EnvOfTable(infos, table.en.event, ints, c);
    var context := new FormatContext(LeafOf(infos, c), env, table, c.render, output, scratch, trimLevel);
    var ok := context.AddFormatImpl(format, 0, fmt, INITIAL_LIMIT);
    status := context.lastError;
  }

  /**
   AddCurrentEvent: on success the message's expansion has been appended. Every number in it stands for
   its property where the pass has found it, read with the integers that the enumerator has when the
   expansion comes to that number: MessageIsInOrder says when this is what was decoded in order.
   */
  method AddCurrentEvent(
      en: EtwEnumerator, propInfo: Buffer<PropInfo>, output: Buffer<char>, scratch: Buffer<char>, c: Callbacks,
      format: array<char>, ghost fmt: string, removeTrailingSpace: bool)
    returns (status: Status, ghost env: X.Env)
    requires en.Ok() && en.state == StateBeforeFirstItem && ShortNames(en.event) && propInfo.Valid()
    requires Buffers(output, scratch) && Holds(format, 0, fmt) && format != output.data && format != scratch.data
    modifies en, en.integerValues, propInfo, propInfo.data, output, output.data, scratch, scratch.data
    ensures Buffers(output, scratch) && old(output.Contents()) <= output.Contents()
    ensures output.data == old(output.data) || fresh(output.data)
    ensures scratch.data == old(scratch.data) || fresh(scratch.data)
    ensures status == Success ==> scratch.Contents() == old(scratch.Contents())
    ensures var ints := old(en.integerValues[..]); var t := Decode(en.event, ints);
      if t.outcome.Failed? then status == t.outcome.error || status == OutOfMemory
      else
        || status == OutOfMemory
        || (&& Means(env, en.event, ints, c)
            && var x := X.ExpandMessage(env, fmt, 3, if removeTrailingSpace then 3 else 255, {}, t.ints);
              if status == Success then
                x.Text? && output.Contents() == old(output.Contents()) + x.text && en.integerValues[..] == x.table
              else x == X.Failure(status))
  {
    hide X.ExpandMessage, Group, Means, GrownCapacity, SubStateAgrees;
    var table := new FormatTable(en, propInfo);
    ghost var ints := en.integerValues[..];
    var ok := table.Fill();
    if !ok {
      env := LeafOf([], c);
      return en.lastError, env;
    }
    status, env := FormatWith(
      table, output, scratch, c, format, fmt, if removeTrailingSpace then INITIAL_LIMIT else MAX_LIMIT, ints);
  }
}
