/**
 The table that message formatting builds in one pass over the event: where each top-level property
 is. Simple properties are found by their cooked data, the others by jumping the enumerator back.
 */
module PropertyTable {
  import opened Basics
  import opened Schema
  import opened Values
  import opened Decoder
  import opened Machine
  import opened Runs
  import opened Replay
  import opened Siblings
  import opened Enumerator
  import opened GrowableBuffer
  import opened JsonTree
  import opened JsonStructure
  import opened JsonItems
  import opened JsonPrinter
  import J = JsonText
  import X = Expansion

  /** PropInfo: PropInfoAppendValueRecurse or PropInfoAppendCurrentItemAsJson. */
  datatype PropInfo = CookedData(visit: Visit) | RawData(start: nat, size: U16, index: nat)

  // ------------------------------------------------------------------ where a property is

  /** Decoding the first `i` top-level properties. */
  ghost function Before(e: Event, i: nat, ints: seq<U16>): Trace
    requires Start(e, 0, ints) && i <= e.topLevel
  {
    Group(e, 0, i, 0, ints)
  }

  /** Top-level property `i`, reached in order. */
  ghost function InOrder(e: Event, i: nat, ints: seq<U16>): Trace
    requires Start(e, 0, ints) && i < e.topLevel
  {
    One(e, i, Before(e, i, ints).pos, Before(e, i, ints).ints)
  }

  ghost predicate Describes(e: Event, i: nat, ints: seq<U16>, info: PropInfo)
    requires Start(e, 0, ints) && i < e.topLevel
  {
    var t := InOrder(e, i, ints);
    if IsScalar(e.props[i]) then t.visits != [] && info == CookedData(t.visits[0])
    else info == RawData(Before(e, i, ints).pos, t.pos - Before(e, i, ints).pos, i)
  }

  lemma {:induction false} BeforeNext(e: Event, i: nat, ints: seq<U16>)
    requires Start(e, 0, ints) && i < e.topLevel && Before(e, i, ints).outcome.Done?
    ensures var t := InOrder(e, i, ints); var after := Before(e, i + 1, ints);
      if t.outcome.Done? then after.pos == t.pos && after.ints == t.ints && after.outcome.Done?
      else after.outcome == t.outcome
  {
    hide One;
    GroupSplits(e, 0, i, i + 1, 0, ints);
    var a := Before(e, i, ints);
    assert Group(e, i + 1, i + 1, InOrder(e, i, ints).pos, InOrder(e, i, ints).ints).outcome.Done?;
  }

  /** An error in one property is the outcome of the whole event. */
  lemma FailureIsFinal(e: Event, i: nat, ints: seq<U16>)
    requires Start(e, 0, ints) && i <= e.topLevel && Before(e, i, ints).outcome.Failed?
    ensures Decode(e, ints).outcome == Before(e, i, ints).outcome
  {
    hide Group;
    GroupSplits(e, 0, i, e.topLevel, 0, ints);
  }

  /** The enumerator's state when it is about to start top-level property `i`. */
  ghost function AboutTo(e: Event, i: nat, ints: seq<U16>): (s: State)
    requires Start(e, 0, ints) && i <= e.topLevel
    ensures CanEnter(e, s)
  {
    var a := Before(e, i, ints);
    Ended(AtIndex(Machine.Reset(e, ints), i), a)
  }

  /** Where the enumerator stands after that. */
  ghost function Facing(e: Event, i: nat, ints: seq<U16>): (s: State)
    requires Start(e, 0, ints) && i <= e.topLevel
    ensures Valid(e, s) && !s.sub.BeforeFirst?
  {
    EnterIsValid(e, AboutTo(e, i, ints));
    EnterIsNotBefore(e, AboutTo(e, i, ints));
    Enter(e, AboutTo(e, i, ints))
  }

  lemma EnterIsNotBefore(e: Event, s: State)
    requires CanEnter(e, s)
    ensures !Enter(e, s).sub.BeforeFirst?
  {
  }

  lemma FirstFacing(e: Event, ints: seq<U16>)
    requires Start(e, 0, ints)
    ensures var s := Machine.Reset(e, ints);
      Valid(e, s) && CanMove(s) && Next(e, s) == Facing(e, 0, ints) && Before(e, 0, ints).outcome.Done?
  {
    hide Enter;
    assert AboutTo(e, 0, ints) == Machine.Reset(e, ints);
  }

  lemma LastFacing(e: Event, ints: seq<U16>)
    requires Start(e, 0, ints)
    ensures var s := Facing(e, e.topLevel, ints);
      && s.sub.AfterLast? && s.pos == Before(e, e.topLevel, ints).pos && s.ints == Decode(e, ints).ints
      && s.stack == [] && s.top.end == e.topLevel
  {
    hide Group;
    assert Wrap16(e.topLevel) == e.topLevel;
  }

  /** What the enumerator shows at the start of property `i`: its first item, or its first error. */
  lemma FacingShows(e: Event, i: nat, ints: seq<U16>)
    requires Start(e, 0, ints) && i < e.topLevel
    ensures var s := Facing(e, i, ints); var t := InOrder(e, i, ints);
      && s.pos == Before(e, i, ints).pos
      && (s.sub.InError? ==> t.outcome == Failed(s.lastError))
      && (!s.sub.InError? ==> OnItem(s) && KindOf(s.sub).Value? == IsScalar(e.props[i]))
      && (s.sub.Scalar? ==> t.outcome.Done? && t.visits == [View(s)] && t.pos == s.pos + s.item.raw)
      && (OnItem(s) ==> !s.sub.SimpleElement? && !s.sub.ComplexElement?)
  {
  }

  /** Moving past property `i`. */
  lemma FacingMoves(e: Event, i: nat, ints: seq<U16>)
    requires Start(e, 0, ints) && i < e.topLevel && Before(e, i, ints).outcome.Done? && OnItem(Facing(e, i, ints))
    ensures var s := Facing(e, i, ints); var t := InOrder(e, i, ints); var w := Walk(e, s, 0).end;
      && (if t.outcome.Done? then w == Facing(e, i + 1, ints) else Stopped(t, w))
      && (s.sub.Scalar? ==> Next(e, s) == w)
  {
    hide One, Group, Enter, Walk;
    var s := AboutTo(e, i, ints);
    assert Wrap16(e.topLevel) == e.topLevel;
    WalkSkipsProperty(e, s);
    BeforeNext(e, i, ints);
    WalkUnfolds(e, Facing(e, i, ints), 0);
  }

  lemma ErrorIsFinal(e: Event, i: nat, ints: seq<U16>)
    requires Start(e, 0, ints) && i < e.topLevel && Before(e, i, ints).outcome.Done?
      && InOrder(e, i, ints).outcome.Failed?
    ensures Decode(e, ints).outcome == InOrder(e, i, ints).outcome
  {
    hide One, Group;
    BeforeNext(e, i, ints);
    FailureIsFinal(e, i + 1, ints);
  }

  lemma FacingError(e: Event, i: nat, ints: seq<U16>)
    requires Start(e, 0, ints) && i <= e.topLevel && Before(e, i, ints).outcome.Done?
    ensures var s := Facing(e, i, ints);
      s.pos == Before(e, i, ints).pos && (s.sub.InError? ==> Decode(e, ints).outcome == Failed(s.lastError))
  {
    hide One, Group, Enter;
    if i < e.topLevel {
      FacingShows(e, i, ints);
      if Facing(e, i, ints).sub.InError? {
        ErrorIsFinal(e, i, ints);
      }
    } else {
      LastFacing(e, ints);
    }
  }

  /** Moving past property `i` ends in front of the next one, or with the outcome of the event. */
  lemma PassesOne(e: Event, i: nat, ints: seq<U16>)
    requires Start(e, 0, ints) && i < e.topLevel && Before(e, i, ints).outcome.Done? && !Facing(e, i, ints).sub.InError?
    ensures var s := Facing(e, i, ints); var t := InOrder(e, i, ints);
      && OnItem(s) && KindOf(s.sub).Value? == IsScalar(e.props[i]) && s.pos == Before(e, i, ints).pos
      && (IsScalar(e.props[i]) ==> t.visits == [View(s)])
      && var after := Walk(e, s, 0).end;
        && (IsScalar(e.props[i]) ==> Next(e, s) == after)
        && if after.sub.InError? then Decode(e, ints).outcome == Failed(after.lastError)
          else Before(e, i + 1, ints).outcome.Done? && after == Facing(e, i + 1, ints) && after.pos == t.pos
  {
    hide One, Group, Enter, Walk, Next, SubStateAgrees;
    FacingShows(e, i, ints);
    FacingMoves(e, i, ints);
    BeforeNext(e, i, ints);
    if InOrder(e, i, ints).outcome.Done? {
      FacingError(e, i + 1, ints);
    } else {
      ErrorIsFinal(e, i, ints);
    }
  }

  // ------------------------------------------------------------------ jumping back

  /** A pass over the event has ended well, and its references point backwards. */
  ghost predicate Passed(e: Event, ints: seq<U16>) {
    Start(e, 0, ints) && Decode(e, ints).outcome.Done? && BackwardGroup(e, 0, e.topLevel, {})
  }

  lemma AllBeforeDone(e: Event, i: nat, ints: seq<U16>)
    requires Passed(e, ints) && i <= e.topLevel
    ensures Before(e, i, ints).outcome.Done?
  {
    hide Group;
    if Before(e, i, ints).outcome.Failed? {
      FailureIsFinal(e, i, ints);
    }
  }

  lemma {:induction false} KnownAreScalars(e: Event, i: nat, j: nat)
    requires i <= |e.props| && j in KnownBefore(e, i)
    ensures j < i && IsScalar(e.props[j]) && j in KnownBefore(e, j + 1)
  {
    if j == i - 1 {
    } else {
      KnownAreScalars(e, i - 1, j);
    }
  }

  lemma {:induction false} KnownGrows(e: Event, i: nat, k: nat)
    requires i <= k <= |e.props|
    ensures KnownBefore(e, i) <= KnownBefore(e, k)
  {
    if i == k {
    } else {
      KnownGrows(e, i, k - 1);
    }
  }

  /** The table of the finished pass still holds what was known when property `k` was reached. */
  lemma FinalAgrees(e: Event, k: nat, ints: seq<U16>)
    requires Passed(e, ints) && k <= e.topLevel
    ensures Agree(Decode(e, ints).ints, Before(e, k, ints).ints, KnownBefore(e, k))
  {
    hide Group;
    AllBeforeDone(e, k, ints);
    GroupSplits(e, 0, k, e.topLevel, 0, ints);
    var reached := Before(e, k, ints);
    forall j | j in KnownBefore(e, k) && j < |reached.ints|
      ensures Decode(e, ints).ints[j] == reached.ints[j]
    {
      GroupWrites(e, k, e.topLevel, reached.pos, reached.ints, j);
    }
  }

  /** `now` agrees with the table of the finished pass wherever a reference could look. */
  ghost predicate Current(e: Event, ints: seq<U16>, now: seq<U16>)
    requires Passed(e, ints)
  {
    Agree(now, Decode(e, ints).ints, KnownBefore(e, e.topLevel))
  }

  /** Decoding property `i` at its place with such a table: the items of the first pass. */
  lemma DecodesAgain(e: Event, i: nat, ints: seq<U16>, now: seq<U16>)
    requires Passed(e, ints) && i < e.topLevel && Current(e, ints, now)
    ensures var t := One(e, i, Before(e, i, ints).pos, now);
      && SameItems(t, InOrder(e, i, ints)) && t.outcome.Done? && t.pos == Before(e, i + 1, ints).pos
      && Current(e, ints, t.ints)
  {
    hide One, Group, BackwardGroup, BackwardProperty;
    var a := Before(e, i, ints);
    var known := KnownBefore(e, i);
    var final := Decode(e, ints).ints;
    AllBeforeDone(e, i, ints);
    AllBeforeDone(e, i + 1, ints);
    BeforeNext(e, i, ints);
    FinalAgrees(e, i, ints);
    FinalAgrees(e, i + 1, ints);
    KnownGrows(e, i, e.topLevel);
    BackwardHere(e, i);
    PropertyReplays(e, i, a.pos, now, a.ints, known);
    var t := One(e, i, a.pos, now);
    forall j | j in KnownBefore(e, e.topLevel) && j < |now|
      ensures t.ints[j] == final[j]
    {
      KnownAreScalars(e, e.topLevel, j);
      if j != i {
        PropertyWrites(e, i, a.pos, now, j);
      }
    }
  }

  lemma BackwardHere(e: Event, i: nat)
    requires WellFormed(e) && i < e.topLevel && BackwardGroup(e, 0, e.topLevel, {})
    ensures BackwardProperty(e, i, KnownBefore(e, i))
  {
    BackwardSuffix(e, i);
  }

  /** The enumerator is put in front of property `i` by hand. */
  ghost predicate Aimed(e: Event, i: nat, ints: seq<U16>, s: State)
    requires Start(e, 0, ints) && i <= e.topLevel
  {
    s.stack == [] && s.top.end == e.topLevel && s.top.index == i && s.pos == Before(e, i, ints).pos
  }

  /** It can be aimed again after that: nothing is open, and no error has occurred. */
  ghost predicate Reusable(e: Event, ints: seq<U16>, s: State)
    requires Passed(e, ints)
  {
    s.stack == [] && s.top.end == e.topLevel && s.lastError == Success && Current(e, ints, s.ints)
  }

  lemma AimedEnters(e: Event, i: nat, ints: seq<U16>, s: State)
    requires Passed(e, ints) && i <= e.topLevel && Aimed(e, i, ints, s) && Current(e, ints, s.ints)
    ensures CanEnter(e, s) && Valid(e, Enter(e, s)) && Reusable(e, ints, Enter(e, s))
    ensures i < e.topLevel ==> OnItem(Enter(e, s))
    ensures i < e.topLevel && !IsScalar(e.props[i]) ==> Enter(e, s).sub.AtArrayBegin? || Enter(e, s).sub.AtStructBegin?
  {
    hide One, Group, DecodeValue, ShapeOf, CookedType, Bytes, BackwardGroup, Members;
    EnterIsValid(e, s);
    if i < e.topLevel {
      DecodesAgain(e, i, ints, s.ints);
      EnterOpens(e, s);
    }
  }

  /** From there the loops go over the property's items, and the enumerator can be aimed again. */
  lemma AimedWalks(e: Event, i: nat, ints: seq<U16>, s: State)
    requires Passed(e, ints) && i < e.topLevel && Aimed(e, i, ints, s) && Current(e, ints, s.ints)
    ensures CanEnter(e, s) && Valid(e, Enter(e, s)) && OnItem(Enter(e, s))
    ensures var w := Walk(e, Enter(e, s), 0);
      w.visits == InOrder(e, i, ints).visits && Reusable(e, ints, w.end)
  {
    hide One, Group, Enter, Walk, BackwardGroup, Current;
    AimedEnters(e, i, ints, s);
    DecodesAgain(e, i, ints, s.ints);
    WalkSkipsProperty(e, s);
    var next := Ended(AtIndex(s, i + 1), One(e, i, s.pos, s.ints));
    AimedEnters(e, i + 1, ints, next);
  }

  /** Whatever the references are: from a property the loops end in front of the next one, or with an error. */
  lemma EntersAndWalks(e: Event, s: State)
    requires CanEnter(e, s) && s.stack == [] && s.top.index < s.top.end
    ensures Valid(e, Enter(e, s)) && !Enter(e, s).sub.BeforeFirst?
    ensures var open := Enter(e, s);
      if OnItem(open) then
        && CanPrint(open)
        && var w := Walk(e, open, 0);
          !w.end.sub.InError? ==> w.end.stack == [] && w.end.top.end == s.top.end && w.end.lastError == Success
      else open.sub.InError?
  {
    hide One, Enter, Walk, Valid;
    EnterIsValid(e, s);
    EnterOpens(e, s);
    if OnItem(Enter(e, s)) {
      WalkSkipsProperty(e, s);
      var t := One(e, s.top.index, s.pos, s.ints);
      if t.outcome.Done? {
        EntersNext(e, Ended(AtIndex(s, s.top.index + 1), t));
      }
    }
  }

  lemma EntersNext(e: Event, s: State)
    requires CanEnter(e, s) && s.stack == []
    ensures Valid(e, Enter(e, s))
    ensures !Enter(e, s).sub.InError? ==>
      Enter(e, s).stack == [] && Enter(e, s).top.end == s.top.end && Enter(e, s).lastError == Success
  {
    hide One, DecodeValue, ShapeOf, CookedType, Bytes;
    EnterIsValid(e, s);
    if s.top.index < s.top.end {
      EnterOpens(e, s);
    }
  }

  // ------------------------------------------------------------------ the text of a jump

  /** The enumerator, moved by hand in front of property `i` with the integer table `now`. */
  function MovedTo(e: Event, i: nat, start: nat, now: seq<U16>): State
    requires i <= e.topLevel <= |e.props|
  {
    AtIndex(Machine.Reset(e, now), i).(pos := start)
  }

  /**
   What printing property `i` from there appends, and the integer table that it leaves; or why it fails:
   an item cannot be rendered, or loading the property, going over it or loading the next one runs into an error.
   */
  ghost function JumpTo(e: Event, i: nat, start: nat, now: seq<U16>, render: Renderer): (x: X.Expansion)
    requires Start(e, start, now) && i < e.topLevel
    ensures x.Text? ==> |x.table| == |now|
  {
    var s := MovedTo(e, i, start, now);
    EntersAndWalks(e, s);
    var open := Enter(e, s);
    if open.sub.InError? then X.Failure(open.lastError)
    else
      var w := Walk(e, open, 0);
      if !AllRendered(w.visits, render) then X.Failure(RenderFailed)
      else if w.end.sub.InError? then X.Failure(w.end.lastError)
      else X.Text(EmitAll(e, w.visits, render, Pen(false, false), false), w.end.ints)
  }

  /** On success the text is that of the tree which the recursive decoder finds there with that table. */
  lemma JumpPrints(e: Event, i: nat, start: nat, now: seq<U16>, render: Renderer)
    requires Start(e, start, now) && i < e.topLevel && Sound(render)
    ensures var t := One(e, i, start, now); var x := JumpTo(e, i, start, now, render);
      if t.outcome.Failed? then x == X.Failure(t.outcome.error)
        || (x == X.Failure(RenderFailed) && !AllRendered(t.visits, render))
      else if !AllRendered(t.visits, render) then x == X.Failure(RenderFailed)
      else
        var next := Enter(e, MovedTo(e, i + 1, t.pos, t.ints));
        if next.sub.InError? then x == X.Failure(next.lastError)
        else x == X.Text(J.Print(PropertyTree(e, i, start, now, render), false), next.ints)
  {
    hide One, Enter, Walk, EmitAll, AllRendered, PropertyTree, J.Print, Sound, Valid;
    var s := MovedTo(e, i, start, now);
    var t := One(e, i, start, now);
    EntersAndWalks(e, s);
    EnterOpens(e, s);
    if Enter(e, s).sub.InError? {
      NoneRendered(render);
    } else {
      WalkSkipsProperty(e, s);
      if t.outcome.Done? && AllRendered(t.visits, render) {
        InOrderPrints(e, i, start, now, render);
      }
    }
  }

  lemma NoneRendered(render: Renderer)
    ensures AllRendered([], render)
  {
  }

  /**
   When references point backwards, a jump with any table that agrees with the finished pass prints the
   tree that the pass has found in order, and leaves a table with which the next jump does so again.
   */
  lemma JumpIsInOrder(e: Event, i: nat, ints: seq<U16>, now: seq<U16>, render: Renderer)
    requires Passed(e, ints) && i < e.topLevel && |now| == |ints| && Current(e, ints, now) && Sound(render)
    ensures var x := JumpTo(e, i, Before(e, i, ints).pos, now, render);
      match JsonOf(e, i, ints, render)
      case Some(text) => x.Text? && x.text == text && Current(e, ints, x.table)
      case None => x == X.Failure(RenderFailed)
  {
    hide One, Group, Enter, Walk, EmitAll, AllRendered, PropertyTree, J.Print, Sound, BackwardGroup, Current;
    var s := MovedTo(e, i, Before(e, i, ints).pos, now);
    EntersAndWalks(e, s);
    AimedWalks(e, i, ints, s);
    InOrderIsDone(e, i, ints);
    var t := InOrder(e, i, ints);
    if AllRendered(t.visits, render) {
      InOrderPrints(e, i, Before(e, i, ints).pos, Before(e, i, ints).ints, render);
    }
  }

  lemma InOrderIsDone(e: Event, i: nat, ints: seq<U16>)
    requires Passed(e, ints) && i < e.topLevel
    ensures InOrder(e, i, ints).outcome.Done?
  {
    hide One, Group, BackwardGroup;
    AllBeforeDone(e, i + 1, ints);
    AllBeforeDone(e, i, ints);
    BeforeNext(e, i, ints);
  }

  /** The text of a property's items, without its name, is the text of its tree. */
  lemma InOrderPrints(e: Event, i: nat, pos: nat, ints: seq<U16>, render: Renderer)
    requires Start(e, pos, ints) && i < e.topLevel && One(e, i, pos, ints).outcome.Done?
    requires Sound(render) && AllRendered(One(e, i, pos, ints).visits, render)
    ensures EmitAll(e, One(e, i, pos, ints).visits, render, Pen(false, false), false)
      == J.Print(PropertyTree(e, i, pos, ints, render), false)
  {
    hide One, Group, EmitAll, PropertyTree, J.Print, J.Printable;
    PropertyPrints(e, i, pos, ints, render, Pen(false, false), false);
  }

  /** The JSON of property `i`, as it was found in order; None when some value in it cannot be rendered. */
  ghost function JsonOf(e: Event, i: nat, ints: seq<U16>, render: Renderer): Option<string>
    requires Start(e, 0, ints) && i < e.topLevel
  {
    var a := Before(e, i, ints);
    if AllRendered(InOrder(e, i, ints).visits, render)
      then Some(J.Print(PropertyTree(e, i, a.pos, a.ints, render), false))
    else None
  }

  class FormatTable {
    const en: EtwEnumerator
    const propInfo: Buffer<PropInfo>

    constructor (en: EtwEnumerator, propInfo: Buffer<PropInfo>)
      ensures this.en == en && this.propInfo == propInfo
    {
      this.en := en;
      this.propInfo := propInfo;
    }

    ghost predicate Filled(ints: seq<U16>, n: nat)
      reads propInfo, propInfo.data
    {
      && Start(en.event, 0, ints) && propInfo.Valid() && n <= propInfo.size == en.event.topLevel
      && forall i :: 0 <= i < n ==> Describes(en.event, i, ints, propInfo.data[i])
    }

    /** AddCurrentEvent, up to the expansion: describes every top-level property. */
    method Fill() returns (ok: bool)
      requires en.Ok() && en.state == StateBeforeFirstItem && propInfo.Valid()
      modifies en, en.integerValues, propInfo, propInfo.data
      ensures ok == (en.lastError == Success) && (ok ==> en.Ok())
      ensures propInfo.data == old(propInfo.data) || fresh(propInfo.data)
      ensures var ints := old(en.integerValues[..]); var t := Decode(en.event, ints);
        if ok then
          && t.outcome.Done? && Filled(ints, en.event.topLevel)
          && en.state == StateAfterLastItem && en.Abs() == Facing(en.event, en.event.topLevel, ints)
        else
          || t.outcome == Failed(en.lastError) || en.OutOfStack()
          || (en.lastError == OutOfMemory && !old(propInfo.CanHold(en.event.topLevel)))
      ensures ok ==> Movable() && en.integerValues[..] == Decode(en.event, old(en.integerValues[..])).ints
    {
      hide Group, One, Enter, Walk, Next, SubStateAgrees, GrownCapacity;
      ghost var ints := en.integerValues[..];
      FirstFacing(en.event, ints);
      FacingError(en.event, 0, ints);
      ErrorIsFailure(en);
      var moved := en.MoveNext();
      ErrorIsFailure(en);
      if en.lastError != Success {
        return false;
      }
      ok := propInfo.Resize(en.event.topLevel, false);
      if !ok {
        en.lastError := OutOfMemory;
        return;
      }
      ok := FillAll(ints);
      LastFacing(en.event, ints);
      if ok {
        FilledIsMovable(ints);
      }
    }

    /** The loop of AddCurrentEvent. */
    method FillAll(ghost ints: seq<U16>) returns (ok: bool)
      requires Filled(ints, 0) && en.Ok() && en.lastError == Success && en.Abs() == Facing(en.event, 0, ints)
      modifies en, en.integerValues, propInfo.data
      ensures en.Ok() && ok == (en.lastError == Success)
      ensures if ok
        then Filled(ints, en.event.topLevel) && en.Abs() == Facing(en.event, en.event.topLevel, ints)
          && Before(en.event, en.event.topLevel, ints).outcome.Done?
        else Decode(en.event, ints).outcome == Failed(en.lastError) || en.OutOfStack()
    {
      hide Group, One, Enter, Walk, Next, Describes, SubStateAgrees;
      ghost var e := en.event;
      FirstFacing(e, ints);
      for i := 0 to en.event.topLevel
        invariant en.Ok() && en.lastError == Success
        invariant Before(e, i, ints).outcome.Done? && en.Abs() == Facing(e, i, ints) && Filled(ints, i)
      {
        var info := DescribeOne(i, ints);
        if en.lastError != Success {
          return false;
        }
        propInfo.data[i] := info;
      }
      ok := true;
    }

    /** The entry of property `i`, and the move past the property. */
    method DescribeOne(i: nat, ghost ints: seq<U16>) returns (info: PropInfo)
      requires Start(en.event, 0, ints) && en.Ok() && i < en.event.topLevel && en.lastError == Success
      requires Before(en.event, i, ints).outcome.Done? && en.Abs() == Facing(en.event, i, ints)
      modifies en, en.integerValues
      ensures en.Ok()
      ensures if en.lastError == Success
        then Before(en.event, i + 1, ints).outcome.Done? && en.Abs() == Facing(en.event, i + 1, ints)
          && Describes(en.event, i, ints, info)
        else Decode(en.event, ints).outcome == Failed(en.lastError) || en.OutOfStack()
    {
      hide Group, One, Enter, Walk, Next, SubStateAgrees, Frames;
      PassesOne(en.event, i, ints);
      ErrorIsFailure(en);
      if en.state == StateValue {
        info := CookedData(CurrentItem(en));
        var moved := en.MoveNext();
        ErrorIsFailure(en);
      } else {
        var start := en.dataNext;
        var moved := en.MoveNextSibling();
        ErrorIsFailure(en);
        info := RawData(start, if en.lastError == Success then Wrap16(en.dataNext - start) else 0, i);
      }
    }

    /** The enumerator can be moved to the properties of the table that are not simple. */
    ghost predicate Movable()
      reads en, en.integerValues, propInfo, propInfo.data
    {
      && en.Ok() && en.lastError == Success && en.Abs().stack == [] && en.Abs().top.end == en.event.topLevel
      && propInfo.Valid() && propInfo.size == en.event.topLevel
      && forall i :: 0 <= i < propInfo.size && propInfo.data[i].RawData? ==>
        propInfo.data[i].start <= |en.event.data| && propInfo.data[i].index == i
    }

    lemma FilledIsMovable(ints: seq<U16>)
      requires Filled(ints, en.event.topLevel) && en.Ok() && en.lastError == Success
      requires en.Abs().stack == [] && en.Abs().top.end == en.event.topLevel
      ensures Movable()
    {
      hide One, Group;
      forall i | 0 <= i < propInfo.size && propInfo.data[i].RawData?
        ensures propInfo.data[i].start <= |en.event.data| && propInfo.data[i].index == i
      {
        assert Describes(en.event, i, ints, propInfo.data[i]);
      }
    }

    /** The PropInfoAppendCurrentItemAsJson branch of AddProperty: jumps to a property and prints it. */
    method AddJson(i: nat, output: Buffer<char>, scratch: Buffer<char>, render: Renderer) returns (ok: bool)
      requires Movable() && i < en.event.topLevel && propInfo.data[i].RawData?
      requires Buffers(output, scratch) && ShortNames(en.event)
      modifies en, en.integerValues, output, output.data, scratch, scratch.data
      ensures Buffers(output, scratch) && ok == (en.lastError == Success)
      ensures output.data == old(output.data) || fresh(output.data)
      ensures scratch.data == old(scratch.data) || fresh(scratch.data)
      ensures scratch.Contents() == old(scratch.Contents()) && old(output.Contents()) <= output.Contents()
      ensures var x := JumpTo(en.event, i, propInfo.data[i].start, old(en.integerValues[..]), render);
        if ok then
          && Movable() && x.Text?
          && output.Contents() == old(output.Contents()) + x.text && en.integerValues[..] == x.table
        else en.lastError == OutOfMemory || x == X.Failure(en.lastError)
    {
      hide Enter, Walk, SubStateAgrees, EmitAll, AllRendered, Sound, GrownCapacity, IsJson;
      ok := Seek(i);
      if ok {
        ok := AddCurrentItemAsJsonAndMoveNext(en, output, scratch, render, false, false);
      }
    }

    /** Moves the enumerator to a property that is not simple, and loads it. */
    method Seek(i: nat) returns (ok: bool)
      requires Movable() && i < en.event.topLevel && propInfo.data[i].RawData?
      modifies en, en.integerValues
      ensures ok == (en.lastError == Success)
      ensures var s := MovedTo(en.event, i, propInfo.data[i].start, old(en.integerValues[..]));
        && CanEnter(en.event, s)
        && var open := Enter(en.event, s);
          if ok then
            && en.Ok() && en.Abs() == open && OnItem(open) && CanPrint(open)
            && var end := Walk(en.event, open, 0).end;
              !end.sub.InError? ==> end.stack == [] && end.top.end == en.event.topLevel && end.lastError == Success
          else open.sub.InError? && open.lastError == en.lastError
    {
      hide Enter, Walk, SubStateAgrees;
      en.dataNext := propInfo.data[i].start;
      en.stackTop := en.stackTop.(index := propInfo.data[i].index);
      ghost var s := MovedTo(en.event, i, propInfo.data[i].start, en.integerValues[..]);
      EntersAndWalks(en.event, s);
      EnterIgnores(en.event, s, en.Fields());
      ok := en.NextProperty();
    }
  }
}
