/**
 The enumerator as a state machine: one step (`Next`) on an immutable state, the invariant every
 reachable state satisfies, and what the reference decoder still has to produce from a state.
 */
module Machine {
  import opened Basics
  import opened Schema
  import opened Values
  import opened Decoder

  /** StackEntry. */
  datatype Frame = Frame(index: nat, end: nat, arrayIndex: nat, arrayCount: U16, isStruct: bool, isArray: bool)

  /** m_subState; `Public` gives the m_state that goes with it. */
  datatype Sub =
    | BeforeFirst | AfterLast | InError
    | Scalar | SimpleElement | ComplexElement
    | AtArrayBegin | AtArrayEnd | AtStructBegin | AtStructEnd

  datatype State = State(
    sub: Sub, pos: nat, top: Frame, stack: seq<Frame>, ints: seq<U16>, item: Item, lastError: Status)

  /** States for which GetItemInfo is meaningful. */
  predicate OnItem(s: State) {
    !s.sub.BeforeFirst? && !s.sub.AfterLast? && !s.sub.InError?
  }

  /** MoveNext's precondition. */
  predicate CanMove(s: State) {
    OnItem(s) || s.sub.BeforeFirst?
  }

  function KindOf(sub: Sub): Kind
    requires !sub.BeforeFirst? && !sub.AfterLast? && !sub.InError?
  {
    match sub
    case Scalar | SimpleElement | ComplexElement => Kind.Value
    case AtArrayBegin => ArrayBegin
    case AtArrayEnd => ArrayEnd
    case AtStructBegin => StructBegin
    case AtStructEnd => StructEnd
  }

  /** What a caller sees at an item. */
  function View(s: State): Visit
    requires OnItem(s)
  {
    Visit(KindOf(s.sub), s.top.index, s.top.arrayIndex, s.top.arrayCount, s.top.isArray, s.pos, s.item)
  }

  // ------------------------------------------------------------------ one step

  /** ResetImpl: the integer table is kept from the previous pass. */
  function Reset(e: Event, ints: seq<U16>): State {
    State(BeforeFirst, 0, Frame(0, Wrap16(e.topLevel), 0, 0, false, false), [], ints, Marker(0, InType.Null, 0),
      Success)
  }

  /** The item fields are unspecified in the error state; the abstraction blanks them. */
  function Fail(s: State, error: Status): State {
    s.(sub := InError, item := Marker(s.pos, InType.Null, 0), lastError := error)
  }

  /** After the last item, only the cursor and the position in the table are meaningful. */
  function Finish(s: State): State {
    s.(sub := AfterLast,
       top := Frame(s.top.index, s.top.end, 0, 0, false, false),
       item := Marker(s.pos, InType.Null, 0),
       lastError := Success)
  }

  /** StartValue, in sub-state `sub`. */
  function ReadValue(e: Event, s: State, sub: Sub): State
    requires Start(e, s.pos, s.ints) && s.top.index < |e.props|
  {
    match DecodeValue(e, s.top.index, s.pos, s.ints)
    case Rejected(error) => Fail(s, error)
    case Read(item, ints) => s.(sub := sub, item := item, ints := ints, lastError := Success)
  }

  function OpenStruct(s: State): State {
    s.(sub := AtStructBegin, item := Marker(s.pos, InType.Null, 0), lastError := Success)
  }

  function CloseArray(e: Event, s: State): State
    requires s.top.index < |e.props|
  {
    var p := e.props[s.top.index];
    s.(sub := AtArrayEnd, item := Marker(s.pos, ArrayType(p), ArrayElement(e, p)), lastError := Success)
  }

  /** StartArray. */
  function OpenArray(e: Event, s: State): State
    requires s.top.index < |e.props| && s.pos <= |e.data|
  {
    var p := e.props[s.top.index];
    var size := Bytes(s.top.arrayCount, ArrayElement(e, p));
    if !p.isStruct && ShapeOf(p.inType, e.pointerSize).Unknown? then Fail(s, UnsupportedType)
    else if |e.data| - s.pos < size then Fail(s, InvalidData)
    else s.(sub := AtArrayBegin, item := BeginArray(e, s.top.index, s.top.arrayCount, s.pos).item, lastError := Success)
  }

  /** A simple element: the whole array was checked when it was opened. */
  function ReadSimple(e: Event, s: State): State
    requires s.top.index < |e.props|
  {
    var p := e.props[s.top.index];
    var size := ArrayElement(e, p);
    s.(sub := SimpleElement, item := Item(s.pos, size, size, CookedType(p.inType), size), lastError := Success)
  }

  /** NextProperty: `top.index` was just set. */
  function Enter(e: Event, s: State): State
    requires Start(e, s.pos, s.ints) && s.top.index <= s.top.end <= |e.props|
  {
    if s.top.index == s.top.end then
      if s.stack == [] then Finish(s)
      else
        s.(sub := AtStructEnd,
           top := s.stack[|s.stack| - 1],
           stack := s.stack[..|s.stack| - 1],
           item := Marker(s.pos, InType.Null, 0),
           lastError := Success)
    else
      var p := e.props[s.top.index];
      assert WellFormedProperty(e, s.top.index);
      if IsScalar(p) then
        ReadValue(e, s.(top := s.top.(arrayIndex := 0, arrayCount := 1, isStruct := false, isArray := false)), Scalar)
      else
        var s' := s.(top := s.top.(arrayIndex := 0, arrayCount := ArrayCount(p, s.ints), isStruct := p.isStruct,
          isArray := IsArray(p)));
        if IsArray(p) then OpenArray(e, s') else OpenStruct(s')
  }

  function NextProperty(e: Event, s: State): State
    requires Start(e, s.pos, s.ints) && s.top.index < s.top.end <= |e.props|
  {
    Enter(e, s.(top := s.top.(index := s.top.index + 1)))
  }

  /** MoveNext, with memory for the stack available. */
  function Next(e: Event, s: State): State
    requires Valid(e, s) && CanMove(s)
  {
    match s.sub
    case BeforeFirst => Enter(e, s)
    case Scalar => NextProperty(e, s.(pos := s.pos + s.item.raw))
    case SimpleElement =>
      var s' := s.(pos := s.pos + s.item.raw, top := s.top.(arrayIndex := s.top.arrayIndex + 1));
      if s'.top.arrayIndex == s'.top.arrayCount then CloseArray(e, s') else ReadSimple(e, s')
    case ComplexElement =>
      var s' := s.(pos := s.pos + s.item.raw, top := s.top.(arrayIndex := s.top.arrayIndex + 1));
      if s'.top.arrayIndex == s'.top.arrayCount then CloseArray(e, s') else ReadValue(e, s', ComplexElement)
    case AtArrayBegin =>
      if s.top.arrayCount == 0 then CloseArray(e, s)
      else if s.item.element != 0 then ReadSimple(e, s)
      else if !s.top.isStruct then ReadValue(e, s, ComplexElement)
      else OpenStruct(s)
    case AtArrayEnd => NextProperty(e, s)
    case AtStructBegin =>
      var p := e.props[s.top.index];
      assert WellFormedProperty(e, s.top.index);
      Enter(e, s.(stack := s.stack + [s.top], top := s.top.(index := p.structStart, end := MemberEnd(p))))
    case AtStructEnd =>
      var s' := s.(top := s.top.(arrayIndex := s.top.arrayIndex + 1));
      if s'.top.arrayIndex != s'.top.arrayCount then OpenStruct(s')
      else if s.top.isArray then CloseArray(e, s')
      else NextProperty(e, s')
  }

  // ------------------------------------------------------------------ invariant

  /** A frame whose struct is being walked. */
  ghost predicate OpenFrame(e: Event, f: Frame) {
    && f.index < f.end <= |e.props|
    && f.isStruct && e.props[f.index].isStruct
    && f.arrayIndex < f.arrayCount
    && (!f.isArray ==> f.arrayCount == 1)
  }

  ghost predicate Frames(e: Event, stack: seq<Frame>) {
    forall j :: 0 <= j < |stack| ==> OpenFrame(e, stack[j])
  }

  /** The flags, counts and item fields that go with each sub-state. */
  ghost predicate SubStateAgrees(e: Event, s: State)
    requires s.top.index < |e.props| && OnItem(s) && s.pos <= |e.data|
  {
    var p := e.props[s.top.index];
    var (k, n) := (s.top.arrayIndex, s.top.arrayCount);
    match s.sub
    case Scalar =>
      !s.top.isStruct && !s.top.isArray && !p.isStruct && k == 0 && n == 1 && s.pos + s.item.raw <= |e.data|
    case SimpleElement =>
      && !s.top.isStruct && s.top.isArray && !p.isStruct && k < n
      && s.item.element == ArrayElement(e, p) != 0
      && s.item == Item(s.pos, s.item.element, s.item.element, CookedType(p.inType), s.item.element)
      && s.pos + Bytes(n - k, s.item.element) <= |e.data|
    case ComplexElement =>
      && !s.top.isStruct && s.top.isArray && !p.isStruct && k < n
      && s.item.element == ArrayElement(e, p) == 0
      && s.item.cookedType == CookedType(p.inType)
      && s.pos + s.item.raw <= |e.data|
    case AtArrayBegin =>
      && s.top.isArray && s.top.isStruct == p.isStruct && k == 0
      && s.item == BeginArray(e, s.top.index, n, s.pos).item
      && s.pos + Bytes(n, ArrayElement(e, p)) <= |e.data|
    case AtArrayEnd =>
      s.top.isArray && s.top.isStruct == p.isStruct && k == n && s.item == EndArray(e, s.top.index, n, s.pos).item
    case AtStructBegin => OpenFrame(e, s.top) && s.item == Marker(s.pos, InType.Null, 0)
    case AtStructEnd => OpenFrame(e, s.top) && s.item == Marker(s.pos, InType.Null, 0)
  }

  ghost predicate Valid(e: Event, s: State) {
    && Start(e, s.pos, s.ints)
    && s.top.index <= s.top.end <= |e.props|
    && Frames(e, s.stack)
    && (s.lastError != Success <==> s.sub.InError?)
    && (s.sub.BeforeFirst? ==> s == Reset(e, s.ints))
    && (s.sub.AfterLast? ==> s == Finish(s) && s.stack == [] && s.top.index == s.top.end)
    && (s.sub.InError? ==> s == Fail(s, s.lastError))
    && (OnItem(s) ==> s.top.index < s.top.end && SubStateAgrees(e, s))
  }

  // ------------------------------------------------------------------ what is left to decode

  ghost predicate Context(e: Event, top: Frame, stack: seq<Frame>, pos: nat, ints: seq<U16>) {
    Start(e, pos, ints) && top.index < top.end <= |e.props| && Frames(e, stack)
  }

  /** Members lo, ..., hi - 1 of the innermost open group, then what follows in the enclosing groups. */
  ghost function Members(e: Event, lo: nat, hi: nat, stack: seq<Frame>, pos: nat, ints: seq<U16>): (t: Trace)
    requires Start(e, pos, ints) && lo <= hi <= |e.props| && Frames(e, stack)
    decreases |stack|, 0
  {
    var t := Group(e, lo, hi, pos, ints);
    if t.outcome.Failed? then t
    else if stack == [] then t
    else
      var f := stack[|stack| - 1];
      var outer := stack[..|stack| - 1];
      Append(t, Prepend(EndStruct(f.index, f.arrayIndex, f.arrayCount, f.isArray, t.pos),
        AfterElement(e, f, outer, t.pos, t.ints)))
  }

  /** The remaining elements of struct property `f.index`, then what follows the property. */
  ghost function AfterElement(e: Event, f: Frame, stack: seq<Frame>, pos: nat, ints: seq<U16>): (t: Trace)
    requires Start(e, pos, ints) && Frames(e, stack) && OpenFrame(e, f)
    decreases |stack|, 2
  {
    ThenMembers(e, f, stack, Structs(e, f.index, f.arrayIndex + 1, f.arrayCount, f.isArray, pos, ints))
  }

  /** `t` is what is left of property `f.index`; add what follows the property. */
  ghost function ThenMembers(e: Event, f: Frame, stack: seq<Frame>, t: Trace): Trace
    requires Start(e, t.pos, t.ints) && f.index < f.end <= |e.props| && Frames(e, stack)
    decreases |stack|, 1
  {
    if t.outcome.Failed? then t else Append(t, Members(e, f.index + 1, f.end, stack, t.pos, t.ints))
  }

  /** What the reference decoder produces after the current item of `s`. */
  ghost function Rest(e: Event, s: State): (t: Trace)
    requires Valid(e, s) && CanMove(s)
  {
    var (i, k, n) := (s.top.index, s.top.arrayIndex, s.top.arrayCount);
    match s.sub
    case BeforeFirst => Members(e, i, s.top.end, s.stack, s.pos, s.ints)
    case Scalar => Members(e, s.top.index + 1, s.top.end, s.stack, s.pos + s.item.raw, s.ints)
    case SimpleElement =>
      OneElement(n - k, s.item.element);
      ThenMembers(e, s.top, s.stack, FixedElements(e, i, k + 1, n, s.pos + s.item.raw, s.ints))
    case ComplexElement => ThenMembers(e, s.top, s.stack, Elements(e, i, k + 1, n, s.pos + s.item.raw, s.ints))
    case AtArrayBegin =>
      ThenMembers(e, s.top, s.stack,
        if s.top.isStruct then Structs(e, i, 0, n, true, s.pos, s.ints)
        else if s.item.element == 0 then Elements(e, i, 0, n, s.pos, s.ints)
        else FixedElements(e, i, 0, n, s.pos, s.ints))
    case AtArrayEnd => Members(e, s.top.index + 1, s.top.end, s.stack, s.pos, s.ints)
    case AtStructBegin =>
      var p := e.props[i];
      assert WellFormedProperty(e, i);
      Members(e, p.structStart, MemberEnd(p), s.stack + [s.top], s.pos, s.ints)
    case AtStructEnd => AfterElement(e, s.top, s.stack, s.pos, s.ints)
  }

  // ------------------------------------------------------------------ one step refines the decoder

  /** `s'` is the next thing trace `t` says: its first item, or its end. */
  ghost predicate Refines(e: Event, t: Trace, s': State) {
    && Valid(e, s')
    && !s'.sub.BeforeFirst?
    && match s'.sub
       case AfterLast => t == Trace([], s'.pos, s'.ints, Done)
       case InError => t == Trace([], s'.pos, s'.ints, Failed(s'.lastError))
       case _ => t == Prepend(View(s'), Rest(e, s'))
  }

  lemma PrependAppend(v: Visit, a: Trace, b: Trace)
    ensures Append(Prepend(v, a), b) == Prepend(v, Append(a, b))
  {
    assert [v] + a.visits + b.visits == [v] + (a.visits + b.visits);
  }

  lemma AppendAssociates(a: Trace, b: Trace, c: Trace)
    ensures Append(Append(a, b), c) == Append(a, Append(b, c))
  {
    assert a.visits + b.visits + c.visits == a.visits + (b.visits + c.visits);
  }

  lemma AppendNothing(pos: nat, ints: seq<U16>, t: Trace)
    ensures Append(Trace([], pos, ints, Done), t) == t
  {
    assert [] + t.visits == t.visits;
  }

  /** NextProperty starts what `Members` says comes next. */
  lemma EnterRefines(e: Event, s: State)
    requires Start(e, s.pos, s.ints) && s.top.index <= s.top.end <= |e.props| && Frames(e, s.stack)
    ensures Refines(e, Members(e, s.top.index, s.top.end, s.stack, s.pos, s.ints), Enter(e, s))
  {
    var t := Members(e, s.top.index, s.top.end, s.stack, s.pos, s.ints);
    if s.top.index == s.top.end {
      if s.stack != [] {
        var f := s.stack[|s.stack| - 1];
        AppendNothing(s.pos, s.ints,
          Prepend(EndStruct(f.index, f.arrayIndex, f.arrayCount, f.isArray, s.pos),
            AfterElement(e, f, s.stack[..|s.stack| - 1], s.pos, s.ints)));
      }
    } else {
      MembersUnfold(e, s.top, s.stack, s.pos, s.ints);
      PropertyRefines(e, s);
    }
  }

  /** The members from lo on are member lo, then the members from lo + 1 on. */
  lemma MembersUnfold(e: Event, f: Frame, stack: seq<Frame>, pos: nat, ints: seq<U16>)
    requires Start(e, pos, ints) && f.index < f.end <= |e.props| && Frames(e, stack)
    ensures Members(e, f.index, f.end, stack, pos, ints) == ThenMembers(e, f, stack, One(e, f.index, pos, ints))
  {
  }

  /** Only the position in the table matters for what follows a property. */
  lemma SamePosition(e: Event, f: Frame, g: Frame, stack: seq<Frame>, t: Trace)
    requires Start(e, t.pos, t.ints) && f.index < f.end <= |e.props| && Frames(e, stack)
    requires f.index == g.index && f.end == g.end
    ensures ThenMembers(e, f, stack, t) == ThenMembers(e, g, stack, t)
  {
    hide Bytes, DecodeValue, ShapeOf, CookedType, ElementSize, Group, Members;
  }

  /** Entering property `top.index` starts its part of the trace. */
  lemma PropertyRefines(e: Event, s: State)
    requires Start(e, s.pos, s.ints) && s.top.index < s.top.end <= |e.props| && Frames(e, s.stack)
    ensures Refines(e, ThenMembers(e, s.top, s.stack, One(e, s.top.index, s.pos, s.ints)), Enter(e, s))
  {
    hide Group, Members, MeasureShape, Remember;
    var i := s.top.index;
    var p := e.props[i];
    var first := One(e, i, s.pos, s.ints);
    var s' := Enter(e, s);
    assert WellFormedProperty(e, i);
    SamePosition(e, s.top, s'.top, s.stack, first);
    if IsScalar(p) {
      assert first.outcome.Done? ==> first.visits == [View(s')];
    } else if IsArray(p) {
      var n := ArrayCount(p, s.ints);
      if s'.sub.AtArrayBegin? {
        var body := if p.isStruct then Structs(e, i, 0, n, true, s.pos, s.ints)
          else if s'.item.element == 0 then Elements(e, i, 0, n, s.pos, s.ints)
          else FixedElements(e, i, 0, n, s.pos, s.ints);
        assert first == Prepend(View(s'), body);
        PrependThen(e, View(s'), s'.top, s.stack, body);
      }
    } else {
      OpenStructRefines(e, s');
    }
  }

  lemma PrependThen(e: Event, v: Visit, f: Frame, stack: seq<Frame>, t: Trace)
    requires Start(e, t.pos, t.ints) && f.index < f.end <= |e.props| && Frames(e, stack)
    ensures ThenMembers(e, f, stack, Prepend(v, t)) == Prepend(v, ThenMembers(e, f, stack, t))
  {
  }

  /** An opened struct element starts its part of the trace. */
  lemma OpenStructRefines(e: Event, s: State)
    requires Valid(e, s) && s.sub.AtStructBegin?
    ensures Refines(e,
      ThenMembers(e, s.top, s.stack,
        Structs(e, s.top.index, s.top.arrayIndex, s.top.arrayCount, s.top.isArray, s.pos, s.ints)), s)
  {
    hide Bytes, DecodeValue, ShapeOf, CookedType, ElementSize, Group;
    var f := s.top;
    var p := e.props[f.index];
    assert WellFormedProperty(e, f.index);
    var t := Structs(e, f.index, f.arrayIndex, f.arrayCount, f.isArray, s.pos, s.ints);
    var body := Group(e, p.structStart, MemberEnd(p), s.pos, s.ints);
    var begin := View(s);
    var stack := s.stack + [f];
    assert stack[|stack| - 1] == f && stack[..|stack| - 1] == s.stack;
    assert forall j :: 0 <= j < |stack| ==> OpenFrame(e, stack[j]);
    var inner := Members(e, p.structStart, MemberEnd(p), stack, s.pos, s.ints);
    assert Rest(e, s) == inner;
    if body.outcome.Failed? {
      assert inner == body;
    } else {
      var rest := Structs(e, f.index, f.arrayIndex + 1, f.arrayCount, f.isArray, body.pos, body.ints);
      var end := EndStruct(f.index, f.arrayIndex, f.arrayCount, f.isArray, body.pos);
      assert AfterElement(e, f, s.stack, body.pos, body.ints) == ThenMembers(e, f, s.stack, rest);
      assert inner == Append(body, Prepend(end, ThenMembers(e, f, s.stack, rest)));
      assert t == Prepend(begin, Append(body, Prepend(end, rest)));
      if rest.outcome.Done? {
        var after := Members(e, f.index + 1, f.end, s.stack, t.pos, t.ints);
        PrependAppend(begin, Append(body, Prepend(end, rest)), after);
        AppendAssociates(body, Prepend(end, rest), after);
        PrependAppend(end, rest, after);
      }
    }
  }

  /** One call of MoveNext produces exactly the next item, end or error of the reference decoder. */
  lemma NextRefines(e: Event, s: State)
    requires Valid(e, s) && CanMove(s)
    ensures Refines(e, Rest(e, s), Next(e, s))
  {
    match s.sub
    case BeforeFirst => EnterRefines(e, s);
    case Scalar => NextScalarRefines(e, s);
    case SimpleElement => NextSimpleRefines(e, s);
    case ComplexElement => NextComplexRefines(e, s);
    case AtArrayBegin => NextArrayBeginRefines(e, s);
    case AtArrayEnd => NextArrayEndRefines(e, s);
    case AtStructBegin => NextStructBeginRefines(e, s);
    case AtStructEnd => NextStructEndRefines(e, s);
  }

  lemma NextScalarRefines(e: Event, s: State)
    requires Valid(e, s) && s.sub.Scalar?
    ensures Refines(e, Rest(e, s), Next(e, s))
  {
    hide Bytes, DecodeValue, ShapeOf, CookedType, ElementSize, Group;
    var s' := s.(pos := s.pos + s.item.raw, top := s.top.(index := s.top.index + 1));
    EnterRefines(e, s');
    assert Rest(e, s) == Members(e, s'.top.index, s'.top.end, s'.stack, s'.pos, s'.ints);
    assert Next(e, s) == Enter(e, s');
  }

  lemma NextArrayEndRefines(e: Event, s: State)
    requires Valid(e, s) && s.sub.AtArrayEnd?
    ensures Refines(e, Rest(e, s), Next(e, s))
  {
    hide Bytes, DecodeValue, ShapeOf, CookedType, ElementSize, Group;
    var s' := s.(top := s.top.(index := s.top.index + 1));
    EnterRefines(e, s');
    assert Rest(e, s) == Members(e, s'.top.index, s'.top.end, s'.stack, s'.pos, s'.ints);
    assert Next(e, s) == Enter(e, s');
  }

  lemma NextSimpleRefines(e: Event, s: State)
    requires Valid(e, s) && s.sub.SimpleElement?
    ensures Refines(e, Rest(e, s), Next(e, s))
  {
    hide Bytes, DecodeValue, ShapeOf, CookedType, ElementSize, Group, Members, FixedElements;
    var (k, n) := (s.top.arrayIndex, s.top.arrayCount);
    OneElement(n - k, s.item.element);
    var s' := s.(pos := s.pos + s.item.raw, top := s.top.(arrayIndex := k + 1));
    SimpleRefines(e, s');
    var t := FixedElements(e, s'.top.index, k + 1, n, s'.pos, s'.ints);
    assert Rest(e, s) == ThenMembers(e, s.top, s.stack, t) == ThenMembers(e, s'.top, s'.stack, t);
  }

  lemma NextComplexRefines(e: Event, s: State)
    requires Valid(e, s) && s.sub.ComplexElement?
    ensures Refines(e, Rest(e, s), Next(e, s))
  {
    hide Bytes, DecodeValue, ShapeOf, CookedType, ElementSize, Group, Members, Elements;
    var s' := s.(pos := s.pos + s.item.raw, top := s.top.(arrayIndex := s.top.arrayIndex + 1));
    ComplexRefines(e, s');
    var t := Elements(e, s'.top.index, s'.top.arrayIndex, s'.top.arrayCount, s'.pos, s'.ints);
    assert Rest(e, s) == ThenMembers(e, s.top, s.stack, t) == ThenMembers(e, s'.top, s'.stack, t);
  }

  lemma NextArrayBeginRefines(e: Event, s: State)
    requires Valid(e, s) && s.sub.AtArrayBegin?
    ensures Refines(e, Rest(e, s), Next(e, s))
  {
    hide Bytes, DecodeValue, ShapeOf, CookedType, ElementSize, Group, Members, Structs, Elements, FixedElements;
    if s.top.isStruct {
      StructsRefine(e, s);
    } else if s.item.element != 0 {
      SimpleRefines(e, s);
    } else {
      ComplexRefines(e, s);
    }
  }

  lemma NextStructBeginRefines(e: Event, s: State)
    requires Valid(e, s) && s.sub.AtStructBegin?
    ensures Refines(e, Rest(e, s), Next(e, s))
  {
    hide Bytes, DecodeValue, ShapeOf, CookedType, ElementSize, Group;
    var p := e.props[s.top.index];
    assert WellFormedProperty(e, s.top.index);
    var stack := s.stack + [s.top];
    assert forall j :: 0 <= j < |stack| ==> OpenFrame(e, stack[j]);
    var s' := s.(stack := stack, top := s.top.(index := p.structStart, end := MemberEnd(p)));
    EnterRefines(e, s');
    assert Rest(e, s) == Members(e, s'.top.index, s'.top.end, s'.stack, s'.pos, s'.ints);
    assert Next(e, s) == Enter(e, s');
  }

  lemma NextStructEndRefines(e: Event, s: State)
    requires Valid(e, s) && s.sub.AtStructEnd?
    ensures Refines(e, Rest(e, s), Next(e, s))
  {
    hide Bytes, DecodeValue, ShapeOf, CookedType, ElementSize, Group, Members, Structs;
    var s' := s.(top := s.top.(arrayIndex := s.top.arrayIndex + 1));
    StructsRefine(e, s');
    var t := Structs(e, s'.top.index, s'.top.arrayIndex, s'.top.arrayCount, s'.top.isArray, s'.pos, s'.ints);
    assert Rest(e, s) == ThenMembers(e, s.top, s.stack, t) == ThenMembers(e, s'.top, s'.stack, t);
  }

  ghost predicate Midway(e: Event, s: State) {
    Context(e, s.top, s.stack, s.pos, s.ints) && s.top.arrayIndex <= s.top.arrayCount
  }

  /** The next simple element, or the end of the array. */
  lemma SimpleRefines(e: Event, s: State)
    requires Midway(e, s) && !s.top.isStruct && s.top.isArray && !e.props[s.top.index].isStruct
    requires ArrayElement(e, e.props[s.top.index]) != 0
    requires s.pos + Bytes(s.top.arrayCount - s.top.arrayIndex, ArrayElement(e, e.props[s.top.index])) <= |e.data|
    ensures Refines(e,
      ThenMembers(e, s.top, s.stack, FixedElements(e, s.top.index, s.top.arrayIndex, s.top.arrayCount, s.pos, s.ints)),
      if s.top.arrayIndex == s.top.arrayCount then CloseArray(e, s) else ReadSimple(e, s))
  {
    hide Bytes, DecodeValue, ShapeOf, CookedType, ElementSize, Group, Members;
    var (i, k, n) := (s.top.index, s.top.arrayIndex, s.top.arrayCount);
    var size := ArrayElement(e, e.props[i]);
    var t := FixedElements(e, i, k, n, s.pos, s.ints);
    if k == n {
      EndArrayRefines(e, s);
    } else {
      OneElement(n - k, size);
      var s' := ReadSimple(e, s);
      var rest := FixedElements(e, i, k + 1, n, s.pos + size, s.ints);
      PrependThen(e, View(s'), s.top, s.stack, rest);
    }
  }

  /** The next element of no fixed size, or the end of the array. */
  lemma ComplexRefines(e: Event, s: State)
    requires Midway(e, s) && !s.top.isStruct && s.top.isArray && !e.props[s.top.index].isStruct
    requires ArrayElement(e, e.props[s.top.index]) == 0
    ensures Refines(e,
      ThenMembers(e, s.top, s.stack, Elements(e, s.top.index, s.top.arrayIndex, s.top.arrayCount, s.pos, s.ints)),
      if s.top.arrayIndex == s.top.arrayCount then CloseArray(e, s) else ReadValue(e, s, ComplexElement))
  {
    hide Bytes, DecodeValue, ShapeOf, CookedType, ElementSize, Group, Members;
    var (i, k, n) := (s.top.index, s.top.arrayIndex, s.top.arrayCount);
    var t := Elements(e, i, k, n, s.pos, s.ints);
    if k == n {
      EndArrayRefines(e, s);
    } else {
      var d := DecodeValue(e, i, s.pos, s.ints);
      if d.Read? {
        var s' := ReadValue(e, s, ComplexElement);
        var rest := Elements(e, i, k + 1, n, s.pos + d.item.raw, d.ints);
        assert Valid(e, s');
        assert Rest(e, s') == ThenMembers(e, s'.top, s'.stack, rest);
        PrependThen(e, View(s'), s.top, s.stack, rest);
      }
    }
  }

  /** The end of an array leads on to what follows the array. */
  lemma EndArrayRefines(e: Event, s: State)
    requires Midway(e, s) && s.top.isArray && s.top.arrayIndex == s.top.arrayCount
    requires s.top.isStruct == e.props[s.top.index].isStruct
    ensures Refines(e,
      Append(Trace([EndArray(e, s.top.index, s.top.arrayCount, s.pos)], s.pos, s.ints, Done),
        Members(e, s.top.index + 1, s.top.end, s.stack, s.pos, s.ints)),
      CloseArray(e, s))
  {
    hide Bytes, DecodeValue, ShapeOf, CookedType, ElementSize, Group, Members;
  }

  /** The next struct element, the end of the array, or the next property. */
  lemma StructsRefine(e: Event, s: State)
    requires Midway(e, s) && s.top.isStruct && e.props[s.top.index].isStruct
    requires !s.top.isArray ==> s.top.arrayCount == 1
    ensures Refines(e,
      ThenMembers(e, s.top, s.stack,
        Structs(e, s.top.index, s.top.arrayIndex, s.top.arrayCount, s.top.isArray, s.pos, s.ints)),
      if s.top.arrayIndex != s.top.arrayCount then OpenStruct(s)
      else if s.top.isArray then CloseArray(e, s)
      else NextProperty(e, s))
  {
    hide Bytes, DecodeValue, ShapeOf, CookedType, ElementSize, Group, Members;
    var (i, k, n) := (s.top.index, s.top.arrayIndex, s.top.arrayCount);
    var t := Structs(e, i, k, n, s.top.isArray, s.pos, s.ints);
    if k != n {
      var s' := OpenStruct(s);
      OpenStructRefines(e, s');
      assert ThenMembers(e, s'.top, s'.stack, t) == ThenMembers(e, s.top, s.stack, t);
    } else if s.top.isArray {
      EndArrayRefines(e, s);
    } else {
      var s' := s.(top := s.top.(index := i + 1));
      AppendNothing(s.pos, s.ints, Members(e, i + 1, s.top.end, s.stack, s.pos, s.ints));
      EnterRefines(e, s');
      assert ThenMembers(e, s.top, s.stack, t) == Members(e, s'.top.index, s'.top.end, s'.stack, s'.pos, s'.ints);
    }
  }
}
