/**
 The two loops that go over whole items: MoveNextSibling and the JSON printer both call MoveNext
 until they are past the end of the item they started at. `Walk` is that loop without any shortcut.
 */
module Siblings {
  import opened Schema
  import opened Values
  import opened Decoder
  import opened Machine
  import opened Runs

  /** How an item changes the nesting depth. */
  function Delta(sub: Sub): int {
    match sub
    case AtArrayBegin | AtStructBegin => 1
    case AtArrayEnd | AtStructEnd => -1
    case _ => 0
  }

  /** The items a loop went over, and the state it stopped in. */
  datatype Walked = Walked(visits: seq<Visit>, end: State)

  function After(visits: seq<Visit>, w: Walked): Walked {
    w.(visits := visits + w.visits)
  }

  /** Goes over the current item, adjusts the depth, moves on, and stops when the depth is not positive. */
  ghost function Walk(e: Event, s: State, depth: int): (w: Walked)
    requires Valid(e, s) && OnItem(s)
    ensures Valid(e, w.end)
    decreases |Rest(e, s).visits|
  {
    NextRefines(e, s);
    var next := Next(e, s);
    var d := depth + Delta(s.sub);
    if d > 0 && OnItem(next) then After([View(s)], Walk(e, next, d)) else Walked([View(s)], next)
  }

  ghost function Resume(e: Event, s: State, depth: int): Walked
    requires Valid(e, s)
  {
    if depth > 0 && OnItem(s) then Walk(e, s, depth) else Walked([], s)
  }

  /** Like Resume, but the first item is gone over whatever the depth. */
  ghost function Go(e: Event, s: State, depth: int): Walked
    requires Valid(e, s)
  {
    if OnItem(s) then Walk(e, s, depth) else Walked([], s)
  }

  lemma WalkUnfolds(e: Event, s: State, depth: int)
    requires Valid(e, s) && OnItem(s)
    ensures Valid(e, Next(e, s))
    ensures Walk(e, s, depth) == After([View(s)], Resume(e, Next(e, s), depth + Delta(s.sub)))
  {
    hide Rest, Next;
    NextRefines(e, s);
  }

  /** NextProperty looks at the cursor, the table, the stack and the position only. */
  lemma EnterIgnores(e: Event, s: State, t: State)
    requires Start(e, s.pos, s.ints) && s.top.index <= s.top.end <= |e.props|
    requires s.pos == t.pos && s.ints == t.ints && s.stack == t.stack
    requires s.top.index == t.top.index && s.top.end == t.top.end
    ensures Enter(e, s) == Enter(e, t)
  {
    hide DecodeValue, ShapeOf, CookedType;
  }

  ghost predicate CanEnter(e: Event, s: State) {
    Start(e, s.pos, s.ints) && s.top.index <= s.top.end <= |e.props| && Frames(e, s.stack)
  }

  lemma EnterIsValid(e: Event, s: State)
    requires CanEnter(e, s)
    ensures Valid(e, Enter(e, s))
  {
    hide Members, Rest, Enter, Valid;
    EnterRefines(e, s);
    assert Refines(e, Members(e, s.top.index, s.top.end, s.stack, s.pos, s.ints), Enter(e, s));
  }

  /** `s` with the cursor and table that trace `t` ends with. */
  function Ended(s: State, t: Trace): State {
    s.(pos := t.pos, ints := t.ints)
  }

  /** The loop went over the items of `t`, then continued as `rest` - or stopped at its error. */
  ghost predicate WentOver(t: Trace, w: Walked, rest: Walked) {
    if t.outcome.Done? then w == After(t.visits, rest) else w.visits == t.visits && Stopped(t, w.end)
  }

  function AtIndex(s: State, index: nat): State {
    s.(top := s.top.(index := index))
  }

  lemma AfterAfter(a: seq<Visit>, b: seq<Visit>, w: Walked)
    ensures After(a, After(b, w)) == After(a + b, w)
  {
    assert a + (b + w.visits) == a + b + w.visits;
  }

  lemma {:induction false} WalkGroup(e: Event, s: State, depth: int)
    requires CanEnter(e, s) && depth > 0
    ensures var t := Group(e, s.top.index, s.top.end, s.pos, s.ints);
      && Valid(e, Enter(e, s))
      && Valid(e, Enter(e, Ended(AtIndex(s, s.top.end), t)))
      && WentOver(t, Resume(e, Enter(e, s), depth), Resume(e, Enter(e, Ended(AtIndex(s, s.top.end), t)), depth))
    decreases |e.props| - s.top.index, 3, 0
  {
    hide One, Enter, Walk, Valid;
    var t := Group(e, s.top.index, s.top.end, s.pos, s.ints);
    EnterIsValid(e, s);
    EnterIsValid(e, Ended(AtIndex(s, s.top.end), t));
    var end := Resume(e, Enter(e, Ended(AtIndex(s, s.top.end), t)), depth);
    if s.top.index == s.top.end {
      assert After([], end) == end;
    } else {
      WalkProperty(e, s, depth);
      var first := One(e, s.top.index, s.pos, s.ints);
      if first.outcome.Done? {
        var s' := Ended(AtIndex(s, s.top.index + 1), first);
        WalkGroup(e, s', depth);
        var rest := Group(e, s.top.index + 1, s.top.end, first.pos, first.ints);
        if rest.outcome.Done? {
          AfterAfter(first.visits, rest.visits, end);
        }
      }
    }
  }

  lemma {:induction false} WalkProperty(e: Event, s: State, depth: nat)
    requires CanEnter(e, s) && s.top.index < s.top.end
    ensures var t := One(e, s.top.index, s.pos, s.ints); var s' := Ended(AtIndex(s, s.top.index + 1), t);
      && Valid(e, Enter(e, s))
      && Valid(e, Enter(e, s'))
      && WentOver(t, Go(e, Enter(e, s), depth), Resume(e, Enter(e, s'), depth))
    decreases |e.props| - s.top.index, 2, 0
  {
    hide Walk, Valid, One, Enter;
    var i := s.top.index;
    var t := One(e, i, s.pos, s.ints);
    var s' := Ended(AtIndex(s, i + 1), t);
    EnterIsValid(e, s);
    EnterIsValid(e, s');
    var open := Enter(e, s);
    EnterOpens(e, s);
    if OnItem(open) {
      WalkUnfolds(e, open, depth);
      if open.sub.Scalar? {
        EnterIgnores(e, open.(pos := open.pos + open.item.raw, top := open.top.(index := i + 1)), s');
      } else if open.sub.AtArrayBegin? {
        WalkArray(e, open, depth);
        EnterIgnores(e, AtIndex(Ended(open, t), i + 1), s');
      } else {
        StructsArguments(e, open);
        WalkStructs(e, open, depth);
        EnterIgnores(e, AtIndex(Ended(open, t), i + 1), s');
      }
    }
  }

  /** What NextProperty does with a property, and the decoder's trace of that property. */
  lemma EnterOpens(e: Event, s: State)
    requires CanEnter(e, s) && s.top.index < s.top.end
    ensures var i := s.top.index; var p := e.props[i]; var t := One(e, i, s.pos, s.ints);
      var open := Enter(e, s); var n := open.top.arrayCount;
      && (open.sub.Scalar? || open.sub.AtArrayBegin? || open.sub.AtStructBegin? || open.sub.InError?)
      && open.stack == s.stack && open.top.index == i && open.top.end == s.top.end && open.pos == s.pos
      && (open.sub.InError? ==> t.visits == [] && Stopped(t, open))
      && (open.sub.Scalar? ==> t == Trace([View(open)], s.pos + open.item.raw, open.ints, Done))
      && (open.sub.AtArrayBegin? ==>
           open.ints == s.ints && t == Prepend(View(open),
             if p.isStruct then Structs(e, i, 0, n, true, s.pos, s.ints)
             else if ArrayElement(e, p) == 0 then Elements(e, i, 0, n, s.pos, s.ints)
             else FixedElements(e, i, 0, n, s.pos, s.ints)))
      && (open.sub.AtStructBegin? ==>
           open.ints == s.ints && !open.top.isArray && p.isStruct
           && t == Structs(e, i, 0, 1, false, s.pos, s.ints) && open.top.arrayIndex == 0 && n == 1)
  {
  }

  lemma StructsArguments(e: Event, s: State)
    requires Valid(e, s) && s.sub.AtStructBegin?
    ensures Midway(e, s) && s.top.isStruct && e.props[s.top.index].isStruct && s.top.arrayIndex < s.top.arrayCount
    ensures !s.top.isArray ==> s.top.arrayCount == 1
    ensures s == OpenStruct(s)
  {
  }

  /** From the begin item of an array, past its end item. */
  lemma {:induction false} WalkArray(e: Event, s: State, depth: nat)
    requires Valid(e, s) && s.sub.AtArrayBegin?
    ensures var (i, n) := (s.top.index, s.top.arrayCount); var p := e.props[i];
      var t := Prepend(View(s),
        if p.isStruct then Structs(e, i, 0, n, true, s.pos, s.ints)
        else if ArrayElement(e, p) == 0 then Elements(e, i, 0, n, s.pos, s.ints)
        else FixedElements(e, i, 0, n, s.pos, s.ints));
      && Valid(e, NextProperty(e, Ended(s, t)))
      && WentOver(t, Walk(e, s, depth), Resume(e, NextProperty(e, Ended(s, t)), depth))
    decreases |e.props| - s.top.index, 1, s.top.arrayCount + 1
  {
    hide Walk, Structs, Elements, FixedElements, ShapeOf, CookedType, Bytes, Enter, DecodeValue;
    WalkUnfolds(e, s, depth);
    var (i, n) := (s.top.index, s.top.arrayCount);
    var p := e.props[i];
    var t: Trace;
    if p.isStruct {
      t := Structs(e, i, 0, n, true, s.pos, s.ints);
      WalkStructs(e, s, depth);
      assert Next(e, s) == StructsNext(e, s);
    } else if ArrayElement(e, p) == 0 {
      t := Elements(e, i, 0, n, s.pos, s.ints);
      WalkElements(e, s, depth);
      assert Next(e, s) == ElementsNext(e, s);
    } else {
      t := FixedElements(e, i, 0, n, s.pos, s.ints);
      WalkFixedElements(e, s, depth);
      assert Next(e, s) == FixedElementsNext(e, s);
    }
    var rest := Resume(e, NextProperty(e, Ended(s, t)), depth);
    AfterAfter([View(s)], t.visits, rest);
  }

  function StructsNext(e: Event, s: State): State
    requires Midway(e, s)
  {
    if s.top.arrayIndex != s.top.arrayCount then OpenStruct(s)
    else if s.top.isArray then CloseArray(e, s)
    else NextProperty(e, s)
  }

  /** The remaining elements of a struct property, from element `arrayIndex` on. */
  lemma {:induction false} WalkStructs(e: Event, s: State, depth: nat)
    requires Midway(e, s) && s.top.isStruct && e.props[s.top.index].isStruct
    requires !s.top.isArray ==> s.top.arrayCount == 1 && s.top.arrayIndex == 0
    ensures var t := Structs(e, s.top.index, s.top.arrayIndex, s.top.arrayCount, s.top.isArray, s.pos, s.ints);
      && Valid(e, StructsNext(e, s))
      && Valid(e, NextProperty(e, Ended(s, t)))
      && WentOver(t, Go(e, StructsNext(e, s), if s.top.isArray then depth + 1 else depth),
           Resume(e, NextProperty(e, Ended(s, t)), depth))
    decreases |e.props| - s.top.index, 1, s.top.arrayCount - s.top.arrayIndex
  {
    hide Walk, Group, Structs, Enter, Valid, Frames, ShapeOf, CookedType;
    var (i, k, n) := (s.top.index, s.top.arrayIndex, s.top.arrayCount);
    var t := Structs(e, i, k, n, s.top.isArray, s.pos, s.ints);
    var D := if s.top.isArray then depth + 1 else depth;
    StructsRefine(e, s);
    EnterIsValid(e, AtIndex(Ended(s, t), i + 1));
    var end := Resume(e, NextProperty(e, Ended(s, t)), depth);
    StructsUnfold(e, s);
    if k == n {
      WalkUnfolds(e, CloseArray(e, s), D);
      EnterIgnores(e, AtIndex(CloseArray(e, s), i + 1), AtIndex(Ended(s, t), i + 1));
    } else {
      var p := e.props[i];
      var body := Group(e, p.structStart, MemberEnd(p), s.pos, s.ints);
      WalkOneStruct(e, OpenStruct(s), D);
      if body.outcome.Done? {
        var s' := Ended(OpenStruct(s), body).(top := s.top.(arrayIndex := k + 1));
        var rest := Structs(e, i, k + 1, n, s.top.isArray, body.pos, body.ints);
        EnterIgnores(e, AtIndex(Ended(s', rest), i + 1), AtIndex(Ended(s, t), i + 1));
        var next := Resume(e, StructsNext(e, s'), D);
        if s.top.isArray {
          WalkStructs(e, s', depth);
        } else {
          StructsUnfold(e, s');
          assert After([], end) == end;
        }
        BracketedElement(t, body, rest, OpenStruct(s), Walk(e, OpenStruct(s), D), next, end);
      }
    }
  }

  lemma StructsUnfold(e: Event, s: State)
    requires Midway(e, s) && s.top.isStruct && e.props[s.top.index].isStruct
    requires !s.top.isArray ==> s.top.arrayCount == 1
    ensures var (i, k, n) := (s.top.index, s.top.arrayIndex, s.top.arrayCount); var p := e.props[i];
      var t := Structs(e, i, k, n, s.top.isArray, s.pos, s.ints);
      && i < p.structStart <= MemberEnd(p) <= |e.props|
      && if k == n then t == Trace(if s.top.isArray then [EndArray(e, i, n, s.pos)] else [], s.pos, s.ints, Done)
        else
          var body := Group(e, p.structStart, MemberEnd(p), s.pos, s.ints);
          && Valid(e, OpenStruct(s))
          && var begin := View(OpenStruct(s));
            if body.outcome.Failed? then t == Prepend(begin, body)
            else
              var end := EndStruct(i, k, n, s.top.isArray, body.pos);
              && Midway(e, Ended(OpenStruct(s), body).(top := s.top.(arrayIndex := k + 1)))
              && t == Prepend(begin, Append(body,
                Prepend(end, Structs(e, i, k + 1, n, s.top.isArray, body.pos, body.ints))))
  {
    hide Group, ShapeOf, CookedType;
    assert WellFormedProperty(e, s.top.index);
  }

  /** Going over one bracketed element and then over the others is going over all of them. */
  lemma BracketedElement(t: Trace, body: Trace, rest: Trace, s: State, w: Walked, next: Walked, end: Walked)
    requires s.sub.AtStructBegin? && body.outcome.Done?
    requires var f := s.top;
      t == Prepend(View(s), Append(body,
        Prepend(EndStruct(f.index, f.arrayIndex, f.arrayCount, f.isArray, body.pos), rest)))
    requires var f := s.top;
      w == After([View(s)] + body.visits + [EndStruct(f.index, f.arrayIndex, f.arrayCount, f.isArray, body.pos)], next)
    requires WentOver(rest, next, end)
    ensures WentOver(t, w, end)
  {
  }

  /** From the begin item of one struct element, past its end item. */
  lemma {:induction false} WalkOneStruct(e: Event, s: State, depth: nat)
    requires Valid(e, s) && s.sub.AtStructBegin?
    ensures var p := e.props[s.top.index]; var f := s.top;
      && p.structStart <= MemberEnd(p) <= |e.props|
      && var body := Group(e, p.structStart, MemberEnd(p), s.pos, s.ints);
        var s' := Ended(s, body).(top := f.(arrayIndex := f.arrayIndex + 1));
        && Valid(e, StructsNext(e, s'))
        && if body.outcome.Done? then
             Walk(e, s, depth)
             == After([View(s)] + body.visits + [EndStruct(f.index, f.arrayIndex, f.arrayCount, f.isArray, body.pos)],
                  Resume(e, StructsNext(e, s'), depth))
           else Walk(e, s, depth).visits == [View(s)] + body.visits && Stopped(body, Walk(e, s, depth).end)
    decreases |e.props| - s.top.index, 0, 0
  {
    hide Walk, Group, ShapeOf, CookedType, NextProperty, Enter, Valid;
    StructIsOpen(e, s);
    var p := e.props[s.top.index];
    var body := Group(e, p.structStart, MemberEnd(p), s.pos, s.ints);
    var inner := s.(stack := s.stack + [s.top], top := s.top.(index := p.structStart, end := MemberEnd(p)));
    WalkUnfolds(e, s, depth);
    WalkGroup(e, inner, depth + 1);
    var f := s.top;
    var endVisit := EndStruct(f.index, f.arrayIndex, f.arrayCount, f.isArray, body.pos);
    var closed := Enter(e, Ended(AtIndex(inner, MemberEnd(p)), body));
    StructCloses(e, s, body);
    WalkUnfolds(e, closed, depth + 1);
    var s' := Ended(s, body).(top := f.(arrayIndex := f.arrayIndex + 1));
    StructEndMoves(e, closed, s');
    if body.outcome.Done? {
      AfterAfter([View(s)], body.visits, Walk(e, closed, depth + 1));
      AfterAfter([View(s)] + body.visits, [endVisit], Resume(e, StructsNext(e, s'), depth));
    }
  }

  lemma StructIsOpen(e: Event, s: State)
    requires Valid(e, s) && s.sub.AtStructBegin?
    ensures var p := e.props[s.top.index];
      var inner := s.(stack := s.stack + [s.top], top := s.top.(index := p.structStart, end := MemberEnd(p)));
      OpenFrame(e, s.top) && s.top.index < p.structStart <= MemberEnd(p) <= |e.props|
      && CanEnter(e, inner) && Next(e, s) == Enter(e, inner)
  {
    hide Enter, ShapeOf, CookedType;
    assert WellFormedProperty(e, s.top.index);
    var stack := s.stack + [s.top];
    assert forall j :: 0 <= j < |stack| ==> OpenFrame(e, stack[j]);
  }

  /** At the end of its members, the struct that was opened is closed. */
  lemma StructCloses(e: Event, s: State, body: Trace)
    requires Valid(e, s) && s.sub.AtStructBegin? && Ends(e, s.pos, body)
    requires MemberEnd(e.props[s.top.index]) <= |e.props|
    ensures var end := MemberEnd(e.props[s.top.index]); var f := s.top;
      var inner := s.(stack := s.stack + [f], top := f.(index := end, end := end));
      var closed := Enter(e, Ended(inner, body));
      && closed.sub.AtStructEnd? && closed.top == f && closed.stack == s.stack
      && closed.pos == body.pos && closed.ints == body.ints
      && View(closed) == EndStruct(f.index, f.arrayIndex, f.arrayCount, f.isArray, body.pos)
  {
  }

  lemma StructEndMoves(e: Event, closed: State, s: State)
    requires Valid(e, closed) && closed.sub.AtStructEnd?
    requires closed.pos == s.pos && closed.ints == s.ints && closed.stack == s.stack
    requires s.top == closed.top.(arrayIndex := closed.top.arrayIndex + 1)
    ensures Midway(e, s) && Next(e, closed) == StructsNext(e, s)
  {
    hide Enter, ShapeOf, CookedType;
    var s' := closed.(top := s.top);
    if s.top.arrayIndex == s.top.arrayCount && !s.top.isArray {
      EnterIgnores(e, AtIndex(s', s.top.index + 1), AtIndex(s, s.top.index + 1));
    }
  }

  function ElementsNext(e: Event, s: State): State
    requires Midway(e, s)
  {
    if s.top.arrayIndex == s.top.arrayCount then CloseArray(e, s) else ReadValue(e, s, ComplexElement)
  }

  lemma {:induction false} WalkElements(e: Event, s: State, depth: nat)
    requires Midway(e, s) && !s.top.isStruct && s.top.isArray && !e.props[s.top.index].isStruct
    requires ArrayElement(e, e.props[s.top.index]) == 0
    ensures var t := Elements(e, s.top.index, s.top.arrayIndex, s.top.arrayCount, s.pos, s.ints);
      && Valid(e, ElementsNext(e, s))
      && Valid(e, NextProperty(e, Ended(s, t)))
      && WentOver(t, Go(e, ElementsNext(e, s), depth + 1), Resume(e, NextProperty(e, Ended(s, t)), depth))
    decreases s.top.arrayCount - s.top.arrayIndex
  {
    hide Walk, Enter, Valid, Frames, Elements, DecodeValue, ShapeOf, CookedType, Rest, Members, ThenMembers;
    var (i, k, n) := (s.top.index, s.top.arrayIndex, s.top.arrayCount);
    var t := Elements(e, i, k, n, s.pos, s.ints);
    ElementsUnfold(e, s);
    ComplexRefines(e, s);
    EnterIsValid(e, AtIndex(Ended(s, t), i + 1));
    var end := Resume(e, NextProperty(e, Ended(s, t)), depth);
    var next := ElementsNext(e, s);
    if OnItem(next) {
      WalkUnfolds(e, next, depth + 1);
      if k == n {
        EnterIgnores(e, AtIndex(next, i + 1), AtIndex(Ended(s, t), i + 1));
      } else {
        var s' := next.(pos := next.pos + next.item.raw, top := next.top.(arrayIndex := k + 1));
        WalkElements(e, s', depth);
        var rest := Elements(e, i, k + 1, n, s'.pos, s'.ints);
        EnterIgnores(e, AtIndex(Ended(s', rest), i + 1), AtIndex(Ended(s, t), i + 1));
        AfterAfter([View(next)], rest.visits, end);
      }
    }
  }

  lemma ElementsUnfold(e: Event, s: State)
    requires Midway(e, s) && s.top.isArray && !e.props[s.top.index].isStruct
    ensures var (i, k, n) := (s.top.index, s.top.arrayIndex, s.top.arrayCount);
      var t := Elements(e, i, k, n, s.pos, s.ints);
      if k == n then t == Trace([EndArray(e, i, n, s.pos)], s.pos, s.ints, Done)
      else
        var next := ReadValue(e, s, ComplexElement);
        if next.sub.InError? then t.visits == [] && Stopped(t, next)
        else
          var s' := next.(pos := next.pos + next.item.raw, top := next.top.(arrayIndex := k + 1));
          && OnItem(next) && next.top == s.top && next.stack == s.stack
          && Midway(e, s')
          && t == Prepend(View(next), Elements(e, i, k + 1, n, s'.pos, s'.ints))
  {
    hide DecodeValue, ShapeOf, CookedType;
  }

  function FixedElementsNext(e: Event, s: State): State
    requires Midway(e, s)
  {
    if s.top.arrayIndex == s.top.arrayCount then CloseArray(e, s) else ReadSimple(e, s)
  }

  lemma {:induction false} WalkFixedElements(e: Event, s: State, depth: nat)
    requires Midway(e, s) && !s.top.isStruct && s.top.isArray && !e.props[s.top.index].isStruct
    requires ArrayElement(e, e.props[s.top.index]) != 0
    requires s.pos + Bytes(s.top.arrayCount - s.top.arrayIndex, ArrayElement(e, e.props[s.top.index])) <= |e.data|
    ensures var t := FixedElements(e, s.top.index, s.top.arrayIndex, s.top.arrayCount, s.pos, s.ints);
      && Valid(e, FixedElementsNext(e, s))
      && Valid(e, NextProperty(e, Ended(s, t)))
      && WentOver(t, Go(e, FixedElementsNext(e, s), depth + 1), Resume(e, NextProperty(e, Ended(s, t)), depth))
    decreases s.top.arrayCount - s.top.arrayIndex
  {
    hide Walk, Enter, Valid, DecodeValue, ShapeOf, CookedType, Bytes;
    var (i, k, n) := (s.top.index, s.top.arrayIndex, s.top.arrayCount);
    var t := FixedElements(e, i, k, n, s.pos, s.ints);
    SimpleRefines(e, s);
    EnterIsValid(e, AtIndex(Ended(s, t), i + 1));
    var end := Resume(e, NextProperty(e, Ended(s, t)), depth);
    var next := FixedElementsNext(e, s);
    WalkUnfolds(e, next, depth + 1);
    if k == n {
      EnterIgnores(e, AtIndex(next, i + 1), AtIndex(Ended(s, t), i + 1));
    } else {
      var size := ArrayElement(e, e.props[i]);
      OneElement(n - k, size);
      var s' := next.(pos := next.pos + next.item.raw, top := next.top.(arrayIndex := k + 1));
      WalkFixedElements(e, s', depth);
      var rest := FixedElements(e, i, k + 1, n, s'.pos, s'.ints);
      EnterIgnores(e, AtIndex(Ended(s', rest), i + 1), AtIndex(Ended(s, t), i + 1));
      AfterAfter([View(next)], rest.visits, end);
    }
  }

  // ------------------------------------------------------------------ what the loops skip

  /**
   From the first item of a property, the loop goes over exactly the items of that property and stops
   where the enumerator stands after decoding it - or at the error inside it.
   */
  lemma WalkSkipsProperty(e: Event, s: State)
    requires CanEnter(e, s) && s.top.index < s.top.end && Valid(e, Enter(e, s)) && OnItem(Enter(e, s))
    ensures var t := One(e, s.top.index, s.pos, s.ints); var w := Walk(e, Enter(e, s), 0);
      && w.visits == t.visits
      && if t.outcome.Done? then w.end == Enter(e, Ended(AtIndex(s, s.top.index + 1), t)) else Stopped(t, w.end)
  {
    hide One, Enter, Walk;
    WalkProperty(e, s, 0);
    var t := One(e, s.top.index, s.pos, s.ints);
    if t.outcome.Done? {
      assert t.visits + [] == t.visits;
    }
  }

  /** The state MoveNextSibling jumps to from an array of fixed-size elements. */
  function Jump(e: Event, s: State): State
    requires Valid(e, s) && s.sub.AtArrayBegin?
  {
    NextProperty(e, s.(pos := s.pos + Bytes(s.top.arrayCount, s.item.element)))
  }

  /** Jumping over an array of fixed-size elements is walking over all of them and its end. */
  lemma JumpIsWalk(e: Event, s: State, depth: nat)
    requires Valid(e, s) && s.sub.AtArrayBegin? && s.item.element != 0
    ensures Valid(e, Jump(e, s))
    ensures Walk(e, s, depth).end == Resume(e, Jump(e, s), depth).end
    ensures OnItem(Jump(e, s)) ==> |Rest(e, Jump(e, s)).visits| < |Rest(e, s).visits|
  {
    hide Walk, Enter, FixedElements, Members, ShapeOf, CookedType, Bytes;
    var (i, n) := (s.top.index, s.top.arrayCount);
    WalkArray(e, s, depth);
    var t := FixedElements(e, i, 0, n, s.pos, s.ints);
    EnterIgnores(e, AtIndex(Ended(s, t), i + 1), AtIndex(s.(pos := s.pos + Bytes(n, s.item.element)), i + 1));
    EnterRefines(e, AtIndex(Ended(s, t), i + 1));
    assert Rest(e, s) == ThenMembers(e, s.top, s.stack, t);
  }

  /** Every step of the loop leaves fewer items to come. */
  lemma NextShrinks(e: Event, s: State)
    requires Valid(e, s) && CanMove(s)
    ensures Valid(e, Next(e, s))
    ensures OnItem(Next(e, s)) ==> |Rest(e, Next(e, s)).visits| < |Rest(e, s).visits|
  {
    hide Rest, Next;
    NextRefines(e, s);
  }
}
