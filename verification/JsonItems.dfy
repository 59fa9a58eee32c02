/** What the printer's loop writes from any item it may start at is one JSON value, or one member. */
module JsonItems {
  import opened Basics
  import opened Schema
  import opened Values
  import opened Decoder
  import opened Machine
  import opened Runs
  import opened Siblings
  import opened JsonTree
  import opened JsonStructure
  import J = JsonText

  /** The items the printer goes over: those of the current item, or all of them before the first. */
  ghost function JsonWalk(e: Event, s: State): Walked
    requires Valid(e, s) && CanMove(s)
  {
    if OnItem(s) then Walk(e, s, 0)
    else
      NextRefines(e, s);
      Resume(e, Next(e, s), 1)
  }

  /** The states in which printing may start. */
  predicate CanPrint(s: State) {
    s.sub.BeforeFirst? || (OnItem(s) && (KindOf(s.sub).Value? || IsBegin(KindOf(s.sub))))
  }

  /** The tree of the current item: a value, a struct (or struct element), or an array. */
  ghost function ItemTree(e: Event, s: State, render: Renderer): J.Json
    requires Valid(e, s) && OnItem(s)
  {
    if s.sub.AtStructBegin? then StructTree(e, s.top.index, s.pos, s.ints, render)
    else if s.sub.AtArrayBegin? then ArrayTree(e, s.top.index, s.top.arrayCount, s.pos, s.ints, render)
    else Leaf(View(s), render)
  }

  /** Elements of arrays have no name; an array has one even inside an array of structs. */
  predicate IsElement(s: State) {
    s.top.isArray && !s.sub.AtArrayBegin?
  }

  lemma ValuePrints(e: Event, s: State, render: Renderer, pen: Pen, space: bool)
    requires Valid(e, s) && OnItem(s) && KindOf(s.sub).Value?
    requires Sound(render) && AllRendered(Walk(e, s, 0).visits, render)
    ensures EmitAll(e, Walk(e, s, 0).visits, render, pen, space)
      == ItemText(e, s.top.index, IsElement(s), ItemTree(e, s, render), pen, space)
    ensures J.Printable(ItemTree(e, s, render))
  {
    hide Walk, Next, EmitAll, Sound, ItemText, J.Printable;
    WalkUnfolds(e, s, 0);
    assert [View(s)] + [] == [View(s)];
    assert render(View(s)).Some? by {
      assert Walk(e, s, 0).visits[0] == View(s);
    }
    ScalarPrints(e, s.top.index, View(s), render, pen, space);
  }

  lemma StructPrints(e: Event, s: State, render: Renderer, pen: Pen, space: bool)
    requires Valid(e, s) && s.sub.AtStructBegin? && !Walk(e, s, 0).end.sub.InError?
    requires Sound(render) && AllRendered(Walk(e, s, 0).visits, render)
    ensures EmitAll(e, Walk(e, s, 0).visits, render, pen, space)
      == ItemText(e, s.top.index, IsElement(s), ItemTree(e, s, render), pen, space)
    ensures J.Printable(ItemTree(e, s, render))
  {
    hide Walk, Group, StructsNext, StructTree, EmitAll, Sound, AllRendered, ItemText, J.Printable;
    StructIsOpen(e, s);
    WalkOneStruct(e, s, 0);
    var (p, f) := (e.props[s.top.index], s.top);
    var body := Group(e, p.structStart, MemberEnd(p), s.pos, s.ints);
    var end := EndStruct(f.index, f.arrayIndex, f.arrayCount, f.isArray, body.pos);
    assert [View(s)] + body.visits + [end] + [] == [View(s)] + body.visits + [end];
    AllRenderedParts([View(s)] + body.visits, [end], render);
    AllRenderedParts([View(s)], body.visits, render);
    StructViews(e, s);
    OneStructPrints(e, f.index, f.arrayIndex, f.arrayCount, f.isArray, s.pos, s.ints, render, pen, space);
  }

  lemma StructViews(e: Event, s: State)
    requires Valid(e, s) && s.sub.AtStructBegin?
    ensures View(s) == BeginStruct(s.top.index, s.top.arrayIndex, s.top.arrayCount, s.top.isArray, s.pos)
  {
  }

  lemma ArrayOfItemPrints(e: Event, s: State, render: Renderer, pen: Pen, space: bool)
    requires Valid(e, s) && s.sub.AtArrayBegin? && !Walk(e, s, 0).end.sub.InError?
    requires Sound(render) && AllRendered(Walk(e, s, 0).visits, render)
    ensures EmitAll(e, Walk(e, s, 0).visits, render, pen, space)
      == ItemText(e, s.top.index, IsElement(s), ItemTree(e, s, render), pen, space)
    ensures J.Printable(ItemTree(e, s, render))
  {
    hide Walk, NextProperty, Structs, Elements, FixedElements, ArrayTree, EmitAll, Sound, AllRendered, ItemText;
    hide J.Printable;
    hide ArrayElement, Bytes, ShapeOf, CookedType;
    var (i, n) := (s.top.index, s.top.arrayCount);
    ArrayViews(e, s);
    WalkArray(e, s, 0);
    var body := ArrayBody(e, i, n, s.pos, s.ints);
    assert [View(s)] + body.visits + [] == [View(s)] + body.visits;
    AllRenderedParts([View(s)], body.visits, render);
    ArrayItemPrints(e, i, n, s.pos, s.ints, render, pen, space);
  }

  lemma ArrayViews(e: Event, s: State)
    requires Valid(e, s) && s.sub.AtArrayBegin?
    ensures View(s) == BeginArray(e, s.top.index, s.top.arrayCount, s.pos)
    ensures ArrayFits(e, s.top.index, s.top.arrayCount, s.pos)
  {
    hide ShapeOf, CookedType, Bytes;
  }

  /**
   From any value, struct or array - a top-level property, a member of a struct or an element of an
   array - the text of the items gone over is the text of that item's tree, with its name when wanted.
   */
  lemma ItemPrints(e: Event, s: State, render: Renderer, pen: Pen, space: bool)
    requires Valid(e, s) && OnItem(s) && CanPrint(s) && !Walk(e, s, 0).end.sub.InError?
    requires Sound(render) && AllRendered(Walk(e, s, 0).visits, render)
    ensures EmitAll(e, Walk(e, s, 0).visits, render, pen, space)
      == ItemText(e, s.top.index, IsElement(s), ItemTree(e, s, render), pen, space)
    ensures J.Printable(ItemTree(e, s, render))
  {
    hide Walk, EmitAll, ItemTree, Sound, AllRendered, ItemText, J.Printable, Valid;
    if s.sub.AtStructBegin? {
      StructPrints(e, s, render, pen, space);
    } else if s.sub.AtArrayBegin? {
      ArrayOfItemPrints(e, s, render, pen, space);
    } else {
      ValuePrints(e, s, render, pen, space);
    }
  }

  // ------------------------------------------------------------------ the text as JSON

  /** Before the first item, the printer goes over exactly what the decoder decodes. */
  lemma WalkIsDecoding(e: Event, ints: seq<U16>)
    requires WellFormed(e) && |ints| == |e.props|
    ensures var s := Reset(e, ints); var t := Decode(e, ints);
      && Valid(e, s) && CanMove(s)
      && JsonWalk(e, s).visits == t.visits && Stopped(t, JsonWalk(e, s).end)
  {
    hide Group, Walk;
    var s := Reset(e, ints);
    var t := Decode(e, ints);
    assert Wrap16(e.topLevel) == e.topLevel;
    WalkGroup(e, s, 1);
    assert t.visits + [] == t.visits;
  }

  /** The text is one value: section 2 of RFC 8259. */
  ghost predicate IsValueText(text: string, tree: J.Json, space: bool) {
    text == J.Print(tree, space) && J.ParseValue(text) == Some((tree, ""))
  }

  /** The text is a list of members: in braces it is an object, section 4 of RFC 8259. */
  ghost predicate IsMembersText(text: string, members: seq<J.Member>, space: bool) {
    text == J.PrintMembers(members, space) && J.ParseValue("{" + text + "}") == Some((J.Object(members), ""))
  }

  /** What the printer promises of its text, by the state it starts in and its name flag. */
  ghost predicate IsJson(text: string, e: Event, s: State, render: Renderer, name: bool, space: bool)
    requires Valid(e, s) && CanPrint(s)
  {
    if s.sub.BeforeFirst? then IsMembersText(text, GroupTree(e, 0, e.topLevel, 0, s.ints, render), space)
    else if name && !IsElement(s) then
      IsMembersText(text, [J.Member(e.props[s.top.index].name, ItemTree(e, s, render))], space)
    else IsValueText(text, ItemTree(e, s, render), space)
  }

  /** An event with one property, an array of one byte, and the state at the element of that array. */
  function OneByteArray(name: string): Event {
    Event([Property(name, false, false, true, false, false, 1, 0, UInt8, false, 0, 0)], 1, [7], 8)
  }

  function AtItsElement(ints: seq<U16>): State {
    State(SimpleElement, 0, Frame(0, 1, 0, 1, false, true), [], ints, Item(0, 1, 1, UInt8, 1), Success)
  }

  /** Two moves lead there. */
  lemma ElementIsReached(name: string, ints: seq<U16>)
    requires |ints| == 1
    ensures var e := OneByteArray(name); var first := Machine.Reset(e, ints); var s := AtItsElement(ints);
      && Valid(e, first) && CanMove(first)
      && Valid(e, Next(e, first)) && CanMove(Next(e, first)) && Next(e, Next(e, first)) == s
      && Valid(e, s) && CanPrint(s) && IsElement(s)
  {
    hide Rest;
    var e := OneByteArray(name);
    assert WellFormedProperty(e, 0);
    NextRefines(e, Machine.Reset(e, ints));
    NextRefines(e, Next(e, Machine.Reset(e, ints)));
  }

  /** Even with the name flag set, what is printed there is the value alone. */
  lemma ElementHasNoName(name: string, ints: seq<U16>, render: Renderer, space: bool, text: string)
    requires |ints| == 1
    ensures var (e, s) := (OneByteArray(name), AtItsElement(ints));
      && Valid(e, s) && CanPrint(s) && IsElement(s) && e.props[s.top.index].name == name
      && (IsJson(text, e, s, render, true, space) <==> IsJson(text, e, s, render, false, space))
  {
    hide Next, Valid, IsValueText, ItemTree;
    ElementIsReached(name, ints);
  }

  lemma ValueTextParses(tree: J.Json, space: bool)
    requires J.Printable(tree)
    ensures IsValueText(J.Print(tree, space), tree, space)
  {
    J.PrintRoundTrips(tree, space, "");
    assert J.Print(tree, space) + "" == J.Print(tree, space);
  }

  lemma MembersTextParses(members: seq<J.Member>, space: bool)
    requires J.PrintableMembers(members)
    ensures IsMembersText(J.PrintMembers(members, space), members, space)
  {
    hide J.PrintMembers;
    ValueTextParses(J.Object(members), space);
  }

  lemma ItemTextParses(e: Event, i: nat, isElement: bool, tree: J.Json, name: bool, space: bool)
    requires i < |e.props| && J.Printable(tree)
    ensures var text := ItemText(e, i, isElement, tree, Pen(false, name), space);
      if name && !isElement then IsMembersText(text, [J.Member(e.props[i].name, tree)], space)
      else IsValueText(text, tree, space)
  {
    hide J.Print, J.ParseValue, J.Printable, J.Quote;
    if name && !isElement {
      var m := J.Member(e.props[i].name, tree);
      OneMember(m, space);
      MembersTextParses([m], space);
      assert ItemText(e, i, isElement, tree, Pen(false, name), space) == J.PrintMembers([m], space);
    } else {
      ValueTextParses(tree, space);
      assert ItemText(e, i, isElement, tree, Pen(false, name), space) == J.Print(tree, space);
    }
  }

  lemma OneMember(m: J.Member, space: bool)
    requires J.Printable(m.value)
    ensures J.PrintableMembers([m])
    ensures J.PrintMembers([m], space) == J.Quote(m.name) + J.Colon(space) + J.Print(m.value, space)
  {
    hide J.Print, J.Printable, J.Quote;
    assert [m][1..] == [];
  }

  /** The text of a successful run of the printer is JSON. */
  lemma PrintedIsJson(e: Event, s: State, render: Renderer, name: bool, space: bool)
    requires Valid(e, s) && CanPrint(s) && !JsonWalk(e, s).end.sub.InError?
    requires Sound(render) && AllRendered(JsonWalk(e, s).visits, render)
    ensures var text := EmitAll(e, JsonWalk(e, s).visits, render, Pen(false, name || s.sub.BeforeFirst?), space);
      IsJson(text, e, s, render, name, space)
  {
    hide Walk, Next, Rest, Group, EmitAll, GroupTree, ItemTree, Sound, AllRendered, ItemText, J.Printable;
    hide J.PrintableMembers;
    hide IsMembersText, IsValueText, SubStateAgrees;
    if s.sub.BeforeFirst? {
      WalkIsDecoding(e, s.ints);
      GroupPrints(e, 0, e.topLevel, 0, s.ints, render, false, space);
      MembersTextPrints(GroupTree(e, 0, e.topLevel, 0, s.ints, render), space);
      MembersTextParses(GroupTree(e, 0, e.topLevel, 0, s.ints, render), space);
    } else {
      ItemPrints(e, s, render, Pen(false, name), space);
      ItemTextParses(e, s.top.index, IsElement(s), ItemTree(e, s, render), name, space);
    }
  }
}
