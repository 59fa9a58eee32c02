/** The text written over the decoder's items is the text of the decoder's tree: names, nesting and commas. */
module JsonStructure {
  import opened Basics
  import opened Schema
  import opened Values
  import opened Decoder
  import opened JsonTree
  import J = JsonText

  lemma {:induction false} GroupPrints(
      e: Event, lo: nat, hi: nat, pos: nat, ints: seq<U16>, render: Renderer, comma: bool, space: bool)
    requires Start(e, pos, ints) && lo <= hi <= |e.props|
    requires Group(e, lo, hi, pos, ints).outcome.Done?
    requires Sound(render) && AllRendered(Group(e, lo, hi, pos, ints).visits, render)
    ensures var visits := Group(e, lo, hi, pos, ints).visits; var tree := GroupTree(e, lo, hi, pos, ints, render);
      && EmitAll(e, visits, render, Pen(comma, true), space) == MembersText(tree, comma, space)
      && PenAfter(visits, Pen(comma, true)) == Pen(comma || lo < hi, true)
      && J.PrintableMembers(tree)
    decreases |e.props| - lo, 3, 0
  {
    hide One, PropertyTree, Emit, EmitAll, Sound, AllRendered, J.Print, J.Comma;
    if lo < hi {
      var first := One(e, lo, pos, ints);
      var rest := Group(e, lo + 1, hi, first.pos, first.ints);
      AllRenderedParts(first.visits, rest.visits, render);
      PropertyPrints(e, lo, pos, ints, render, Pen(comma, true), space);
      GroupPrints(e, lo + 1, hi, first.pos, first.ints, render, true, space);
      EmitAppends(e, first.visits, rest.visits, render, Pen(comma, true), space);
      var tree := PropertyTree(e, lo, pos, ints, render);
      MemberIsItem(e, lo, tree, comma, space);
      MembersTextFirst(J.Member(e.props[lo].name, tree), GroupTree(e, lo + 1, hi, first.pos, first.ints, render),
        comma, space);
    } else {
      EmitNothing(e, render, Pen(comma, true), space);
    }
  }

  lemma EmitNothing(e: Event, render: Renderer, pen: Pen, space: bool)
    ensures EmitAll(e, [], render, pen, space) == ""
  {
  }

  lemma MembersTextFirst(m: J.Member, rest: seq<J.Member>, comma: bool, space: bool)
    ensures MembersText([m] + rest, comma, space)
      == (if comma then J.Comma(space) else "") + J.PrintMember(m, space) + MembersText(rest, true, space)
  {
    hide J.PrintMember;
    assert ([m] + rest)[1..] == rest;
  }

  lemma ItemsTextFirst(v: J.Json, rest: seq<J.Json>, comma: bool, space: bool)
    ensures ItemsText([v] + rest, comma, space)
      == (if comma then J.Comma(space) else "") + J.Print(v, space) + ItemsText(rest, true, space)
  {
    hide J.Print;
    assert ([v] + rest)[1..] == rest;
  }

  lemma MemberIsItem(e: Event, i: nat, tree: J.Json, comma: bool, space: bool)
    requires i < |e.props|
    ensures ItemText(e, i, false, tree, Pen(comma, true), space)
      == (if comma then J.Comma(space) else "") + J.PrintMember(J.Member(e.props[i].name, tree), space)
  {
    hide J.Print, J.Quote, J.Comma, J.Colon;
  }

  lemma {:induction false} PropertyPrints(
      e: Event, i: nat, pos: nat, ints: seq<U16>, render: Renderer, pen: Pen, space: bool)
    requires Start(e, pos, ints) && i < |e.props| && One(e, i, pos, ints).outcome.Done?
    requires Sound(render) && AllRendered(One(e, i, pos, ints).visits, render)
    ensures var visits := One(e, i, pos, ints).visits; var tree := PropertyTree(e, i, pos, ints, render);
      && EmitAll(e, visits, render, pen, space) == ItemText(e, i, false, tree, pen, space)
      && PenAfter(visits, pen) == Pen(true, true)
      && J.Printable(tree)
    decreases |e.props| - i, 2, 0
  {
    hide DecodeValue, Structs, Elements, FixedElements, StructTree, StructTrees, ElementTrees, FixedElementTrees;
    hide Emit, EmitAll, Sound, Leaf, LeafText, J.Print, J.Comma, J.Colon, J.Quote, ShapeOf, CookedType, Bytes;
    hide ArrayElement;
    var p := e.props[i];
    assert WellFormedProperty(e, i);
    var n := ArrayCount(p, ints);
    if IsScalar(p) {
      ScalarPrints(e, i, One(e, i, pos, ints).visits[0], render, pen, space);
    } else if !IsArray(p) {
      assert One(e, i, pos, ints) == Structs(e, i, 0, 1, false, pos, ints);
      SingleStructPrints(e, i, pos, ints, render, pen, space);
    } else {
      ArrayPropertyPrints(e, i, pos, ints, render, pen, space);
    }
  }

  lemma {:induction false} ArrayPropertyPrints(
      e: Event, i: nat, pos: nat, ints: seq<U16>, render: Renderer, pen: Pen, space: bool)
    requires Start(e, pos, ints) && i < |e.props| && One(e, i, pos, ints).outcome.Done? && IsArray(e.props[i])
    requires Sound(render) && AllRendered(One(e, i, pos, ints).visits, render)
    ensures var visits := One(e, i, pos, ints).visits; var tree := PropertyTree(e, i, pos, ints, render);
      && EmitAll(e, visits, render, pen, space) == ItemText(e, i, false, tree, pen, space)
      && PenAfter(visits, pen) == Pen(true, true)
      && J.Printable(tree)
    decreases |e.props| - i, 1, 0x1_0001
  {
    hide DecodeValue, Structs, Elements, FixedElements, StructTrees, ElementTrees, FixedElementTrees;
    hide Emit, EmitAll, Sound, AllRendered, J.Print, ShapeOf, CookedType, Bytes, ArrayElement, ItemText, J.Printable;
    var p := e.props[i];
    assert WellFormedProperty(e, i);
    var n := ArrayCount(p, ints);
    var body := ArrayBody(e, i, n, pos, ints);
    var begin := BeginArray(e, i, n, pos);
    assert One(e, i, pos, ints) == Prepend(begin, body);
    AllRenderedParts([begin], body.visits, render);
    ArrayItemPrints(e, i, n, pos, ints, render, pen, space);
  }

  /** The elements of an array fit in the payload, as far as their size is known. */
  ghost predicate ArrayFits(e: Event, i: nat, n: nat, pos: nat)
    requires i < |e.props|
  {
    !e.props[i].isStruct && ArrayElement(e, e.props[i]) != 0 ==> pos + Bytes(n, ArrayElement(e, e.props[i])) <= |e.data|
  }

  /** What follows the begin item of an array. */
  ghost function ArrayBody(e: Event, i: nat, n: nat, pos: nat, ints: seq<U16>): Trace
    requires Start(e, pos, ints) && i < |e.props| && ArrayFits(e, i, n, pos)
  {
    if e.props[i].isStruct then Structs(e, i, 0, n, true, pos, ints)
    else if ArrayElement(e, e.props[i]) == 0 then Elements(e, i, 0, n, pos, ints)
    else FixedElements(e, i, 0, n, pos, ints)
  }

  function ArrayTree(e: Event, i: nat, n: nat, pos: nat, ints: seq<U16>, render: Renderer): J.Json
    requires Start(e, pos, ints) && i < |e.props|
  {
    J.Array(
      if e.props[i].isStruct then StructTrees(e, i, 0, n, pos, ints, render)
      else if ArrayElement(e, e.props[i]) == 0 then ElementTrees(e, i, 0, n, pos, ints, render)
      else FixedElementTrees(e, i, 0, n, pos, render))
  }

  /** An array from its begin item past its end item, wherever it is. */
  lemma {:induction false} ArrayItemPrints(
      e: Event, i: nat, n: nat, pos: nat, ints: seq<U16>, render: Renderer, pen: Pen, space: bool)
    requires Start(e, pos, ints) && i < |e.props| && ArrayFits(e, i, n, pos)
    requires var body := ArrayBody(e, i, n, pos, ints);
      body.outcome.Done? && Sound(render) && AllRendered(body.visits, render)
    ensures var visits := [BeginArray(e, i, n, pos)] + ArrayBody(e, i, n, pos, ints).visits;
      var tree := ArrayTree(e, i, n, pos, ints, render);
      && EmitAll(e, visits, render, pen, space) == ItemText(e, i, false, tree, pen, space)
      && PenAfter(visits, pen) == Pen(true, true)
      && J.Printable(tree)
    decreases |e.props| - i, 1, n + 1
  {
    hide DecodeValue, Structs, Elements, FixedElements, StructTrees, ElementTrees, FixedElementTrees;
    hide Emit, EmitAll, Sound, AllRendered, J.Print, ItemText, ShapeOf, CookedType, Bytes, ArrayElement;
    var p := e.props[i];
    var begin := BeginArray(e, i, n, pos);
    EmitPrepends(e, begin, ArrayBody(e, i, n, pos, ints).visits, render, pen, space);
    if p.isStruct {
      StructsPrint(e, i, 0, n, pos, ints, render, space);
    } else if ArrayElement(e, p) == 0 {
      ElementsPrint(e, i, 0, n, pos, ints, render, space);
    } else {
      FixedElementsPrint(e, i, 0, n, pos, ints, render, space);
    }
    ArrayPrints(e, i, begin, ArrayTree(e, i, n, pos, ints, render).items, render, pen, space);
  }

  /** An array's begin item, its elements and its bracket are the text of the array. */
  lemma ArrayPrints(e: Event, i: nat, begin: Visit, items: seq<J.Json>, render: Renderer, pen: Pen, space: bool)
    requires i < |e.props| && begin.kind.ArrayBegin? && begin.index == i
    ensures Emit(e, begin, render, pen, space) + (ItemsText(items, false, space) + "]")
      == ItemText(e, i, false, J.Array(items), pen, space)
  {
    hide J.Comma, J.Colon, J.Quote;
    ItemsTextPrints(items, space);
  }

  lemma ScalarPrints(e: Event, i: nat, v: Visit, render: Renderer, pen: Pen, space: bool)
    requires i < |e.props| && v.kind.Value? && v.index == i && Sound(render) && render(v).Some?
    ensures EmitAll(e, [v], render, pen, space) == ItemText(e, i, v.isArray, Leaf(v, render), pen, space)
    ensures J.Printable(Leaf(v, render))
  {
  }

  /** One struct: its begin item, its members and its end item. */
  lemma {:induction false} OneStructPrints(
      e: Event, i: nat, k: nat, n: nat, isArray: bool, pos: nat, ints: seq<U16>, render: Renderer, pen: Pen,
      space: bool)
    requires Start(e, pos, ints) && i < |e.props| && e.props[i].isStruct
    requires e.props[i].structStart <= MemberEnd(e.props[i]) <= |e.props| && i < e.props[i].structStart
    requires var body := Group(e, e.props[i].structStart, MemberEnd(e.props[i]), pos, ints);
      body.outcome.Done? && AllRendered(body.visits, render)
    requires Sound(render)
    ensures var body := Group(e, e.props[i].structStart, MemberEnd(e.props[i]), pos, ints);
      var tree := StructTree(e, i, pos, ints, render);
      && EmitAll(e, [BeginStruct(i, k, n, isArray, pos)] + body.visits + [EndStruct(i, k, n, isArray, body.pos)],
        render, pen, space)
         == ItemText(e, i, isArray, tree, pen, space)
      && J.Printable(tree)
    decreases |e.props| - i, 0, 1
  {
    hide Group, GroupTree, Emit, EmitAll, Sound, AllRendered, J.Print, J.Comma, J.Colon, J.Quote;
    var p := e.props[i];
    var body := Group(e, p.structStart, MemberEnd(p), pos, ints);
    var (begin, end) := (BeginStruct(i, k, n, isArray, pos), EndStruct(i, k, n, isArray, body.pos));
    GroupPrints(e, p.structStart, MemberEnd(p), pos, ints, render, false, space);
    EmitAppends(e, [begin] + body.visits, [end], render, pen, space);
    EmitPrepends(e, begin, body.visits, render, pen, space);
    EmitPrepends(e, end, [], render, PenAfter([begin] + body.visits, pen), space);
    assert [end] + [] == [end];
    EmitNothing(e, render, Moved(end), space);
    ObjectPrints(e, i, begin, end, GroupTree(e, p.structStart, MemberEnd(p), pos, ints, render), render, pen,
      PenAfter([begin] + body.visits, pen), space);
  }

  lemma ObjectPrints(
      e: Event, i: nat, begin: Visit, end: Visit, members: seq<J.Member>, render: Renderer, pen: Pen, endPen: Pen,
      space: bool)
    requires i < |e.props| && begin.kind.StructBegin? && begin.index == i && end.kind.StructEnd?
    ensures Emit(e, begin, render, pen, space) + MembersText(members, false, space)
      + Emit(e, end, render, endPen, space)
      == ItemText(e, i, begin.isArray, J.Object(members), pen, space)
  {
    hide J.Comma, J.Colon, J.Quote;
    MembersTextPrints(members, space);
  }

  /** A struct property that is not an array. */
  lemma {:induction false} SingleStructPrints(
      e: Event, i: nat, pos: nat, ints: seq<U16>, render: Renderer, pen: Pen, space: bool)
    requires Start(e, pos, ints) && i < |e.props| && e.props[i].isStruct
    requires Structs(e, i, 0, 1, false, pos, ints).outcome.Done?
    requires Sound(render) && AllRendered(Structs(e, i, 0, 1, false, pos, ints).visits, render)
    ensures var visits := Structs(e, i, 0, 1, false, pos, ints).visits; var tree := StructTree(e, i, pos, ints, render);
      && EmitAll(e, visits, render, pen, space) == ItemText(e, i, false, tree, pen, space)
      && PenAfter(visits, pen) == Pen(true, true)
      && J.Printable(tree)
    decreases |e.props| - i, 1, 0
  {
    hide Group, StructTree, Emit, EmitAll, Sound, AllRendered, ItemText, J.Printable;
    var p := e.props[i];
    assert WellFormedProperty(e, i);
    var body := Group(e, p.structStart, MemberEnd(p), pos, ints);
    var (begin, end) := (BeginStruct(i, 0, 1, false, pos), EndStruct(i, 0, 1, false, body.pos));
    var visits := [begin] + body.visits + [end];
    assert Structs(e, i, 0, 1, false, pos, ints).visits == [begin] + (body.visits + ([end] + []));
    assert visits == [begin] + (body.visits + ([end] + []));
    assert visits == [begin] + (body.visits + [end]);
    AllRenderedParts([begin], body.visits + [end], render);
    AllRenderedParts(body.visits, [end], render);
    OneStructPrints(e, i, 0, 1, false, pos, ints, render, pen, space);
  }

  /** The remaining elements of an array of structs and the closing bracket. */
  lemma {:induction false} StructsPrint(
      e: Event, i: nat, k: nat, n: nat, pos: nat, ints: seq<U16>, render: Renderer, space: bool)
    requires Start(e, pos, ints) && i < |e.props| && e.props[i].isStruct && k <= n
    requires Structs(e, i, k, n, true, pos, ints).outcome.Done?
    requires Sound(render) && AllRendered(Structs(e, i, k, n, true, pos, ints).visits, render)
    ensures var visits := Structs(e, i, k, n, true, pos, ints).visits;
      var trees := StructTrees(e, i, k, n, pos, ints, render);
      && EmitAll(e, visits, render, Pen(false, true), space) == ItemsText(trees, false, space) + "]"
      && EmitAll(e, visits, render, Pen(true, true), space) == ItemsText(trees, true, space) + "]"
      && visits != [] && visits[|visits| - 1].kind.ArrayEnd?
      && J.PrintableItems(trees)
    decreases |e.props| - i, 1, n - k
  {
    hide Group, StructTree, Emit, EmitAll, Sound, AllRendered, ItemText, J.Printable, J.Print, J.Comma, ShapeOf;
    hide CookedType;
    if k == n {
      EndArrayPrints(e, EndArray(e, i, n, pos), render, Pen(false, true), space);
      EndArrayPrints(e, EndArray(e, i, n, pos), render, Pen(true, true), space);
    } else {
      var p := e.props[i];
      assert WellFormedProperty(e, i);
      var body := Group(e, p.structStart, MemberEnd(p), pos, ints);
      var (begin, end) := (BeginStruct(i, k, n, true, pos), EndStruct(i, k, n, true, body.pos));
      var rest := Structs(e, i, k + 1, n, true, body.pos, body.ints);
      var head := [begin] + body.visits + [end];
      assert Structs(e, i, k, n, true, pos, ints).visits == head + rest.visits;
      AllRenderedParts(head, rest.visits, render);
      assert head == [begin] + (body.visits + [end]);
      AllRenderedParts([begin], body.visits + [end], render);
      AllRenderedParts(body.visits, [end], render);
      StructsPrint(e, i, k + 1, n, body.pos, body.ints, render, space);
      OneStructPrints(e, i, k, n, true, pos, ints, render, Pen(false, true), space);
      OneStructPrints(e, i, k, n, true, pos, ints, render, Pen(true, true), space);
      ElementFirst(e, i, head, rest.visits, StructTree(e, i, pos, ints, render),
        StructTrees(e, i, k + 1, n, body.pos, body.ints, render), render, space);
    }
  }

  /** The items of one element, then those of the others and the bracket. */
  lemma ElementFirst(
      e: Event, i: nat, head: seq<Visit>, rest: seq<Visit>, tree: J.Json, trees: seq<J.Json>, render: Renderer,
      space: bool)
    requires i < |e.props| && head != [] && IsLast(head) && J.Printable(tree) && J.PrintableItems(trees)
    requires forall comma ::
      EmitAll(e, head, render, Pen(comma, true), space)
      == ItemText(e, i, true, tree, Pen(comma, true), space)
    requires EmitAll(e, rest, render, Pen(true, true), space) == ItemsText(trees, true, space) + "]"
    ensures EmitAll(e, head + rest, render, Pen(false, true), space) == ItemsText([tree] + trees, false, space) + "]"
    ensures EmitAll(e, head + rest, render, Pen(true, true), space) == ItemsText([tree] + trees, true, space) + "]"
    ensures J.PrintableItems([tree] + trees)
  {
    hide EmitAll, ItemText, ItemsText, J.Printable;
    forall comma: bool
      ensures EmitAll(e, head + rest, render, Pen(comma, true), space) == ItemsText([tree] + trees, comma, space) + "]"
    {
      EmitAppends(e, head, rest, render, Pen(comma, true), space);
      FirstItem(e, i, tree, trees, comma, space);
    }
    assert ([tree] + trees)[1..] == trees;
  }

  /** The last visit is not the beginning of something. */
  predicate IsLast(visits: seq<Visit>)
    requires visits != []
  {
    !IsBegin(visits[|visits| - 1].kind)
  }

  /** An element, then the others and the bracket. */
  lemma FirstItem(e: Event, i: nat, tree: J.Json, trees: seq<J.Json>, comma: bool, space: bool)
    requires i < |e.props|
    ensures ItemText(e, i, true, tree, Pen(comma, true), space) + (ItemsText(trees, true, space) + "]")
      == ItemsText([tree] + trees, comma, space) + "]"
  {
    hide J.Print, J.Comma, ItemsText;
    ItemsTextFirst(tree, trees, comma, space);
  }

  lemma EndArrayPrints(e: Event, v: Visit, render: Renderer, pen: Pen, space: bool)
    requires v.kind.ArrayEnd?
    ensures EmitAll(e, [v], render, pen, space) == "]"
  {
    assert [v][1..] == [];
  }

  lemma {:induction false} ElementsPrint(
      e: Event, i: nat, k: nat, n: nat, pos: nat, ints: seq<U16>, render: Renderer, space: bool)
    requires Start(e, pos, ints) && i < |e.props| && k <= n
    requires Elements(e, i, k, n, pos, ints).outcome.Done?
    requires Sound(render) && AllRendered(Elements(e, i, k, n, pos, ints).visits, render)
    ensures var visits := Elements(e, i, k, n, pos, ints).visits;
      var trees := ElementTrees(e, i, k, n, pos, ints, render);
      && EmitAll(e, visits, render, Pen(false, true), space) == ItemsText(trees, false, space) + "]"
      && EmitAll(e, visits, render, Pen(true, true), space) == ItemsText(trees, true, space) + "]"
      && visits != [] && visits[|visits| - 1].kind.ArrayEnd?
      && J.PrintableItems(trees)
    decreases n - k
  {
    hide DecodeValue, ShapeOf, CookedType, Leaf, Emit, EmitAll, Sound, ItemText, J.Printable, J.Print, J.Comma;
    if k == n {
      EndArrayPrints(e, EndArray(e, i, n, pos), render, Pen(false, true), space);
      EndArrayPrints(e, EndArray(e, i, n, pos), render, Pen(true, true), space);
    } else {
      var d := DecodeValue(e, i, pos, ints);
      var v := Visit(Kind.Value, i, k, n, true, pos, d.item);
      var rest := Elements(e, i, k + 1, n, pos + d.item.raw, d.ints);
      AllRenderedParts([v], rest.visits, render);
      assert [v][0] == v;
      ElementsPrint(e, i, k + 1, n, pos + d.item.raw, d.ints, render, space);
      LeafFirst(e, i, v, rest.visits, ElementTrees(e, i, k + 1, n, pos + d.item.raw, d.ints, render), render, space);
    }
  }

  /** A value element, then the others and the bracket. */
  lemma LeafFirst(
      e: Event, i: nat, v: Visit, rest: seq<Visit>, trees: seq<J.Json>, render: Renderer, space: bool)
    requires i < |e.props| && v.kind.Value? && v.index == i && v.isArray && Sound(render) && render(v).Some?
    requires EmitAll(e, rest, render, Pen(true, true), space) == ItemsText(trees, true, space) + "]"
    requires J.PrintableItems(trees)
    ensures EmitAll(e, [v] + rest, render, Pen(false, true), space)
      == ItemsText([Leaf(v, render)] + trees, false, space) + "]"
    ensures EmitAll(e, [v] + rest, render, Pen(true, true), space)
      == ItemsText([Leaf(v, render)] + trees, true, space) + "]"
    ensures J.PrintableItems([Leaf(v, render)] + trees)
  {
    hide Leaf, LeafText, Emit, EmitAll, Sound, ItemText, ItemsText, J.Printable, J.Print, J.Comma;
    ScalarPrints(e, i, v, render, Pen(false, true), space);
    ScalarPrints(e, i, v, render, Pen(true, true), space);
    ElementFirst(e, i, [v], rest, Leaf(v, render), trees, render, space);
  }

  lemma {:induction false} FixedElementsPrint(
      e: Event, i: nat, k: nat, n: nat, pos: nat, ints: seq<U16>, render: Renderer, space: bool)
    requires Start(e, pos, ints) && i < |e.props| && k <= n
    requires pos + Bytes(n - k, ArrayElement(e, e.props[i])) <= |e.data|
    requires Sound(render) && AllRendered(FixedElements(e, i, k, n, pos, ints).visits, render)
    ensures var visits := FixedElements(e, i, k, n, pos, ints).visits;
      var trees := FixedElementTrees(e, i, k, n, pos, render);
      && EmitAll(e, visits, render, Pen(false, true), space) == ItemsText(trees, false, space) + "]"
      && EmitAll(e, visits, render, Pen(true, true), space) == ItemsText(trees, true, space) + "]"
      && visits != [] && visits[|visits| - 1].kind.ArrayEnd?
      && J.PrintableItems(trees)
    decreases n - k
  {
    hide Bytes, ShapeOf, CookedType, Leaf, Emit, EmitAll, Sound, ItemText, J.Printable, J.Print, J.Comma;
    if k == n {
      EndArrayPrints(e, EndArray(e, i, n, pos), render, Pen(false, true), space);
      EndArrayPrints(e, EndArray(e, i, n, pos), render, Pen(true, true), space);
    } else {
      var size := ArrayElement(e, e.props[i]);
      OneElement(n - k, size);
      var v := Visit(Kind.Value, i, k, n, true, pos, Item(pos, size, size, CookedType(e.props[i].inType), size));
      var rest := FixedElements(e, i, k + 1, n, pos + size, ints);
      AllRenderedParts([v], rest.visits, render);
      assert [v][0] == v;
      FixedElementsPrint(e, i, k + 1, n, pos + size, ints, render, space);
      LeafFirst(e, i, v, rest.visits, FixedElementTrees(e, i, k + 1, n, pos + size, render), render, space);
    }
  }

  /**
   The members of a whole event, wrapped in braces, are a JSON text (RFC 8259) that parses to exactly
   the tree of the reference decoder.
   */
  lemma EventIsJson(e: Event, ints: seq<U16>, render: Renderer, space: bool)
    requires WellFormed(e) && |ints| == |e.props| && Decode(e, ints).outcome.Done?
    requires Sound(render) && AllRendered(Decode(e, ints).visits, render)
    ensures var tree := J.Object(GroupTree(e, 0, e.topLevel, 0, ints, render));
      var text := "{" + EmitAll(e, Decode(e, ints).visits, render, Pen(false, true), space) + "}";
      text == J.Print(tree, space) && J.ParseValue(text) == Some((tree, ""))
  {
    hide Group, GroupTree, EmitAll, Sound, AllRendered;
    var members := GroupTree(e, 0, e.topLevel, 0, ints, render);
    GroupPrints(e, 0, e.topLevel, 0, ints, render, false, space);
    MembersTextPrints(members, space);
    var text := J.Print(J.Object(members), space);
    J.PrintRoundTrips(J.Object(members), space, "");
    assert text + "" == text;
  }
}
