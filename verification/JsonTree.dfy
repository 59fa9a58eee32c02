/**
 What the JSON printer writes while the enumerator goes over items, and the proof that this is the
 text of the tree that the reference decoder describes.
 */
module JsonTree {
  import opened Basics
  import opened Schema
  import opened Values
  import opened Decoder
  import J = JsonText

  /** What AddCurrentValue leaves in the scratch buffer: the three successful ValueTypes. */
  datatype Rendered =
    | JsonString(text: string)   // to be escaped
    | CleanString(text: string)  // known to need no escaping
    | JsonLiteral(text: string)  // a number, true, false or null

  /** Leaf rendering; None when it fails. */
  type Renderer = Visit -> Option<Rendered>

  function ValueText(r: Rendered): string {
    match r
    case JsonString(text) => J.Quote(text)
    case CleanString(text) => "\"" + text + "\""
    case JsonLiteral(text) => text
  }

  function ValueTree(r: Rendered): J.Json {
    match r
    case JsonString(text) => J.Text(text)
    case CleanString(text) => J.Text(text)
    case JsonLiteral(text) => J.Literal(text)
  }

  /** What the printer assumes of leaf renderings: clean strings are clean, literals are literals. */
  ghost predicate Sound(render: Renderer) {
    forall v ::
      match render(v)
      case Some(CleanString(text)) => J.Escape(text) == text
      case Some(JsonLiteral(text)) => J.IsLiteral(text)
      case _ => true
  }

  ghost predicate AllRendered(visits: seq<Visit>, render: Renderer) {
    forall j :: 0 <= j < |visits| && visits[j].kind.Value? ==> render(visits[j]).Some?
  }

  function Leaf(v: Visit, render: Renderer): J.Json {
    var r := render(v);
    if r.Some? then ValueTree(r.value) else J.Text("")
  }

  function LeafText(v: Visit, render: Renderer): string {
    var r := render(v);
    if r.Some? then ValueText(r.value) else ""
  }

  // ------------------------------------------------------------------ the tree

  function GroupTree(e: Event, lo: nat, hi: nat, pos: nat, ints: seq<U16>, render: Renderer): seq<J.Member>
    requires Start(e, pos, ints) && lo <= hi <= |e.props|
    decreases |e.props| - lo, 3, 0
  {
    if lo == hi then []
    else
      var t := One(e, lo, pos, ints);
      [J.Member(e.props[lo].name, PropertyTree(e, lo, pos, ints, render))]
      + GroupTree(e, lo + 1, hi, t.pos, t.ints, render)
  }

  function PropertyTree(e: Event, i: nat, pos: nat, ints: seq<U16>, render: Renderer): J.Json
    requires Start(e, pos, ints) && i < |e.props|
    decreases |e.props| - i, 2, 0
  {
    var p := e.props[i];
    assert WellFormedProperty(e, i);
    var n := ArrayCount(p, ints);
    if IsScalar(p) then
      match DecodeValue(e, i, pos, ints)
      case Rejected(_) => J.Text("")
      case Read(item, _) => Leaf(Visit(Kind.Value, i, 0, 1, false, pos, item), render)
    else if !IsArray(p) then StructTree(e, i, pos, ints, render)
    else if p.isStruct then J.Array(StructTrees(e, i, 0, n, pos, ints, render))
    else if ArrayElement(e, p) == 0 then J.Array(ElementTrees(e, i, 0, n, pos, ints, render))
    else if |e.data| - pos < Bytes(n, ArrayElement(e, p)) then J.Text("")
    else J.Array(FixedElementTrees(e, i, 0, n, pos, render))
  }

  function StructTree(e: Event, i: nat, pos: nat, ints: seq<U16>, render: Renderer): J.Json
    requires Start(e, pos, ints) && i < |e.props| && e.props[i].isStruct
    decreases |e.props| - i, 0, 0
  {
    assert WellFormedProperty(e, i);
    J.Object(GroupTree(e, e.props[i].structStart, MemberEnd(e.props[i]), pos, ints, render))
  }

  function StructTrees(e: Event, i: nat, k: nat, n: nat, pos: nat, ints: seq<U16>, render: Renderer): seq<J.Json>
    requires Start(e, pos, ints) && i < |e.props| && e.props[i].isStruct && k <= n
    decreases |e.props| - i, 1, n - k
  {
    if k == n then []
    else
      assert WellFormedProperty(e, i);
      var body := Group(e, e.props[i].structStart, MemberEnd(e.props[i]), pos, ints);
      [StructTree(e, i, pos, ints, render)] + StructTrees(e, i, k + 1, n, body.pos, body.ints, render)
  }

  function ElementTrees(e: Event, i: nat, k: nat, n: nat, pos: nat, ints: seq<U16>, render: Renderer): seq<J.Json>
    requires Start(e, pos, ints) && i < |e.props| && k <= n
    decreases n - k
  {
    if k == n then []
    else
      match DecodeValue(e, i, pos, ints)
      case Rejected(_) => []
      case Read(item, ints') =>
        [Leaf(Visit(Kind.Value, i, k, n, true, pos, item), render)]
        + ElementTrees(e, i, k + 1, n, pos + item.raw, ints', render)
  }

  function FixedElementTrees(e: Event, i: nat, k: nat, n: nat, pos: nat, render: Renderer): seq<J.Json>
    requires i < |e.props| && k <= n
    decreases n - k
  {
    if k == n then []
    else
      var size := ArrayElement(e, e.props[i]);
      var item := Item(pos, size, size, CookedType(e.props[i].inType), size);
      [Leaf(Visit(Kind.Value, i, k, n, true, pos, item), render)]
      + FixedElementTrees(e, i, k + 1, n, pos + size, render)
  }

  // ------------------------------------------------------------------ the text

  /** The printer's local state: `wantComma` and `includeName`. */
  datatype Pen = Pen(comma: bool, name: bool)

  predicate IsBegin(k: Kind) {
    k.ArrayBegin? || k.StructBegin?
  }

  predicate IsEnd(k: Kind) {
    k.ArrayEnd? || k.StructEnd?
  }

  function Moved(v: Visit): Pen {
    Pen(!IsBegin(v.kind), true)
  }

  function NameText(e: Event, v: Visit, space: bool): string {
    if v.index < |e.props| then J.Quote(e.props[v.index].name) + J.Colon(space) else ""
  }

  /** Elements of arrays have no names of their own. */
  predicate Named(v: Visit, pen: Pen) {
    pen.name && (v.kind.ArrayBegin? || !v.isArray)
  }

  function Opening(e: Event, v: Visit, pen: Pen, space: bool): string {
    (if pen.comma then J.Comma(space) else "") + (if Named(v, pen) then NameText(e, v, space) else "")
  }

  /** What one turn of the printer's loop appends. */
  function Emit(e: Event, v: Visit, render: Renderer, pen: Pen, space: bool): string {
    match v.kind
    case Value => Opening(e, v, pen, space) + LeafText(v, render)
    case ArrayBegin => Opening(e, v, pen, space) + "["
    case StructBegin => Opening(e, v, pen, space) + "{"
    case ArrayEnd => "]"
    case StructEnd => "}"
  }

  function EmitAll(e: Event, visits: seq<Visit>, render: Renderer, pen: Pen, space: bool): string {
    if visits == [] then ""
    else Emit(e, visits[0], render, pen, space) + EmitAll(e, visits[1..], render, Moved(visits[0]), space)
  }

  function PenAfter(visits: seq<Visit>, pen: Pen): Pen {
    if visits == [] then pen else Moved(visits[|visits| - 1])
  }

  lemma {:induction false} EmitAppends(e: Event, a: seq<Visit>, b: seq<Visit>, render: Renderer, pen: Pen, space: bool)
    ensures EmitAll(e, a + b, render, pen, space)
      == EmitAll(e, a, render, pen, space) + EmitAll(e, b, render, PenAfter(a, pen), space)
  {
    hide Emit;
    if a == [] {
      assert a + b == b;
    } else {
      assert (a + b)[1..] == a[1..] + b;
      EmitAppends(e, a[1..], b, render, Moved(a[0]), space);
    }
  }

  lemma EmitPrepends(e: Event, v: Visit, b: seq<Visit>, render: Renderer, pen: Pen, space: bool)
    ensures EmitAll(e, [v] + b, render, pen, space)
      == Emit(e, v, render, pen, space) + EmitAll(e, b, render, Moved(v), space)
  {
    hide Emit;
    assert ([v] + b)[1..] == b;
  }

  /** The text of an item `v` that stands for tree `tree`. */
  function ItemText(e: Event, i: nat, isElement: bool, tree: J.Json, pen: Pen, space: bool): string
    requires i < |e.props|
  {
    (if pen.comma then J.Comma(space) else "")
    + (if pen.name && !isElement then J.Quote(e.props[i].name) + J.Colon(space) else "")
    + J.Print(tree, space)
  }

  lemma AllRenderedParts(a: seq<Visit>, b: seq<Visit>, render: Renderer)
    requires AllRendered(a + b, render)
    ensures AllRendered(a, render) && AllRendered(b, render)
  {
    forall j | 0 <= j < |b| && b[j].kind.Value? ensures render(b[j]).Some? {
      assert (a + b)[|a| + j] == b[j];
    }
    forall j | 0 <= j < |a| && a[j].kind.Value? ensures render(a[j]).Some? {
      assert (a + b)[j] == a[j];
    }
  }

  /** Members after the first are preceded by a comma. */
  function MembersText(members: seq<J.Member>, comma: bool, space: bool): string {
    if members == [] then ""
    else
      (if comma then J.Comma(space) else "") + J.PrintMember(members[0], space)
      + MembersText(members[1..], true, space)
  }

  lemma {:induction false} MembersTextPrints(members: seq<J.Member>, space: bool)
    ensures MembersText(members, false, space) == J.PrintMembers(members, space)
    ensures members != [] ==> MembersText(members, true, space) == J.Comma(space) + J.PrintMembers(members, space)
    decreases |members|
  {
    hide J.PrintMember, J.Comma;
    if members == [] {
    } else {
      MembersTextPrints(members[1..], space);
    }
  }

  function ItemsText(items: seq<J.Json>, comma: bool, space: bool): string {
    if items == [] then ""
    else (if comma then J.Comma(space) else "") + J.Print(items[0], space) + ItemsText(items[1..], true, space)
  }

  lemma {:induction false} ItemsTextPrints(items: seq<J.Json>, space: bool)
    ensures ItemsText(items, false, space) == J.PrintItems(items, space)
    ensures items != [] ==> ItemsText(items, true, space) == J.Comma(space) + J.PrintItems(items, space)
    decreases |items|
  {
    hide J.Print, J.Comma;
    if items == [] {
    } else {
      ItemsTextPrints(items[1..], space);
    }
  }
}
