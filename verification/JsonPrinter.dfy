/** The JSON printer: methods that drive the enumerator and append to a growable buffer. */
module JsonPrinter {
  import opened Basics
  import opened Schema
  import opened Values
  import opened Decoder
  import opened Machine
  import opened Siblings
  import opened Enumerator
  import opened GrowableBuffer
  import opened JsonTree
  import opened JsonItems
  import J = JsonText

  /** The buffers a printer writes to: character buffers that do not share storage. */
  ghost predicate Buffers(output: Buffer<char>, scratch: Buffer<char>)
    reads output, scratch
  {
    && output.Valid() && scratch.Valid() && output != scratch && output.data != scratch.data
    && output.maxCapacity <= J.MAX_CHARS && scratch.maxCapacity <= J.MAX_CHARS
  }

  /** Names are short enough for the 32-bit sums of AppendStringAsJson. */
  ghost predicate ShortNames(e: Event) {
    forall i :: 0 <= i < |e.props| ==> |e.props[i].name| <= J.MAX_CHARS
  }

  /** Without success, memory has run out, or `rendering` failed. */
  ghost predicate FailsFor(status: Status, rendering: bool) {
    status == Success || status == OutOfMemory || (status == RenderFailed && rendering)
  }

  /** AppendCurrentNameAsJson. */
  method AppendCurrentNameAsJson(en: EtwEnumerator, output: Buffer<char>, space: bool) returns (status: Status)
    requires output.Valid() && output.maxCapacity <= J.MAX_CHARS && ShortNames(en.event)
    requires en.stackTop.index < |en.event.props|
    modifies output, output.data
    ensures output.Valid() && (output.data == old(output.data) || fresh(output.data)) && FailsFor(status, false)
    ensures old(output.Contents()) <= output.Contents()
    ensures status == Success ==>
      output.Contents() == old(output.Contents()) + (J.Quote(en.event.props[en.stackTop.index].name) + J.Colon(space))
  {
    hide J.Escape, GrownCapacity;
    status := J.AppendStringAsJson(output, en.event.props[en.stackTop.index].name);
    if status == Success {
      var ok := output.Append(if space then ": " else ":");
      if !ok {
        status := OutOfMemory;
      }
    }
  }

  /** AddCurrentValueAsJson: renders into the scratch buffer, copies from there, and gives the room back. */
  method AddCurrentValueAsJson(en: EtwEnumerator, output: Buffer<char>, scratch: Buffer<char>, render: Renderer)
    returns (status: Status)
    requires en.Ok() && OnItem(en.Abs()) && Buffers(output, scratch)
    modifies output, output.data, scratch, scratch.data
    ensures Buffers(output, scratch)
    ensures output.data == old(output.data) || fresh(output.data)
    ensures old(output.Contents()) <= output.Contents()
    ensures scratch.data == old(scratch.data) || fresh(scratch.data)
    ensures scratch.Contents() == old(scratch.Contents())
    ensures FailsFor(status, render(View(en.Abs())).None?)
    ensures status == Success ==>
      render(View(en.Abs())).Some?
      && output.Contents() == old(output.Contents()) + LeafText(View(en.Abs()), render)
  {
    hide J.Escape, GrownCapacity, Valid, View;
    var rendered := render(CurrentItem(en));
    if rendered.None? {
      return RenderFailed;
    }
    var oldSize := scratch.size;
    ghost var below := scratch.Contents();
    var text := rendered.value.text;
    var ok := scratch.Append(text);
    if !ok {
      return OutOfMemory;
    }
    var value := scratch.data[oldSize..scratch.size];
    assert value == scratch.Contents()[oldSize..] == text;
    match rendered.value {
      case CleanString(_) =>
        ok := output.Append("\"" + value + "\"");
        status := if ok then Success else OutOfMemory;
      case JsonString(_) =>
        status := J.AppendStringAsJson(output, value);
      case JsonLiteral(_) =>
        ok := output.Append(value);
        status := if ok then Success else OutOfMemory;
    }
    scratch.ResizeUnchecked(oldSize);
    assert scratch.Contents() == below;
  }

  /** GetItemInfo and GetRawItemInfo: the fields of the current item. */
  function CurrentItem(en: EtwEnumerator): (v: Visit)
    requires en.subState != BeforeFirst && en.subState != AfterLast && en.subState != InError
    reads en
    ensures en.Ok() ==> OnItem(en.Abs()) && v == View(en.Abs())
  {
    Visit(KindOf(en.subState), en.stackTop.index, en.stackTop.arrayIndex, en.stackTop.arrayCount, en.stackTop.isArray,
      en.dataNext, Item(en.cookedPos, en.cooked, en.raw, en.cookedInType, en.element))
  }

  /** The separator and the name that may precede an item. */
  method AppendOpening(en: EtwEnumerator, output: Buffer<char>, wantComma: bool, includeName: bool, space: bool)
    returns (status: Status)
    requires en.Ok() && OnItem(en.Abs()) && ShortNames(en.event)
    requires output.Valid() && output.maxCapacity <= J.MAX_CHARS
    modifies output, output.data
    ensures output.Valid() && (output.data == old(output.data) || fresh(output.data)) && FailsFor(status, false)
    ensures old(output.Contents()) <= output.Contents()
    ensures status == Success ==>
      output.Contents() == old(output.Contents())
        + Opening(en.event, View(en.Abs()), Pen(wantComma, includeName), space)
  {
    hide J.Quote, J.Colon, GrownCapacity, SubStateAgrees;
    ghost var v := View(en.Abs());
    ghost var before := output.Contents();
    if wantComma {
      var ok := output.Append(if space then ", " else ",");
      if !ok { return OutOfMemory; }
    }
    ghost var comma := if wantComma then J.Comma(space) else "";
    assert output.Contents() == before + comma;
    if includeName && (en.state == StateArrayBegin || !en.stackTop.isArray) {
      status := AppendCurrentNameAsJson(en, output, space);
      if status != Success { return; }
      Associate(before, comma, NameText(en.event, v, space));
    } else {
      Associate(before, comma, "");
    }
    status := Success;
  }

  /** The body of the printer's loop for one item. */
  method AppendItem(
      en: EtwEnumerator, output: Buffer<char>, scratch: Buffer<char>, render: Renderer,
      wantComma: bool, includeName: bool, space: bool) returns (status: Status)
    requires en.Ok() && OnItem(en.Abs()) && ShortNames(en.event) && Buffers(output, scratch)
    modifies output, output.data, scratch, scratch.data
    ensures Buffers(output, scratch)
    ensures output.data == old(output.data) || fresh(output.data)
    ensures old(output.Contents()) <= output.Contents()
    ensures scratch.data == old(scratch.data) || fresh(scratch.data)
    ensures scratch.Contents() == old(scratch.Contents())
    ensures FailsFor(status, View(en.Abs()).kind.Value? && render(View(en.Abs())).None?)
    ensures status == Success && en.state == StateValue ==> render(View(en.Abs())).Some?
    ensures status == Success ==>
      output.Contents() == old(output.Contents())
        + Emit(en.event, View(en.Abs()), render, Pen(wantComma, includeName), space)
  {
    hide GrownCapacity, Opening, LeafText, Valid;
    ghost var before := output.Contents();
    ghost var v := View(en.Abs());
    ghost var pen := Pen(wantComma, includeName);
    if en.state == StateArrayEnd || en.state == StateStructEnd {
      var ok := output.PushBack(if en.state == StateArrayEnd then ']' else '}');
      status := if ok then Success else OutOfMemory;
      return;
    }
    status := AppendOpening(en, output, wantComma, includeName, space);
    if status != Success { return; }
    if en.state == StateValue {
      status := AddCurrentValueAsJson(en, output, scratch, render);
      Associate(before, Opening(en.event, v, pen, space), LeafText(v, render));
    } else {
      var bracket := if en.state == StateArrayBegin then '[' else '{';
      var ok := output.PushBack(bracket);
      Associate(before, Opening(en.event, v, pen, space), [bracket]);
      status := if ok then Success else OutOfMemory;
    }
  }

  /**
   Why printing fails: no memory, an item that cannot be rendered or, when all items before it can be
   rendered, an error in the payload.
   */
  ghost predicate Failed(error: Status, w: Walked, render: Renderer) {
    || error == OutOfMemory
    || if AllRendered(w.visits, render) then w.end.sub.InError? && error == w.end.lastError else error == RenderFailed
  }

  lemma NotRendered(e: Event, s: State, depth: int, visits: seq<Visit>, render: Renderer)
    requires Valid(e, s) && OnItem(s) && View(s).kind.Value? && render(View(s)).None?
    ensures !AllRendered(After(visits, Walk(e, s, depth)).visits, render)
  {
    hide Next, Rest;
    var all := After(visits, Walk(e, s, depth)).visits;
    assert all[|visits|] == View(s);
  }

  /**
   AddCurrentItemAsJsonAndMoveNext: on success it has written the text of the items it went over, which is
   one JSON value, one member, or the members of the event, and the enumerator is where MoveNextSibling
   would have taken it.
   */
  method AddCurrentItemAsJsonAndMoveNext(
      en: EtwEnumerator, output: Buffer<char>, scratch: Buffer<char>, render: Renderer, name: bool, space: bool)
    returns (ok: bool)
    requires en.Ok() && ShortNames(en.event) && Buffers(output, scratch)
    requires en.state == StateBeforeFirstItem || en.state == StateValue || en.state == StateArrayBegin
      || en.state == StateStructBegin
    modifies en, en.integerValues, output, output.data, scratch, scratch.data
    ensures Buffers(output, scratch)
    ensures output.data == old(output.data) || fresh(output.data)
    ensures old(output.Contents()) <= output.Contents()
    ensures scratch.data == old(scratch.data) || fresh(scratch.data)
    ensures ok == (en.lastError == Success)
    ensures scratch.Contents() == old(scratch.Contents()) && (ok ==> en.Ok())
    ensures ok ==>
      var w := JsonWalk(en.event, old(en.Abs()));
      && en.Abs() == w.end && !w.end.sub.InError?
      && AllRendered(w.visits, render)
      && output.Contents() == old(output.Contents())
           + EmitAll(en.event, w.visits, render, Pen(false, name || old(en.state) == StateBeforeFirstItem), space)
    ensures ok && Sound(render) ==>
      output.Contents()[..old(output.size)] == old(output.Contents())
      && IsJson(output.Contents()[old(output.size)..], en.event, old(en.Abs()), render, name, space)
    ensures !ok ==> Failed(en.lastError, JsonWalk(en.event, old(en.Abs())), render)
  {
    hide Walk, Next, Emit, EmitAll, AllRendered, SubStateAgrees, GrownCapacity, IsJson, Sound;
    ghost var s := en.Abs();
    ghost var before := output.Contents();
    ok := AppendAllItems(en, output, scratch, render, name, space);
    if ok && Sound(render) {
      PrintedIsJson(en.event, s, render, name, space);
      ghost var pen := Pen(false, name || s.sub.BeforeFirst?);
      ghost var text := EmitAll(en.event, JsonWalk(en.event, s).visits, render, pen, space);
      assert (before + text)[..|before|] == before && (before + text)[|before|..] == text;
    }
  }

  /** AddCurrentItemAsJsonAndMoveNext, in terms of the items. */
  method AppendAllItems(
      en: EtwEnumerator, output: Buffer<char>, scratch: Buffer<char>, render: Renderer, name: bool, space: bool)
    returns (ok: bool)
    requires en.Ok() && CanPrint(en.Abs()) && ShortNames(en.event) && Buffers(output, scratch)
    modifies en, en.integerValues, output, output.data, scratch, scratch.data
    ensures Buffers(output, scratch)
    ensures output.data == old(output.data) || fresh(output.data)
    ensures old(output.Contents()) <= output.Contents()
    ensures scratch.data == old(scratch.data) || fresh(scratch.data)
    ensures ok == (en.lastError == Success)
    ensures scratch.Contents() == old(scratch.Contents()) && (ok ==> en.Ok())
    ensures ok ==>
      var w := JsonWalk(en.event, old(en.Abs()));
      && en.Abs() == w.end && !w.end.sub.InError?
      && AllRendered(w.visits, render)
      && output.Contents() == old(output.Contents())
           + EmitAll(en.event, w.visits, render, Pen(false, name || old(en.Abs()).sub.BeforeFirst?), space)
    ensures !ok ==> Failed(en.lastError, JsonWalk(en.event, old(en.Abs())), render)
  {
    hide Walk, Next, Emit, EmitAll, AllRendered, SubStateAgrees, GrownCapacity;
    var depth: int := 0;
    var includeName := name;
    if en.state == StateBeforeFirstItem {
      depth := depth + 1;
      includeName := true;
      ghost var before := output.Contents();
      var moved := en.MoveNext();
      if !moved {
        EmitNone(en.event, render, Pen(false, includeName), space, before);
        return en.lastError == Success;
      }
    }
    ok := AppendItems(en, output, scratch, render, depth, includeName, space);
  }

  /** The loop of AddCurrentItemAsJsonAndMoveNext. */
  method AppendItems(
      en: EtwEnumerator, output: Buffer<char>, scratch: Buffer<char>, render: Renderer,
      startDepth: nat, startName: bool, space: bool)
    returns (ok: bool)
    requires en.Ok() && OnItem(en.Abs()) && ShortNames(en.event) && Buffers(output, scratch)
    modifies en, en.integerValues, output, output.data, scratch, scratch.data
    ensures Buffers(output, scratch)
    ensures output.data == old(output.data) || fresh(output.data)
    ensures old(output.Contents()) <= output.Contents()
    ensures scratch.data == old(scratch.data) || fresh(scratch.data)
    ensures ok == (en.lastError == Success)
    ensures scratch.Contents() == old(scratch.Contents()) && (ok ==> en.Ok())
    ensures ok ==>
      var w := Walk(en.event, old(en.Abs()), startDepth);
      && en.Abs() == w.end && !w.end.sub.InError?
      && AllRendered(w.visits, render)
      && output.Contents() == old(output.Contents()) + EmitAll(en.event, w.visits, render, Pen(false, startName), space)
    ensures !ok ==> Failed(en.lastError, Walk(en.event, old(en.Abs()), startDepth), render)
  {
    hide Walk, Next, Rest, Emit, EmitAll, AllRendered, Valid, GrownCapacity;
    var depth: int := startDepth;
    var wantComma := false;
    var includeName := startName;
    ghost var w := Walk(en.event, en.Abs(), depth);
    ghost var before := output.Contents();
    ghost var pen := Pen(false, includeName);
    ghost var visits: seq<Visit> := [];
    EmitNone(en.event, render, pen, space, before);
    AfterNone(w);
    while true
      invariant en.Ok() && OnItem(en.Abs()) && Buffers(output, scratch)
      invariant output.data == old(output.data) || fresh(output.data)
      invariant scratch.data == old(scratch.data) || fresh(scratch.data)
      invariant scratch.Contents() == old(scratch.Contents()) && before <= output.Contents()
      invariant After(visits, Walk(en.event, en.Abs(), depth)) == w
      invariant Pen(wantComma, includeName) == PenAfter(visits, pen)
      invariant AllRendered(visits, render)
      invariant output.Contents() == before + EmitAll(en.event, visits, render, pen, space)
      decreases |Rest(en.event, en.Abs()).visits|
    {
      ghost var s := en.Abs();
      ghost var oldDepth := depth;
      var status, moved;
      status, moved, depth, wantComma := AppendItemAndMoveNext(
        en, output, scratch, render, depth, wantComma, includeName, space);
      if status != Success {
        if status == RenderFailed {
          NotRendered(en.event, s, oldDepth, visits, render);
        }
        en.lastError := status;
        return false;
      }
      includeName := true;
      OneTurn(en.event, s, depth - Delta(s.sub), visits, render, pen, space, before);
      visits := visits + [View(s)];
      if !(moved && depth > 0) {
        break;
      }
    }
    assert visits + [] == visits;
    ErrorIsFailure(en);
    ok := en.lastError == Success;
  }

  /** One turn of the loop: the item's text, the new depth and comma state, and the move to the next item. */
  method AppendItemAndMoveNext(
      en: EtwEnumerator, output: Buffer<char>, scratch: Buffer<char>, render: Renderer,
      depth: int, wantComma: bool, includeName: bool, space: bool)
    returns (status: Status, moved: bool, newDepth: int, newComma: bool)
    requires en.Ok() && OnItem(en.Abs()) && ShortNames(en.event) && Buffers(output, scratch)
    modifies en, en.integerValues, output, output.data, scratch, scratch.data
    ensures Buffers(output, scratch)
    ensures output.data == old(output.data) || fresh(output.data)
    ensures old(output.Contents()) <= output.Contents()
    ensures scratch.data == old(scratch.data) || fresh(scratch.data)
    ensures scratch.Contents() == old(scratch.Contents())
    ensures var v := old(View(en.Abs())); FailsFor(status, v.kind.Value? && render(v).None?)
    ensures status == Success ==>
      && en.Ok() && moved == OnItem(en.Abs()) && (en.Abs() == Next(en.event, old(en.Abs())) || en.OutOfStack())
      && newDepth == depth + Delta(old(en.subState))
      && newComma == Moved(View(old(en.Abs()))).comma
      && (KindOf(old(en.subState)).Value? ==> render(View(old(en.Abs()))).Some?)
      && output.Contents() == old(output.Contents())
           + Emit(en.event, View(old(en.Abs())), render, Pen(wantComma, includeName), space)
  {
    hide Next, Emit, Valid, GrownCapacity;
    moved, newDepth, newComma := false, depth, wantComma;
    status := AppendItem(en, output, scratch, render, wantComma, includeName, space);
    if status == Success {
      newDepth := depth + if en.state == StateArrayBegin || en.state == StateStructBegin then 1
        else if en.state == StateArrayEnd || en.state == StateStructEnd then -1 else 0;
      newComma := !(en.state == StateArrayBegin || en.state == StateStructBegin);
      moved := en.MoveNext();
    }
  }

  lemma OneTurn(
      e: Event, s: State, depth: int, visits: seq<Visit>, render: Renderer, pen: Pen, space: bool, before: string)
    requires Valid(e, s) && OnItem(s) && AllRendered(visits, render)
    requires View(s).kind.Value? ==> render(View(s)).Some?
    ensures Valid(e, Next(e, s))
    ensures OnItem(Next(e, s)) ==> |Rest(e, Next(e, s)).visits| < |Rest(e, s).visits|
    ensures After(visits, Walk(e, s, depth)) == After(visits + [View(s)], Resume(e, Next(e, s), depth + Delta(s.sub)))
    ensures before + EmitAll(e, visits + [View(s)], render, pen, space)
      == before + EmitAll(e, visits, render, pen, space) + Emit(e, View(s), render, PenAfter(visits, pen), space)
    ensures AllRendered(visits + [View(s)], render) && PenAfter(visits + [View(s)], pen) == Moved(View(s))
  {
    hide Walk, Next, Rest, Emit, EmitAll, AllRendered, View;
    EmitOneMore(e, visits, View(s), render, pen, space, before);
    WalkUnfolds(e, s, depth);
    NextShrinks(e, s);
    AfterAfter(visits, [View(s)], Resume(e, Next(e, s), depth + Delta(s.sub)));
  }

  lemma ErrorIsFailure(en: EtwEnumerator)
    requires en.Ok()
    ensures en.lastError != Success <==> en.Abs().sub.InError?
  {
  }

  lemma EmitNone(e: Event, render: Renderer, pen: Pen, space: bool, before: string)
    ensures before + EmitAll(e, [], render, pen, space) == before && AllRendered([], render)
  {
  }

  lemma AfterNone(w: Walked)
    ensures After([], w) == w
  {
  }

  lemma EmitOneMore(e: Event, visits: seq<Visit>, v: Visit, render: Renderer, pen: Pen, space: bool, before: string)
    requires AllRendered(visits, render) && (v.kind.Value? ==> render(v).Some?)
    ensures before + EmitAll(e, visits + [v], render, pen, space)
      == before + EmitAll(e, visits, render, pen, space) + Emit(e, v, render, PenAfter(visits, pen), space)
    ensures AllRendered(visits + [v], render)
  {
    hide Emit;
    EmitAppends(e, visits, [v], render, pen, space);
    EmitPrepends(e, v, [], render, PenAfter(visits, pen), space);
    assert [v] + [] == [v];
  }
}
