/**
 FormatContext: expands a message into the output buffer. Nested messages and renderings live on the
 scratch buffer, which may move while a message on it is still being read.
 */
module Formatter {
  import opened Basics
  import opened GrowableBuffer
  import opened Expansion
  import JsonPrinter
  import JsonTree
  import P = Printf
  import T = PropertyTable

  // ------------------------------------------------------------------ facts about the expansion

  lemma PrependTwice(a: string, b: string, e: Expansion)
    ensures Prepend(a, Prepend(b, e)) == Prepend(a + b, e)
  {
  }

  lemma PrependNothing(e: Expansion)
    ensures Prepend("", e) == e
  {
  }

  /** A run of ordinary characters expands to itself. */
  lemma {:induction false} ExpandChunk(
      env: Env, fmt: string, i: nat, j: nat, limit: nat, inUse: set<nat>, table: seq<U16>)
    requires i <= j <= |fmt| && forall k :: i <= k < j ==> fmt[k] != '%'
    ensures Expand(env, fmt, i, limit, inUse, table) == Prepend(fmt[i..j], Expand(env, fmt, j, limit, inUse, table))
    decreases j - i
  {
    hide ExpandDirective, Scan;
    var rest := Expand(env, fmt, j, limit, inUse, table);
    if i == j {
      assert fmt[i..j] == "";
      PrependNothing(rest);
    } else {
      ExpandChunk(env, fmt, i + 1, j, limit, inUse, table);
      PrependTwice([fmt[i]], fmt[i + 1..j], rest);
      assert [fmt[i]] + fmt[i + 1..j] == fmt[i..j];
    }
  }

  // ------------------------------------------------------------------ reading a format string

  /** `fmt` is the nul-terminated string at `start` of the storage `p`. */
  ghost predicate Holds(p: array<char>, start: nat, fmt: string)
    reads p
  {
    && '\0' !in fmt && start + |fmt| < p.Length
    && forall k :: 0 <= k <= |fmt| ==> p[start + k] == P.At(fmt, k)
  }

  lemma HoldsSlice(p: array<char>, start: nat, fmt: string, i: nat, j: nat)
    requires Holds(p, start, fmt) && i <= j <= |fmt|
    ensures p[start + i..start + j] == fmt[i..j]
  {
    var (a, b) := (p[start + i..start + j], fmt[i..j]);
    forall k | 0 <= k < j - i ensures a[k] == b[k] {
      assert p[start + (i + k)] == P.At(fmt, i + k);
    }
  }

  lemma HoldsChar(p: array<char>, start: nat, fmt: string, k: nat)
    requires Holds(p, start, fmt) && k <= |fmt|
    ensures p[start + k] == P.At(fmt, k) && (p[start + k] == '\0' <==> k == |fmt|)
  {
  }

  /** The inner loop that looks for the next percent sign. */
  method FindPercent(p: array<char>, start: nat, from: nat, ghost fmt: string) returns (i: nat)
    requires Holds(p, start, fmt) && start <= from <= start + |fmt|
    ensures from <= i <= start + |fmt| && (p[i] == '\0' || p[i] == '%')
    ensures forall k :: from - start <= k < i - start ==> fmt[k] != '%'
    ensures p[i] == '\0' <==> i == start + |fmt|
  {
    i := from;
    while p[i] != '\0' && p[i] != '%'
      invariant from <= i <= start + |fmt|
      invariant forall k :: from - start <= k < i - start ==> fmt[k] != '%'
      decreases start + |fmt| - i
    {
      HoldsChar(p, start, fmt, i - start);
      i := i + 1;
    }
    HoldsChar(p, start, fmt, i - start);
  }

  /** The nul-terminated string that starts at `from`. */
  method StringAt(p: array<char>, start: nat, from: nat, ghost fmt: string) returns (s: string)
    requires Holds(p, start, fmt) && start <= from <= start + |fmt|
    ensures s == fmt[from - start..]
  {
    var i := from;
    while p[i] != '\0'
      invariant from <= i <= start + |fmt|
      decreases start + |fmt| - i
    {
      HoldsChar(p, start, fmt, i - start);
      i := i + 1;
    }
    HoldsChar(p, start, fmt, i - start);
    s := p[from..i];
    HoldsSlice(p, start, fmt, from - start, i - start);
  }

  method SkipLetters(p: array<char>, start: nat, from: nat, ghost fmt: string) returns (i: nat)
    requires Holds(p, start, fmt) && start <= from <= start + |fmt|
    ensures i == start + LettersEnd(fmt, from - start)
  {
    i := from;
    HoldsChar(p, start, fmt, i - start);
    while 'A' <= p[i] <= 'Z'
      invariant from <= i <= start + |fmt| && p[i] == P.At(fmt, i - start)
      invariant LettersEnd(fmt, from - start) == LettersEnd(fmt, i - start)
      decreases start + |fmt| - i
    {
      i := i + 1;
      HoldsChar(p, start, fmt, i - start);
    }
  }

  /** The digit loop; the index wraps like the 32-bit original. */
  method ScanIndex(p: array<char>, start: nat, from: nat, ghost fmt: string) returns (index: U32, i: nat)
    requires Holds(p, start, fmt) && start <= from <= start + |fmt|
    ensures (index, i - start) == ReadIndex(fmt, from - start, 0) && start <= i
  {
    i := from;
    index := 0;
    HoldsChar(p, start, fmt, i - start);
    while '0' <= p[i] <= '9'
      invariant from <= i <= start + |fmt| && p[i] == P.At(fmt, i - start)
      invariant ReadIndex(fmt, from - start, 0) == ReadIndex(fmt, i - start, index)
      decreases start + |fmt| - i
    {
      index := (index as int * 10 + (p[i] as int - '0' as int)) % 0x1_0000_0000;
      i := i + 1;
      HoldsChar(p, start, fmt, i - start);
    }
  }

  /** The parsed printf specification is the one of the style, and there is none for other styles. */
  ghost predicate Carries(style: Style, printf: P.ParsedPrintf?)
    reads if printf == null then {} else {printf, printf.format}
  {
    if style.Formatted? then printf != null && printf.Valid() && printf.Represents(Some(style.spec)) else printf == null
  }

  /** What follows a property number: nothing, !S!, or a printf specification. */
  method ScanStyle(p: array<char>, start: nat, from: nat, ghost fmt: string)
    returns (recurse: bool, printf: P.ParsedPrintf?, i: nat, ghost style: Style)
    requires Holds(p, start, fmt) && start <= from <= start + |fmt|
    ensures (style, i - start) == ReadStyle(fmt, from - start) && start <= i
    ensures recurse == style.Default? && Carries(style, printf)
    ensures printf != null ==> fresh(printf) && fresh(printf.format)
  {
    hide P.Recognize, P.Text, P.Kept, P.CategoryOf, P.StringFormat;
    i := from;
    recurse, printf, style := true, null, Default;
    ghost var k := from - start;
    assert p[start + k] == P.At(fmt, k);
    if p[i] != '!' {
      return;
    }
    assert p[start + (k + 1)] == P.At(fmt, k + 1);
    if p[i + 1] == 'S' {
      assert p[start + (k + 2)] == P.At(fmt, k + 2);
      if p[i + 2] == '!' {
        return false, null, i + 3, NoRecursion;
      }
    }
    var rest := StringAt(p, start, i + 1, fmt);
    var format := new P.ParsedPrintf(rest);
    ghost var spec := P.Recognize(rest);
    ParsedPositions(rest);
    if format.consumed != 0 {
      P.RecognizedIsGrammatical(rest);
      assert p[start + (k + 1 + format.consumed)] == P.At(fmt, k + 1 + format.consumed);
      if p[i + 1 + format.consumed] == '!' {
        PlainIsKept(spec.value);
        style := StyleOf(spec.value);
        recurse := false;
        var plain := format.IsPlainString();
        if !plain {
          printf := format;
        }
        i := i + format.consumed + 2;
      }
    }
  }

  lemma CarriesFormatted(style: Style, printf: P.ParsedPrintf?)
    requires Carries(style, printf)
    ensures printf != null <==> style.Formatted?
    ensures printf != null ==> style == Formatted(style.spec)
  {
  }

  lemma PrintedFails(env: Env, spec: P.Spec, status: Status)
    ensures Printed(env, spec, Failure(status)) == Failure(status)
  {
  }

  lemma ParsedPositions(s: string)
    ensures P.Recognize(s).Some? ==> |P.Text(P.Recognize(s).value)| > 0
  {
    hide P.Recognize;
  }

  lemma PlainIsKept(spec: P.Spec)
    ensures P.CategoryOf(spec.specifier) == P.CategoryString ==>
      (P.StringFormat(spec) == "%ls" <==> P.Kept(spec) == "%")
  {
    hide P.Kept, P.KeptHead;
    var kept := P.Kept(spec);
    assert |kept + "ls"| == |"%ls"| ==> (kept + "ls")[..1] == kept;
  }

  /** What ScanDirective tells the formatter to do. */
  datatype Command =
    | Put(text: string) | PutVariable(name: string) | PutMessage(index: U32) | PutProperty(index: U32, recurse: bool)

  ghost predicate Means(c: Command, printf: P.ParsedPrintf?, d: Directive)
    reads if printf == null then {} else {printf, printf.format}
  {
    match d
    case Verbatim(text, _) => c == Put(text) && printf == null
    case Variable(name, _) => c == PutVariable(name) && printf == null
    case Message(index, _) => c == PutMessage(index) && printf == null
    case Property(index, style, _) => c == PutProperty(index, style.Default?) && Carries(style, printf)
  }

  /** %!NAME!, read from storage. */
  method ScanVariableAt(p: array<char>, start: nat, percent: nat, ghost fmt: string) returns (c: Command, next: nat)
    requires Holds(p, start, fmt) && start <= percent && percent - start + 1 < |fmt| && fmt[percent - start + 1] == '!'
    ensures start <= next && next - start == ScanVariable(fmt, percent - start).next
    ensures Means(c, null, ScanVariable(fmt, percent - start))
  {
    hide LettersEnd;
    ghost var i := percent - start;
    var k := SkipLetters(p, start, percent + 2, fmt);
    assert p[start + (k - start)] == P.At(fmt, k - start);
    if p[k] != '!' || k == percent + 2 {
      HoldsSlice(p, start, fmt, i, k - start);
      return Put(p[percent..k]), k;
    }
    HoldsSlice(p, start, fmt, i, k + 1 - start);
    return PutVariable(p[percent..k + 1]), k + 1;
  }

  /** The directive at a percent sign, read from storage. */
  method ScanDirective(p: array<char>, start: nat, percent: nat, ghost fmt: string)
    returns (c: Command, printf: P.ParsedPrintf?, next: nat)
    requires Holds(p, start, fmt) && start <= percent < start + |fmt| && p[percent] == '%'
    ensures fmt[percent - start] == '%' && start <= next && next - start == Scan(fmt, percent - start).next
    ensures Means(c, printf, Scan(fmt, percent - start))
    ensures printf != null ==> fresh(printf) && fresh(printf.format)
  {
    hide LettersEnd, ReadIndex, ReadStyle, ScanVariable, Carries;
    ghost var i := percent - start;
    printf := null;
    assert p[start + i] == P.At(fmt, i);
    assert p[start + (i + 1)] == P.At(fmt, i + 1);
    if p[percent + 1] == '!' {
      c, next := ScanVariableAt(p, start, percent, fmt);
      return;
    }
    var doubled := p[percent + 1] == '%';
    var at := if doubled then percent + 2 else percent + 1;
    assert p[start + (at - start)] == P.At(fmt, at - start);
    if !('0' <= p[at] <= '9') {
      if doubled && p[at] == '%' {
        assert p[start + (at + 1 - start)] == P.At(fmt, at + 1 - start);
        if '0' <= p[at + 1] <= '9' {
          return Put("%%"), null, at;
        }
      }
      return Put("%"), null, percent + 1;
    }
    var index, k := ScanIndex(p, start, at, fmt);
    if doubled {
      return PutMessage(index), null, k;
    }
    var recurse;
    ghost var style;
    recurse, printf, next, style := ScanStyle(p, start, k, fmt);
    c := PutProperty(index, recurse);
  }

  // ------------------------------------------------------------------ the formatter

  class FormatContext {
    /** The renderings that the original computes from its table of properties. */
    const leaf: Env
    /** The same, with the JSON of the properties that the enumerator has to be moved to. */
    ghost const env: Env
    const table: T.FormatTable
    const render: JsonTree.Renderer
    const output: Buffer<char>
    const scratch: Buffer<char>
    const inUse: array<bool>
    /** m_removeTrailingSpaceAfterRecursionLevel. */
    var trimLevel: nat
    var lastError: Status

    ghost predicate Ok()
      reads this, output, scratch
    {
      && JsonPrinter.Buffers(output, scratch) && inUse.Length == |env.kinds| < 0x1_0000
      && leaf == env.(json := leaf.json)
    }

    /**
     The enumerator can be moved to every property that is printed as JSON, and prints there what the
     environment says.
     */
    ghost predicate Ready()
      reads table.en, table.en.integerValues, table.propInfo, table.propInfo.data
    {
      || (forall i :: 0 <= i < |env.kinds| ==> !env.kinds[i].AsJson?)
      || (table.Movable() && JsonPrinter.ShortNames(table.en.event) && Prints())
    }

    ghost predicate Prints()
      requires table.Movable()
      reads table.en, table.en.integerValues, table.propInfo, table.propInfo.data
    {
      && |env.kinds| == table.en.event.topLevel
      && (forall i :: 0 <= i < |env.kinds| && env.kinds[i].AsJson? ==> table.propInfo.data[i].RawData?)
      && forall i, now :: 0 <= i < |env.kinds| && env.kinds[i].AsJson? && |now| == |table.en.event.props| ==>
        env.json(i, now) == T.JumpTo(table.en.event, i, table.propInfo.data[i].start, now, render)
    }

    /** The enumerator's integer table. */
    ghost function Now(): seq<U16>
      reads table.en, table.en.integerValues
    {
      table.en.integerValues[..]
    }

    /** The properties that are being expanded. */
    ghost function InUse(): set<nat>
      reads inUse
    {
      set i: nat | i < inUse.Length && inUse[i]
    }

    /** A format string that will stay readable: foreign memory, or text on the scratch buffer. */
    ghost predicate Reads(p: array<char>, start: nat, fmt: string)
      reads this, p, output, scratch
    {
      Holds(p, start, fmt) && p != output.data && (p == scratch.data ==> start + |fmt| < scratch.size)
    }

    constructor (
        leaf: Env, ghost env: Env, table: T.FormatTable, render: JsonTree.Renderer,
        output: Buffer<char>, scratch: Buffer<char>, trimLevel: nat)
      requires JsonPrinter.Buffers(output, scratch) && |env.kinds| < 0x1_0000 && leaf == env.(json := leaf.json)
      ensures this.leaf == leaf && this.env == env && this.table == table && this.render == render
      ensures this.output == output && this.scratch == scratch && this.trimLevel == trimLevel
      ensures Ok() && fresh(inUse) && InUse() == {} && lastError == Success
    {
      this.leaf, this.env, this.table, this.render := leaf, env, table, render;
      this.output, this.scratch, this.trimLevel := output, scratch, trimLevel;
      this.inUse := new bool[|leaf.kinds|](_ => false);
      this.lastError := Success;
    }

    /** Appends to the output, or fails for lack of memory. */
    method Emit(text: string) returns (ok: bool)
      requires Ok()
      modifies this`lastError, output, output.data
      ensures Ok() && (output.data == old(output.data) || fresh(output.data))
      ensures ok == (lastError == Success)
      ensures output.Contents() == if ok then old(output.Contents()) + text else old(output.Contents())
      ensures !ok ==> lastError == OutOfMemory
    {
      hide GrownCapacity;
      ok := output.Append(text);
      lastError := if ok then Success else OutOfMemory;
    }

    /** Puts a string on the scratch buffer. */
    method Stack(text: string) returns (ok: bool)
      requires Ok()
      modifies this`lastError, scratch, scratch.data
      ensures Ok() && (scratch.data == old(scratch.data) || fresh(scratch.data))
      ensures ok == (lastError == Success)
      ensures ok ==> scratch.Contents() == old(scratch.Contents()) + text
      ensures !ok ==> lastError == OutOfMemory
    {
      hide GrownCapacity;
      ok := scratch.Append(text);
      lastError := if ok then Success else OutOfMemory;
    }

    /** Gives back what was put on the scratch buffer. */
    method Unstack(size: nat)
      requires Ok() && size <= scratch.size
      modifies scratch`size
      ensures Ok() && scratch.Contents() == old(scratch.Contents())[..size]
    {
      scratch.ResizeUnchecked(size);
    }

    /**
     A method's result is that of the specification: text and table on success, else its failure or a lack of
     memory.
     */
    ghost predicate Follows(before: string, e: Expansion)
      reads this, output, output.data, table.en, table.en.integerValues
      requires output.Valid()
    {
      && before <= output.Contents()
      && if lastError == Success then e.Text? && output.Contents() == before + e.text && Now() == e.table
      else lastError == OutOfMemory || e == Failure(lastError)
    }

    /** A parsed specification has storage of its own. */
    ghost predicate Apart(printf: P.ParsedPrintf?)
      reads this, output, scratch
    {
      printf != null ==> printf.format != output.data && printf.format != scratch.data
    }

    /** Terminates the string on top of the scratch buffer, prints it with a string format, and takes it off. */
    method PrintTop(size: nat, ghost text: string, ghost spec: P.Spec, printf: P.ParsedPrintf) returns (ok: bool)
      requires Ok() && Carries(Formatted(spec), printf) && Apart(printf)
      requires size <= scratch.size && scratch.Contents()[size..] == text
      modifies this`lastError, output, output.data, scratch, scratch.data, printf, printf.format
      ensures Ok() && (output.data == old(output.data) || fresh(output.data))
      ensures scratch.data == old(scratch.data) || fresh(scratch.data)
      ensures ok == (lastError == Success) && (ok ==> scratch.Contents() == old(scratch.Contents())[..size])
      ensures Follows(old(output.Contents()), Printed(env, spec, Text(text, old(Now()))))
    {
      hide GrownCapacity, P.StringFormat, UpToNul, Printed;
      ghost var below := scratch.Contents()[..size];
      var value;
      ok, value := TerminateTop(size, text);
      if !ok { return; }
      ok := PrintValue(spec, printf, value, text);
      if ok {
        Unstack(size);
        assert scratch.Contents() == below;
      }
    }

    /**
     Puts a nul character behind the string on top of the scratch buffer, and reads the string up to its first
     one.
     */
    method TerminateTop(size: nat, ghost text: string) returns (ok: bool, value: string)
      requires Ok() && size <= scratch.size && scratch.Contents()[size..] == text
      modifies this`lastError, scratch, scratch.data
      ensures Ok() && (scratch.data == old(scratch.data) || fresh(scratch.data))
      ensures if ok then value == UpToNul(text) && scratch.Contents() == old(scratch.Contents()) + ['\0']
        else lastError == OutOfMemory
    {
      hide GrownCapacity, UpToNul;
      value := "";
      ok := scratch.PushBack('\0');
      if !ok {
        lastError := OutOfMemory;
        return;
      }
      assert scratch.Contents()[size..] == text + ['\0'];
      value := StringOnScratch(size, text);
    }

    /** A string, printed with the string format of a specification. */
    method PrintValue(ghost spec: P.Spec, printf: P.ParsedPrintf, value: string, ghost text: string) returns (ok: bool)
      requires Ok() && Carries(Formatted(spec), printf) && Apart(printf) && value == UpToNul(text)
      modifies this`lastError, output, output.data, printf, printf.format
      ensures Ok() && (output.data == old(output.data) || fresh(output.data)) && ok == (lastError == Success)
      ensures scratch.Contents() == old(scratch.Contents())
      ensures Follows(old(output.Contents()), Printed(env, spec, Text(text, old(Now()))))
    {
      hide GrownCapacity, P.StringFormat, UpToNul;
      var format := printf.MakeStringFormat();
      var printed := leaf.printString(format, value);
      if printed.None? {
        lastError := RenderFailed;
        return false;
      }
      ok := Emit(printed.value);
    }

    /** The C string that starts at `size` on the scratch buffer. */
    method StringOnScratch(size: nat, ghost text: string) returns (s: string)
      requires Ok() && size < scratch.size && scratch.Contents()[size..] == text + ['\0']
      ensures s == UpToNul(text)
    {
      var i := size;
      ghost var all := text + ['\0'];
      while scratch.data[i] != '\0'
        invariant size <= i < scratch.size
        invariant forall k :: 0 <= k < i - size ==> all[k] != '\0'
        decreases scratch.size - i
      {
        assert scratch.data[i] == scratch.Contents()[size..][i - size] == all[i - size];
        assert i + 1 < scratch.size by {
          assert all[|text|] == '\0';
        }
        i := i + 1;
      }
      s := scratch.data[size..i];
      assert s == scratch.Contents()[size..][..i - size] == all[..i - size];
      assert scratch.data[i] == all[i - size];
      assert forall k :: 0 <= k < i - size ==> text[k] == all[k];
      FirstNul(text, i - size);
    }

    /** AddSimplePropInfo, rendering to the output. */
    method AddSimple(i: nat) returns (ok: bool)
      requires Ok()
      modifies this`lastError, output, output.data
      ensures Ok() && (output.data == old(output.data) || fresh(output.data))
      ensures ok == (lastError == Success)
      ensures Follows(old(output.Contents()), Simple(env, i, old(Now())))
    {
      hide GrownCapacity;
      var rendered := leaf.value(i);
      if rendered.None? {
        lastError := RenderFailed;
        return false;
      }
      var size := output.size;
      ghost var before := output.Contents();
      ok := Emit(rendered.value.text);
      if ok && rendered.value.JsonString? {
        ReplaceNulWithSpace(output, size);
        assert output.Contents() == before + NulToSpace(rendered.value.text) by {
          assert (before + rendered.value.text)[size..] == rendered.value.text;
          assert (before + rendered.value.text)[..size] == before;
        }
      }
    }

    /** A property's value with a printf specification: converted directly, or as a string. */
    method AddFormatted(i: nat, ghost spec: P.Spec, printf: P.ParsedPrintf) returns (ok: bool)
      requires Ok() && Carries(Formatted(spec), printf) && Apart(printf)
      modifies this`lastError, output, output.data, scratch, scratch.data, printf, printf.format
      ensures Ok() && (output.data == old(output.data) || fresh(output.data))
      ensures scratch.data == old(scratch.data) || fresh(scratch.data)
      ensures ok == (lastError == Success) && (ok ==> scratch.Contents() == old(scratch.Contents()))
      ensures Follows(old(output.Contents()), WithFormat(env, i, spec, old(Now())))
    {
      hide GrownCapacity, Printed, Simple;
      if printf.category != P.CategoryString {
        match leaf.direct(i, printf.format[..printf.copied], printf.specifier) {
          case Converted(text) =>
            ok := Emit(text);
            return;
          case ConversionFailed =>
            lastError := RenderFailed;
            return false;
          case Unsuitable =>
        }
      }
      ok := AddAsString(i, spec, printf);
    }

    /** RenderAsString. */
    method AddAsString(i: nat, ghost spec: P.Spec, printf: P.ParsedPrintf) returns (ok: bool)
      requires Ok() && Carries(Formatted(spec), printf) && Apart(printf)
      modifies this`lastError, output, output.data, scratch, scratch.data, printf, printf.format
      ensures Ok() && (output.data == old(output.data) || fresh(output.data))
      ensures scratch.data == old(scratch.data) || fresh(scratch.data)
      ensures ok == (lastError == Success) && (ok ==> scratch.Contents() == old(scratch.Contents()))
      ensures Follows(old(output.Contents()), Printed(env, spec, Simple(env, i, old(Now()))))
    {
      hide P.StringFormat, GrownCapacity, NulToSpace;
      var rendered := leaf.value(i);
      if rendered.None? {
        lastError := RenderFailed;
        return false;
      }
      var size := scratch.size;
      ghost var below := scratch.Contents();
      ok := Stack(rendered.value.text);
      if !ok { return; }
      ghost var text := rendered.value.text;
      assert (below + text)[size..] == text && (below + text)[..size] == below;
      if rendered.value.JsonString? {
        ReplaceNulWithSpace(scratch, size);
        text := NulToSpace(text);
        assert (below + text)[size..] == text && (below + text)[..size] == below;
      }
      ok := PrintTop(size, text, spec, printf);
    }

    /** PropInfoAppendCurrentItemAsJson: moves the enumerator to the property and prints it. */
    method AddJson(i: nat, ghost style: Style, printf: P.ParsedPrintf?) returns (ok: bool)
      requires Ok() && Ready() && i < |env.kinds| && env.kinds[i].AsJson?
      requires Carries(style, printf) && Apart(printf)
      modifies this`lastError, output, output.data, scratch, scratch.data, table.en, table.en.integerValues
      modifies if printf == null then {} else {printf, printf.format}
      ensures Ok() && (output.data == old(output.data) || fresh(output.data))
      ensures scratch.data == old(scratch.data) || fresh(scratch.data)
      ensures ok == (lastError == Success) && (ok ==> Ready() && scratch.Contents() == old(scratch.Contents()))
      ensures Follows(old(output.Contents()),
        if style.Formatted? then Printed(env, style.spec, env.json(i, old(Now()))) else env.json(i, old(Now())))
    {
      hide Carries, Ready, GrownCapacity, Printed;
      CarriesFormatted(style, printf);
      if printf != null {
        ok := AddJsonFormatted(i, style.spec, printf);
      } else {
        ok := PrintJson(i, output, scratch);
      }
    }

    /**
     The property's JSON is rendered on the scratch buffer, with the output as its scratch, and printed from
     there.
     */
    method AddJsonFormatted(i: nat, ghost spec: P.Spec, printf: P.ParsedPrintf) returns (ok: bool)
      requires Ok() && Ready() && i < |env.kinds| && env.kinds[i].AsJson?
      requires Carries(Formatted(spec), printf) && Apart(printf)
      modifies this`lastError, output, output.data, scratch, scratch.data, table.en, table.en.integerValues
      modifies printf, printf.format
      ensures Ok() && (output.data == old(output.data) || fresh(output.data))
      ensures scratch.data == old(scratch.data) || fresh(scratch.data)
      ensures ok == (lastError == Success) && (ok ==> Ready() && scratch.Contents() == old(scratch.Contents()))
      ensures Follows(old(output.Contents()), Printed(env, spec, env.json(i, old(Now()))))
    {
      hide Carries, Ready, GrownCapacity, Printed;
      var size := scratch.size;
      ghost var below := scratch.Contents();
      ok := PrintJson(i, scratch, output);
      PrintedFails(env, spec, lastError);
      if !ok { return; }
      ghost var text := scratch.Contents()[size..];
      assert scratch.Contents() == below + text;
      TopIsText(below, text);
      ok := PrintTop(size, text, spec, printf);
    }

    /** Puts the property's JSON on one of the buffers; the other one is the printer's scratch buffer. */
    method PrintJson(i: nat, to: Buffer<char>, other: Buffer<char>) returns (ok: bool)
      requires Ok() && Ready() && i < |env.kinds| && env.kinds[i].AsJson?
      requires (to == output && other == scratch) || (to == scratch && other == output)
      modifies this`lastError, to, to.data, other, other.data, table.en, table.en.integerValues
      ensures Ok() && (to.data == old(to.data) || fresh(to.data))
      ensures other.data == old(other.data) || fresh(other.data)
      ensures ok == (lastError == Success) && other.Contents() == old(other.Contents())
      ensures old(to.Contents()) <= to.Contents()
      ensures var x := env.json(i, old(Now()));
        if ok then Ready() && x.Text? && to.Contents() == old(to.Contents()) + x.text && Now() == x.table
        else lastError == OutOfMemory || x == Failure(lastError)
    {
      hide T.JumpTo, GrownCapacity, T.FormatTable.Movable;
      MovableTable();
      ok := table.AddJson(i, to, other, render);
      lastError := table.en.lastError;
    }

    lemma MovableTable()
      requires table.Movable()
      ensures table.propInfo.Valid() && |Now()| == |table.en.event.props|
    {
    }

    /** Expands the message that was just put on top of the scratch buffer, and takes it off again. */
    method ExpandTop(size: nat, ghost fmt: string, limit: nat) returns (ok: bool)
      requires Ok() && Ready() && limit < trimLevel && size <= scratch.size
      requires Holds(scratch.data, size, fmt) && size + |fmt| < scratch.size
      modifies this`lastError, output, output.data, scratch, scratch.data, inUse, table.en, table.en.integerValues
      ensures Ok() && (output.data == old(output.data) || fresh(output.data))
      ensures scratch.data == old(scratch.data) || fresh(scratch.data)
      ensures ok == (lastError == Success)
      ensures ok ==> Ready() && scratch.Contents() == old(scratch.Contents())[..size] && inUse[..] == old(inUse[..])
      ensures Follows(old(output.Contents()), Expand(env, fmt, 0, limit, old(InUse()), old(Now())))
      decreases limit, 6
    {
      hide Ready, Expand;
      ok := AddFormatImpl(scratch.data, size, fmt, limit);
      if ok {
        Unstack(size);
      }
    }

    /** %%n: the callback's text, expanded again while the recursion limit allows it. */
    method AddMessage(index: U32, limit: nat) returns (ok: bool)
      requires Ok() && Ready() && limit <= trimLevel
      modifies this`lastError, output, output.data, scratch, scratch.data, inUse, table.en, table.en.integerValues
      ensures Ok() && (output.data == old(output.data) || fresh(output.data))
      ensures scratch.data == old(scratch.data) || fresh(scratch.data)
      ensures ok == (lastError == Success)
      ensures ok ==> Ready() && scratch.Contents() == old(scratch.Contents()) && inUse[..] == old(inUse[..])
      ensures Follows(old(output.Contents()), ExpandDirective(env, Message(index, 0), limit, old(InUse()), old(Now())))
      decreases limit, 0
    {
      hide Ready, Expand, GrownCapacity, TrimLineEnds, UpToNul;
      var (status, text) := leaf.message(index);
      if status != Success {
        lastError := status;
        return false;
      }
      var size := scratch.size;
      ghost var below := scratch.Contents();
      ok := scratch.Append(text);
      if !ok {
        lastError := OutOfMemory;
        return false;
      }
      assert scratch.Contents()[size..] == text && scratch.Contents()[..size] == below;
      var length := CountWithoutLineEnds(size, text);
      if limit == 0 {
        ok := EmitTop(size, length, text);
      } else {
        ok := ExpandTrimmed(size, length, text, limit - 1);
      }
    }

    /** The top of the scratch buffer, without trailing line ends, goes to the output as it is. */
    method EmitTop(size: nat, length: nat, ghost text: string) returns (ok: bool)
      requires Ok() && size + length <= scratch.size && length == |TrimLineEnds(text)|
      requires scratch.Contents()[size..] == text
      modifies this`lastError, output, output.data, scratch`size
      ensures Ok() && (output.data == old(output.data) || fresh(output.data))
      ensures ok == (lastError == Success) && (ok ==> scratch.Contents() == old(scratch.Contents())[..size])
      ensures Follows(old(output.Contents()), Text(TrimLineEnds(text), old(Now())))
    {
      hide GrownCapacity;
      TrimmedTop(scratch.data, scratch.size, size, text);
      ok := Emit(scratch.data[size..size + length]);
      if ok {
        Unstack(size);
      }
    }

    /** The top of the scratch buffer, without trailing line ends, is expanded in place. */
    method ExpandTrimmed(size: nat, length: nat, ghost text: string, limit: nat) returns (ok: bool)
      requires Ok() && Ready() && limit < trimLevel && size + length <= scratch.size && length == |TrimLineEnds(text)|
      requires scratch.Contents()[size..] == text
      modifies this`lastError, output, output.data, scratch, scratch.data, inUse, table.en, table.en.integerValues
      ensures Ok() && (output.data == old(output.data) || fresh(output.data))
      ensures scratch.data == old(scratch.data) || fresh(scratch.data)
      ensures ok == (lastError == Success)
      ensures ok ==> Ready() && scratch.Contents() == old(scratch.Contents())[..size] && inUse[..] == old(inUse[..])
      ensures Follows(old(output.Contents()),
        Expand(env, UpToNul(TrimLineEnds(text)), 0, limit, old(InUse()), old(Now())))
      decreases limit, 7
    {
      hide Ready, Expand, GrownCapacity, UpToNul, TrimLineEnds;
      ghost var below := scratch.Contents()[..size];
      ghost var trimmed := TrimLineEnds(text);
      TrimmedTop(scratch.data, scratch.size, size, text);
      scratch.ResizeUnchecked(size + length);
      assert scratch.Contents() == below + trimmed;
      ok := scratch.PushBack('\0');
      if !ok {
        lastError := OutOfMemory;
        return false;
      }
      TopHolds(scratch.data, below, trimmed);
      ok := ExpandTop(size, UpToNul(trimmed), limit);
      if ok {
        assert scratch.Contents() == below;
      }
    }

    /** The loop that drops trailing CR and LF. */
    method CountWithoutLineEnds(size: nat, ghost text: string) returns (length: nat)
      requires Ok() && size <= scratch.size && scratch.Contents()[size..] == text
      ensures length == |TrimLineEnds(text)|
    {
      length := scratch.size - size;
      assert text[..length] == text;
      while length != 0 && (scratch.data[size + length - 1] == '\r' || scratch.data[size + length - 1] == '\n')
        invariant length <= |text| && TrimLineEnds(text) == TrimLineEnds(text[..length])
      {
        assert scratch.data[size + length - 1] == scratch.Contents()[size..][length - 1] == text[..length][length - 1];
        assert text[..length][..length - 1] == text[..length - 1];
        length := length - 1;
      }
      if length != 0 {
        assert scratch.data[size + length - 1] == scratch.Contents()[size..][length - 1] == text[..length][length - 1];
      }
    }

    /** A value that is rendered on the scratch buffer and then expanded like a message. */
    method AddExpandedValue(i: nat, limit: nat) returns (ok: bool)
      requires Ok() && Ready() && 0 < limit <= trimLevel
      modifies this`lastError, output, output.data, scratch, scratch.data, inUse, table.en, table.en.integerValues
      ensures Ok() && (output.data == old(output.data) || fresh(output.data))
      ensures scratch.data == old(scratch.data) || fresh(scratch.data)
      ensures ok == (lastError == Success)
      ensures ok ==> Ready() && scratch.Contents() == old(scratch.Contents()) && inUse[..] == old(inUse[..])
      ensures Follows(old(output.Contents()),
        var rendered := leaf.value(i);
        if rendered.Some? && rendered.value.JsonString?
        then Expand(env, NulToSpace(rendered.value.text), 0, limit - 1, old(InUse()), old(Now()))
        else Simple(env, i, old(Now())))
      decreases limit, 0
    {
      hide Ready, Expand, GrownCapacity, NulToSpace;
      var rendered := leaf.value(i);
      if rendered.None? {
        lastError := RenderFailed;
        return false;
      }
      var size := scratch.size;
      ghost var below := scratch.Contents();
      ok := scratch.Append(rendered.value.text);
      if !ok {
        lastError := OutOfMemory;
        return false;
      }
      assert scratch.Contents()[size..] == rendered.value.text && scratch.Contents()[..size] == below;
      if rendered.value.JsonString? {
        ok := ExpandCleaned(size, rendered.value.text, limit - 1);
      } else {
        ok := Emit(scratch.data[size..scratch.size]);
        assert scratch.data[size..scratch.size] == scratch.Contents()[size..];
        if ok {
          Unstack(size);
        }
      }
    }

    /** The top of the scratch buffer, with spaces for its nul characters, is expanded in place. */
    method ExpandCleaned(size: nat, ghost text: string, limit: nat) returns (ok: bool)
      requires Ok() && Ready() && limit < trimLevel && size <= scratch.size && scratch.Contents()[size..] == text
      modifies this`lastError, output, output.data, scratch, scratch.data, inUse, table.en, table.en.integerValues
      ensures Ok() && (output.data == old(output.data) || fresh(output.data))
      ensures scratch.data == old(scratch.data) || fresh(scratch.data)
      ensures ok == (lastError == Success)
      ensures ok ==> Ready() && scratch.Contents() == old(scratch.Contents())[..size] && inUse[..] == old(inUse[..])
      ensures Follows(old(output.Contents()), Expand(env, NulToSpace(text), 0, limit, old(InUse()), old(Now())))
      decreases limit, 7
    {
      hide Ready, Expand, GrownCapacity, NulToSpace, UpToNul;
      ghost var below := scratch.Contents()[..size];
      ReplaceNulWithSpace(scratch, size);
      ok := scratch.PushBack('\0');
      if !ok {
        lastError := OutOfMemory;
        return false;
      }
      CleanIsWhole(NulToSpace(text));
      TopHolds(scratch.data, below, NulToSpace(text));
      ok := ExpandTop(size, NulToSpace(text), limit);
      if ok {
        assert scratch.Contents() == below;
      }
    }

    /** The switch of AddProperty: renders property `i` in its style. */
    method RenderProperty(i: nat, ghost style: Style, printf: P.ParsedPrintf?, limit: nat) returns (ok: bool)
      requires Ok() && Ready() && limit <= trimLevel && i < |env.kinds| && i in InUse() && i < 0xffff_ffff
      requires Carries(style, printf) && Apart(printf)
      modifies this`lastError, output, output.data, scratch, scratch.data, inUse, table.en, table.en.integerValues
      modifies if printf == null then {} else {printf, printf.format}
      ensures Ok() && (output.data == old(output.data) || fresh(output.data))
      ensures scratch.data == old(scratch.data) || fresh(scratch.data)
      ensures ok == (lastError == Success)
      ensures ok ==> Ready() && scratch.Contents() == old(scratch.Contents()) && inUse[..] == old(inUse[..])
      ensures Follows(old(output.Contents()), ExpandProperty(env, i + 1, style, limit, old(InUse()) - {i}, old(Now())))
      decreases limit, 1
    {
      hide Ready, Expand, Printed, Simple, WithFormat, GrownCapacity;
      assert InUse() - {i} + {i} == InUse();
      match leaf.kinds[i] {
        case AsJson =>
          ok := AddJson(i, style, printf);
        case PaddedValue =>
          if printf != null {
            ok := AddFormatted(i, style.spec, printf);
          } else {
            ok := Emit(leaf.padded(i));
          }
        case PlainValue =>
          if printf != null {
            ok := AddFormatted(i, style.spec, printf);
          } else {
            ok := AddSimple(i);
          }
        case RecursiveValue =>
          if printf != null {
            ok := AddFormatted(i, style.spec, printf);
          } else if limit == 0 {
            ok := AddSimple(i);
          } else {
            ok := AddExpandedValue(i, limit);
          }
      }
    }

    /** AddProperty: guards against a property whose expansion mentions the property. */
    method AddProperty(index: U32, ghost style: Style, printf: P.ParsedPrintf?, limit: nat) returns (ok: bool)
      requires Ok() && Ready() && limit <= trimLevel && Carries(style, printf) && Apart(printf)
      modifies this`lastError, output, output.data, scratch, scratch.data, inUse, table.en, table.en.integerValues
      modifies if printf == null then {} else {printf, printf.format}
      ensures Ok() && (output.data == old(output.data) || fresh(output.data))
      ensures scratch.data == old(scratch.data) || fresh(scratch.data)
      ensures ok == (lastError == Success)
      ensures ok ==> Ready() && scratch.Contents() == old(scratch.Contents()) && inUse[..] == old(inUse[..])
      ensures Follows(old(output.Contents()), ExpandProperty(env, index, style, limit, old(InUse()), old(Now())))
      decreases limit, 2
    {
      hide Ready, Expand, Printed, Simple, WithFormat, GrownCapacity, OutOfRange, Recursion, Carries;
      // The original compares the wrapped 32-bit difference index - 1.
      if (index + 0xffff_ffff) % 0x1_0000_0000 >= inUse.Length {
        ok := Emit(OutOfRange(index));
        return;
      }
      var i := index - 1;
      if inUse[i] {
        ok := Emit(Recursion(index));
        return;
      }
      ghost var flags := inUse[..];
      inUse[i] := true;
      assert InUse() - {i} == old(InUse());
      ok := RenderProperty(i, style, printf, limit);
      if ok {
        inUse[i] := false;
        assert inUse[..] == flags;
      }
    }

    /** Carries out one directive. */
    method RunDirective(c: Command, printf: P.ParsedPrintf?, ghost d: Directive, limit: nat) returns (ok: bool)
      requires Ok() && Ready() && limit <= trimLevel && Means(c, printf, d) && Apart(printf)
      modifies this`lastError, output, output.data, scratch, scratch.data, inUse, table.en, table.en.integerValues
      modifies if printf == null then {} else {printf, printf.format}
      ensures Ok() && (output.data == old(output.data) || fresh(output.data))
      ensures scratch.data == old(scratch.data) || fresh(scratch.data)
      ensures ok == (lastError == Success)
      ensures ok ==> Ready() && scratch.Contents() == old(scratch.Contents()) && inUse[..] == old(inUse[..])
      ensures Follows(old(output.Contents()), ExpandDirective(env, d, limit, old(InUse()), old(Now())))
      decreases limit, 3, 0
    {
      hide Ready, Expand, ExpandProperty, GrownCapacity;
      match c {
        case Put(text) => ok := Emit(text);
        case PutVariable(name) => ok := Emit(leaf.variable(name));
        case PutMessage(index) => ok := AddMessage(index, limit);
        case PutProperty(index, recurse) => ok := AddProperty(index, d.style, printf, if recurse then limit else 0);
      }
    }

    /** The message has been expanded up to position `n`, behind what the output held before. */
    ghost predicate Reached(before: string, fmt: string, n: nat, limit: nat, used: set<nat>, first: seq<U16>)
      requires output.Valid() && n <= |fmt|
      reads this, output, output.data, table.en, table.en.integerValues
    {
      && before <= output.Contents()
      && Progress(env, fmt, n, limit, used, output.Contents()[|before|..], first, Now())
    }

    /** The expansion has failed, for the reason that the specification gives or for lack of memory. */
    ghost predicate Stuck(before: string, fmt: string, limit: nat, used: set<nat>, first: seq<U16>)
      requires output.Valid()
      reads this, output, output.data
    {
      && before <= output.Contents()
      && (lastError == OutOfMemory || Expand(env, fmt, 0, limit, used, first) == Failure(lastError))
    }

    /**
     AddFormatImpl. The format string is read from `p0`; when that is the scratch buffer's storage, the
     pointer is taken again after every directive, because the storage may have moved.
     */
    method AddFormatImpl(p0: array<char>, start: nat, ghost fmt: string, limit: nat) returns (ok: bool)
      requires Ok() && Ready() && Reads(p0, start, fmt) && limit <= trimLevel
      requires if p0 == scratch.data then limit < trimLevel else start == 0
      modifies this`lastError, output, output.data, scratch, scratch.data, inUse, table.en, table.en.integerValues
      ensures Ok() && (output.data == old(output.data) || fresh(output.data))
      ensures scratch.data == old(scratch.data) || fresh(scratch.data)
      ensures ok == (lastError == Success)
      ensures ok ==> Ready() && scratch.Contents() == old(scratch.Contents()) && inUse[..] == old(inUse[..])
      ensures Follows(old(output.Contents()), ExpandMessage(env, fmt, limit, trimLevel, old(InUse()), old(Now())))
      decreases limit, 5
    {
      hide Ready, Expand, GrownCapacity, Progress, Reached;
      ghost var before := output.Contents();
      ghost var used := InUse();
      ghost var first := Now();
      var p, i;
      ok, p, i := AddPieces(p0, start, fmt, limit);
      if ok {
        TrimFinalSpace(p, start, i, fmt, limit, used, before, first);
      }
    }

    /** The loop of AddFormatImpl: ordinary text and directives in turn, up to the end of the message. */
    method AddPieces(p0: array<char>, start: nat, ghost fmt: string, limit: nat)
      returns (ok: bool, p: array<char>, i: nat)
      requires Ok() && Ready() && Reads(p0, start, fmt) && limit <= trimLevel
      modifies this`lastError, output, output.data, scratch, scratch.data, inUse, table.en, table.en.integerValues
      ensures Ok() && (output.data == old(output.data) || fresh(output.data))
      ensures scratch.data == old(scratch.data) || fresh(scratch.data)
      ensures ok == (lastError == Success)
      ensures ok ==> Ready() && scratch.Contents() == old(scratch.Contents()) && inUse[..] == old(inUse[..])
      ensures ok ==> Reads(p, start, fmt) && i == start + |fmt|
      ensures
        if ok then Reached(old(output.Contents()), fmt, |fmt|, limit, old(InUse()), old(Now()))
        else Stuck(old(output.Contents()), fmt, limit, old(InUse()), old(Now()))
      decreases limit, 4
    {
      hide Ready, Expand, ExpandDirective, GrownCapacity, Reached, Stuck;
      var fromScratch := p0 == scratch.data;
      p := p0;
      i := start;
      ghost var before := output.Contents();
      ghost var used := InUse();
      ghost var stacked := scratch.Contents();
      ghost var first := Now();
      if fromScratch {
        StacksMessage(p, start, fmt, scratch);
      }
      NothingReached(fmt, limit, used);
      while true
        invariant Ok() && Ready() && Reads(p, start, fmt) && p == (if fromScratch then scratch.data else p0)
        invariant output.data == old(output.data) || fresh(output.data)
        invariant scratch.data == old(scratch.data) || fresh(scratch.data)
        invariant scratch.Contents() == stacked && inUse[..] == old(inUse[..]) && InUse() == used
        invariant start <= i <= start + |fmt|
        invariant Reached(before, fmt, i - start, limit, used, first)
        decreases start + |fmt| - i
      {
        ok, i := AddChunk(p, start, i, fmt, limit, used, before, first);
        if !ok || p[i] == '\0' { return; }
        ok, i := AddDirective(p, start, i, fmt, limit, used, before, first);
        if !ok { return; }
        if fromScratch {
          p := scratch.data; // it may have moved
          StillHolds(p, start, fmt, scratch, stacked);
        }
      }
    }

    lemma NothingReached(fmt: string, limit: nat, used: set<nat>)
      requires output.Valid()
      ensures Reached(output.Contents(), fmt, 0, limit, used, Now())
    {
      hide Expand, Progress;
      ProgressStarts(env, fmt, limit, used, Now());
      assert output.Contents()[|output.Contents()|..] == "";
    }

    /** Removes the space that TDH adds to an event's message. */
    method TrimFinalSpace(
        p: array<char>, start: nat, i: nat, ghost fmt: string, limit: nat, ghost used: set<nat>,
        ghost before: string, ghost first: seq<U16>)
      requires Ok() && Reads(p, start, fmt) && i == start + |fmt| && lastError == Success
      requires limit <= trimLevel && (limit == trimLevel ==> start == 0)
      requires Reached(before, fmt, |fmt|, limit, used, first)
      modifies output`size
      ensures Ok() && Follows(before, ExpandMessage(env, fmt, limit, trimLevel, used, first))
    {
      hide Expand, Progress;
      ghost var done := output.Contents()[|before|..];
      ProgressEnds(env, fmt, limit, used, done, first, Now());
      assert output.Contents() == before + done;
      if limit == trimLevel && i != 0 && p[i - 1] == ' ' {
        HoldsChar(p, start, fmt, i - 1);
        assert output.data[output.size - 1] == (before + done)[output.size - 1] == ' ';
        output.ResizeUnchecked(output.size - 1);
        assert (before + done)[..|before + done| - 1] == before + done[..|done| - 1];
      } else if limit == trimLevel && i != 0 {
        HoldsChar(p, start, fmt, i - 1);
      }
    }

    /** The directive at the percent sign at `percent`. */
    method AddDirective(
        p: array<char>, start: nat, percent: nat, ghost fmt: string, limit: nat, ghost used: set<nat>,
        ghost before: string, ghost first: seq<U16>)
      returns (ok: bool, i: nat)
      requires Ok() && Ready() && limit <= trimLevel && InUse() == used
      requires Reads(p, start, fmt) && start <= percent < start + |fmt| && p[percent] == '%'
      requires Reached(before, fmt, percent - start, limit, used, first)
      modifies this`lastError, output, output.data, scratch, scratch.data, inUse, table.en, table.en.integerValues
      ensures Ok() && (output.data == old(output.data) || fresh(output.data))
      ensures scratch.data == old(scratch.data) || fresh(scratch.data)
      ensures ok == (lastError == Success) && percent < i <= start + |fmt|
      ensures ok ==> Ready() && scratch.Contents() == old(scratch.Contents()) && inUse[..] == old(inUse[..])
      ensures
        if ok then Reached(before, fmt, i - start, limit, used, first)
        else Stuck(before, fmt, limit, used, first)
      decreases limit, 3, 1
    {
      hide Ready, Expand, Scan, ExpandDirective, GrownCapacity, Progress;
      ghost var was := output.Contents();
      ghost var now := Now();
      var c, printf;
      c, printf, i := ScanDirective(p, start, percent, fmt);
      ghost var d := Scan(fmt, percent - start);
      ok := RunDirective(c, printf, d, limit);
      ghost var text := if ok then output.Contents()[|was|..] else "";
      ProgressAtDirective(env, fmt, percent - start, limit, used, was[|before|..], text, first, now);
      GrowsBehind(before, was, output.Contents());
    }

    /** The ordinary text up to the next percent sign. */
    method AddChunk(
        p: array<char>, start: nat, from: nat, ghost fmt: string, ghost limit: nat, ghost used: set<nat>,
        ghost before: string, ghost first: seq<U16>)
      returns (ok: bool, i: nat)
      requires Ok() && Reads(p, start, fmt) && start <= from <= start + |fmt|
      requires Reached(before, fmt, from - start, limit, used, first)
      modifies this`lastError, output, output.data
      ensures Ok() && (output.data == old(output.data) || fresh(output.data))
      ensures ok == (lastError == Success)
      ensures from <= i <= start + |fmt| && (p[i] == '\0' || p[i] == '%') && (p[i] == '\0' <==> i == start + |fmt|)
      ensures Reads(p, start, fmt)
      ensures
        if ok then Reached(before, fmt, i - start, limit, used, first)
        else Stuck(before, fmt, limit, used, first)
    {
      hide Expand, GrownCapacity, Progress;
      ghost var was := output.Contents();
      i := FindPercent(p, start, from, fmt);
      HoldsSlice(p, start, fmt, from - start, i - start);
      ProgressInChunk(env, fmt, from - start, i - start, limit, used, was[|before|..], first, Now());
      ok := Emit(p[from..i]);
      GrowsBehind(before, was, output.Contents());
    }
  }

  lemma GrowsBehind(before: string, was: string, now: string)
    requires before <= was <= now
    ensures before <= now && now[|before|..] == was[|before|..] + now[|was|..]
  {
  }

  /**
   `done` is the expansion of the message up to position `i`, where the integer table is `now`; a space
   before `i` is also its last character.
   */
  ghost predicate Progress(
      env: Env, fmt: string, i: nat, limit: nat, used: set<nat>, done: string, first: seq<U16>, now: seq<U16>)
    requires i <= |fmt|
  {
    && Expand(env, fmt, 0, limit, used, first) == Prepend(done, Expand(env, fmt, i, limit, used, now))
    && (i > 0 && fmt[i - 1] == ' ' ==> done != "" && done[|done| - 1] == ' ')
  }

  lemma ProgressStarts(env: Env, fmt: string, limit: nat, used: set<nat>, first: seq<U16>)
    ensures Progress(env, fmt, 0, limit, used, "", first, first)
  {
    hide Expand;
    PrependNothing(Expand(env, fmt, 0, limit, used, first));
  }

  lemma ProgressInChunk(
      env: Env, fmt: string, i: nat, j: nat, limit: nat, used: set<nat>, done: string, first: seq<U16>, now: seq<U16>)
    requires i <= j <= |fmt| && (forall k :: i <= k < j ==> fmt[k] != '%')
    requires Progress(env, fmt, i, limit, used, done, first, now)
    ensures Progress(env, fmt, j, limit, used, done + fmt[i..j], first, now)
  {
    hide Expand;
    ExpandChunk(env, fmt, i, j, limit, used, now);
    PrependTwice(done, fmt[i..j], Expand(env, fmt, j, limit, used, now));
    if i == j {
      assert done + fmt[i..j] == done;
    }
  }

  lemma ProgressAtDirective(
      env: Env, fmt: string, i: nat, limit: nat, used: set<nat>, done: string, text: string,
      first: seq<U16>, now: seq<U16>)
    requires i < |fmt| && fmt[i] == '%' && Progress(env, fmt, i, limit, used, done, first, now)
    ensures var d := Scan(fmt, i); var e := ExpandDirective(env, d, limit, used, now);
      && (e.Failure? ==> Expand(env, fmt, 0, limit, used, first) == e)
      && (e.Text? && e.text == text ==> Progress(env, fmt, d.next, limit, used, done + text, first, e.table))
  {
    hide ExpandDirective, Scan;
    var d := Scan(fmt, i);
    var e := ExpandDirective(env, d, limit, used, now);
    if e.Text? {
      PrependTwice(done, text, Expand(env, fmt, d.next, limit, used, e.table));
    }
  }

  lemma ProgressEnds(env: Env, fmt: string, limit: nat, used: set<nat>, done: string, first: seq<U16>, now: seq<U16>)
    requires Progress(env, fmt, |fmt|, limit, used, done, first, now)
    ensures Expand(env, fmt, 0, limit, used, first) == Text(done, now)
    ensures fmt != "" && fmt[|fmt| - 1] == ' ' ==> done != "" && done[|done| - 1] == ' '
  {
    assert Expand(env, fmt, |fmt|, limit, used, now) == Text("", now);
    assert done + "" == done;
  }

  lemma StacksMessage(p: array<char>, start: nat, fmt: string, scratch: Buffer<char>)
    requires scratch.Valid() && p == scratch.data && Holds(p, start, fmt) && start + |fmt| < scratch.size
    ensures scratch.Contents()[start..start + |fmt| + 1] == fmt + ['\0']
  {
    var (a, b) := (scratch.Contents()[start..start + |fmt| + 1], fmt + ['\0']);
    forall k | 0 <= k <= |fmt| ensures a[k] == b[k] {
      assert p[start + k] == P.At(fmt, k);
    }
  }

  /** A message on the scratch buffer can still be read after the buffer has moved. */
  lemma StillHolds(p: array<char>, start: nat, fmt: string, scratch: Buffer<char>, contents: string)
    requires scratch.Valid() && p == scratch.data && scratch.Contents() == contents
    requires start + |fmt| < |contents| && '\0' !in fmt && contents[start..start + |fmt| + 1] == fmt + ['\0']
    ensures Holds(p, start, fmt)
  {
  }

  lemma TopIsText(below: string, text: string)
    ensures (below + text)[..|below|] == below && (below + text)[|below|..] == text
  {
  }

  lemma TrimmedTop(p: array<char>, total: nat, size: nat, text: string)
    requires size <= total <= p.Length && p[..total][size..] == text
    ensures size + |TrimLineEnds(text)| <= total
    ensures p[size..size + |TrimLineEnds(text)|] == TrimLineEnds(text)
  {
    var trimmed := TrimLineEnds(text);
    assert p[size..size + |trimmed|] == p[..total][size..][..|trimmed|];
  }

  /** The string on top of the scratch buffer ends at its first nul. */
  lemma TopHolds(p: array<char>, below: string, text: string)
    requires |below| + |text| < p.Length && p[..|below| + |text| + 1] == below + text + ['\0']
    ensures Holds(p, |below|, UpToNul(text))
  {
    var fmt := UpToNul(text);
    var all := below + text + ['\0'];
    forall k | 0 <= k <= |fmt| ensures p[|below| + k] == P.At(fmt, k) {
      assert p[|below| + k] == p[..|below| + |text| + 1][|below| + k] == all[|below| + k];
      if k < |fmt| {
        assert fmt[k] == text[k];
      }
    }
  }

  /** ReplaceNulWithSpace, on the characters from `from` on. */
  method ReplaceNulWithSpace(buffer: Buffer<char>, from: nat)
    requires buffer.Valid() && from <= buffer.size
    modifies buffer.data
    ensures buffer.Valid()
    ensures buffer.Contents() == old(buffer.Contents())[..from] + NulToSpace(old(buffer.Contents())[from..])
  {
    ghost var text := buffer.Contents();
    ghost var result := text[..from] + NulToSpace(text[from..]);
    var i := from;
    NulToSpaceAt(text[from..]);
    while i != buffer.size
      invariant from <= i <= buffer.size && buffer.Valid()
      invariant forall k :: 0 <= k < i ==> buffer.data[k] == result[k]
      invariant forall k :: i <= k < buffer.size ==> buffer.data[k] == text[k]
    {
      assert result[i] == NulToSpace(text[from..])[i - from];
      if buffer.data[i] == '\0' {
        buffer.data[i] := ' ';
      }
      i := i + 1;
    }
    assert buffer.Contents() == result;
  }

  lemma {:induction false} FirstNul(text: string, n: nat)
    requires n <= |text| && (text + ['\0'])[n] == '\0' && forall k :: 0 <= k < n ==> text[k] != '\0'
    ensures UpToNul(text) == text[..n] == (text + ['\0'])[..n]
  {
  }
}
