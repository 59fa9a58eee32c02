/** What whole messages stand for: single references, conversions, nested values and messages, and the final space. */
module Messages {
  import opened Basics
  import opened Expansion
  import D = Digits
  import J = JsonTree
  import P = Printf

  // ------------------------------------------------------------------ the final space

  /** `text` behind what the expansion has given. */
  function Behind(e: Expansion, text: string): Expansion {
    match e
    case Text(before, table) => Text(before + text, table)
    case Failure(_) => e
  }

  lemma {:induction false} LettersIgnoreSpace(fmt: string, i: nat)
    requires i <= |fmt|
    ensures LettersEnd(fmt + " ", i) == LettersEnd(fmt, i)
    decreases |fmt| - i
  {
    if IsLetter(P.At(fmt, i)) {
      LettersIgnoreSpace(fmt, i + 1);
    }
  }

  lemma {:induction false} IndexIgnoresSpace(fmt: string, i: nat, index: U32)
    requires i <= |fmt|
    ensures ReadIndex(fmt + " ", i, index) == ReadIndex(fmt, i, index)
    decreases |fmt| - i
  {
    var c := P.At(fmt, i);
    if IsDigit(c) {
      IndexIgnoresSpace(fmt, i + 1, (index as int * 10 + (c as int - '0' as int)) % 0x1_0000_0000);
    }
  }

  /** No specification ends in a space. */
  lemma SpecIgnoresSpace(s: string)
    ensures P.Recognize(s + " ") == P.Recognize(s)
  {
    hide P.Recognize, P.Text, P.Grammatical;
    P.RecognizesTheGrammar(s);
    P.RecognizesTheGrammar(s + " ");
    if P.Recognize(s + " ").Some? {
      P.RecognizedIsGrammatical(s + " ");
      var spec := P.Recognize(s + " ").value;
      TextEnds(spec);
      assert P.Text(spec) <= s;
    }
    if P.Recognize(s).Some? {
      P.RecognizedIsGrammatical(s);
      assert P.Text(P.Recognize(s).value) <= s + " ";
    }
  }

  lemma TextEnds(spec: P.Spec)
    requires P.Grammatical(spec)
    ensures var text := P.Text(spec); text != "" && text[|text| - 1] != ' '
  {
  }

  lemma StyleIgnoresSpace(fmt: string, k: nat)
    requires k <= |fmt|
    ensures ReadStyle(fmt + " ", k) == ReadStyle(fmt, k)
  {
    hide P.Recognize, StyleOf, P.Text;
    if k < |fmt| && fmt[k] == '!' {
      var s := fmt[k + 1..];
      assert (fmt + " ")[k + 1..] == s + " ";
      SpecIgnoresSpace(s);
      if P.Recognize(s).Some? {
        P.RecognizedIsGrammatical(s);
      }
    }
  }

  lemma ScanIgnoresSpace(fmt: string, i: nat)
    requires i < |fmt| && fmt[i] == '%'
    ensures Scan(fmt + " ", i) == Scan(fmt, i)
  {
    hide ReadStyle, ReadIndex, LettersEnd, ScanNumber;
    if P.At(fmt, i + 1) == '!' {
      LettersIgnoreSpace(fmt, i + 2);
      LettersAreLetters(fmt, i + 2);
      var k := LettersEnd(fmt, i + 2);
      assert (fmt + " ")[i..k] == fmt[i..k];
      assert k < |fmt| ==> (fmt + " ")[i..k + 1] == fmt[i..k + 1];
    } else {
      NumberIgnoresSpace(fmt, i, P.At(fmt, i + 1) == '%');
    }
  }

  lemma NumberIgnoresSpace(fmt: string, i: nat, doubled: bool)
    requires i < |fmt| && fmt[i] == '%' && doubled == (P.At(fmt, i + 1) == '%')
    ensures ScanNumber(fmt + " ", i, doubled) == ScanNumber(fmt, i, doubled)
  {
    hide ReadStyle, ReadIndex;
    var start := if doubled then i + 2 else i + 1;
    if IsDigit(P.At(fmt, start)) {
      IndexIgnoresSpace(fmt, start, 0);
      StyleIgnoresSpace(fmt, ReadIndex(fmt, start, 0).1);
    }
  }

  /** A space behind a message is a space behind its expansion. */
  lemma {:induction false} SpaceStays(env: Env, fmt: string, i: nat, limit: nat, inUse: set<nat>, table: seq<U16>)
    requires i <= |fmt|
    ensures Expand(env, fmt + " ", i, limit, inUse, table) == Behind(Expand(env, fmt, i, limit, inUse, table), " ")
    decreases |fmt| - i
  {
    hide Scan, ExpandDirective;
    if i == |fmt| {
      assert Expand(env, fmt + " ", i + 1, limit, inUse, table) == Text("", table);
      assert [' '] + "" == " " && "" + " " == " ";
    } else if fmt[i] != '%' {
      SpaceStays(env, fmt, i + 1, limit, inUse, table);
      PrependBehind([fmt[i]], Expand(env, fmt, i + 1, limit, inUse, table));
    } else {
      ScanIgnoresSpace(fmt, i);
      var d := Scan(fmt, i);
      var e := ExpandDirective(env, d, limit, inUse, table);
      if e.Text? {
        SpaceStays(env, fmt, d.next, limit, inUse, e.table);
        PrependBehind(e.text, Expand(env, fmt, d.next, limit, inUse, e.table));
      }
    }
  }

  lemma PrependBehind(text: string, e: Expansion)
    ensures Prepend(text, Behind(e, " ")) == Behind(Prepend(text, e), " ")
  {
    if e.Text? {
      Associate(text, e.text, " ");
    }
  }

  /** The space that TDH puts behind an event's message does not reach the output; other spaces do. */
  lemma AddedSpaceIsRemoved(env: Env, s: string, limit: nat, trimLevel: nat, inUse: set<nat>, table: seq<U16>)
    ensures ExpandMessage(env, s + " ", limit, trimLevel, inUse, table)
      == if limit == trimLevel then Expand(env, s, 0, limit, inUse, table)
         else Behind(Expand(env, s, 0, limit, inUse, table), " ")
  {
    hide Expand;
    SpaceStays(env, s, 0, limit, inUse, table);
    var e := Expand(env, s, 0, limit, inUse, table);
    if e.Text? {
      assert (e.text + " ")[..|e.text + " "| - 1] == e.text;
    }
  }

  /** A message that does not end in a space loses nothing. */
  lemma OthersLoseNothing(env: Env, s: string, limit: nat, trimLevel: nat, inUse: set<nat>, table: seq<U16>)
    requires s == "" || s[|s| - 1] != ' '
    ensures ExpandMessage(env, s, limit, trimLevel, inUse, table) == Expand(env, s, 0, limit, inUse, table)
  {
  }

  // ------------------------------------------------------------------ percent signs

  /** A percent sign before anything but a digit, a mark or another one stands for itself, and so do two. */
  lemma PercentsAreRead(fmt: string, i: nat)
    requires i < |fmt| && fmt[i] == '%'
    ensures var (a, b, c) :=
        (P.At(fmt, i + 1), if i + 1 < |fmt| then P.At(fmt, i + 2) else '\0',
         if i + 2 < |fmt| then P.At(fmt, i + 3) else '\0');
      && (a != '!' && a != '%' && !IsDigit(a) ==> Scan(fmt, i) == Verbatim("%", i + 1))
      && (a == '%' && b != '%' && !IsDigit(b) ==> Scan(fmt, i) == Verbatim("%", i + 1))
      && (a == '%' == b ==> Scan(fmt, i) == if IsDigit(c) then Verbatim("%%", i + 2) else Verbatim("%", i + 1))
  {
    hide ReadIndex, ReadStyle;
  }

  // ------------------------------------------------------------------ one reference

  /** %n, with the style !spec! when there is one. */
  function Reference(n: U32, spec: Option<P.Spec>): string {
    "%" + D.Decimal(n) + if spec.Some? then "!" + P.Text(spec.value) + "!" else ""
  }

  /** A message that is a single reference stands for the property in that style. */
  lemma ReferenceAlone(env: Env, n: U32, spec: Option<P.Spec>, limit: nat, inUse: set<nat>, table: seq<U16>)
    requires spec.Some? ==> P.Grammatical(spec.value)
    ensures var style := if spec.Some? then StyleOf(spec.value) else Default;
      Expand(env, Reference(n, spec), 0, limit, inUse, table)
      == ExpandProperty(env, n, style, if spec.Some? then 0 else limit, inUse, table)
  {
    hide Scan, ReadStyle, ExpandProperty, StyleOf, P.Grammatical, P.Text, D.Decimal;
    var fmt := Reference(n, spec);
    var style := if spec.Some? then StyleOf(spec.value) else Default;
    ReferenceIsScanned(n, spec);
    var e := ExpandProperty(env, n, style, if spec.Some? then 0 else limit, inUse, table);
    StyleIsNotDefault(spec);
    assert ExpandDirective(env, Property(n, style, |fmt|), limit, inUse, table) == e;
    AtTheEnd(env, fmt, limit, inUse, e);
    assert fmt[0] == '%';
  }

  lemma StyleIsNotDefault(spec: Option<P.Spec>)
    ensures spec.Some? ==> !StyleOf(spec.value).Default?
  {
  }

  lemma AtTheEnd(env: Env, fmt: string, limit: nat, inUse: set<nat>, e: Expansion)
    requires fmt != "" && fmt[0] == '%' && Scan(fmt, 0).next == |fmt|
    ensures e.Text? ==> Prepend(e.text, Expand(env, fmt, |fmt|, limit, inUse, e.table)) == e
  {
    hide Scan;
    if e.Text? {
      assert Expand(env, fmt, |fmt|, limit, inUse, e.table) == Text("", e.table);
      assert e.text + "" == e.text;
    }
  }

  lemma ReferenceIsScanned(n: U32, spec: Option<P.Spec>)
    requires spec.Some? ==> P.Grammatical(spec.value)
    ensures var fmt := Reference(n, spec);
      && fmt != "" && fmt[0] == '%'
      && Scan(fmt, 0) == Property(n, if spec.Some? then StyleOf(spec.value) else Default, |fmt|)
  {
    hide Scan, ReadStyle, StyleOf, Spells, P.Grammatical, P.Text, D.Decimal;
    var fmt := Reference(n, spec);
    var number := D.Decimal(n);
    if spec.Some? {
      Layout(number, "!" + P.Text(spec.value) + "!");
      StyleLayout(number, P.Text(spec.value));
      StyleIsRead(fmt, 1 + |number|, spec.value);
    } else {
      Layout(number, "");
      NoStyle(fmt);
    }
    NumbersAreRead(fmt, 0, false, n);
  }

  lemma Layout(number: string, style: string)
    ensures var fmt := "%" + number + style;
      && Spells(fmt, 0, "%") && Spells(fmt, 1, number) && |fmt| == 1 + |number| + |style|
      && (style != "" ==> fmt[1 + |number|] == style[0])
  {
  }

  lemma StyleLayout(number: string, text: string)
    ensures var fmt := "%" + number + ("!" + text + "!"); var k := 1 + |number|;
      |fmt| == k + |text| + 2 && fmt[k] == '!' == fmt[k + 1 + |text|] && fmt[k + 1..k + 1 + |text|] == text
  {
    var fmt := "%" + number + ("!" + text + "!");
    var style := "!" + text + "!";
    assert fmt[1 + |number|..] == style;
    assert style[1..1 + |text|] == text;
    assert fmt[1 + |number| + 1..1 + |number| + 1 + |text|] == fmt[1 + |number|..][1..1 + |text|];
  }

  lemma NoStyle(fmt: string)
    ensures ReadStyle(fmt, |fmt|) == (Default, |fmt|)
  {
  }

  // ------------------------------------------------------------------ what a reference gives

  /** The text of property `i`, which needs no cleaning. */
  ghost predicate HasText(env: Env, i: nat, text: string) {
    env.value(i).Some? && env.value(i).value.text == text && '\0' !in text
  }

  lemma SimpleText(env: Env, i: nat, text: string, table: seq<U16>)
    requires HasText(env, i, text)
    ensures Simple(env, i, table) == Text(text, table)
  {
    NoNulStays(text);
  }

  /** A number that names no property, and one whose property is being expanded, are named in the output. */
  lemma MarkersName(env: Env, n: U32, limit: nat, inUse: set<nat>, table: seq<U16>)
    ensures var e := Expand(env, Reference(n, None), 0, limit, inUse, table);
      && (n == 0 || n > |env.kinds| ==>
            exists digits :: e == Text("[IndexOutOfRange:%" + digits + "]", table) && D.Denotes(digits, 10, n))
      && (0 < n <= |env.kinds| && n - 1 in inUse ==>
            exists digits :: e == Text("[IndexRecursion:%" + digits + "]", table) && D.Denotes(digits, 10, n))
  {
    hide Expand, Reference, D.Render, D.Denotes;
    ReferenceAlone(env, n, None, limit, inUse, table);
    D.RenderDenotes(n, 10, false);
  }

  /** The property with number `n` is there and may be expanded. */
  predicate IsFree(env: Env, n: U32, inUse: set<nat>) {
    0 < n <= |env.kinds| && n - 1 !in inUse
  }

  /** A value without percent signs stands for itself, expanded or not. */
  lemma PlainValueStands(env: Env, n: U32, text: string, limit: nat, inUse: set<nat>, table: seq<U16>)
    requires IsFree(env, n, inUse) && (env.kinds[n - 1].PlainValue? || env.kinds[n - 1].RecursiveValue?)
    requires HasText(env, n - 1, text) && '%' !in text
    ensures Expand(env, Reference(n, None), 0, limit, inUse, table) == Text(text, table)
  {
    hide Expand, Simple, Reference, NulToSpace;
    ReferenceAlone(env, n, None, limit, inUse, table);
    SimpleText(env, n - 1, text, table);
    NoNulStays(text);
    if limit > 0 {
      PlainMessage(env, text, 0, limit - 1, inUse + {n - 1 as nat}, table);
      assert text[0..] == text;
    }
  }

  /** A struct or an array stands for its JSON, read with the integers of the moment. */
  lemma JsonStands(env: Env, n: U32, limit: nat, inUse: set<nat>, table: seq<U16>)
    requires IsFree(env, n, inUse) && env.kinds[n - 1].AsJson?
    ensures Expand(env, Reference(n, None), 0, limit, inUse, table) == env.json(n - 1, table)
  {
    hide Expand, Reference;
    ReferenceAlone(env, n, None, limit, inUse, table);
  }

  /** With a style, its JSON is printed as a string; no conversion is tried. */
  lemma JsonIsPrinted(env: Env, n: U32, spec: P.Spec, limit: nat, inUse: set<nat>, table: seq<U16>)
    requires IsFree(env, n, inUse) && env.kinds[n - 1].AsJson? && P.Grammatical(spec) && StyleOf(spec).Formatted?
    ensures var e := Expand(env, Reference(n, Some(spec)), 0, limit, inUse, table); var json := env.json(n - 1, table);
      && (json.Failure? ==> e == json)
      && (json.Text? && '\0' !in json.text ==>
            e == OfOption(env.printString(P.StringFormat(spec), json.text), json.table))
  {
    hide Expand, Reference, P.Kept, P.StringFormat, P.Grammatical, UpToNul;
    ReferenceAlone(env, n, Some(spec), limit, inUse, table);
    var json := env.json(n - 1, table);
    if json.Text? && '\0' !in json.text {
      CleanIsWhole(json.text);
    }
  }

  /** A property with a printf format of its own is printed with it, unless the message gives another one. */
  lemma PaddedValueStands(env: Env, n: U32, limit: nat, inUse: set<nat>, table: seq<U16>)
    requires IsFree(env, n, inUse) && env.kinds[n - 1].PaddedValue?
    ensures Expand(env, Reference(n, None), 0, limit, inUse, table) == Text(env.padded(n - 1), table)
  {
    hide Expand, Reference;
    ReferenceAlone(env, n, None, limit, inUse, table);
  }

  /**
   Values that refer to the next property, one after the other: a reference to the first goes through as many of
   them as the limit allows, and the reference in the one after these stays as it is.
   */
  lemma {:induction false} LimitStops(env: Env, n: U32, limit: nat, inUse: set<nat>, table: seq<U16>)
    requires 0 < n && n + limit <= |env.kinds| && n + limit + 1 < 0x1_0000_0000
    requires forall j: nat :: n - 1 <= j < n + limit ==>
      && env.kinds[j].RecursiveValue? && j !in inUse
      && env.value(j) == Some(J.JsonString(Reference(j + 2, None)))
    ensures Expand(env, Reference(n, None), 0, limit, inUse, table) == Text(Reference(n + limit + 1, None), table)
    decreases limit
  {
    hide Expand, Reference, NulToSpace;
    ReferenceAlone(env, n, None, limit, inUse, table);
    ReferenceIsClean(n + 1);
    NoNulStays(Reference(n + 1, None));
    var i: nat := n - 1;
    if limit > 0 {
      LimitStops(env, n + 1, limit - 1, inUse + {i}, table);
    } else {
      assert Simple(env, i, table) == Text(NulToSpace(Reference(n + 1, None)), table);
    }
  }

  lemma ReferenceIsClean(n: U32)
    ensures '\0' !in Reference(n, None)
  {
    DecimalIsClean(n);
  }

  /** %n!s! and its like: what the value says is not expanded again. */
  lemma BareStringIsNotExpanded(env: Env, n: U32, c: char, text: string, limit: nat, inUse: set<nat>, table: seq<U16>)
    requires IsFree(env, n, inUse) && (env.kinds[n - 1].PlainValue? || env.kinds[n - 1].RecursiveValue?)
    requires c in {'s', 'S', 'Z'} && HasText(env, n - 1, text)
    ensures Expand(env, Reference(n, Some(P.Spec("", "", "", "", c))), 0, limit, inUse, table) == Text(text, table)
  {
    hide Expand, Simple, Reference;
    var spec := P.Spec("", "", "", "", c);
    assert "%" + "" + "" == "%" && StyleOf(spec) == NoRecursion;
    ReferenceAlone(env, n, Some(spec), limit, inUse, table);
    SimpleText(env, n - 1, text, table);
  }

  /** `clean` is the text with a space for each nul character. */
  ghost predicate IsCleaned(clean: string, text: string) {
    |clean| == |text| && forall k :: 0 <= k < |text| ==> clean[k] == if text[k] == '\0' then ' ' else text[k]
  }

  lemma CleanedIsUnique(clean: string, text: string)
    requires IsCleaned(clean, text)
    ensures NulToSpace(text) == clean && '\0' !in clean
  {
    NulToSpaceAt(text);
  }

  /** Nul characters of a string value are printed as spaces, also when the string is printed with a format. */
  lemma NulsBecomeSpaces(
      env: Env, n: U32, text: string, clean: string, spec: P.Spec, limit: nat, inUse: set<nat>, table: seq<U16>)
    requires IsFree(env, n, inUse) && env.kinds[n - 1].PlainValue?
    requires env.value(n - 1) == Some(J.JsonString(text)) && IsCleaned(clean, text)
    ensures Expand(env, Reference(n, None), 0, limit, inUse, table) == Text(clean, table)
    ensures P.Grammatical(spec) && spec.specifier in {'s', 'S', 'Z'} && P.Kept(spec) != "%" ==>
      Expand(env, Reference(n, Some(spec)), 0, limit, inUse, table)
      == OfOption(env.printString(P.Kept(spec) + "ls", clean), table)
  {
    hide Expand, Reference, P.Kept, P.Grammatical, NulToSpace, UpToNul;
    CleanedIsUnique(clean, text);
    CleanIsWhole(clean);
    ReferenceAlone(env, n, None, limit, inUse, table);
    if P.Grammatical(spec) {
      ReferenceAlone(env, n, Some(spec), limit, inUse, table);
    }
  }

  /**
   With any other specification the value is first tried with it: what the conversion gives is the text, and only
   a value that it does not suit is printed as a string.
   */
  lemma ConversionIsTried(env: Env, n: U32, spec: P.Spec, limit: nat, inUse: set<nat>, table: seq<U16>)
    requires IsFree(env, n, inUse) && !env.kinds[n - 1].AsJson? && P.Grammatical(spec)
    requires spec.specifier !in {'s', 'S', 'Z'}
    ensures var e := Expand(env, Reference(n, Some(spec)), 0, limit, inUse, table);
      var d := env.direct(n - 1, P.Kept(spec), spec.specifier);
      && (d.Converted? ==> e == Text(d.text, table))
      && (d.ConversionFailed? ==> e == Failure(RenderFailed))
      && (d.Unsuitable? && env.value(n - 1).Some? && '\0' !in env.value(n - 1).value.text ==>
            e == OfOption(env.printString(P.StringFormat(spec), env.value(n - 1).value.text), table))
  {
    hide Expand, Reference, P.Kept, P.StringFormat, P.Grammatical, P.CategoryOf, Simple, UpToNul;
    ReferenceAlone(env, n, Some(spec), limit, inUse, table);
    IsNoString(spec.specifier);
    if env.value(n - 1).Some? && '\0' !in env.value(n - 1).value.text {
      var text := env.value(n - 1).value.text;
      SimpleText(env, n - 1, text, table);
      CleanIsWhole(text);
    }
  }

  lemma IsNoString(c: char)
    ensures P.CategoryOf(c) == P.CategoryString <==> c in {'s', 'S', 'Z'}
  {
  }

  /** A string with flags, a width or a precision is printed with them. */
  lemma StringIsPrinted(env: Env, n: U32, spec: P.Spec, text: string, limit: nat, inUse: set<nat>, table: seq<U16>)
    requires IsFree(env, n, inUse) && !env.kinds[n - 1].AsJson? && P.Grammatical(spec)
    requires spec.specifier in {'s', 'S', 'Z'} && P.Kept(spec) != "%" && HasText(env, n - 1, text)
    ensures Expand(env, Reference(n, Some(spec)), 0, limit, inUse, table)
      == OfOption(env.printString(P.Kept(spec) + "ls", text), table)
  {
    hide Expand, Reference, P.Kept, Simple;
    ReferenceAlone(env, n, Some(spec), limit, inUse, table);
    SimpleText(env, n - 1, text, table);
    CleanIsWhole(text);
  }

  // ------------------------------------------------------------------ messages in messages

  /** %%n. */
  function MessageReference(n: U32): string {
    "%%" + D.Decimal(n)
  }

  lemma MessageAlone(env: Env, n: U32, limit: nat, inUse: set<nat>, table: seq<U16>)
    ensures Expand(env, MessageReference(n), 0, limit, inUse, table)
      == ExpandDirective(env, Message(n, |MessageReference(n)|), limit, inUse, table)
  {
    hide Scan, ExpandDirective, Spells, D.Decimal;
    var fmt := MessageReference(n);
    MessageLayout(D.Decimal(n));
    NumbersAreRead(fmt, 0, true, n);
    AtTheEnd(env, fmt, limit, inUse, ExpandDirective(env, Message(n, |fmt|), limit, inUse, table));
  }

  lemma MessageLayout(number: string)
    ensures var fmt := "%%" + number; Spells(fmt, 0, "%%") && Spells(fmt, 2, number) && |fmt| == 2 + |number|
  {
  }

  /** A message without percent signs stands for itself up to the line ends behind it, which never reach the output. */
  lemma MessageStands(env: Env, n: U32, text: string, ends: string, limit: nat, inUse: set<nat>, table: seq<U16>)
    requires env.message(n) == (Success, text + ends)
    requires '%' !in text && '\0' !in text && (text != "" ==> text[|text| - 1] != '\r' && text[|text| - 1] != '\n')
    requires forall k :: 0 <= k < |ends| ==> ends[k] == '\r' || ends[k] == '\n'
    ensures Expand(env, MessageReference(n), 0, limit, inUse, table) == Text(text, table)
  {
    hide Expand, MessageReference, TrimLineEnds, UpToNul;
    MessageAlone(env, n, limit, inUse, table);
    EndsAreTrimmed(text, ends);
    CleanIsWhole(text);
    if limit > 0 {
      PlainMessage(env, text, 0, limit - 1, inUse, table);
      assert text[0..] == text;
    }
  }

  lemma EndsAreTrimmed(text: string, ends: string)
    requires text != "" ==> text[|text| - 1] != '\r' && text[|text| - 1] != '\n'
    requires forall k :: 0 <= k < |ends| ==> ends[k] == '\r' || ends[k] == '\n'
    ensures TrimLineEnds(text + ends) == text
  {
    hide TrimLineEnds;
    var s := text + ends;
    var r := TrimLineEnds(s);
    assert s[..|text|] == text && s[..|r|] == r;
    assert forall k :: 0 <= k < |ends| ==> s[|text| + k] == ends[k];
  }

  /** Messages that refer to each other go on as deep as the limit allows, and without the message there is no text. */
  lemma {:induction false} MessageLimitStops(env: Env, n: U32, limit: nat, inUse: set<nat>, table: seq<U16>)
    requires n + limit + 1 < 0x1_0000_0000
    requires forall j: nat :: n <= j <= n + limit ==> env.message(j) == (Success, MessageReference(j + 1))
    ensures Expand(env, MessageReference(n), 0, limit, inUse, table) == Text(MessageReference(n + limit + 1), table)
    decreases limit
  {
    hide Expand, MessageReference, TrimLineEnds, UpToNul;
    MessageAlone(env, n, limit, inUse, table);
    MessageReferenceIsClean(n + 1);
    if limit > 0 {
      MessageLimitStops(env, n + 1, limit - 1, inUse, table);
    }
  }

  lemma MessageReferenceIsClean(n: U32)
    ensures TrimLineEnds(MessageReference(n)) == MessageReference(n)
    ensures UpToNul(MessageReference(n)) == MessageReference(n)
  {
    hide TrimLineEnds, D.Render;
    DecimalIsClean(n);
    D.RenderRoundTrips(n, 10, false);
    var s := MessageReference(n);
    var digits := D.Decimal(n);
    assert D.IsDigitOf(digits[|digits| - 1], 10) && s[|s| - 1] == digits[|digits| - 1];
    CleanIsWhole(s);
    EndsAreTrimmed(s, "");
    assert s + "" == s;
  }

  lemma MissingMessageFails(env: Env, n: U32, limit: nat, inUse: set<nat>, table: seq<U16>)
    requires env.message(n).0 != Success
    ensures Expand(env, MessageReference(n), 0, limit, inUse, table) == Failure(env.message(n).0)
  {
    hide Expand, MessageReference;
    MessageAlone(env, n, limit, inUse, table);
  }

  /** %!NAME! is replaced by the variable of that name. */
  lemma VariableStands(env: Env, name: string, limit: nat, inUse: set<nat>, table: seq<U16>)
    requires name != "" && forall k :: 0 <= k < |name| ==> 'A' <= name[k] <= 'Z'
    ensures Expand(env, "%!" + name + "!", 0, limit, inUse, table) == Text(env.variable("%!" + name + "!"), table)
  {
    hide Scan;
    var fmt := "%!" + name + "!";
    var j := 2 + |name|;
    assert forall k :: 2 <= k < j ==> fmt[k] == name[k - 2];
    VariableIsRead(fmt, 0, j);
    assert fmt[0..j + 1] == fmt;
    AtTheEnd(env, fmt, limit, inUse, Text(env.variable(fmt), table));
  }
}
