/** What a message stands for: the pure expansion of %n, %%n and %!NAME! that the formatter computes. */
module Expansion {
  import opened Basics
  import D = Digits
  import P = Printf
  import JsonTree

  /** PropInfoType. */
  datatype PropKind = AsJson | PlainValue | PaddedValue | RecursiveValue

  /** A printf conversion that was tried on a property's own data. */
  datatype Direct = Converted(text: string) | Unsuitable | ConversionFailed

  /** Everything the expansion takes from elsewhere: the properties, their renderings, and the callbacks. */
  datatype Env = Env(
    kinds: seq<PropKind>,
    value: nat -> Option<JsonTree.Rendered>,
    json: (nat, seq<U16>) -> Expansion,
    padded: nat -> string,
    direct: (nat, string, char) -> Direct,
    printString: (string, string) -> Option<string>,
    message: nat -> (Status, string),
    variable: string -> string)

  /**
   The text that is appended, and the integer table that the enumerator has afterwards: it is moved
   back to properties that are printed as JSON, and reads their integers again.
   */
  datatype Expansion = Text(text: string, table: seq<U16>) | Failure(status: Status)

  function Prepend(text: string, e: Expansion): Expansion {
    match e
    case Text(rest, table) => Text(text + rest, table)
    case Failure(_) => e
  }

  function OfOption(o: Option<string>, table: seq<U16>): Expansion {
    match o
    case Some(text) => Text(text, table)
    case None => Failure(RenderFailed)
  }

  // ------------------------------------------------------------------ directives

  datatype Style = Default | NoRecursion | Formatted(spec: P.Spec)

  /** What starts at a percent sign, and where the message goes on after it. */
  datatype Directive =
    | Verbatim(text: string, next: nat)
    | Variable(name: string, next: nat)
    | Message(index: U32, next: nat)
    | Property(index: U32, style: Style, next: nat)

  predicate IsLetter(c: char) {
    'A' <= c <= 'Z'
  }

  function LettersEnd(fmt: string, i: nat): (j: nat)
    requires i <= |fmt|
    ensures i <= j <= |fmt|
    decreases |fmt| - i
  {
    if IsLetter(P.At(fmt, i)) then LettersEnd(fmt, i + 1) else i
  }

  /** The number that starts at `i`, modulo 2^32, and where it ends. */
  function ReadIndex(fmt: string, i: nat, index: U32): (r: (U32, nat))
    requires i <= |fmt|
    ensures i <= r.1 <= |fmt| && !IsDigit(P.At(fmt, r.1))
    decreases |fmt| - i
  {
    var c := P.At(fmt, i);
    if IsDigit(c) then ReadIndex(fmt, i + 1, (index as int * 10 + (c as int - '0' as int)) % 0x1_0000_0000)
    else (index, i)
  }

  /** "%ls" adds nothing to the default rendering except that it is not expanded again. */
  function StyleOf(spec: P.Spec): Style {
    if P.CategoryOf(spec.specifier) == P.CategoryString && P.Kept(spec) == "%" then NoRecursion else Formatted(spec)
  }

  /** The style after a property number that ends at `k`, and the end of the whole directive. */
  function ReadStyle(fmt: string, k: nat): (r: (Style, nat))
    requires k <= |fmt|
    ensures k <= r.1 <= |fmt|
    ensures r.1 > k ==> fmt[r.1 - 1] == '!'
  {
    if P.At(fmt, k) != '!' then (Default, k)
    else if P.At(fmt, k + 1) == 'S' && P.At(fmt, k + 2) == '!' then (NoRecursion, k + 3)
    else
      match P.Recognize(fmt[k + 1..])
      case None => (Default, k)
      case Some(spec) =>
        P.RecognizedIsGrammatical(fmt[k + 1..]);
        var end := k + 1 + |P.Text(spec)|;
        if P.At(fmt, end) == '!' then (StyleOf(spec), end + 1) else (Default, k)
  }

  /** %!NAME! or, when it is not complete, its part up to the first character that is not a letter. */
  function ScanVariable(fmt: string, i: nat): (d: Directive)
    requires i + 1 < |fmt| && fmt[i + 1] == '!'
    ensures i < d.next <= |fmt|
    ensures fmt[d.next - 1] != ' '
  {
    var k := LettersEnd(fmt, i + 2);
    LettersAreLetters(fmt, i + 2);
    if P.At(fmt, k) == '!' && k > i + 2 then Variable(fmt[i..k + 1], k + 1) else Verbatim(fmt[i..k], k)
  }

  /** %n or %%n, or a percent sign that starts neither. */
  function ScanNumber(fmt: string, i: nat, doubled: bool): (d: Directive)
    requires i < |fmt| && fmt[i] == '%' && doubled == (P.At(fmt, i + 1) == '%')
    ensures i < d.next <= |fmt|
    ensures fmt[d.next - 1] != ' '
  {
    var start := if doubled then i + 2 else i + 1;
    var c := P.At(fmt, start);
    if !IsDigit(c) then
      if doubled && c == '%' && IsDigit(P.At(fmt, start + 1)) then Verbatim("%%", start) else Verbatim("%", i + 1)
    else
      var (index, k) := ReadIndex(fmt, start, 0);
      IndexEndsInDigit(fmt, start, 0);
      if doubled then Message(index, k)
      else
        var (style, next) := ReadStyle(fmt, k);
        Property(index, style, next)
  }

  /** The directive at a percent sign. */
  function Scan(fmt: string, i: nat): (d: Directive)
    requires i < |fmt| && fmt[i] == '%'
    ensures i < d.next <= |fmt|
    ensures fmt[d.next - 1] != ' '
  {
    if P.At(fmt, i + 1) == '!' then ScanVariable(fmt, i) else ScanNumber(fmt, i, P.At(fmt, i + 1) == '%')
  }

  lemma {:induction false} LettersAreLetters(fmt: string, i: nat)
    requires i <= |fmt|
    ensures forall k :: i <= k < LettersEnd(fmt, i) ==> IsLetter(fmt[k])
    decreases |fmt| - i
  {
    if !IsLetter(P.At(fmt, i)) {
    } else {
      LettersAreLetters(fmt, i + 1);
    }
  }

  lemma {:induction false} IndexEndsInDigit(fmt: string, i: nat, index: U32)
    requires i <= |fmt|
    ensures forall k :: i <= k < ReadIndex(fmt, i, index).1 ==> IsDigit(fmt[k])
    decreases |fmt| - i
  {
    var c := P.At(fmt, i);
    if !IsDigit(c) {
    } else {
      IndexEndsInDigit(fmt, i + 1, (index as int * 10 + (c as int - '0' as int)) % 0x1_0000_0000);
    }
  }

  // ------------------------------------------------------------------ the expansion

  /** Without the CR and LF characters at its end. */
  function TrimLineEnds(s: string): (r: string)
    ensures r <= s && forall k :: |r| <= k < |s| ==> s[k] == '\r' || s[k] == '\n'
    ensures r != "" ==> r[|r| - 1] != '\r' && r[|r| - 1] != '\n'
  {
    if s != "" && (s[|s| - 1] == '\r' || s[|s| - 1] == '\n') then TrimLineEnds(s[..|s| - 1]) else s
  }

  function UpToNul(s: string): (r: string)
    ensures r <= s && '\0' !in r && (|r| < |s| ==> s[|r|] == '\0')
  {
    if s == "" || s[0] == '\0' then "" else [s[0]] + UpToNul(s[1..])
  }

  function NulToSpace(s: string): (r: string)
    ensures |r| == |s| && '\0' !in r
  {
    if s == "" then "" else [if s[0] == '\0' then ' ' else s[0]] + NulToSpace(s[1..])
  }

  function OutOfRange(index: U32): string {
    "[IndexOutOfRange:%" + D.Decimal(index) + "]"
  }

  function Recursion(index: U32): string {
    "[IndexRecursion:%" + D.Decimal(index) + "]"
  }

  /** AddSimplePropInfo: the rendered value; only escapable strings can contain nul characters. */
  function Simple(env: Env, i: nat, table: seq<U16>): Expansion {
    match env.value(i)
    case None => Failure(RenderFailed)
    case Some(JsonString(text)) => Text(NulToSpace(text), table)
    case Some(CleanString(text)) => Text(text, table)
    case Some(JsonLiteral(text)) => Text(text, table)
  }

  /** A rendered string printed through a string format. */
  function Printed(env: Env, spec: P.Spec, text: Expansion): Expansion {
    match text
    case Failure(_) => text
    case Text(s, table) => OfOption(env.printString(P.StringFormat(spec), UpToNul(s)), table)
  }

  /** A property's value with a printf specification. */
  function WithFormat(env: Env, i: nat, spec: P.Spec, table: seq<U16>): Expansion {
    if P.CategoryOf(spec.specifier) == P.CategoryString then Printed(env, spec, Simple(env, i, table))
    else
      match env.direct(i, P.Kept(spec), spec.specifier)
      case Converted(text) => Text(text, table)
      case ConversionFailed => Failure(RenderFailed)
      case Unsuitable => Printed(env, spec, Simple(env, i, table))
  }

  /** The expansion of `fmt` from position `i` on; `inUse` are the properties being expanded around it. */
  function Expand(env: Env, fmt: string, i: nat, limit: nat, inUse: set<nat>, table: seq<U16>): Expansion
    requires i <= |fmt|
    decreases limit, 1, |fmt| - i
  {
    if i == |fmt| then Text("", table)
    else if fmt[i] != '%' then Prepend([fmt[i]], Expand(env, fmt, i + 1, limit, inUse, table))
    else
      var d := Scan(fmt, i);
      match ExpandDirective(env, d, limit, inUse, table)
      case Failure(status) => Failure(status)
      case Text(text, table') => Prepend(text, Expand(env, fmt, d.next, limit, inUse, table'))
  }

  function ExpandDirective(env: Env, d: Directive, limit: nat, inUse: set<nat>, table: seq<U16>): Expansion
    decreases limit, 0, 1
  {
    match d
    case Verbatim(text, _) => Text(text, table)
    case Variable(name, _) => Text(env.variable(name), table)
    case Message(index, _) =>
      var (status, text) := env.message(index);
      if status != Success then Failure(status)
      else if limit == 0 then Text(TrimLineEnds(text), table)
      else Expand(env, UpToNul(TrimLineEnds(text)), 0, limit - 1, inUse, table)
    case Property(index, style, _) =>
      ExpandProperty(env, index, style, if style.Default? then limit else 0, inUse, table)
  }

  function ExpandProperty(env: Env, index: U32, style: Style, limit: nat, inUse: set<nat>, table: seq<U16>): Expansion
    decreases limit, 0, 0
  {
    if index == 0 || index > |env.kinds| then Text(OutOfRange(index), table)
    else
      var i := index - 1;
      if i in inUse then Text(Recursion(index), table)
      else
        match env.kinds[i]
        case AsJson => if style.Formatted? then Printed(env, style.spec, env.json(i, table)) else env.json(i, table)
        case PaddedValue =>
          if style.Formatted? then WithFormat(env, i, style.spec, table) else Text(env.padded(i), table)
        case PlainValue =>
          if style.Formatted? then WithFormat(env, i, style.spec, table) else Simple(env, i, table)
        case RecursiveValue =>
          if style.Formatted? then WithFormat(env, i, style.spec, table)
          else if limit == 0 then Simple(env, i, table)
          else
            match env.value(i)
            case Some(JsonString(text)) => Expand(env, NulToSpace(text), 0, limit - 1, inUse + {i}, table)
            case _ => Simple(env, i, table)
  }

  /** The whole message; at one level the space that TDH appends to messages is removed again. */
  function ExpandMessage(
      env: Env, fmt: string, limit: nat, trimLevel: nat, inUse: set<nat>, table: seq<U16>): Expansion
  {
    match Expand(env, fmt, 0, limit, inUse, table)
    case Failure(status) => Failure(status)
    case Text(text, table') =>
      if limit == trimLevel && fmt != "" && fmt[|fmt| - 1] == ' ' && text != "" then Text(text[..|text| - 1], table')
      else Text(text, table')
  }

  // ------------------------------------------------------------------ properties

  /** A final space is never part of a directive, so it is also the last character of the expansion. */
  lemma {:induction false} FinalSpaceRemains(env: Env, fmt: string, i: nat, limit: nat, inUse: set<nat>,
    table: seq<U16>)
    requires i < |fmt| && fmt[|fmt| - 1] == ' '
    ensures var e := Expand(env, fmt, i, limit, inUse, table); e.Text? ==> e.text != "" && e.text[|e.text| - 1] == ' '
    decreases |fmt| - i
  {
    hide Scan, ExpandDirective;
    var next := if fmt[i] != '%' then i + 1 else Scan(fmt, i).next;
    var e := if fmt[i] != '%' then Text("", table) else ExpandDirective(env, Scan(fmt, i), limit, inUse, table);
    if next == |fmt| {
    } else if e.Text? {
      FinalSpaceRemains(env, fmt, next, limit, inUse, e.table);
    }
  }

  /** A message without percent signs stands for itself. */
  lemma {:induction false} PlainMessage(env: Env, fmt: string, i: nat, limit: nat, inUse: set<nat>, table: seq<U16>)
    requires i <= |fmt| && forall k :: i <= k < |fmt| ==> fmt[k] != '%'
    ensures Expand(env, fmt, i, limit, inUse, table) == Text(fmt[i..], table)
    decreases |fmt| - i
  {
    if i == |fmt| {
    } else {
      PlainMessage(env, fmt, i + 1, limit, inUse, table);
      assert [fmt[i]] + fmt[i + 1..] == fmt[i..];
    }
  }

  /**
   Two expansions of the same text, or with the same failure; `agrees` relates the tables that they start and
   end with.
   */
  ghost predicate SameText(e: Expansion, f: Expansion, agrees: seq<U16> -> bool) {
    if e.Failure? || f.Failure? then e == f else e.text == f.text && agrees(e.table) && agrees(f.table)
  }

  /**
   The properties that are printed as JSON print the same, whatever they are printed with, as long as tables
   agree.
   */
  ghost predicate SameJson(env: Env, env': Env, agrees: seq<U16> -> bool) {
    && env' == env.(json := env'.json)
    && forall i: nat, a, b :: i < |env.kinds| && env.kinds[i].AsJson? && agrees(a) && agrees(b) ==>
      SameText(env.json(i, a), env'.json(i, b), agrees)
  }

  lemma {:induction false} ExpandsAlike(
      env: Env, env': Env, agrees: seq<U16> -> bool,
      fmt: string, i: nat, limit: nat, inUse: set<nat>, a: seq<U16>, b: seq<U16>)
    requires SameJson(env, env', agrees) && i <= |fmt| && agrees(a) && agrees(b)
    ensures SameText(Expand(env, fmt, i, limit, inUse, a), Expand(env', fmt, i, limit, inUse, b), agrees)
    decreases limit, 1, |fmt| - i
  {
    hide Scan, ExpandDirective, SameJson;
    if i == |fmt| {
    } else if fmt[i] != '%' {
      ExpandsAlike(env, env', agrees, fmt, i + 1, limit, inUse, a, b);
    } else {
      var d := Scan(fmt, i);
      DirectiveExpandsAlike(env, env', agrees, d, limit, inUse, a, b);
      var (e, f) := (ExpandDirective(env, d, limit, inUse, a), ExpandDirective(env', d, limit, inUse, b));
      if e.Text? {
        ExpandsAlike(env, env', agrees, fmt, d.next, limit, inUse, e.table, f.table);
      }
    }
  }

  lemma {:induction false} DirectiveExpandsAlike(
      env: Env, env': Env, agrees: seq<U16> -> bool,
      d: Directive, limit: nat, inUse: set<nat>, a: seq<U16>, b: seq<U16>)
    requires SameJson(env, env', agrees) && agrees(a) && agrees(b)
    ensures SameText(ExpandDirective(env, d, limit, inUse, a), ExpandDirective(env', d, limit, inUse, b), agrees)
    decreases limit, 0, 1
  {
    hide Expand, ExpandProperty, TrimLineEnds, UpToNul;
    if d.Message? && limit > 0 && env.message(d.index).0 == Success {
      ExpandsAlike(env, env', agrees, UpToNul(TrimLineEnds(env.message(d.index).1)), 0, limit - 1, inUse, a, b);
    } else if d.Property? {
      PropertyExpandsAlike(env, env', agrees, d.index, d.style, if d.style.Default? then limit else 0, inUse, a, b);
    }
  }

  lemma {:induction false} PropertyExpandsAlike(
      env: Env, env': Env, agrees: seq<U16> -> bool,
      index: U32, style: Style, limit: nat, inUse: set<nat>, a: seq<U16>, b: seq<U16>)
    requires SameJson(env, env', agrees) && agrees(a) && agrees(b)
    ensures SameText(ExpandProperty(env, index, style, limit, inUse, a),
      ExpandProperty(env', index, style, limit, inUse, b), agrees)
    decreases limit, 0, 0
  {
    hide Expand, OutOfRange, Recursion, NulToSpace, UpToNul, P.StringFormat, P.Kept;
    if 0 < index <= |env.kinds| && index - 1 !in inUse {
      var i: nat := index - 1;
      assert env.kinds[i].AsJson? ==> SameText(env.json(i, a), env'.json(i, b), agrees);
      if env.kinds[i].RecursiveValue? && !style.Formatted? && limit > 0 && env.value(i).Some?
        && env.value(i).value.JsonString? {
        ExpandsAlike(env, env', agrees, NulToSpace(env.value(i).value.text), 0, limit - 1, inUse + {i}, a, b);
      }
    }
  }

  /** So the whole message stands for the same text. */
  lemma MessageExpandsAlike(
      env: Env, env': Env, agrees: seq<U16> -> bool,
      fmt: string, limit: nat, trimLevel: nat, inUse: set<nat>, a: seq<U16>, b: seq<U16>)
    requires SameJson(env, env', agrees) && agrees(a) && agrees(b)
    ensures SameText(ExpandMessage(env, fmt, limit, trimLevel, inUse, a),
      ExpandMessage(env', fmt, limit, trimLevel, inUse, b), agrees)
  {
    hide Expand, SameJson;
    ExpandsAlike(env, env', agrees, fmt, 0, limit, inUse, a, b);
  }

  /** `text` stands in `fmt` at position `i`. */
  predicate Spells(fmt: string, i: nat, text: string) {
    i + |text| <= |fmt| && forall k :: 0 <= k < |text| ==> fmt[i + k] == text[k]
  }

  /** The digits of `n` are read as `n`. */
  lemma {:induction false} IndexReads(fmt: string, i: nat, n: U32)
    requires Spells(fmt, i, D.Decimal(n))
    ensures ReadIndex(fmt, i, 0) == ReadIndex(fmt, i + |D.Decimal(n)|, n)
    decreases n as nat
  {
    var text := D.Decimal(n);
    var last := |text| - 1;
    assert fmt[i + last] == text[last] == D.DigitChar(n % 10, false);
    if n >= 10 {
      var head := D.Decimal(n / 10);
      assert text == head + [D.DigitChar(n % 10, false)];
      forall k | 0 <= k < |head| ensures fmt[i + k] == head[k] {
        assert fmt[i + k] == text[k];
      }
      IndexReads(fmt, i, n / 10);
    }
    DigitIsRead(fmt, i + last, n);
  }

  /** Any run of digits is read as the number that it is, modulo 2^32. */
  lemma {:induction false} IndexIsModulo(fmt: string, i: nat, digits: string, k: nat)
    requires Spells(fmt, i, digits) && k <= |digits| && forall j :: 0 <= j < |digits| ==> D.IsDigitOf(digits[j], 10)
    ensures ReadIndex(fmt, i, 0) == ReadIndex(fmt, i + k, D.NumberOf(digits[..k], 10) % 0x1_0000_0000)
    decreases k
  {
    hide ReadIndex, D.Shifted;
    if k == 0 {
      assert digits[..0] == "";
    } else {
      IndexIsModulo(fmt, i, digits, k - 1);
      var head := digits[..k - 1];
      assert digits[..k][..k - 1] == head && digits[..k][k - 1] == digits[k - 1] == fmt[i + (k - 1)];
      var d := digits[k - 1] as int - '0' as int;
      assert D.IsDigitOf(digits[k - 1], 10);
      NextDigit(fmt, i + (k - 1), D.NumberOf(head, 10) % 0x1_0000_0000);
      ShiftsModulo(D.NumberOf(head, 10), d);
    }
  }

  lemma NextDigit(fmt: string, i: nat, index: U32)
    requires i < |fmt| && IsDigit(fmt[i])
    ensures ReadIndex(fmt, i, index)
      == ReadIndex(fmt, i + 1, (index as int * 10 + (fmt[i] as int - '0' as int)) % 0x1_0000_0000)
  {
  }

  lemma ShiftsModulo(n: nat, d: nat)
    ensures (n % 0x1_0000_0000 * 10 + d) % 0x1_0000_0000 == D.Shifted(n, 10, d) % 0x1_0000_0000
  {
    var m := 0x1_0000_0000;
    assert n * 10 + d == (n % m * 10 + d) + m * (n / m * 10);
  }

  lemma DigitIsRead(fmt: string, i: nat, n: U32)
    requires i < |fmt| && fmt[i] == D.DigitChar(n % 10, false)
    ensures ReadIndex(fmt, i, n / 10) == ReadIndex(fmt, i + 1, n)
  {
  }

  /** A percent sign and a number are the property with that number, two percent signs the message. */
  lemma NumbersAreRead(fmt: string, i: nat, doubled: bool, n: U32)
    requires var start := i + if doubled then 2 else 1;
      && Spells(fmt, i, if doubled then "%%" else "%") && Spells(fmt, start, D.Decimal(n))
      && !IsDigit(P.At(fmt, start + |D.Decimal(n)|))
    ensures var j := i + (if doubled then 2 else 1) + |D.Decimal(n)|;
      && j <= |fmt| && fmt[i] == '%'
      && Scan(fmt, i) == if doubled then Message(n, j) else Property(n, ReadStyle(fmt, j).0, ReadStyle(fmt, j).1)
  {
    hide ReadIndex, ReadStyle, Scan, Spells, D.Decimal;
    var start := i + if doubled then 2 else 1;
    var text := D.Decimal(n);
    PercentSigns(fmt, i, doubled);
    StartsWithDigit(n);
    SpellsFirst(fmt, start, text);
    IndexReads(fmt, start, n);
    IndexEnds(fmt, start + |text|, n);
    NumberIsScanned(fmt, i, doubled, n, start + |text|);
  }

  lemma PercentSigns(fmt: string, i: nat, doubled: bool)
    requires Spells(fmt, i, if doubled then "%%" else "%")
    ensures i + (if doubled then 2 else 1) <= |fmt| && fmt[i] == '%' && (doubled ==> fmt[i + 1] == '%')
  {
    if doubled {
      assert fmt[i + 0] == "%%"[0] && fmt[i + 1] == "%%"[1];
    } else {
      assert fmt[i + 0] == "%"[0];
    }
  }

  lemma SpellsFirst(fmt: string, i: nat, text: string)
    requires Spells(fmt, i, text) && text != ""
    ensures i + |text| <= |fmt| && fmt[i] == text[0]
  {
    assert fmt[i + 0] == text[0];
  }

  lemma NumberIsScanned(fmt: string, i: nat, doubled: bool, n: U32, j: nat)
    requires var start := i + if doubled then 2 else 1;
      && start < j <= |fmt| && fmt[i] == '%' && (doubled ==> fmt[i + 1] == '%')
      && IsDigit(fmt[start]) && ReadIndex(fmt, start, 0) == (n, j)
    ensures Scan(fmt, i) == if doubled then Message(n, j) else Property(n, ReadStyle(fmt, j).0, ReadStyle(fmt, j).1)
  {
    hide ReadIndex, ReadStyle;
  }

  /** Behind the number, any printf specification in exclamation marks is read as its style. */
  lemma StyleIsRead(fmt: string, k: nat, spec: P.Spec)
    requires P.Grammatical(spec) && k + 1 + |P.Text(spec)| < |fmt|
    requires fmt[k] == '!' == fmt[k + 1 + |P.Text(spec)|]
    requires fmt[k + 1..k + 1 + |P.Text(spec)|] == P.Text(spec)
    ensures ReadStyle(fmt, k) == (StyleOf(spec), k + |P.Text(spec)| + 2)
  {
    hide P.Recognize, P.Grammatical;
    var s := fmt[k + 1..];
    var tail := fmt[k + 1 + |P.Text(spec)|..];
    assert s == P.Text(spec) + tail;
    P.GrammaticalIsRecognized(spec, tail);
    if P.At(fmt, k + 1) == 'S' && P.At(fmt, k + 2) == '!' {
      BareString(s);
    }
  }

  /** "S" is a specification by itself, and means the same as it does when it is read by hand. */
  lemma BareString(s: string)
    requires s != "" && s[0] == 'S'
    ensures P.Recognize(s) == Some(P.Spec("", "", "", "", 'S'))
    ensures var spec := P.Spec("", "", "", "", 'S'); StyleOf(spec) == NoRecursion && |P.Text(spec)| == 1
  {
    assert P.FlagsEnd(s, 0) == 0 && P.WidthEnd(s, 0) == 0 && P.PrecisionEnd(s, 0) == 0 && P.LengthEnd(s, 0) == 0;
    assert s[..0] == "" && s[0..0] == "";
  }

  lemma IndexEnds(fmt: string, j: nat, n: U32)
    requires j <= |fmt| && !IsDigit(P.At(fmt, j))
    ensures ReadIndex(fmt, j, n) == (n, j)
  {
  }

  lemma {:induction false} StartsWithDigit(n: nat)
    ensures D.Decimal(n) != "" && IsDigit(D.Decimal(n)[0])
    decreases n
  {
    if n < 10 {
    } else {
      StartsWithDigit(n / 10);
    }
  }

  /** A value that is nothing but a reference to itself is not expanded forever. */
  lemma SelfReferenceStops(env: Env, index: U32, limit: nat, inUse: set<nat>, table: seq<U16>)
    requires 0 < index <= |env.kinds| && index - 1 !in inUse && 0 < limit
    requires env.kinds[index - 1] == RecursiveValue
      && env.value(index - 1) == Some(JsonTree.JsonString("%" + D.Decimal(index)))
    ensures ExpandProperty(env, index, Default, limit, inUse, table) == Text(Recursion(index), table)
  {
    hide Scan, Recursion;
    var text := "%" + D.Decimal(index);
    NumbersAreRead(text, 0, false, index);
    assert ReadStyle(text, |text|) == (Default, |text|);
    StartsWithDigit(index);
    DecimalIsClean(index);
    NoNulStays(text);
    var used := inUse + {index - 1 as nat};
    assert Expand(env, text, |text|, limit - 1, used, table) == Text("", table);
    assert Recursion(index) + "" == Recursion(index);
    assert ExpandDirective(env, Property(index, Default, |text|), limit - 1, used, table)
      == Text(Recursion(index), table);
    assert Expand(env, text, 0, limit - 1, used, table) == Text(Recursion(index), table);
  }

  /** %!NAME!, for any non-empty run of capital letters; without the closing mark it stands for itself. */
  lemma VariableIsRead(fmt: string, i: nat, j: nat)
    requires i + 2 < j <= |fmt| && fmt[i] == '%' && fmt[i + 1] == '!'
    requires (forall k :: i + 2 <= k < j ==> IsLetter(fmt[k])) && !IsLetter(P.At(fmt, j))
    ensures Scan(fmt, i) == if P.At(fmt, j) == '!' then Variable(fmt[i..j + 1], j + 1) else Verbatim(fmt[i..j], j)
  {
    LettersAreRead(fmt, i + 2, j);
  }

  lemma {:induction false} LettersAreRead(fmt: string, i: nat, j: nat)
    requires i <= j <= |fmt| && (forall k :: i <= k < j ==> IsLetter(fmt[k])) && !IsLetter(P.At(fmt, j))
    ensures LettersEnd(fmt, i) == j
    decreases j - i
  {
    if i == j {
    } else {
      LettersAreRead(fmt, i + 1, j);
    }
  }

  lemma {:induction false} NulToSpaceAt(s: string)
    ensures forall k :: 0 <= k < |s| ==> NulToSpace(s)[k] == if s[k] == '\0' then ' ' else s[k]
  {
    if s == "" {
    } else {
      NulToSpaceAt(s[1..]);
      forall k | 0 <= k < |s| ensures NulToSpace(s)[k] == if s[k] == '\0' then ' ' else s[k] {
        if k > 0 {
          assert NulToSpace(s)[k] == NulToSpace(s[1..])[k - 1];
        }
      }
    }
  }

  lemma CleanIsWhole(text: string)
    requires '\0' !in text
    ensures UpToNul(text) == text
  {
  }

  lemma DecimalIsClean(n: nat)
    ensures '\0' !in D.Decimal(n)
  {
    D.RenderRoundTrips(n, 10, false);
  }

  lemma {:induction false} NoNulStays(s: string)
    requires '\0' !in s
    ensures NulToSpace(s) == s
  {
    if s == "" {
    } else {
      assert s[0] in s;
      NoNulStays(s[1..]);
    }
  }
}
