/** JSON text (RFC 8259): a parser, a printer in the enumerator's style, and the in-place string escaper. */
module JsonText {
  import opened Basics
  import opened GrowableBuffer
  import D = Digits

  // ------------------------------------------------------------------ strings (section 7)

  /** The letter of a two-character escape for a control character. */
  function ShortEscape(c: char): Option<char> {
    match c as int
    case 8 => Some('b')
    case 9 => Some('t')
    case 10 => Some('n')
    case 12 => Some('f')
    case 13 => Some('r')
    case _ => None
  }

  predicate IsControl(c: char) {
    c as int < 0x20
  }

  function EscapeChar(c: char): string {
    if IsControl(c) then
      if ShortEscape(c).Some? then ['\\', ShortEscape(c).value]
      else ['\\', 'u', '0', '0', D.DigitChar(c as int / 16, true), D.DigitChar(c as int % 16, true)]
    else if c == '"' || c == '\\' then ['\\', c]
    else [c]
  }

  function Escape(s: string): string {
    if s == "" then "" else EscapeChar(s[0]) + Escape(s[1..])
  }

  function Quote(s: string): string {
    "\"" + Escape(s) + "\""
  }

  /** The character after a backslash, when it stands for one character. */
  function SimpleEscape(c: char): Option<char> {
    match c
    case '"' => Some('"')
    case '\\' => Some('\\')
    case '/' => Some('/')
    case 'b' => Some(8 as char)
    case 't' => Some(9 as char)
    case 'n' => Some(10 as char)
    case 'f' => Some(12 as char)
    case 'r' => Some(13 as char)
    case _ => None
  }

  /** The character a \u escape names; surrogates have no character of their own here. */
  function HexEscape(s: string): Option<char>
    requires |s| == 4
  {
    var (a, b, c, d) := (D.DigitOf(s[0]), D.DigitOf(s[1]), D.DigitOf(s[2]), D.DigitOf(s[3]));
    if a.None? || b.None? || c.None? || d.None? then None
    else
      var code := 0x1000 * a.value + 0x100 * b.value + 0x10 * c.value + d.value;
      if 0xD800 <= code < 0xE000 then None else Some(code as char)
  }

  /** What follows an opening quote: the string's characters, and the text after its closing quote. */
  function StringBody(s: string): (r: Option<(string, string)>)
    ensures r.Some? ==> |r.value.1| < |s|
  {
    if s == "" || IsControl(s[0]) then None
    else if s[0] == '"' then Some(("", s[1..]))
    else if s[0] != '\\' then WithChar(s[0], StringBody(s[1..]))
    else if |s| < 2 then None
    else if s[1] == 'u' then
      if |s| < 6 || HexEscape(s[2..6]).None? then None
      else WithChar(HexEscape(s[2..6]).value, StringBody(s[6..]))
    else if SimpleEscape(s[1]).None? then None
    else WithChar(SimpleEscape(s[1]).value, StringBody(s[2..]))
  }

  function WithChar(c: char, r: Option<(string, string)>): Option<(string, string)> {
    match r
    case None => None
    case Some((t, rest)) => Some(([c] + t, rest))
  }

  lemma EscapeCharParses(c: char, tail: string)
    ensures StringBody(EscapeChar(c) + tail) == WithChar(c, StringBody(tail))
  {
    var s := EscapeChar(c) + tail;
    if IsControl(c) && ShortEscape(c).None? {
      assert s[2..6] == ['0', '0', D.DigitChar(c as int / 16, true), D.DigitChar(c as int % 16, true)];
      assert s[6..] == tail;
      D.DigitRoundTrips(c as int / 16, true);
      D.DigitRoundTrips(c as int % 16, true);
    } else if |EscapeChar(c)| == 2 {
      assert s[2..] == tail;
    } else {
      assert s[1..] == tail;
    }
  }

  /** Reading an escaped string gives back the string, whatever comes after it. */
  lemma {:induction false} EscapeRoundTrips(s: string, rest: string)
    ensures StringBody(Escape(s) + "\"" + rest) == Some((s, rest))
  {
    if s == "" {
      assert Escape(s) + "\"" + rest == "\"" + rest;
      assert ("\"" + rest)[1..] == rest;
    } else {
      var tail := Escape(s[1..]) + "\"" + rest;
      EscapeRoundTrips(s[1..], rest);
      assert Escape(s) + "\"" + rest == EscapeChar(s[0]) + tail;
      EscapeCharParses(s[0], tail);
      assert [s[0]] + s[1..] == s;
    }
  }

  /** The number of backslashes directly before position `i`. */
  function Backslashes(s: string, i: nat): (n: nat)
    requires i <= |s|
    ensures n <= i
  {
    if i > 0 && s[i - 1] == '\\' then 1 + Backslashes(s, i - 1) else 0
  }

  lemma {:induction false} BackslashesAppend(a: string, b: string, i: nat)
    requires i <= |b|
    ensures Backslashes(a + b, |a| + i)
      == if Backslashes(b, i) == i then i + Backslashes(a, |a|) else Backslashes(b, i)
  {
    if i == 0 {
      BackslashesOfPrefix(a, b, |a|);
    } else if b[i - 1] == '\\' {
      BackslashesAppend(a, b, i - 1);
    }
  }

  lemma {:induction false} BackslashesOfPrefix(a: string, b: string, i: nat)
    requires i <= |a|
    ensures Backslashes(a + b, i) == Backslashes(a, i)
  {
    if i == 0 || a[i - 1] != '\\' {
    } else {
      BackslashesOfPrefix(a, b, i - 1);
    }
  }

  /**
   No control character, and every quote follows an odd number of backslashes, so it is part of an
   escape; the text ends outside an escape, so a closing quote that is put behind it is not.
   */
  ghost predicate IsClean(t: string) {
    && (forall i :: 0 <= i < |t| ==> !IsControl(t[i]) && (t[i] == '"' ==> Backslashes(t, i) % 2 == 1))
    && Backslashes(t, |t|) % 2 == 0
  }

  lemma CleanJoins(a: string, b: string)
    requires IsClean(a) && IsClean(b)
    ensures IsClean(a + b)
  {
    hide Backslashes;
    var t := a + b;
    BackslashesAppend(a, b, |b|);
    forall i | 0 <= i < |t|
      ensures !IsControl(t[i]) && (t[i] == '"' ==> Backslashes(t, i) % 2 == 1)
    {
      if i < |a| {
        BackslashesOfPrefix(a, b, i);
      } else {
        BackslashesAppend(a, b, i - |a|);
      }
    }
  }

  lemma EscapeCharIsClean(c: char)
    ensures IsClean(EscapeChar(c))
  {
    var e := EscapeChar(c);
    assert Backslashes(e, 0) == 0;
    assert e[0] == '\\' ==> Backslashes(e, 1) == 1;
    if |e| == 6 {
      assert e[5] != '\\';
    }
  }

  lemma {:induction false} EscapedIsClean(s: string)
    ensures IsClean(Escape(s))
  {
    hide EscapeChar, IsClean;
    if s == "" {
      NothingIsClean();
    } else {
      EscapeCharIsClean(s[0]);
      EscapedIsClean(s[1..]);
      CleanJoins(EscapeChar(s[0]), Escape(s[1..]));
    }
  }

  lemma NothingIsClean()
    ensures IsClean("")
  {
  }

  lemma {:induction false} EscapeAppends(s: string, c: char)
    ensures Escape(s + [c]) == Escape(s) + EscapeChar(c)
  {
    hide EscapeChar;
    if s == "" {
      assert ([c])[1..] == "";
      assert "" + [c] == [c];
      assert EscapeChar(c) + "" == EscapeChar(c);
    } else {
      EscapeAppends(s[1..], c);
      assert (s + [c])[1..] == s[1..] + [c];
    }
  }

  // ------------------------------------------------------------------ values (sections 2 to 6)

  datatype Json =
    | Text(s: string)
    | Literal(token: string)
    | Array(items: seq<Json>)
    | Object(members: seq<Member>)

  datatype Member = Member(name: string, value: Json)

  predicate IsSpace(c: char) {
    c == ' ' || c == '\t' || c == '\n' || c == '\r'
  }

  function SkipSpace(s: string): (r: string)
    ensures |r| <= |s| && (r != "" ==> !IsSpace(r[0]))
  {
    if s != "" && IsSpace(s[0]) then SkipSpace(s[1..]) else s
  }

  /** The characters of numbers and of true, false and null. */
  predicate IsTokenChar(c: char) {
    IsDigit(c) || 'a' <= c <= 'z' || 'A' <= c <= 'Z' || c == '+' || c == '-' || c == '.'
  }

  function TokenLength(s: string): (n: nat)
    ensures n <= |s|
  {
    if s == "" || !IsTokenChar(s[0]) then 0 else 1 + TokenLength(s[1..])
  }

  function DigitsEnd(s: string, i: nat): (j: nat)
    requires i <= |s|
    ensures i <= j <= |s|
    decreases |s| - i
  {
    if i < |s| && IsDigit(s[i]) then DigitsEnd(s, i + 1) else i
  }

  predicate IsExponent(s: string, i: nat)
    requires i <= |s|
  {
    i == |s|
    || ((s[i] == 'e' || s[i] == 'E')
        && var j := if i + 1 < |s| && (s[i + 1] == '+' || s[i + 1] == '-') then i + 2 else i + 1;
          j < DigitsEnd(s, j) == |s|)
  }

  /** The number grammar of section 6. */
  predicate IsNumber(s: string) {
    var i := if s != "" && s[0] == '-' then 1 else 0;
    i < |s| && IsDigit(s[i])
    && var j := if s[i] == '0' then i + 1 else DigitsEnd(s, i);
      if j < |s| && s[j] == '.' then j + 1 < DigitsEnd(s, j + 1) && IsExponent(s, DigitsEnd(s, j + 1))
      else IsExponent(s, j)
  }

  predicate IsLiteral(s: string) {
    s != "" && (forall i :: 0 <= i < |s| ==> IsTokenChar(s[i]))
    && (s == "true" || s == "false" || s == "null" || IsNumber(s))
  }

  predicate Starts(s: string, c: char) {
    s != "" && s[0] == c
  }

  /** One value, after any white space, and the text that follows it. */
  function ParseValue(text: string): (r: Option<(Json, string)>)
    ensures r.Some? ==> |r.value.1| < |text|
    decreases |text|, 1
  {
    var s := SkipSpace(text);
    if s == "" then None
    else if s[0] == '"' then
      match StringBody(s[1..])
      case None => None
      case Some((t, rest)) => Some((Text(t), rest))
    else if s[0] == '[' then
      if Starts(SkipSpace(s[1..]), ']') then Some((Array([]), SkipSpace(s[1..])[1..]))
      else
        match ParseItems(s[1..])
        case None => None
        case Some((items, rest)) => Some((Array(items), rest))
    else if s[0] == '{' then
      if Starts(SkipSpace(s[1..]), '}') then Some((Object([]), SkipSpace(s[1..])[1..]))
      else
        match ParseMembers(s[1..])
        case None => None
        case Some((members, rest)) => Some((Object(members), rest))
    else
      var n := TokenLength(s);
      if IsLiteral(s[..n]) then Some((Literal(s[..n]), s[n..])) else None
  }

  /** One or more values separated by commas, and the closing bracket. */
  function ParseItems(s: string): (r: Option<(seq<Json>, string)>)
    ensures r.Some? ==> |r.value.1| < |s|
    decreases |s|, 2
  {
    match ParseValue(s)
    case None => None
    case Some((v, rest)) =>
      var next := SkipSpace(rest);
      if Starts(next, ']') then Some(([v], next[1..]))
      else if Starts(next, ',') then
        match ParseItems(next[1..])
        case None => None
        case Some((items, end)) => Some(([v] + items, end))
      else None
  }

  /** One or more members separated by commas, and the closing brace. */
  function ParseMembers(text: string): (r: Option<(seq<Member>, string)>)
    ensures r.Some? ==> |r.value.1| < |text|
    decreases |text|, 2
  {
    var s := SkipSpace(text);
    if !Starts(s, '"') then None
    else
      match StringBody(s[1..])
      case None => None
      case Some((name, afterName)) =>
        var colon := SkipSpace(afterName);
        if !Starts(colon, ':') then None
        else
          match ParseValue(colon[1..])
          case None => None
          case Some((v, rest)) =>
            var next := SkipSpace(rest);
            if Starts(next, '}') then Some(([Member(name, v)], next[1..]))
            else if Starts(next, ',') then
              match ParseMembers(next[1..])
              case None => None
              case Some((members, end)) => Some(([Member(name, v)] + members, end))
            else None
  }

  // ------------------------------------------------------------------ printing

  function Comma(space: bool): string {
    if space then ", " else ","
  }

  function Colon(space: bool): string {
    if space then ": " else ":"
  }

  function Print(v: Json, space: bool): string
    decreases v, 0
  {
    match v
    case Text(s) => Quote(s)
    case Literal(token) => token
    case Array(items) => "[" + PrintItems(items, space) + "]"
    case Object(members) => "{" + PrintMembers(members, space) + "}"
  }

  function PrintItems(items: seq<Json>, space: bool): string
    decreases items, 0
  {
    if items == [] then ""
    else Print(items[0], space) + (if |items| == 1 then "" else Comma(space) + PrintItems(items[1..], space))
  }

  function PrintMember(m: Member, space: bool): string
    decreases m, 1
  {
    Quote(m.name) + Colon(space) + Print(m.value, space)
  }

  function PrintMembers(members: seq<Member>, space: bool): string
    decreases members, 0
  {
    if members == [] then ""
    else
      PrintMember(members[0], space)
      + (if |members| == 1 then "" else Comma(space) + PrintMembers(members[1..], space))
  }

  /** Every literal in the tree is a JSON literal. */
  ghost predicate Printable(v: Json)
    decreases v, 0
  {
    match v
    case Text(_) => true
    case Literal(token) => IsLiteral(token)
    case Array(items) => PrintableItems(items)
    case Object(members) => PrintableMembers(members)
  }

  ghost predicate PrintableItems(items: seq<Json>)
    decreases items, 0
  {
    items == [] || (Printable(items[0]) && PrintableItems(items[1..]))
  }

  ghost predicate PrintableMembers(members: seq<Member>)
    decreases members, 0
  {
    members == [] || (Printable(members[0].value) && PrintableMembers(members[1..]))
  }

  /** Text that cannot continue a literal. */
  predicate Delimits(rest: string) {
    rest == "" || !IsTokenChar(rest[0])
  }

  lemma {:induction false} TokenEnds(token: string, rest: string)
    requires (forall i :: 0 <= i < |token| ==> IsTokenChar(token[i])) && Delimits(rest)
    ensures TokenLength(token + rest) == |token|
  {
    if token == "" {
      assert token + rest == rest;
    } else {
      assert (token + rest)[1..] == token[1..] + rest;
      TokenEnds(token[1..], rest);
    }
  }

  /** No value's text starts with white space or with a closing bracket. */
  lemma PrintStarts(v: Json, space: bool)
    requires Printable(v)
    ensures var s := Print(v, space); s != "" && !IsSpace(s[0]) && s[0] != ']' && s[0] != '}'
  {
  }

  lemma SpaceSkipped(s: string)
    ensures SkipSpace(" " + s) == SkipSpace(s)
  {
    assert (" " + s)[1..] == s;
  }

  lemma SpaceBeforeValue(s: string)
    ensures ParseValue(" " + s) == ParseValue(s)
    ensures ParseItems(" " + s) == ParseItems(s)
    ensures ParseMembers(" " + s) == ParseMembers(s)
  {
    hide IsLiteral, StringBody, SkipSpace;
    SpaceSkipped(s);
  }

  /** Every printed tree is JSON text that parses back to the tree. */
  lemma {:induction false} PrintRoundTrips(v: Json, space: bool, rest: string)
    requires Printable(v) && (v.Literal? ==> Delimits(rest))
    ensures ParseValue(Print(v, space) + rest) == Some((v, rest))
    decreases v, 1
  {
    hide IsNumber, StringBody, Escape, ParseItems, ParseMembers, PrintItems, PrintMembers;
    var s := Print(v, space) + rest;
    PrintStarts(v, space);
    assert s[0] == Print(v, space)[0];
    assert SkipSpace(s) == s;
    match v {
      case Text(t) =>
        EscapeRoundTrips(t, rest);
        assert s[1..] == Escape(t) + "\"" + rest;
      case Literal(token) =>
        TokenEnds(token, rest);
        assert IsTokenChar(token[0]);
        assert s[..|token|] == token && s[|token|..] == rest;
      case Array(items) =>
        ArrayRoundTrips(items, space, rest);
      case Object(members) =>
        ObjectRoundTrips(members, space, rest);
    }
  }

  lemma {:induction false} ArrayRoundTrips(items: seq<Json>, space: bool, rest: string)
    requires PrintableItems(items)
    ensures ParseValue(Print(Array(items), space) + rest) == Some((Array(items), rest))
    decreases items, 2
  {
    hide IsNumber, StringBody, Escape, ParseItems, ParseMembers;
    var s := Print(Array(items), space) + rest;
    var inner := PrintItems(items, space) + "]" + rest;
    assert s[1..] == inner;
    if items == [] {
      assert inner == "]" + rest;
      assert ("]" + rest)[1..] == rest;
    } else {
      ItemsRoundTrip(items, space, rest);
      PrintStarts(items[0], space);
      assert inner[0] == Print(items[0], space)[0];
      assert SkipSpace(inner) == inner;
    }
  }

  lemma {:induction false} ObjectRoundTrips(members: seq<Member>, space: bool, rest: string)
    requires PrintableMembers(members)
    ensures ParseValue(Print(Object(members), space) + rest) == Some((Object(members), rest))
    decreases members, 2
  {
    hide IsNumber, StringBody, Escape, ParseItems, ParseMembers;
    var s := Print(Object(members), space) + rest;
    var inner := PrintMembers(members, space) + "}" + rest;
    assert s[1..] == inner;
    if members == [] {
      assert inner == "}" + rest;
      assert ("}" + rest)[1..] == rest;
    } else {
      MembersRoundTrip(members, space, rest);
      assert inner[0] == '"';
      assert SkipSpace(inner) == inner;
    }
  }

  /** What follows an item that is not the last one, or the last one. */
  function ItemsTail(items: seq<Json>, space: bool, rest: string): string
    requires items != []
  {
    if |items| == 1 then "]" + rest else Comma(space) + (PrintItems(items[1..], space) + "]" + rest)
  }

  lemma ItemsText(items: seq<Json>, space: bool, rest: string)
    requires items != []
    ensures PrintItems(items, space) + "]" + rest == Print(items[0], space) + ItemsTail(items, space, rest)
  {
    hide Print;
  }

  /** After the comma and its optional space. */
  lemma CommaSkipped(space: bool, s: string)
    ensures SkipSpace(Comma(space) + s) == Comma(space) + s && Starts(Comma(space) + s, ',')
    ensures (Comma(space) + s)[1..] == if space then " " + s else s
  {
  }

  lemma {:induction false} ItemsRoundTrip(items: seq<Json>, space: bool, rest: string)
    requires items != [] && PrintableItems(items)
    ensures ParseItems(PrintItems(items, space) + "]" + rest) == Some((items, rest))
    decreases items, 0
  {
    hide ParseValue, IsLiteral, Print, PrintItems, Comma;
    var tail := ItemsTail(items, space, rest);
    ItemsText(items, space, rest);
    if |items| == 1 {
      PrintRoundTrips(items[0], space, tail);
      assert tail[1..] == rest && SkipSpace(tail) == tail;
      assert [items[0]] == items;
    } else {
      var more := PrintItems(items[1..], space) + "]" + rest;
      CommaSkipped(space, more);
      SpaceBeforeValue(more);
      PrintRoundTrips(items[0], space, tail);
      ItemsRoundTrip(items[1..], space, rest);
      assert [items[0]] + items[1..] == items;
    }
  }

  function MembersTail(members: seq<Member>, space: bool, rest: string): string
    requires members != []
  {
    if |members| == 1 then "}" + rest else Comma(space) + (PrintMembers(members[1..], space) + "}" + rest)
  }

  /** The value of a member, and what follows it. */
  function MemberTail(members: seq<Member>, space: bool, rest: string): string
    requires members != []
  {
    Print(members[0].value, space) + MembersTail(members, space, rest)
  }

  lemma MembersText(members: seq<Member>, space: bool, rest: string)
    requires members != []
    ensures PrintMembers(members, space) + "}" + rest
      == "\"" + (Escape(members[0].name) + "\"" + (Colon(space) + MemberTail(members, space, rest)))
  {
    hide Print, Escape, Comma, Colon, PrintMembers;
    var m := members[0];
    Regroup(Escape(m.name), Colon(space), Print(m.value, space), MembersTail(members, space, rest));
    MembersHead(members, space, rest);
  }

  lemma MembersHead(members: seq<Member>, space: bool, rest: string)
    requires members != []
    ensures PrintMembers(members, space) + "}" + rest
      == PrintMember(members[0], space) + MembersTail(members, space, rest)
  {
  }

  lemma Regroup(name: string, colon: string, value: string, tail: string)
    ensures "\"" + name + "\"" + colon + value + tail == "\"" + (name + "\"" + (colon + (value + tail)))
  {
  }

  lemma ColonSkipped(space: bool, s: string)
    ensures SkipSpace(Colon(space) + s) == Colon(space) + s && Starts(Colon(space) + s, ':')
    ensures (Colon(space) + s)[1..] == if space then " " + s else s
  {
  }

  /** A member is read up to the text that follows its value. */
  lemma MemberParses(members: seq<Member>, space: bool, rest: string)
    requires members != []
    ensures var s := PrintMembers(members, space) + "}" + rest;
      var colon := Colon(space) + MemberTail(members, space, rest);
      && SkipSpace(s) == s && Starts(s, '"')
      && StringBody(s[1..]) == Some((members[0].name, colon))
      && SkipSpace(colon) == colon && Starts(colon, ':')
      && ParseValue(colon[1..]) == ParseValue(MemberTail(members, space, rest))
  {
    hide ParseValue, StringBody, Escape, PrintMembers, MemberTail, Colon;
    var name := members[0].name;
    var tail := MemberTail(members, space, rest);
    var s := PrintMembers(members, space) + "}" + rest;
    MembersText(members, space, rest);
    ColonSkipped(space, tail);
    SpaceBeforeValue(tail);
    EscapeRoundTrips(name, Colon(space) + tail);
    assert s[1..] == Escape(name) + "\"" + (Colon(space) + tail);
  }

  lemma {:induction false} MembersRoundTrip(members: seq<Member>, space: bool, rest: string)
    requires members != [] && PrintableMembers(members)
    ensures ParseMembers(PrintMembers(members, space) + "}" + rest) == Some((members, rest))
    decreases members, 0
  {
    hide ParseValue, StringBody, Escape, IsLiteral, Print, PrintMembers, Comma, Colon;
    var m := members[0];
    var tail := MembersTail(members, space, rest);
    MemberParses(members, space, rest);
    if |members| == 1 {
      PrintRoundTrips(m.value, space, tail);
      assert tail[1..] == rest && SkipSpace(tail) == tail;
      assert [m] == members;
    } else {
      var more := PrintMembers(members[1..], space) + "}" + rest;
      CommaSkipped(space, more);
      SpaceBeforeValue(more);
      PrintRoundTrips(m.value, space, tail);
      MembersRoundTrip(members[1..], space, rest);
      assert [m] + members[1..] == members;
    }
  }

  // ------------------------------------------------------------------ the in-place escaper

  /** The largest MaxCapacity of a buffer of 16-bit characters. */
  const MAX_CHARS := 0x7fff_fffe

  /**
   AppendStringAsJson: reserves room for the unescaped string, and shifts its output offset (and
   grows the buffer) every time an escape turns out to be needed.
   */
  method AppendStringAsJson(output: Buffer<char>, input: string) returns (status: Status)
    requires output.Valid() && output.maxCapacity <= MAX_CHARS && |input| <= MAX_CHARS
    modifies output, output.data
    ensures output.Valid() && (output.data == old(output.data) || fresh(output.data))
    ensures status == Success || status == OutOfMemory
    ensures status == Success ==> output.Contents() == old(output.Contents()) + Quote(input)
    ensures status != Success ==> old(output.Contents()) <= output.Contents()
  {
    hide EscapeChar, Escape, GrownCapacity, EscapedUpTo, Quote;
    ghost var before := output.Contents();
    ghost var prefix := before + "\"";
    var baseSize := |input| + 1;
    var offset := output.size + 1;
    assert baseSize + offset < 0x1_0000_0000;
    var ok := OpenString(output, baseSize);
    if !ok {
      return OutOfMemory;
    }
    EscapedFromStart(prefix, input);
    var i := 0;
    while i != |input|
      invariant i <= |input| && output.Valid()
      invariant output.data == old(output.data) || fresh(output.data)
      invariant offset >= |prefix| && output.size == baseSize + offset
      invariant output.data[..offset + i] == EscapedUpTo(prefix, input, i)
    {
      EscapedOneMore(prefix, input, i);
      status, offset := EscapeAt(output, baseSize, offset, i, input[i]);
      if status != Success {
        EscapedKeeps(before, input, i, output.Contents());
        return;
      }
      i := i + 1;
    }
    CloseString(output);
    QuoteAssociates(before, input);
    status := Success;
  }

  /** Makes room for `baseSize` characters after an opening quote. */
  method OpenString(output: Buffer<char>, baseSize: nat) returns (ok: bool)
    requires output.Valid() && baseSize > 0
    modifies output, output.data
    ensures output.Valid() && (output.data == old(output.data) || fresh(output.data))
    ensures ok ==> output.size == baseSize + old(output.size) + 1
    ensures ok ==> output.data[..old(output.size) + 1] == old(output.Contents()) + "\""
    ensures !ok ==> output.Contents() == old(output.Contents())
  {
    hide GrownCapacity;
    var size := output.size;
    ok := output.Resize(baseSize + size + 1, true);
    if ok {
      assert output.data[..size] == old(output.Contents());
      output.data[size] := '"';
      assert output.data[..size + 1] == old(output.Contents()) + "\"";
    }
  }

  /** The closing quote goes to the last reserved place. */
  method CloseString(output: Buffer<char>)
    requires output.Valid() && output.size > 0
    modifies output.data
    ensures output.Valid() && output.Contents() == old(output.data[..output.size - 1]) + "\""
  {
    output.data[output.size - 1] := '"';
    assert output.data[..output.size - 1] == old(output.data[..output.size - 1]);
  }

  /** The output while the first `i` characters have been escaped. */
  ghost function EscapedUpTo(prefix: string, input: string, i: nat): string
    requires i <= |input|
  {
    prefix + Escape(input[..i])
  }

  lemma EscapedFromStart(prefix: string, input: string)
    ensures EscapedUpTo(prefix, input, 0) == prefix
  {
  }

  lemma EscapedOneMore(prefix: string, input: string, i: nat)
    requires i < |input|
    ensures EscapedUpTo(prefix, input, i + 1) == EscapedUpTo(prefix, input, i) + EscapeChar(input[i])
  {
    hide EscapeChar, Escape;
    assert input[..i + 1] == input[..i] + [input[i]];
    EscapeAppends(input[..i], input[i]);
  }

  lemma EscapedKeeps(before: string, input: string, i: nat, contents: string)
    requires i <= |input| && EscapedUpTo(before + "\"", input, i) <= contents
    ensures before <= contents
  {
    hide Escape;
  }

  lemma QuoteAssociates(before: string, input: string)
    ensures EscapedUpTo(before + "\"", input, |input|) + "\"" == before + Quote(input)
  {
    hide Escape;
    assert input[..|input|] == input;
  }

  /** One turn of the loop: character `i` goes to `offset + i`, after the shift its escape needs. */
  method EscapeAt(output: Buffer<char>, baseSize: nat, offset: nat, i: nat, c: char)
    returns (status: Status, shifted: nat)
    requires output.Valid() && output.maxCapacity <= MAX_CHARS
    requires i + 1 < baseSize && 1 <= offset && output.size == baseSize + offset
    modifies output, output.data
    ensures output.Valid() && (output.data == old(output.data) || fresh(output.data))
    ensures status == Success || status == OutOfMemory
    ensures status == Success ==>
      shifted >= offset && output.size == baseSize + shifted
      && output.data[..shifted + i + 1] == old(output.data[..offset + i]) + EscapeChar(c)
    ensures status != Success ==>
      output.size >= offset + i && output.data[..offset + i] == old(output.data[..offset + i])
  {
    hide GrownCapacity, EscapeChar;
    shifted := offset;
    status := Success;
    ghost var written := output.data[..offset + i];
    var short := ShortEscape(c);
    if IsControl(c) && short.None? {
      assert baseSize + offset + 5 < 0x1_0000_0000;
      var ok := output.Resize(baseSize + offset + 5, true);
      if !ok {
        return OutOfMemory, offset;
      }
      shifted := offset + 5;
      assert output.data[..offset + i] == written;
      WriteHex(output, shifted + i, c);
    } else if IsControl(c) || c == '"' || c == '\\' {
      assert baseSize + offset + 1 < 0x1_0000_0000;
      var ok := output.Resize(baseSize + offset + 1, true);
      if !ok {
        return OutOfMemory, offset;
      }
      shifted := offset + 1;
      assert output.data[..offset + i] == written;
      WritePair(output, shifted + i, if IsControl(c) then short.value else c);
      EscapesShortly(c);
    } else {
      output.data[offset + i] := c;
      EscapesShortly(c);
      assert output.data[..offset + i + 1] == written + [c];
    }
  }

  lemma EscapesShortly(c: char)
    requires !IsControl(c) || ShortEscape(c).Some?
    ensures EscapeChar(c)
      == if IsControl(c) then ['\\', ShortEscape(c).value] else if c == '"' || c == '\\' then ['\\', c] else [c]
  {
  }

  /** Something like "\u001F", ending at index `last`. */
  method WriteHex(output: Buffer<char>, last: nat, c: char)
    requires output.Valid() && 5 <= last < output.size && IsControl(c) && ShortEscape(c).None?
    modifies output.data
    ensures output.Valid() && output.data[..last + 1] == old(output.data[..last - 5]) + EscapeChar(c)
  {
    output.data[last - 5] := '\\';
    output.data[last - 4] := 'u';
    output.data[last - 3] := '0';
    output.data[last - 2] := '0';
    output.data[last - 1] := D.DigitChar(c as int / 16, true);
    output.data[last] := D.DigitChar(c as int % 16, true);
    assert output.data[..last - 5] == old(output.data[..last - 5]);
    assert output.data[..last + 1] == output.data[..last - 5] + output.data[last - 5..last + 1];
    assert output.data[last - 5..last + 1] == EscapeChar(c);
  }

  /** Something like "\\" or "\r", ending at index `last`. */
  method WritePair(output: Buffer<char>, last: nat, c: char)
    requires output.Valid() && 1 <= last < output.size
    modifies output.data
    ensures output.Valid() && output.data[..last + 1] == old(output.data[..last - 1]) + ['\\', c]
  {
    output.data[last - 1] := '\\';
    output.data[last] := c;
    assert output.data[..last - 1] == old(output.data[..last - 1]);
  }
}
