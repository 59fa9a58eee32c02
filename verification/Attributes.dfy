/** Event attribute strings: NAME=Value;NAME="quoted ""value""", split into pairs and searched. */
module Attributes {
  import opened Basics
  import opened GrowableBuffer

  // ------------------------------------------------------------------ what a string stands for

  datatype Pair = Pair(name: string, value: string)

  /** The text of a quoted region whose opening quote precedes `i`, and where reading continues. */
  function Quoted(s: string, i: nat): (r: (string, nat))
    requires i <= |s|
    ensures i <= r.1 <= |s| && |r.0| <= r.1 - i
    decreases |s| - i
  {
    if i == |s| then ("", i)
    else if s[i] != '"' then
      var (rest, j) := Quoted(s, i + 1);
      ([s[i]] + rest, j)
    else if i + 1 < |s| && s[i + 1] == '"' then
      var (rest, j) := Quoted(s, i + 2);
      (['"'] + rest, j)
    else ("", i + 1)
  }

  /** A name ends at '=' or ';', a value only at ';'. */
  predicate IsEnd(c: char, inName: bool) {
    c == ';' || (inName && c == '=')
  }

  /** The unquoted text from `i` up to an end character, and the position after that character. */
  function Field(s: string, i: nat, inName: bool): (r: (string, nat))
    requires i <= |s|
    ensures i <= r.1 <= |s| && |r.0| <= r.1 - i && (i < |s| ==> i < r.1)
    ensures r.1 == |s| || |r.0| < r.1 - i
    ensures r.1 > i && IsEnd(s[r.1 - 1], inName) ==> |r.0| < r.1 - i
    decreases |s| - i
  {
    if i == |s| then ("", i)
    else if IsEnd(s[i], inName) then ("", i + 1)
    else if s[i] != '"' then
      var (rest, j) := Field(s, i + 1, inName);
      ([s[i]] + rest, j)
    else
      var (region, j) := Quoted(s, i + 1);
      var (rest, k) := Field(s, j, inName);
      (region + rest, k)
  }

  /** The attribute at `i`, and where the next one starts. */
  function Attribute(s: string, i: nat): (r: (Pair, nat))
    requires i < |s|
    ensures i < r.1 <= |s|
    ensures |r.0.name| <= r.1 - i && |r.0.value| <= r.1 - i
  {
    var (name, j) := Field(s, i, true);
    if s[j - 1] == '=' then
      var (value, k) := Field(s, j, false);
      (Pair(name, value), k)
    else (Pair(name, ""), j)
  }

  /** The attributes from `i` on; a pair without name and value is not an attribute. */
  function Split(s: string, i: nat): seq<Pair>
    requires i <= |s|
    decreases |s| - i
  {
    if i == |s| then []
    else
      var (p, next) := Attribute(s, i);
      (if p == Pair("", "") then [] else [p]) + Split(s, next)
  }

  /** The value that the search finds from `i` on. */
  function Lookup(s: string, i: nat, name: string): Option<string>
    requires i <= |s|
    decreases |s| - i
  {
    if i == |s| then None
    else
      var (p, next) := Attribute(s, i);
      if p.name == name then Some(p.value) else Lookup(s, next, name)
  }

  /** The value of the first pair with the given name. */
  function First(pairs: seq<Pair>, name: string): Option<string> {
    if pairs == [] then None
    else if pairs[0].name == name then Some(pairs[0].value)
    else First(pairs[1..], name)
  }

  // ------------------------------------------------------------------ properties

  /** The first attribute without a name, if there is one, has a value: the pairs left out do not matter. */
  predicate NoBareFirst(s: string, i: nat)
    requires i <= |s|
    decreases |s| - i
  {
    if i == |s| then true
    else
      var (p, next) := Attribute(s, i);
      if p.name == "" then p.value != "" else NoBareFirst(s, next)
  }

  /**
   For every string and every name: searching finds what splitting lists first, except for the empty
   name when the first attribute without a name has no value either.
   */
  lemma {:induction false} LookupIsFirst(s: string, i: nat, name: string)
    requires i <= |s|
    ensures Lookup(s, i, name) == First(Split(s, i), name) <==> name != "" || NoBareFirst(s, i)
    decreases |s| - i
  {
    hide Attribute;
    if i == |s| {
    } else {
      var (p, next) := Attribute(s, i);
      LookupIsFirst(s, next, name);
      BareIsNotListed(s, i);
      var rest := Split(s, next);
      if p == Pair("", "") {
        assert [] + rest == rest;
      } else {
        assert ([p] + rest)[1..] == rest;
      }
    }
  }

  lemma {:induction false} BareIsNotListed(s: string, i: nat)
    requires i <= |s|
    ensures First(Split(s, i), "") != Some("")
    decreases |s| - i
  {
    hide Attribute;
    if i == |s| {
    } else {
      var (p, next) := Attribute(s, i);
      BareIsNotListed(s, next);
      var rest := Split(s, next);
      if p == Pair("", "") {
        assert [] + rest == rest;
      } else {
        assert ([p] + rest)[1..] == rest;
      }
    }
  }

  /** The exception occurs: the search also stops at pairs that splitting leaves out. */
  lemma EmptyNameDiffers()
    ensures Lookup(";=v", 0, "") == Some("") && First(Split(";=v", 0), "") == Some("v")
  {
    var s := ";=v";
    assert Field(s, 0, true) == ("", 1) && Field(s, 1, true) == ("", 2);
    assert Field(s, 3, false) == ("", 3) && ['v'] + "" == "v" && Field(s, 2, false) == ("v", 3);
    assert Attribute(s, 0) == (Pair("", ""), 1) && Attribute(s, 1) == (Pair("", "v"), 3);
    assert Split(s, 3) == [] && Split(s, 1) == [Pair("", "v")] && Split(s, 0) == [Pair("", "v")];
  }

  /** Writing an attribute: its name, its value and their terminators need what was read, plus one at the very end. */
  lemma AttributeFits(s: string, i: nat)
    requires i < |s|
    ensures var (p, next) := Attribute(s, i); var (name, j) := Field(s, i, true);
      && |name| + 1 <= j - i + (if j == |s| then 1 else 0)
      && |p.name| + (if s[j - 1] == '=' then |p.value| + 2 else 1) <= next - i + (if next == |s| then 1 else 0)
  {
  }

  // ------------------------------------------------------------------ round trip

  function Doubled(s: string): string {
    if s == "" then "" else (if s[0] == '"' then "\"\"" else [s[0]]) + Doubled(s[1..])
  }

  /** Quotes and semicolons need quoting, and an equal sign in a name; in a value it does not. */
  predicate IsPlain(s: string, inName: bool) {
    '"' !in s && ';' !in s && (inName ==> '=' !in s)
  }

  /** A name or a value, quoted when it must be, and otherwise when `quote` says so. */
  function WriteField(s: string, quote: string -> bool, inName: bool): string {
    if IsPlain(s, inName) && !quote(s) then s else "\"" + Doubled(s) + "\""
  }

  function WritePair(p: Pair, quote: string -> bool): string {
    WriteField(p.name, quote, true) + ("=" + WriteField(p.value, quote, false))
  }

  function Write(pairs: seq<Pair>, quote: string -> bool): string {
    if pairs == [] then ""
    else if |pairs| == 1 then WritePair(pairs[0], quote)
    else WritePair(pairs[0], quote) + (";" + Write(pairs[1..], quote))
  }

  /** `text` is what `s` holds from `i` on. */
  predicate At(s: string, i: nat, text: string) {
    i + |text| <= |s| && s[i..i + |text|] == text
  }

  lemma {:induction false} QuotedReads(s: string, i: nat, text: string)
    requires At(s, i, Doubled(text) + "\"")
    requires i + |Doubled(text)| + 1 < |s| ==> s[i + |Doubled(text)| + 1] != '"'
    ensures Quoted(s, i) == (text, i + |Doubled(text)| + 1)
    decreases |text|
  {
    hide At;
    if text == "" {
      assert "" + "\"" == "\"";
      AtChar(s, i, '"');
    } else {
      var (head, tail) := (if text[0] == '"' then "\"\"" else [text[0]], Doubled(text[1..]) + "\"");
      Associate(head, Doubled(text[1..]), "\"");
      AtParts(s, i, head, tail);
      if text[0] == '"' {
        AtParts(s, i, "\"", "\"");
        AtChar(s, i + 1, '"');
        AtChar(s, i, '"');
      } else {
        AtChar(s, i, text[0]);
      }
      QuotedReads(s, i + |head|, text[1..]);
      assert [text[0]] + text[1..] == text;
    }
  }

  lemma AtParts(s: string, i: nat, a: string, b: string)
    requires At(s, i, a + b)
    ensures At(s, i, a) && At(s, i + |a|, b)
  {
    assert s[i..i + |a|] == s[i..i + |a + b|][..|a|];
    assert s[i + |a|..i + |a| + |b|] == s[i..i + |a + b|][|a|..];
  }

  /** Where a field ends: at the end of the string, or at an end character. */
  predicate EndsAt(s: string, j: nat, inName: bool) {
    j == |s| || (j < |s| && IsEnd(s[j], inName))
  }

  lemma {:induction false} PlainReads(s: string, i: nat, text: string, inName: bool)
    requires IsPlain(text, inName) && At(s, i, text) && EndsAt(s, i + |text|, inName)
    ensures Field(s, i, inName) == (text, if i + |text| == |s| then |s| else i + |text| + 1)
    decreases |text|
  {
    hide Quoted;
    if text == "" {
    } else {
      AtParts(s, i, [text[0]], text[1..]);
      assert [text[0]] + text[1..] == text;
      assert s[i] == s[i..i + |text|][0] == text[0] && text[0] in text;
      PlainReads(s, i + 1, text[1..], inName);
    }
  }

  lemma QuotedFieldReads(s: string, i: nat, text: string, inName: bool)
    requires var j := i + |Doubled(text)| + 2; At(s, i, "\"" + (Doubled(text) + "\"")) && EndsAt(s, j, inName)
    ensures var j := i + |Doubled(text)| + 2; Field(s, i, inName) == (text, if j == |s| then |s| else j + 1)
  {
    hide Quoted, Field, Doubled, At;
    var j := i + |Doubled(text)| + 2;
    AtParts(s, i, "\"", Doubled(text) + "\"");
    AtChar(s, i, '"');
    QuotedReads(s, i + 1, text);
    FieldStep(s, i, inName);
    if j == |s| {
      FieldEnds(s, inName);
    } else {
      FieldStep(s, j, inName);
    }
    assert text + "" == text;
  }

  /** Unquoted text is part of the field, whatever follows it. */
  lemma {:induction false} PlainGoesOn(s: string, i: nat, text: string, inName: bool)
    requires IsPlain(text, inName) && At(s, i, text)
    ensures var (rest, k) := Field(s, i + |text|, inName); Field(s, i, inName) == (text + rest, k)
    decreases |text|
  {
    hide Quoted;
    var (rest, _) := Field(s, i + |text|, inName);
    if text == "" {
      assert text + rest == rest;
    } else {
      assert [text[0]] + text[1..] == text;
      AtParts(s, i, [text[0]], text[1..]);
      AtChar(s, i, text[0]);
      assert text[0] in text;
      PlainGoesOn(s, i + 1, text[1..], inName);
      Associate([text[0]], text[1..], rest);
    }
  }

  /** So is quoted text, which may stand anywhere in a field. */
  lemma QuotedGoesOn(s: string, i: nat, text: string, inName: bool)
    requires At(s, i, "\"" + (Doubled(text) + "\""))
    requires var j := i + |Doubled(text)| + 2; j < |s| ==> s[j] != '"'
    ensures var (rest, k) := Field(s, i + |Doubled(text)| + 2, inName); Field(s, i, inName) == (text + rest, k)
  {
    hide Quoted, Field, Doubled, At;
    AtParts(s, i, "\"", Doubled(text) + "\"");
    AtChar(s, i, '"');
    QuotedReads(s, i + 1, text);
    FieldStep(s, i, inName);
  }

  /** A quoted text that is never closed goes to the end. */
  lemma {:induction false} UnclosedReads(s: string, i: nat, text: string)
    requires At(s, i, Doubled(text)) && i + |Doubled(text)| == |s|
    ensures Quoted(s, i) == (text, |s|)
    decreases |text|
  {
    hide At;
    if text == "" {
    } else {
      var (head, tail) := (if text[0] == '"' then "\"\"" else [text[0]], Doubled(text[1..]));
      AtParts(s, i, head, tail);
      if text[0] == '"' {
        AtParts(s, i, "\"", "\"");
        AtChar(s, i + 1, '"');
        AtChar(s, i, '"');
      } else {
        AtChar(s, i, text[0]);
      }
      UnclosedReads(s, i + |head|, text[1..]);
      assert [text[0]] + text[1..] == text;
    }
  }

  /** However a field was written, it is read back, and nothing after its end character is touched. */
  lemma FieldReads(s: string, i: nat, text: string, quote: string -> bool, inName: bool)
    requires At(s, i, WriteField(text, quote, inName)) && EndsAt(s, i + |WriteField(text, quote, inName)|, inName)
    ensures var j := i + |WriteField(text, quote, inName)|;
      Field(s, i, inName) == (text, if j == |s| then |s| else j + 1)
  {
    hide Field, Doubled, EndsAt, At, IsPlain;
    if IsPlain(text, inName) && !quote(text) {
      PlainReads(s, i, text, inName);
    } else {
      assert WriteField(text, quote, inName) == "\"" + (Doubled(text) + "\"");
      QuotedFieldReads(s, i, text, inName);
    }
  }

  lemma AttributeReads(s: string, i: nat, p: Pair, quote: string -> bool)
    requires At(s, i, WritePair(p, quote)) && EndsAt(s, i + |WritePair(p, quote)|, false)
    ensures var j := i + |WritePair(p, quote)|; i < |s| && Attribute(s, i) == (p, if j == |s| then |s| else j + 1)
  {
    hide WriteField, Field, At;
    var (name, value) := (WriteField(p.name, quote, true), WriteField(p.value, quote, false));
    AtParts(s, i, name, "=" + value);
    AtParts(s, i + |name|, "=", value);
    AtChar(s, i + |name|, '=');
    FieldReads(s, i, p.name, quote, true);
    FieldReads(s, i + |name| + 1, p.value, quote, false);
  }

  /** A name alone, without an equal sign, is an attribute without a value. */
  lemma BareNameReads(s: string, i: nat, name: string, quote: string -> bool)
    requires i < |s| && At(s, i, WriteField(name, quote, true)) && EndsAt(s, i + |WriteField(name, quote, true)|, false)
    ensures var j := i + |WriteField(name, quote, true)|;
      Attribute(s, i) == (Pair(name, ""), if j == |s| then |s| else j + 1)
  {
    hide WriteField, Field, At;
    var j := i + |WriteField(name, quote, true)|;
    FieldReads(s, i, name, quote, true);
    if j == |s| {
      LastIsNoEqualSign(s, i, name, quote);
    }
  }

  /** A field that was written for a name and goes to the end does not end in an equal sign. */
  lemma LastIsNoEqualSign(s: string, i: nat, name: string, quote: string -> bool)
    requires i < |s| && At(s, i, WriteField(name, quote, true)) && i + |WriteField(name, quote, true)| == |s|
    ensures s[|s| - 1] != '='
  {
    hide Doubled;
    var text := WriteField(name, quote, true);
    assert s[i..][|text| - 1] == s[|s| - 1] == text[|text| - 1];
  }

  /** Semicolons with nothing between them stand for nothing. */
  lemma EmptySegment(s: string, i: nat)
    requires i < |s| && s[i] == ';'
    ensures Split(s, i) == Split(s, i + 1)
  {
    hide Field, Split;
    FieldStep(s, i, true);
    SplitNothing(s, i);
  }

  lemma SplitNothing(s: string, i: nat)
    requires i < |s| && Attribute(s, i) == (Pair("", ""), i + 1)
    ensures Split(s, i) == Split(s, i + 1)
  {
    hide Attribute;
    assert [] + Split(s, i + 1) == Split(s, i + 1);
  }

  /** Printing a list of pairs and splitting the text gives back the list. */
  lemma {:induction false} WriteRoundTrips(s: string, i: nat, pairs: seq<Pair>, quote: string -> bool)
    requires At(s, i, Write(pairs, quote)) && i + |Write(pairs, quote)| == |s|
    requires forall k :: 0 <= k < |pairs| ==> pairs[k] != Pair("", "")
    ensures Split(s, i) == pairs
    decreases |pairs|
  {
    hide WritePair, Attribute, At;
    if pairs == [] {
    } else {
      var j := i + |WritePair(pairs[0], quote)|;
      if |pairs| == 1 {
        AttributeReads(s, i, pairs[0], quote);
        assert Split(s, |s|) == [] && [pairs[0]] + [] == pairs;
      } else {
        AtParts(s, i, WritePair(pairs[0], quote), ";" + Write(pairs[1..], quote));
        AtParts(s, j, ";", Write(pairs[1..], quote));
        AtChar(s, j, ';');
        AttributeReads(s, i, pairs[0], quote);
        WriteRoundTrips(s, j + 1, pairs[1..], quote);
        assert [pairs[0]] + pairs[1..] == pairs;
      }
    }
  }

  lemma AtChar(s: string, i: nat, c: char)
    requires At(s, i, [c])
    ensures i < |s| && s[i] == c
  {
    assert s[i..i + 1][0] == s[i];
  }

  // ------------------------------------------------------------------ the loops

  /** `z` is the memory of the nul-terminated string `s`. */
  ghost predicate Terminated(z: string, s: string) {
    z == s + ['\0'] && '\0' !in s
  }

  lemma CharOf(z: string, s: string, i: nat)
    requires Terminated(z, s) && i <= |s|
    ensures if i < |s| then z[i] == s[i] != '\0' else z[i] == '\0'
  {
  }

  /** SkipQuotedRegion: copies the text of a quoted region to `out`. */
  method SkipQuotedRegion(z: string, ghost s: string, pIn: nat, out: array<char>, pOut: nat) returns (i: nat, o: nat)
    requires Terminated(z, s) && pIn <= |s| && pOut + (|s| - pIn) <= out.Length
    modifies out
    ensures i == Quoted(s, pIn).1 && o == pOut + |Quoted(s, pIn).0| && pOut <= o <= out.Length
    ensures out[..o] == old(out[..pOut]) + Quoted(s, pIn).0
    ensures forall k :: o <= k < out.Length ==> out[k] == old(out[k])
  {
    i, o := pIn, pOut;
    ghost var done := "";
    assert done + Quoted(s, pIn).0 == Quoted(s, pIn).0;
    while z[i] != '\0'
      invariant pIn <= i <= |s| && o == pOut + |done| && o + (|s| - i) <= out.Length
      invariant out[..o] == old(out[..pOut]) + done
      invariant forall k :: o <= k < out.Length ==> out[k] == old(out[k])
      invariant Quoted(s, pIn) == (done + Quoted(s, i).0, Quoted(s, i).1)
      decreases |s| - i
    {
      CharOf(z, s, i);
      var c := z[i];
      i := i + 1;
      CharOf(z, s, i);
      if c == '"' {
        if z[i] != '"' {
          assert Quoted(s, i - 1).0 == "" && done + "" == done;
          return;
        }
        i := i + 1;
      }
      Associate(done, [c], Quoted(s, i).0);
      out[o] := c;
      o := o + 1;
      done := done + [c];
      assert out[..o] == out[..o - 1] + [c];
    }
    CharOf(z, s, i);
    assert done + "" == done;
  }

  lemma FieldStep(s: string, i: nat, inName: bool)
    requires i < |s|
    ensures IsEnd(s[i], inName) ==> Field(s, i, inName) == ("", i + 1)
    ensures !IsEnd(s[i], inName) && s[i] != '"' ==>
      Field(s, i, inName) == ([s[i]] + Field(s, i + 1, inName).0, Field(s, i + 1, inName).1)
    ensures !IsEnd(s[i], inName) && s[i] == '"' ==>
      var q := Quoted(s, i + 1); var f := Field(s, q.1, inName); Field(s, i, inName) == (q.0 + f.0, f.1)
  {
    hide Quoted;
  }

  lemma FieldEnds(s: string, inName: bool)
    ensures Field(s, |s|, inName) == ("", |s|)
  {
  }

  /** SkipTo: copies a field, without its quotes, to `out`. */
  method SkipTo(z: string, ghost s: string, pIn: nat, out: array<char>, pOut: nat, inName: bool)
    returns (i: nat, o: nat)
    requires Terminated(z, s) && pIn <= |s| && pOut + (|s| - pIn) <= out.Length
    modifies out
    ensures i == Field(s, pIn, inName).1 && o == pOut + |Field(s, pIn, inName).0| && pOut <= o <= out.Length
    ensures out[..o] == old(out[..pOut]) + Field(s, pIn, inName).0
    ensures forall k :: o <= k < out.Length ==> out[k] == old(out[k])
  {
    hide Quoted, Field;
    i, o := pIn, pOut;
    ghost var done := "";
    assert done + Field(s, pIn, inName).0 == Field(s, pIn, inName).0;
    while z[i] != '\0'
      invariant pIn <= i <= |s| && o == pOut + |done| && o + (|s| - i) <= out.Length
      invariant out[..o] == old(out[..pOut]) + done
      invariant forall k :: o <= k < out.Length ==> out[k] == old(out[k])
      invariant Field(s, pIn, inName) == (done + Field(s, i, inName).0, Field(s, i, inName).1)
      decreases |s| - i
    {
      CharOf(z, s, i);
      FieldStep(s, i, inName);
      var c := z[i];
      i := i + 1;
      if IsEnd(c, inName) {
        assert done + "" == done;
        return;
      }
      if c != '"' {
        Associate(done, [c], Field(s, i, inName).0);
        out[o] := c;
        o := o + 1;
        done := done + [c];
        assert out[..o] == out[..o - 1] + [c];
      } else {
        ghost var region := Quoted(s, i).0;
        Associate(done, region, Field(s, Quoted(s, i).1, inName).0);
        i, o := SkipQuotedRegion(z, s, i, out, o);
        Associate(old(out[..pOut]), done, region);
        done := done + region;
      }
    }
    CharOf(z, s, i);
    FieldEnds(s, inName);
    assert done + "" == done;
  }

  // ------------------------------------------------------------------ splitting

  /** EtwAttributeInfo; the pointers are offsets into the enumerator's string buffer. */
  datatype AttributeInfo = AttributeInfo(name: nat, value: nat)

  /** The nul-terminated string `s` is at `at`, below `end`. */
  ghost predicate StringAt(out: string, at: nat, s: string) {
    at + |s| < |out| && out[at..at + |s| + 1] == s + ['\0']
  }

  ghost predicate PairAt(out: string, info: AttributeInfo, p: Pair) {
    StringAt(out, info.name, p.name) && StringAt(out, info.value, p.value)
  }

  /** One turn of the loop: what is written never runs ahead of what has been read, except for the last nul. */
  method SplitOne(z: string, ghost s: string, pIn: nat, out: array<char>, pOut: nat)
    returns (i: nat, o: nat, info: AttributeInfo, ghost written: string)
    requires Terminated(z, s) && pIn < |s| && pOut + (|s| - pIn) + 1 <= out.Length
    modifies out
    ensures i == Attribute(s, pIn).1 && pOut <= o <= out.Length
    ensures out[..o] == old(out[..pOut]) + written
    ensures forall k :: o <= k < out.Length ==> out[k] == old(out[k])
    ensures o - pOut <= i - pIn + if i == |s| then 1 else 0
    ensures PairAt(out[..o], info, Attribute(s, pIn).0)
  {
    hide Field, PairAt;
    AttributeFits(s, pIn);
    ghost var below := out[..pOut];
    ghost var (p, _) := Attribute(s, pIn);
    i, o := SkipTo(z, s, pIn, out, pOut, true);
    out[o] := '\0';
    o := o + 1;
    NextIsTerminated(out, below, p.name, o);
    CharOf(z, s, i - 1);
    if z[i - 1] == '=' {
      var valueAt := o;
      i, o := SkipTo(z, s, i, out, o, false);
      out[o] := '\0';
      o := o + 1;
      info := AttributeInfo(pOut, valueAt);
      NextIsTerminated(out, below + (p.name + ['\0']), p.value, o);
      written := p.name + ['\0'] + (p.value + ['\0']);
      PairIsThere(below, p);
    } else {
      info := AttributeInfo(pOut, o - 1);
      written := p.name + ['\0'];
      NameIsThere(below, p);
    }
  }

  lemma NextIsTerminated(out: array<char>, below: string, text: string, o: nat)
    requires 0 < o <= out.Length && out[..o - 1] == below + text && out[o - 1] == '\0'
    ensures out[..o] == below + (text + ['\0'])
  {
  }

  lemma PairIsThere(below: string, p: Pair)
    ensures PairAt(below + (p.name + ['\0'] + (p.value + ['\0'])), AttributeInfo(|below|, |below| + |p.name| + 1), p)
    ensures below + (p.name + ['\0']) + (p.value + ['\0']) == below + (p.name + ['\0'] + (p.value + ['\0']))
  {
  }

  lemma NameIsThere(below: string, p: Pair)
    requires p.value == ""
    ensures PairAt(below + (p.name + ['\0']), AttributeInfo(|below|, |below| + |p.name|), p)
  {
  }

  /** The name or the value is empty exactly when its first character is the nul. */
  lemma {:induction false} FieldIsClean(s: string, i: nat, inName: bool)
    requires i <= |s| && '\0' !in s
    ensures '\0' !in Field(s, i, inName).0
    decreases |s| - i
  {
    hide Quoted;
    if i == |s| || IsEnd(s[i], inName) {
    } else {
      assert s[i] in s;
      if s[i] != '"' {
        FieldIsClean(s, i + 1, inName);
      } else {
        QuotedIsClean(s, i + 1);
        FieldIsClean(s, Quoted(s, i + 1).1, inName);
      }
    }
  }

  lemma {:induction false} QuotedIsClean(s: string, i: nat)
    requires i <= |s| && '\0' !in s
    ensures '\0' !in Quoted(s, i).0
    decreases |s| - i
  {
    if i == |s| {
    } else {
      assert s[i] in s;
      if s[i] != '"' {
        QuotedIsClean(s, i + 1);
      } else if i + 1 < |s| && s[i + 1] == '"' {
        QuotedIsClean(s, i + 2);
      }
    }
  }

  lemma PairIsEmpty(s: string, i: nat, out: string, info: AttributeInfo)
    requires i < |s| && '\0' !in s && PairAt(out, info, Attribute(s, i).0)
    ensures info.name < |out| && info.value < |out|
    ensures out[info.name] == '\0' && out[info.value] == '\0' <==> Attribute(s, i).0 == Pair("", "")
  {
    hide Field;
    var (p, _) := Attribute(s, i);
    FieldIsClean(s, i, true);
    FieldIsClean(s, Field(s, i, true).1, false);
    assert out[info.name] == out[info.name..info.name + |p.name| + 1][0] == (p.name + ['\0'])[0];
    assert out[info.value] == out[info.value..info.value + |p.value| + 1][0] == (p.value + ['\0'])[0];
    assert p.name != "" ==> p.name[0] in p.name;
    assert p.value != "" ==> p.value[0] in p.value;
  }

  /** The entries that have been stored describe the pairs found so far. */
  ghost predicate Stored(out: string, infos: seq<AttributeInfo>, pairs: seq<Pair>) {
    forall k :: 0 <= k < |pairs| && k < |infos| ==> PairAt(out, infos[k], pairs[k])
  }

  lemma StoredRemain(out: string, more: string, infos: seq<AttributeInfo>, pairs: seq<Pair>)
    requires Stored(out, infos, pairs)
    ensures Stored(out + more, infos, pairs)
  {
  }

  lemma SplitStep(s: string, i: nat, found: seq<Pair>)
    requires i < |s| && Split(s, 0) == found + Split(s, i)
    ensures var (p, next) := Attribute(s, i);
      Split(s, 0) == (if p == Pair("", "") then found else found + [p]) + Split(s, next)
  {
  }

  lemma Regroup(found: seq<Pair>, p: Pair, rest: seq<Pair>)
    ensures found + ([] + rest) == found + rest && found + ([p] + rest) == found + [p] + rest
  {
    assert [] + rest == rest;
  }

  /** The loop of SplitEventAttributes. */
  method SplitAll(z: string, ghost s: string, out: array<char>, attributes: array<AttributeInfo>) returns (count: nat)
    requires Terminated(z, s) && out.Length >= |s| + 1
    modifies out, attributes
    ensures count == |Split(s, 0)|
    ensures Stored(out[..|s| + 1], attributes[..], Split(s, 0))
    ensures forall k :: |s| < k < out.Length ==> out[k] == old(out[k])
  {
    hide Attribute, PairAt, Split;
    var i, o := 0, 0;
    count := 0;
    ghost var found: seq<Pair> := [];
    assert found + Split(s, 0) == Split(s, 0);
    while z[i] != '\0'
      invariant i <= |s| && o <= out.Length && o <= i + (if i == |s| then 1 else 0)
      invariant count == |found| && Split(s, 0) == found + Split(s, i)
      invariant Stored(out[..o], attributes[..], found)
      invariant forall k :: o <= k < out.Length ==> out[k] == old(out[k])
      decreases |s| - i
    {
      CharOf(z, s, i);
      ghost var before := out[..o];
      ghost var (p, _) := Attribute(s, i);
      SplitStep(s, i, found);
      var info;
      ghost var written;
      ghost var at := i;
      i, o, info, written := SplitOne(z, s, i, out, o);
      StoredRemain(before, written, attributes[..], found);
      PairIsEmpty(s, at, out[..o], info);
      if out[info.name] != '\0' || out[info.value] != '\0' {
        if count < attributes.Length {
          attributes[count] := info;
        }
        count := count + 1;
        found := found + [p];
      }
    }
    CharOf(z, s, i);
    assert Split(s, |s|) == [] by {
      SplitEnds(s);
    }
    assert found + [] == found;
    assert out[..|s| + 1] == out[..o] + out[o..|s| + 1];
    StoredRemain(out[..o], out[o..|s| + 1], attributes[..], found);
  }

  lemma SplitEnds(s: string)
    ensures Split(s, |s|) == []
  {
  }

  /** SplitEventAttributes: all pairs are counted; as many as there is room for are stored. */
  method SplitEventAttributes(stringBuffer: Buffer<char>, text: Option<string>, attributes: array<AttributeInfo>)
    returns (status: Status, count: nat)
    requires stringBuffer.Valid() && (text.Some? ==> '\0' !in text.value)
    modifies stringBuffer, stringBuffer.data, attributes
    ensures stringBuffer.Valid()
    ensures var pairs := if text.Some? then Split(text.value, 0) else [];
      if status == OutOfMemory then count == 0 && stringBuffer.Contents() == []
      else
        && count == |pairs| && status == (if count <= attributes.Length then Success else InsufficientBuffer)
        && Stored(stringBuffer.Contents(), attributes[..], pairs)
  {
    hide Split, PairAt, GrownCapacity;
    count := 0;
    stringBuffer.Clear();
    if text.None? || text.value == "" {
      SplitEnds("");
      return Success, 0;
    }
    var ok := stringBuffer.Resize(|text.value| + 1, true);
    if !ok {
      return OutOfMemory, 0;
    }
    var z := text.value + ['\0'];
    count := SplitAll(z, text.value, stringBuffer.data, attributes);
    status := if count <= attributes.Length then Success else InsufficientBuffer;
  }

  // ------------------------------------------------------------------ searching

  lemma LookupEnds(s: string, name: string)
    ensures Lookup(s, |s|, name) == None
  {
  }

  lemma LookupStep(s: string, i: nat, name: string)
    requires i < |s|
    ensures var (p, next) := Attribute(s, i);
      && p.name == Field(s, i, true).0
      && Lookup(s, i, name) == if p.name == name then Some(p.value) else Lookup(s, next, name)
  {
    hide Field;
  }

  lemma Parts(out: array<char>, below: string, text: string, o: nat)
    requires o <= out.Length && out[..o] == below + text
    ensures |below| <= o && out[..|below|] == below && out[|below|..o] == text
  {
    assert out[..o][..|below|] == below && out[..o][|below|..] == text;
  }

  /** AppendEventAttribute: uses the room behind the output as scratch space until a name matches. */
  method AppendEventAttribute(output: Buffer<char>, text: string, name: string) returns (status: Status)
    requires output.Valid() && '\0' !in text
    modifies output, output.data
    ensures output.Valid() && (output.data == old(output.data) || fresh(output.data))
    ensures status == Success || status == NotFound || status == OutOfMemory
    ensures var found := Lookup(text, 0, name);
      && (status == Success ==> found.Some? && output.Contents() == old(output.Contents()) + found.value)
      && (status == NotFound ==> found.None?)
      && (status != Success ==> output.Contents() == old(output.Contents()))
    ensures status == OutOfMemory <==> text != "" && !old(output.CanHold(|text| + output.size))
  {
    hide Field, Lookup, GrownCapacity;
    var oldSize := output.size;
    ghost var before := output.Contents();
    if |text| == 0 {
      LookupEnds(text, name);
      return NotFound;
    }
    var ok := output.Reserve(|text| + oldSize, true);
    if !ok {
      return OutOfMemory;
    }
    var z := text + ['\0'];
    var i := 0;
    ghost var data := output.data;
    while z[i] != '\0'
      invariant output.Valid() && output.data == data && |text| + oldSize <= data.Length
      invariant i <= |text| && Lookup(text, 0, name) == Lookup(text, i, name)
      invariant output.Contents() == before && output.size == oldSize
      decreases |text| - i
    {
      CharOf(z, text, i);
      ghost var at := i;
      LookupStep(text, i, name);
      var o;
      i, o := SkipTo(z, text, i, output.data, oldSize, true);
      var matched := |name| == o - oldSize && output.data[oldSize..o] == name;
      Parts(output.data, before, Field(text, at, true).0, o);
      o := oldSize;
      if z[i - 1] == '=' {
        i, o := SkipTo(z, text, i, output.data, oldSize, false);
      }
      assert output.data[..o] == before + Attribute(text, at).0.value;
      if matched {
        output.ResizeUnchecked(o);
        return Success;
      }
      Parts(output.data, before, Attribute(text, at).0.value, o);
    }
    CharOf(z, text, i);
    LookupEnds(text, name);
    status := NotFound;
  }
}
