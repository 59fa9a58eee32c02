/** Printing of IPv6 addresses, and the reading of section 2.2 of RFC 4291 that takes the text back to the address. */
module IPv6 {
  import opened Basics
  import opened GrowableBuffer
  import D = Digits

  // ------------------------------------------------------------------ reading an address

  /** `s` up to the first separator. */
  function Take(s: string, separator: char): (r: string)
    ensures r <= s && (|r| < |s| ==> s[|r|] == separator)
  {
    if s == "" || s[0] == separator then "" else [s[0]] + Take(s[1..], separator)
  }

  function Number(s: string, base: nat, digits: nat): Option<nat> {
    if 1 <= |s| <= digits && (forall i :: 0 <= i < |s| ==> D.IsDigitOf(s[i], base)) then Some(D.NumberOf(s, base))
      else None
  }

  /** Decimal numbers below 256, separated by dots. */
  function Octets(s: string): Option<seq<nat>>
    decreases |s|
  {
    var f := Take(s, '.');
    var n := Number(f, 10, 3);
    if n.None? || n.value > 255 then None
    else if |f| == |s| then Some([n.value])
    else
      var rest := Octets(s[|f| + 1..]);
      if rest.None? then None else Some([n.value] + rest.value)
  }

  /** The last field: a group, or the last two groups in dotted form. */
  function LastField(s: string): Option<seq<nat>> {
    if '.' in s then
      var o := Octets(s);
      if o.None? || |o.value| != 4 then None
      else Some([o.value[0] * 256 + o.value[1], o.value[2] * 256 + o.value[3]])
    else
      var h := Number(s, 16, 4);
      if h.None? then None else Some([h.value])
  }

  /** The groups around a "::". */
  datatype Parts = Parts(before: seq<nat>, gap: bool, after: seq<nat>)

  /** Fields separated by single colons. */
  function Fields(s: string): Option<seq<nat>>
    decreases |s|
  {
    var f := Take(s, ':');
    if |f| == |s| then LastField(s)
    else
      var h := Number(f, 16, 4);
      var rest := Fields(s[|f| + 1..]);
      if h.None? || rest.None? then None else Some([h.value] + rest.value)
  }

  /** What follows a "::"; it may be nothing. */
  function AfterGap(s: string): Option<Parts> {
    if s == "" then Some(Parts([], true, []))
    else
      var rest := Fields(s);
      if rest.None? then None else Some(Parts([], true, rest.value))
  }

  /** Fields separated by colons, one of which may be doubled. */
  function FieldsWithGap(s: string): Option<Parts>
    decreases |s|
  {
    var f := Take(s, ':');
    if |f| == |s| then
      var last := LastField(s);
      if last.None? then None else Some(Parts(last.value, false, []))
    else
      var h := Number(f, 16, 4);
      var rest := if |f| + 1 < |s| && s[|f| + 1] == ':' then AfterGap(s[|f| + 2..]) else FieldsWithGap(s[|f| + 1..]);
      if h.None? || rest.None? then None else Some(rest.value.(before := [h.value] + rest.value.before))
  }

  function Zeros(n: nat): (z: seq<nat>)
    ensures |z| == n && forall i :: 0 <= i < n ==> z[i] == 0
  {
    seq(n, _ => 0)
  }

  /** The eight groups of an address; "::" stands for one or more groups of zeros. */
  function Parse(s: string): Option<seq<nat>> {
    var p := if |s| >= 2 && s[0] == ':' && s[1] == ':' then AfterGap(s[2..]) else FieldsWithGap(s);
    if p.None? then None
    else
      var n := |p.value.before| + |p.value.after|;
      if p.value.gap && n < 8 then Some(p.value.before + Zeros(8 - n) + p.value.after)
      else if !p.value.gap && n == 8 then Some(p.value.before)
      else None
  }

  // ------------------------------------------------------------------ an address in memory

  type Address = b: seq<Byte> | |b| == 16 witness seq(16, _ => 0)

  /** The 16-bit word at index i, with its bytes swapped: the value of the i-th group. */
  function GroupAt(b: Address, i: nat): U16
    requires i < 8
  {
    b[2 * i] as nat * 256 + b[2 * i + 1] as nat
  }

  function Groups(b: Address): (g: seq<nat>)
    ensures |g| == 8 && forall i :: 0 <= i < 8 ==> g[i] == GroupAt(b, i)
  {
    seq(8, i requires 0 <= i < 8 => GroupAt(b, i) as nat)
  }

  /** The 32-bit word at index i, as a little-endian machine reads it. */
  function WordAt(b: Address, i: nat): U32
    requires i < 4
  {
    b[4 * i] as nat + b[4 * i + 1] as nat * 0x100 + b[4 * i + 2] as nat * 0x1_0000 + b[4 * i + 3] as nat * 0x100_0000
  }

  /** n & 0xfffffffd. */
  function WithoutBit1(n: U32): U32 {
    if n / 2 % 2 == 1 then n - 2 else n
  }

  // ------------------------------------------------------------------ the text of an address

  function HexText(n: nat): string {
    D.Render(n, 16, false)
  }

  /** Groups i, ..., j - 1 with colons between them. */
  function Joined(g: seq<nat>, i: nat, j: nat): string
    requires i <= j <= |g|
    decreases j - i
  {
    if i == j then ""
    else if i + 1 == j then HexText(g[i])
    else HexText(g[i]) + (":" + Joined(g, i + 1, j))
  }

  function Dotted(b: Address): string {
    D.Decimal(b[12]) + ("." + (D.Decimal(b[13]) + ("." + (D.Decimal(b[14]) + ("." + D.Decimal(b[15]))))))
  }

  /** Whether the last 32 bits of an address that starts with zeros are printed in dotted form. */
  datatype Special = AllZero | Compatible | Mapped | Translated | General

  function Classify(b: Address): Special {
    if WordAt(b, 0) == 0 && WordAt(b, 1) == 0 then
      if WordAt(b, 2) == 0 && WordAt(b, 3) == 0 then AllZero
      else if b[12] as nat + b[13] as nat * 256 != 0 then
        if WordAt(b, 2) == 0 then Compatible
        else if WordAt(b, 2) == 0xffff_0000 then Mapped
        else if WordAt(b, 2) == 0x0000_ffff then Translated
        else General
      else General
    else General
  }

  /** The number of groups in hexadecimal: an ISATAP address ends in dotted form. */
  function EndHex(b: Address): (end: nat)
    ensures end == 6 || end == 8
  {
    if WithoutBit1(WordAt(b, 2)) == 0xfe5e_0000 then 6 else 8
  }

  ghost predicate AllZeros(g: seq<nat>, i: nat, j: nat)
    requires i <= j <= |g|
  {
    forall k :: i <= k < j ==> g[k] == 0
  }

  /** (first, len) is the leftmost longest run of at least two zeros below `end`, or (end, 1) if there is none. */
  ghost predicate IsLongestRun(g: seq<nat>, end: nat, first: nat, len: nat)
    requires end <= |g|
  {
    && ((first == end && len == 1) || (2 <= len && first + len <= end && AllZeros(g, first, first + len)))
    && forall i, j :: 0 <= i <= j <= end && AllZeros(g, i, j) ==> j - i <= len && (j - i == len > 1 ==> first <= i)
  }

  /** The text when groups first, ..., first + len - 1 are left out. */
  function HexPart(g: seq<nat>, end: nat, first: nat, len: nat): string
    requires end <= |g| && (first == end || first + len <= end)
  {
    Joined(g, 0, first)
    + if first + len < end then "::" + Joined(g, first + len, end) else if first != end then "::" else ""
  }

  function Tail(b: Address, end: nat): string {
    if end == 6 then ":" + Dotted(b) else ""
  }

  ghost predicate PrintsGeneral(b: Address, text: string, first: nat, len: nat) {
    && IsLongestRun(Groups(b), EndHex(b), first, len)
    && text == HexPart(Groups(b), EndHex(b), first, len) + Tail(b, EndHex(b))
  }

  /** `text` is what AppendIPv6 prints for `b`. */
  ghost predicate Prints(b: Address, text: string) {
    match Classify(b)
    case AllZero => text == "::"
    case Compatible => text == "::" + Dotted(b)
    case Mapped => text == "::ffff:" + Dotted(b)
    case Translated => text == "::ffff:0:" + Dotted(b)
    case General => exists first, len :: PrintsGeneral(b, text, first, len)
  }

  lemma RunIsUnique(g: seq<nat>, end: nat, f1: nat, l1: nat, f2: nat, l2: nat)
    requires end <= |g| && IsLongestRun(g, end, f1, l1) && IsLongestRun(g, end, f2, l2)
    ensures f1 == f2 && l1 == l2
  {
    assert l1 >= 2 ==> AllZeros(g, f1, f1 + l1);
    assert l2 >= 2 ==> AllZeros(g, f2, f2 + l2);
  }

  /** And only one. */
  lemma PrintsOnce(b: Address, s: string, t: string)
    requires Prints(b, s) && Prints(b, t)
    ensures s == t
  {
  }

  /** The number of zeros directly before position `end`. */
  function ZerosBefore(g: seq<nat>, end: nat): (n: nat)
    requires end <= |g|
    ensures n <= end && forall k :: end - n <= k < end ==> g[k] == 0
    ensures n < end ==> g[end - n - 1] != 0
  {
    if end > 0 && g[end - 1] == 0 then 1 + ZerosBefore(g, end - 1) else 0
  }

  lemma {:induction false} RunExists(g: seq<nat>, end: nat) returns (first: nat, len: nat)
    requires end <= |g|
    ensures IsLongestRun(g, end, first, len)
  {
    if end == 0 {
      first, len := 0, 1;
    } else {
      first, len := RunExists(g, end - 1);
      var n := ZerosBefore(g, end);
      forall i | 0 <= i <= end && AllZeros(g, i, end) ensures end - i <= n {
        assert !(i <= end - n - 1 < end);
      }
      if n > len {
        first, len := end - n, n;
      } else if len == 1 {
        first := end;
      }
    }
  }

  /** Every address has a text. */
  lemma PrintsSome(b: Address)
    ensures exists text :: Prints(b, text)
  {
    hide HexPart, Tail, Dotted, WordAt, IsLongestRun;
    match Classify(b) {
      case AllZero => assert Prints(b, "::");
      case Compatible => assert Prints(b, "::" + Dotted(b));
      case Mapped => assert Prints(b, "::ffff:" + Dotted(b));
      case Translated => assert Prints(b, "::ffff:0:" + Dotted(b));
      case General =>
        var first, len := RunExists(Groups(b), EndHex(b));
        RunIsInside(Groups(b), EndHex(b), first, len);
        var text := HexPart(Groups(b), EndHex(b), first, len) + Tail(b, EndHex(b));
        assert PrintsGeneral(b, text, first, len);
        assert Prints(b, text);
    }
  }

  // ------------------------------------------------------------------ reading what was printed

  lemma {:induction false} TakeJoined(f: string, rest: string, separator: char)
    requires separator !in f && (rest == "" || rest[0] == separator)
    ensures Take(f + rest, separator) == f
  {
    if f == "" {
      assert f + rest == rest;
    } else {
      assert (f + rest)[1..] == f[1..] + rest && f[0] in f;
      TakeJoined(f[1..], rest, separator);
    }
  }

  lemma HexReads(n: U16)
    ensures var s := HexText(n); 1 <= |s| <= 4 && ':' !in s && '.' !in s && Number(s, 16, 4) == Some(n)
  {
    D.RenderRoundTrips(n, 16, false);
    assert D.Power(16, 4) == 0x1_0000;
    D.RenderLength(n, 16, false, 4, 0x1_0000);
    NoSeparators(HexText(n), 16);
  }

  lemma DecimalReads(n: Byte)
    ensures var s := D.Decimal(n); 1 <= |s| <= 3 && ':' !in s && '.' !in s && Number(s, 10, 3) == Some(n)
  {
    D.RenderRoundTrips(n, 10, false);
    assert D.Power(10, 3) == 1000;
    D.RenderLength(n, 10, false, 3, 1000);
    NoSeparators(D.Decimal(n), 10);
  }

  lemma NoSeparators(s: string, base: nat)
    requires forall i :: 0 <= i < |s| ==> D.IsDigitOf(s[i], base)
    ensures ':' !in s && '.' !in s
  {
  }

  lemma OctetsReadLast(n: Byte)
    ensures Octets(D.Decimal(n)) == Some([n as nat])
  {
    var f := D.Decimal(n);
    DecimalReads(n);
    TakeJoined(f, "", '.');
    assert f + "" == f;
  }

  lemma OctetsReadOne(n: Byte, s: string, more: seq<nat>)
    requires Octets(s) == Some(more)
    ensures Octets(D.Decimal(n) + ("." + s)) == Some([n as nat] + more)
  {
    var f := D.Decimal(n);
    DecimalReads(n);
    TakeJoined(f, "." + s, '.');
    assert (f + ("." + s))[|f| + 1..] == s;
  }

  lemma DottedReads(b: Address)
    ensures var s := Dotted(b);
      7 <= |s| <= 15 && ':' !in s && LastField(s) == Some([GroupAt(b, 6) as nat, GroupAt(b, 7) as nat])
  {
    hide D.Render, Octets;
    var (s0, s1, s2, s3) := (D.Decimal(b[12]), D.Decimal(b[13]), D.Decimal(b[14]), D.Decimal(b[15]));
    DecimalReads(b[12]);
    DecimalReads(b[13]);
    DecimalReads(b[14]);
    DecimalReads(b[15]);
    var octets: seq<nat> := [b[12], b[13], b[14], b[15]];
    OctetsReadLast(b[15]);
    OctetsReadOne(b[14], s3, [b[15]]);
    OctetsReadOne(b[13], s2 + ("." + s3), [b[14] as nat] + [b[15] as nat]);
    OctetsReadOne(b[12], s1 + ("." + (s2 + ("." + s3))), [b[13] as nat] + ([b[14] as nat] + [b[15] as nat]));
    assert [b[12] as nat] + ([b[13] as nat] + ([b[14] as nat] + [b[15] as nat])) == octets;
    assert Octets(Dotted(b)) == Some(octets);
    assert Dotted(b)[|s0|] == '.';
  }

  /** The first field ends at its colon. */
  lemma TakeOne(f: string, s: string)
    requires ':' !in f
    ensures Take(f + (":" + s), ':') == f && (f + (":" + s))[|f| + 1..] == s
  {
    hide Take;
    TakeJoined(f, ":" + s, ':');
  }

  /** One group in front of further fields. */
  lemma FieldsReadOne(n: U16, s: string)
    ensures var f := HexText(n) + (":" + s); var rest := Fields(s);
      Fields(f) == if rest.None? then None else Some([n as nat] + rest.value)
  {
    hide Fields, HexText, Number, Take;
    HexReads(n);
    TakeOne(HexText(n), s);
    FieldsUnfold(HexText(n) + (":" + s), n, s);
  }

  lemma FieldsUnfold(t: string, n: nat, s: string)
    requires var f := Take(t, ':'); |f| < |t| && Number(f, 16, 4) == Some(n) && t[|f| + 1..] == s
    ensures Fields(t) == if Fields(s).None? then None else Some([n] + Fields(s).value)
  {
    hide LastField, Number, Take;
  }

  lemma GapUnfold(t: string, n: nat, s: string)
    requires var f := Take(t, ':'); |f| < |t| && Number(f, 16, 4) == Some(n) && t[|f| + 1..] == s
    ensures var rest := if s != "" && s[0] == ':' then AfterGap(s[1..]) else FieldsWithGap(s);
      FieldsWithGap(t) == if rest.None? then None else Some(rest.value.(before := [n] + rest.value.before))
  {
  }

  lemma FieldsReadOneColon(n: U16, s: string)
    requires s == "" || s[0] != ':'
    ensures var f := HexText(n) + (":" + s); var rest := FieldsWithGap(s);
      FieldsWithGap(f) == if rest.None? then None else Some(rest.value.(before := [n as nat] + rest.value.before))
  {
    hide FieldsWithGap, HexText, Number, Take, AfterGap;
    HexReads(n);
    TakeOne(HexText(n), s);
    GapUnfold(HexText(n) + (":" + s), n, s);
  }

  lemma FieldsReadOneGap(n: U16, s: string)
    ensures var f := HexText(n) + ("::" + s); var rest := AfterGap(s);
      FieldsWithGap(f) == if rest.None? then None else Some(rest.value.(before := [n as nat] + rest.value.before))
  {
    hide FieldsWithGap, HexText, Number, Take, AfterGap;
    HexReads(n);
    TakeOne(HexText(n), ":" + s);
    assert ":" + (":" + s) == "::" + s && (":" + s)[1..] == s;
    GapUnfold(HexText(n) + ("::" + s), n, ":" + s);
  }

  /** The last field, on its own. */
  lemma FieldsReadLast(s: string, last: seq<nat>)
    requires ':' !in s && LastField(s) == Some(last)
    ensures Fields(s) == Some(last) && FieldsWithGap(s) == Some(Parts(last, false, []))
  {
  }

  lemma LastIsHex(n: U16)
    ensures LastField(HexText(n)) == Some([n as nat])
  {
    hide HexText, Number;
    HexReads(n);
  }

  lemma LastIsNotEmpty(s: string)
    requires LastField(s).Some?
    ensures s != ""
  {
  }

  lemma JoinedStarts(g: seq<nat>, i: nat, j: nat)
    requires i < j <= |g| && g[i] < 0x1_0000
    ensures Joined(g, i, j) != "" && Joined(g, i, j)[0] != ':'
  {
    hide HexText, Number;
    HexReads(g[i]);
  }

  lemma JoinedMore(g: seq<nat>, i: nat, j: nat, tail: string)
    requires i < j <= |g|
    ensures if i + 1 == j then Joined(g, i, j) == HexText(g[i])
      else Joined(g, i, j) + tail == HexText(g[i]) + (":" + (Joined(g, i + 1, j) + tail))
  {
    hide HexText;
  }

  /** A list of groups, possibly with a last field in dotted form. */
  lemma {:induction false} FieldsRead(g: seq<nat>, i: nat, j: nat, tail: string, more: seq<nat>)
    requires i < j <= |g| && forall k :: i <= k < j ==> g[k] < 0x1_0000
    requires (tail == "" && more == []) || exists t :: tail == ":" + t && ':' !in t && LastField(t) == Some(more)
    ensures Fields(Joined(g, i, j) + tail) == Some(g[i..j] + more)
    ensures FieldsWithGap(Joined(g, i, j) + tail) == Some(Parts(g[i..j] + more, false, []))
    decreases j - i
  {
    hide LastField, HexText, Number, Fields, FieldsWithGap, Joined;
    var f := HexText(g[i]);
    JoinedMore(g, i, j, tail);
    if i + 1 < j {
      var rest := Joined(g, i + 1, j) + tail;
      FieldsRead(g, i + 1, j, tail, more);
      JoinedStarts(g, i + 1, j);
      FieldsReadOne(g[i], rest);
      FieldsReadOneColon(g[i], rest);
      assert g[i..j] + more == [g[i]] + (g[i + 1..j] + more);
    } else if tail == "" {
      assert f + "" == f && g[i..j] + more == [g[i]];
      HexReads(g[i]);
      LastIsHex(g[i]);
      FieldsReadLast(f, [g[i]]);
    } else {
      var t :| tail == ":" + t && ':' !in t && LastField(t) == Some(more);
      LastIsNotEmpty(t);
      FieldsReadLast(t, more);
      assert t != "" && t[0] in t;
      FieldsReadOne(g[i], t);
      FieldsReadOneColon(g[i], t);
      assert g[i..j] + more == [g[i]] + more;
    }
  }

  /** Groups before a gap. */
  lemma {:induction false} GapReads(g: seq<nat>, i: nat, j: nat, rest: string, after: seq<nat>)
    requires i < j <= |g| && forall k :: i <= k < j ==> g[k] < 0x1_0000
    requires AfterGap(rest) == Some(Parts([], true, after))
    ensures FieldsWithGap(Joined(g, i, j) + ("::" + rest)) == Some(Parts(g[i..j], true, after))
    decreases j - i
  {
    hide AfterGap, HexText, FieldsWithGap, Joined;
    JoinedMore(g, i, j, "::" + rest);
    if i + 1 == j {
      FieldsReadOneGap(g[i], rest);
      assert g[i..j] == [g[i]] + [];
    } else {
      var more := Joined(g, i + 1, j) + ("::" + rest);
      GapReads(g, i + 1, j, rest, after);
      JoinedStarts(g, i + 1, j);
      FieldsReadOneColon(g[i], more);
      assert g[i..j] == [g[i]] + g[i + 1..j];
    }
  }

  lemma AfterGapReads(s: string, after: seq<nat>)
    requires s != "" && Fields(s) == Some(after)
    ensures AfterGap(s) == Some(Parts([], true, after))
  {
  }

  lemma ParseGap(s: string, after: seq<nat>)
    requires AfterGap(s) == Some(Parts([], true, after)) && |after| < 8
    ensures Parse("::" + s) == Some(Zeros(8 - |after|) + after)
  {
    hide AfterGap;
    assert ("::" + s)[2..] == s;
    var z := Zeros(8 - |after|);
    assert [] + z == z;
  }

  lemma ZeroWord(b: Address, i: nat)
    requires i < 4
    ensures WordAt(b, i) == 0 <==> GroupAt(b, 2 * i) == 0 && GroupAt(b, 2 * i + 1) == 0
  {
  }

  lemma MiddleWord(b: Address)
    ensures WordAt(b, 2) == 0xffff_0000 ==> GroupAt(b, 4) == 0 && GroupAt(b, 5) == 0xffff
    ensures WordAt(b, 2) == 0x0000_ffff ==> GroupAt(b, 4) == 0xffff && GroupAt(b, 5) == 0
    ensures WithoutBit1(WordAt(b, 2)) == 0xfe5e_0000 <==>
      (GroupAt(b, 4) == 0 || GroupAt(b, 4) == 0x200) && GroupAt(b, 5) == 0x5efe
  {
  }

  lemma DottedEnds(b: Address)
    ensures Dotted(b) != "" && Fields(Dotted(b)) == Some([GroupAt(b, 6) as nat, GroupAt(b, 7) as nat])
  {
    hide Dotted;
    DottedReads(b);
    FieldsReadLast(Dotted(b), [GroupAt(b, 6) as nat, GroupAt(b, 7) as nat]);
  }

  lemma HexConstants()
    ensures HexText(0xffff) == "ffff" && HexText(0) == "0"
  {
    assert D.Render(0xf, 16, false) == "f" && D.Render(0xff, 16, false) == "ff" && D.Render(0xfff, 16, false) == "fff";
  }

  lemma MappedReads(d: string, last: seq<nat>)
    requires d != "" && Fields(d) == Some(last) && |last| == 2
    ensures Parse("::ffff:" + d) == Some(Zeros(5) + ([0xffff] + last))
  {
    hide Parse, Fields, HexText;
    HexConstants();
    FieldsReadOne(0xffff, d);
    var s := "ffff" + (":" + d);
    AfterGapReads(s, [0xffff] + last);
    ParseGap(s, [0xffff] + last);
    assert "::" + s == "::ffff:" + d;
  }

  lemma TranslatedReads(d: string, last: seq<nat>)
    requires d != "" && Fields(d) == Some(last) && |last| == 2
    ensures Parse("::ffff:0:" + d) == Some(Zeros(4) + ([0xffff] + ([0] + last)))
  {
    hide Parse, Fields, HexText;
    HexConstants();
    FieldsReadOne(0, d);
    FieldsReadOne(0xffff, "0" + (":" + d));
    var s := "ffff" + (":" + ("0" + (":" + d)));
    AfterGapReads(s, [0xffff] + ([0] + last));
    ParseGap(s, [0xffff] + ([0] + last));
    TranslatedText(d);
  }

  lemma TranslatedText(d: string)
    ensures "::" + ("ffff" + (":" + ("0" + (":" + d)))) == "::ffff:0:" + d
  {
  }

  lemma SpecialRoundTrips(b: Address, text: string)
    requires Prints(b, text) && !Classify(b).General?
    ensures Parse(text) == Some(Groups(b))
  {
    hide Parse, Fields, Dotted, WordAt;
    var g := Groups(b);
    ZeroWord(b, 0);
    ZeroWord(b, 1);
    ZeroWord(b, 2);
    ZeroWord(b, 3);
    MiddleWord(b);
    DottedEnds(b);
    var last: seq<nat> := [g[6], g[7]];
    var d := Dotted(b);
    match Classify(b) {
      case AllZero =>
        AfterNothing();
        ParseGap("", []);
        assert "::" + "" == "::" && Zeros(8) + [] == g;
      case Compatible =>
        AfterGapReads(d, last);
        ParseGap(d, last);
        assert Zeros(6) + last == g;
      case Mapped =>
        MappedReads(d, last);
        assert Zeros(5) + ([0xffff] + last) == g;
      case Translated =>
        TranslatedReads(d, last);
        assert Zeros(4) + ([0xffff] + ([0] + last)) == g;
    }
  }

  /** What the tail of a general address stands for. */
  lemma TailReads(b: Address)
    ensures var end := EndHex(b); var tail := Tail(b, end); var more := Groups(b)[end..];
      && ((tail == "" && more == []) || exists t :: tail == ":" + t && ':' !in t && LastField(t) == Some(more))
      && (end == 6 ==> Groups(b)[5] != 0) && (end == 8 ==> tail == "")
  {
    hide Dotted, LastField, WordAt;
    MiddleWord(b);
    if EndHex(b) == 6 {
      DottedReads(b);
      assert Groups(b)[6..] == [GroupAt(b, 6) as nat, GroupAt(b, 7) as nat];
    }
  }

  /** Groups on both sides of a gap; either side may be empty. */
  lemma GapRoundTrips(g: seq<nat>, first: nat, len: nat, rest: string)
    requires |g| == 8 && first + len <= 8 && len > 0 && forall k :: first <= k < first + len ==> g[k] == 0
    requires forall k :: 0 <= k < 8 ==> g[k] < 0x1_0000
    requires AfterGap(rest) == Some(Parts([], true, g[first + len..]))
    ensures Parse(Joined(g, 0, first) + ("::" + rest)) == Some(g)
  {
    hide FieldsWithGap, AfterGap, Joined;
    var after := g[first + len..];
    if first == 0 {
      hide Parse;
      JoinedNothing(g);
      ParseGap(rest, after);
      assert "" + ("::" + rest) == "::" + rest;
      assert Zeros(len) + after == g;
    } else {
      GapReads(g, 0, first, rest, after);
      JoinedStarts(g, 0, first);
      assert (Joined(g, 0, first) + ("::" + rest))[0] != ':';
      assert g[0..first] + Zeros(len) + after == g;
    }
  }

  lemma NoGapRoundTrips(g: seq<nat>, end: nat, tail: string)
    requires |g| == 8 && 0 < end <= 8 && forall k :: 0 <= k < 8 ==> g[k] < 0x1_0000
    requires (tail == "" && g[end..] == [])
      || exists t :: tail == ":" + t && ':' !in t && LastField(t) == Some(g[end..])
    ensures Parse(Joined(g, 0, end) + tail) == Some(g)
  {
    hide Fields, FieldsWithGap, AfterGap, Joined, LastField;
    FieldsRead(g, 0, end, tail, g[end..]);
    JoinedStarts(g, 0, end);
    assert (Joined(g, 0, end) + tail)[0] != ':';
    assert g[0..end] + g[end..] == g;
  }

  /** The fields after a gap. */
  lemma RestReads(g: seq<nat>, i: nat, end: nat, tail: string)
    requires |g| == 8 && i < end <= 8 && forall k :: 0 <= k < 8 ==> g[k] < 0x1_0000
    requires (tail == "" && g[end..] == [])
      || exists t :: tail == ":" + t && ':' !in t && LastField(t) == Some(g[end..])
    ensures AfterGap(Joined(g, i, end) + tail) == Some(Parts([], true, g[i..]))
  {
    hide Fields, FieldsWithGap, AfterGap, Joined, LastField;
    FieldsRead(g, i, end, tail, g[end..]);
    JoinedStarts(g, i, end);
    assert g[i..end] + g[end..] == g[i..];
    AfterGapReads(Joined(g, i, end) + tail, g[i..]);
  }

  lemma GeneralRoundTrips(b: Address, text: string, first: nat, len: nat)
    requires PrintsGeneral(b, text, first, len)
    ensures Parse(text) == Some(Groups(b))
  {
    hide Parse, Tail, AfterGap, LastField, EndHex, Joined, IsLongestRun;
    var (g, end) := (Groups(b), EndHex(b));
    var tail := Tail(b, end);
    TailReads(b);
    RunIsInside(g, end, first, len);
    if first == end {
      Pieces(Joined(g, 0, end), "", tail);
      NoGapRoundTrips(g, end, tail);
    } else if first + len < end {
      RestReads(g, first + len, end, tail);
      GapRoundTrips(g, first, len, Joined(g, first + len, end) + tail);
      Pieces(Joined(g, 0, first), Joined(g, first + len, end), tail);
    } else {
      AfterNothing();
      assert end == 8 && tail == "" && g[first + len..] == [];
      GapRoundTrips(g, first, len, "");
      Pieces(Joined(g, 0, first), "", "");
    }
  }

  lemma Pieces(a: string, b: string, c: string)
    ensures a + ("::" + b) + c == a + ("::" + (b + c))
    ensures a + "" + c == a + c
    ensures b == "" ==> a + "::" + c == a + ("::" + c)
  {
  }

  lemma JoinedNothing(g: seq<nat>)
    ensures Joined(g, 0, 0) == ""
  {
  }

  lemma AfterNothing()
    ensures AfterGap("") == Some(Parts([], true, []))
  {
  }

  lemma RunIsInside(g: seq<nat>, end: nat, first: nat, len: nat)
    requires end <= |g| && IsLongestRun(g, end, first, len)
    ensures first == end || (first + len <= end && len > 1 && forall k :: first <= k < first + len ==> g[k] == 0)
  {
  }

  /** Reading the printed text of any address gives back its groups. */
  lemma PrintsRoundTrips(b: Address, text: string)
    requires Prints(b, text)
    ensures Parse(text) == Some(Groups(b))
  {
    hide Parse, PrintsGeneral;
    if Classify(b).General? {
      var first, len :| PrintsGeneral(b, text, first, len);
      GeneralRoundTrips(b, text, first, len);
    } else {
      SpecialRoundTrips(b, text);
    }
  }

  /** 46 characters, the size that is reserved, are always enough. */
  lemma {:induction false} JoinedLength(g: seq<nat>, i: nat, j: nat)
    requires i < j <= |g| && forall k :: i <= k < j ==> g[k] < 0x1_0000
    ensures |Joined(g, i, j)| <= 5 * (j - i) - 1
    decreases j - i
  {
    hide HexText;
    HexReads(g[i]);
    if i + 1 == j {
    } else {
      JoinedLength(g, i + 1, j);
    }
  }

  lemma HexPartLength(g: seq<nat>, end: nat, first: nat, len: nat)
    requires 0 < end <= |g| && (first == end || first + len <= end) && 0 < len
    requires forall k :: 0 <= k < end ==> g[k] < 0x1_0000
    ensures |HexPart(g, end, first, len)| <= 5 * end - 1
  {
    hide Joined;
    if first > 0 {
      JoinedLength(g, 0, first);
    } else {
      JoinedNothing(g);
    }
    if first + len < end {
      JoinedLength(g, first + len, end);
    }
  }

  // ------------------------------------------------------------------ printing an address

  /** The loop that looks for the zeros to leave out. */
  method FindZeros(g: seq<nat>, end: nat) returns (maxFirst: nat, maxLen: nat)
    requires end <= |g|
    ensures IsLongestRun(g, end, maxFirst, maxLen)
  {
    maxFirst, maxLen := end, 1;
    var curFirst, curLen := 0, 0;
    for i := 0 to end
      invariant curFirst + curLen == i && AllZeros(g, curFirst, i) && (curFirst > 0 ==> g[curFirst - 1] != 0)
      invariant (maxFirst == end && maxLen == 1)
        || (2 <= maxLen && maxFirst + maxLen <= i && AllZeros(g, maxFirst, maxFirst + maxLen))
      invariant forall a, b :: 0 <= a <= b <= i && AllZeros(g, a, b) ==>
        b - a <= maxLen && (b - a == maxLen > 1 ==> maxFirst <= a)
    {
      if g[i] == 0 {
        curLen := curLen + 1;
        if curLen > maxLen {
          maxFirst, maxLen := curFirst, curLen;
        }
      } else {
        curFirst, curLen := i + 1, 0;
      }
    }
  }

  /** An append whose result the original ignores: there is room for it. */
  method AppendReserved(output: Buffer<char>, text: string)
    requires output.Valid() && output.size + |text| <= output.data.Length
    modifies output, output.data
    ensures output.Valid() && output.data == old(output.data) && output.Contents() == old(output.Contents()) + text
  {
    var ok := output.Append(text);
  }

  /** Groups i, ..., j - 1 with colons between them, after `prefix`. */
  method AppendJoined(output: Buffer<char>, b: Address, prefix: string, i: nat, j: nat)
    requires output.Valid() && i < j <= 8
    requires output.size + |prefix| + |Joined(Groups(b), i, j)| <= output.data.Length
    modifies output, output.data
    ensures output.Valid() && output.data == old(output.data)
    ensures output.Contents() == old(output.Contents()) + (prefix + Joined(Groups(b), i, j))
  {
    hide HexText, Joined, JoinedRest, Groups;
    ghost var g := Groups(b);
    ghost var before := output.Contents();
    ghost var done := prefix + HexText(g[i]);
    JoinedFirst(g, i, j, prefix);
    AppendReserved(output, prefix + HexText(GroupAt(b, i)));
    for k := i + 1 to j
      invariant output.Valid() && output.data == old(output.data)
      invariant output.Contents() == before + done
      invariant done + JoinedRest(g, k, j) == prefix + Joined(g, i, j)
    {
      JoinedStep(g, k, j, done);
      AppendReserved(output, ":" + HexText(GroupAt(b, k)));
      Associate(before, done, ":" + HexText(g[k]));
      done := done + (":" + HexText(g[k]));
    }
    JoinedDone(g, j, done);
  }

  lemma JoinedDone(g: seq<nat>, j: nat, done: string)
    requires j <= |g|
    ensures done + JoinedRest(g, j, j) == done
  {
  }

  /** What the loop still has to append. */
  function JoinedRest(g: seq<nat>, k: nat, j: nat): string
    requires k <= j <= |g|
  {
    if k == j then "" else ":" + Joined(g, k, j)
  }

  lemma JoinedFirst(g: seq<nat>, i: nat, j: nat, prefix: string)
    requires i < j <= |g|
    ensures prefix + HexText(g[i]) + JoinedRest(g, i + 1, j) == prefix + Joined(g, i, j)
    ensures |HexText(g[i])| <= |Joined(g, i, j)|
  {
    hide HexText;
  }

  lemma JoinedStep(g: seq<nat>, k: nat, j: nat, done: string)
    requires k < j <= |g|
    ensures done + (":" + HexText(g[k])) + JoinedRest(g, k + 1, j) == done + JoinedRest(g, k, j)
    ensures |HexText(g[k])| + 1 <= |JoinedRest(g, k, j)|
  {
    hide JoinedRest;
    RestStep(g, k, j);
    Associate(done, ":" + HexText(g[k]), JoinedRest(g, k + 1, j));
  }

  lemma RestStep(g: seq<nat>, k: nat, j: nat)
    requires k < j <= |g|
    ensures JoinedRest(g, k, j) == (":" + HexText(g[k])) + JoinedRest(g, k + 1, j)
  {
  }

  /** The part of a general address that is printed in hexadecimal. */
  method AppendHexPart(output: Buffer<char>, b: Address, end: nat, first: nat, len: nat)
    requires output.Valid() && 0 < end <= 8 && (first == end || first + len <= end) && 0 < len
    requires output.size + 5 * end - 1 <= output.data.Length
    modifies output, output.data
    ensures output.Valid() && output.data == old(output.data)
    ensures output.Contents() == old(output.Contents()) + HexPart(Groups(b), end, first, len)
  {
    hide Joined;
    ghost var g := Groups(b);
    ghost var before := output.Contents();
    HexPartLength(g, end, first, len);
    JoinedNothing(g);
    if first != 0 {
      AppendJoined(output, b, "", 0, first);
    }
    assert output.Contents() == before + Joined(g, 0, first);
    if first + len < end {
      AppendJoined(output, b, "::", first + len, end);
      Associate(before, Joined(g, 0, first), "::" + Joined(g, first + len, end));
    } else if first != end {
      AppendReserved(output, "::");
      Associate(before, Joined(g, 0, first), "::");
    } else {
      assert Joined(g, 0, first) + "" == Joined(g, 0, first);
    }
  }

  /** The general case. */
  method AppendGeneral(output: Buffer<char>, b: Address) returns (ghost text: string)
    requires output.Valid() && output.size + 46 <= output.data.Length
    modifies output, output.data
    ensures output.Valid() && output.data == old(output.data)
    ensures output.Contents() == old(output.Contents()) + text && |text| <= 45
    ensures exists first, len :: PrintsGeneral(b, text, first, len)
  {
    hide IsLongestRun, HexPart, Dotted, WordAt;
    ghost var before := output.Contents();
    var g := Groups(b);
    var end := if WithoutBit1(WordAt(b, 2)) == 0xfe5e_0000 then 6 else 8;
    var first, len := FindZeros(g, end);
    RunIsInside(g, end, first, len);
    LongestIsPositive(g, end, first, len);
    HexPartLength(g, end, first, len);
    AppendHexPart(output, b, end, first, len);
    ghost var hex := HexPart(g, end, first, len);
    DottedReads(b);
    if end == 6 {
      AppendReserved(output, ":" + Dotted(b));
      assert before + hex + (":" + Dotted(b)) == before + (hex + (":" + Dotted(b)));
      text := hex + (":" + Dotted(b));
    } else {
      assert hex + "" == hex;
      text := hex;
    }
    assert PrintsGeneral(b, text, first, len);
  }

  lemma LongestIsPositive(g: seq<nat>, end: nat, first: nat, len: nat)
    requires end <= |g| && IsLongestRun(g, end, first, len)
    ensures 0 < len
  {
  }

  /** AppendIPv6: after the reservation nothing can fail, and the text reads back as the address. */
  method AppendIPv6(output: Buffer<char>, b: Address) returns (status: Status, ghost text: string)
    requires output.Valid()
    modifies output, output.data
    ensures output.Valid() && (output.data == old(output.data) || fresh(output.data))
    ensures status == if old(output.CanHold(46 + output.size)) then Success else OutOfMemory
    ensures output.Contents() == old(output.Contents()) + text
    ensures if status == Success then Prints(b, text) && Parse(text) == Some(Groups(b)) && |text| <= 45 else text == ""
  {
    hide GrownCapacity, Dotted, WordAt, Parse, PrintsGeneral;
    var ok := output.Reserve(46 + output.size, true);
    if !ok {
      text := "";
      return OutOfMemory, text;
    }
    status := Success;
    DottedReads(b);
    if WordAt(b, 0) == 0 && WordAt(b, 1) == 0 {
      if WordAt(b, 2) == 0 && WordAt(b, 3) == 0 {
        text := "::";
        AppendReserved(output, "::");
        PrintsRoundTrips(b, text);
        return;
      } else if b[12] as nat + b[13] as nat * 256 != 0 {
        var word := WordAt(b, 2);
        if word == 0 || word == 0xffff_0000 || word == 0x0000_ffff {
          var prefix := if word == 0 then "::" else if word == 0xffff_0000 then "::ffff:" else "::ffff:0:";
          text := prefix + Dotted(b);
          AppendReserved(output, prefix + Dotted(b));
          PrintsRoundTrips(b, text);
          return;
        }
      }
    }
    text := AppendGeneral(output, b);
    PrintsRoundTrips(b, text);
  }
}
