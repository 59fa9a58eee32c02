/** ParsedPrintf: recognizes the printf specifications that may follow a property number in a message. */
module Printf {
  import opened Basics

  // ------------------------------------------------------------------ the grammar

  datatype Category = NoCategory | CategoryCharacter | CategoryInteger | CategoryFloat | CategoryString

  predicate IsFlag(c: char) {
    c == '-' || c == '+' || c == ' ' || c == '#' || c == '0'
  }

  function CategoryOf(c: char): Category {
    match c
    case 'c' | 'C' => CategoryCharacter
    case 'd' | 'i' | 'o' | 'u' | 'x' | 'X' | 'p' => CategoryInteger
    case 'f' | 'F' | 'e' | 'E' | 'g' | 'G' | 'a' | 'A' => CategoryFloat
    case 's' | 'S' | 'Z' => CategoryString
    case _ => NoCategory
  }

  const MAX_DIGITS := 4
  const MAX_PREFIX := 7 + 2 * MAX_DIGITS
  const MAX_SUFFIX := 4

  predicate AreFlags(s: string) {
    forall i :: 0 <= i < |s| ==> IsFlag(s[i])
  }

  predicate AreDigits(s: string) {
    forall i :: 0 <= i < |s| ==> IsDigit(s[i])
  }

  predicate IsWidth(s: string) {
    s == "" || s == "*" || (|s| <= MAX_DIGITS && AreDigits(s) && s[0] != '0')
  }

  predicate IsPrecision(s: string) {
    s == "" || s == ".*" || (|s| <= 1 + MAX_DIGITS && s[0] == '.' && AreDigits(s[1..]))
  }

  predicate IsLength(s: string) {
    match |s|
    case 0 => true
    case 1 => s[0] in {'h', 'l', 'I', 'j', 'z', 't', 'L', 'w'}
    case 2 => s[0] == s[1] && (s[0] == 'h' || s[0] == 'l')
    case 3 => s[0] == 'I' && ((s[1] == '6' && s[2] == '4') || (s[1] == '3' && s[2] == '2'))
    case _ => false
  }

  /** flags* width? precision? length? specifier */
  datatype Spec = Spec(flags: string, width: string, precision: string, length: string, specifier: char)

  ghost predicate Grammatical(p: Spec) {
    AreFlags(p.flags) && IsWidth(p.width) && IsPrecision(p.precision) && IsLength(p.length)
    && !CategoryOf(p.specifier).NoCategory?
  }

  function Text(p: Spec): string {
    p.flags + (p.width + (p.precision + (p.length + [p.specifier])))
  }

  /** Each flag once, in order of first appearance. */
  function Distinct(flags: string, seen: set<char>): string {
    if flags == "" then ""
    else if flags[0] in seen then Distinct(flags[1..], seen)
    else [flags[0]] + Distinct(flags[1..], seen + {flags[0]})
  }

  function DropStar(s: string): string {
    if s != "" && s[|s| - 1] == '*' then s[..|s| - 1] else s
  }

  /** What is kept of the specification: no repeated flags, no stars, no length, no specifier. */
  function Kept(p: Spec): string {
    KeptHead(p) + DropStar(p.precision)
  }

  /** The kept part before the precision. */
  function KeptHead(p: Spec): string {
    "%" + Distinct(p.flags, {}) + DropStar(p.width)
  }

  /** m_copiedBeforePrecision: where the kept precision starts; 0 when there is none. */
  function KeptBeforePrecision(p: Spec): nat {
    if p.precision == "" then 0 else |KeptHead(p)|
  }

  /** What MakeStringFormat prints strings with: a precision means truncation for string conversions only. */
  function StringFormat(p: Spec): string {
    (if CategoryOf(p.specifier) == CategoryString then Kept(p) else KeptHead(p)) + "ls"
  }

  // ------------------------------------------------------------------ deterministic scanning

  /** The character at `i` of a nul-terminated string; reading past the terminator is not possible. */
  function At(s: string, i: nat): char
    requires i <= |s|
  {
    if i < |s| then s[i] else '\0'
  }

  function FlagsEnd(s: string, i: nat): (j: nat)
    requires i <= |s|
    ensures i <= j <= |s|
    decreases |s| - i
  {
    if IsFlag(At(s, i)) then FlagsEnd(s, i + 1) else i
  }

  /** Past at most `max` digits. */
  function DigitsEnd(s: string, i: nat, max: nat): (j: nat)
    requires i <= |s|
    ensures i <= j <= |s| && j <= i + max
    decreases max
  {
    if max > 0 && IsDigit(At(s, i)) then DigitsEnd(s, i + 1, max - 1) else i
  }

  function WidthEnd(s: string, i: nat): (j: nat)
    requires i <= |s|
    ensures i <= j <= |s|
  {
    if At(s, i) == '*' then i + 1
    else if At(s, i) != '0' then DigitsEnd(s, i, MAX_DIGITS)
    else i
  }

  function PrecisionEnd(s: string, i: nat): (j: nat)
    requires i <= |s|
    ensures i <= j <= |s|
  {
    if At(s, i) != '.' then i
    else if At(s, i + 1) == '*' then i + 2
    else DigitsEnd(s, i + 1, MAX_DIGITS)
  }

  function LengthEnd(s: string, i: nat): (j: nat)
    requires i <= |s|
    ensures i <= j <= |s|
  {
    match At(s, i)
    case 'h' | 'l' => if At(s, i + 1) == At(s, i) then i + 2 else i + 1
    case 'I' =>
      if (At(s, i + 1) == '6' && At(s, i + 2) == '4')
        || (At(s, i + 1) == '3' && At(s, i + 2) == '2') then i + 3 else i + 1
    case 'j' | 'z' | 't' | 'L' | 'w' => i + 1
    case _ => i
  }

  /** Splits a string that starts with a specification. */
  function Recognize(s: string): Option<Spec> {
    var a := FlagsEnd(s, 0);
    var b := WidthEnd(s, a);
    var c := PrecisionEnd(s, b);
    var d := LengthEnd(s, c);
    if CategoryOf(At(s, d)).NoCategory? then None
    else
      assert d < |s|;
      Some(Spec(s[..a], s[a..b], s[b..c], s[c..d], s[d]))
  }

  lemma {:induction false} FlagsEndIsRun(s: string, i: nat)
    requires i <= |s|
    ensures AreFlags(s[i..FlagsEnd(s, i)])
    decreases |s| - i
  {
    if !IsFlag(At(s, i)) {
    } else {
      FlagsEndIsRun(s, i + 1);
      var j := FlagsEnd(s, i + 1);
      assert forall k :: i < k < j ==> s[k] == s[i + 1..j][k - (i + 1)];
    }
  }

  lemma {:induction false} DigitsEndIsRun(s: string, i: nat, max: nat)
    requires i <= |s|
    ensures AreDigits(s[i..DigitsEnd(s, i, max)])
    decreases max
  {
    if max == 0 || !IsDigit(At(s, i)) {
    } else {
      DigitsEndIsRun(s, i + 1, max - 1);
      var j := DigitsEnd(s, i + 1, max - 1);
      assert forall k :: i < k < j ==> s[k] == s[i + 1..j][k - (i + 1)];
    }
  }

  lemma PartsAreGrammatical(s: string, i: nat)
    requires i <= |s|
    ensures IsWidth(s[i..WidthEnd(s, i)])
    ensures IsPrecision(s[i..PrecisionEnd(s, i)])
    ensures IsLength(s[i..LengthEnd(s, i)])
  {
    hide DigitsEnd, LengthEnd, IsLength;
    DigitsEndIsRun(s, i, MAX_DIGITS);
    LengthIsGrammatical(s, i);
    if At(s, i) == '.' {
      DigitsEndIsRun(s, i + 1, MAX_DIGITS);
      assert s[i..PrecisionEnd(s, i)][1..] == s[i + 1..PrecisionEnd(s, i)];
    }
  }

  lemma LengthIsGrammatical(s: string, i: nat)
    requires i <= |s|
    ensures IsLength(s[i..LengthEnd(s, i)])
  {
  }

  /** What is recognized is a prefix of the string and follows the grammar. */
  lemma RecognizedIsGrammatical(s: string)
    requires Recognize(s).Some?
    ensures var p := Recognize(s).value; Grammatical(p) && Text(p) <= s
  {
    assert CategoryOf('\0').NoCategory?;
    hide FlagsEnd, WidthEnd, PrecisionEnd, LengthEnd, IsWidth, IsPrecision, IsLength, AreFlags, CategoryOf;
    var a := FlagsEnd(s, 0);
    var b := WidthEnd(s, a);
    var c := PrecisionEnd(s, b);
    var d := LengthEnd(s, c);
    FlagsEndIsRun(s, 0);
    PartsAreGrammatical(s, a);
    PartsAreGrammatical(s, b);
    PartsAreGrammatical(s, c);
    Slices(s, a, b, c, d);
  }

  lemma Slices(s: string, a: nat, b: nat, c: nat, d: nat)
    requires a <= b <= c <= d < |s|
    ensures s[..a] + (s[a..b] + (s[b..c] + (s[c..d] + [s[d]]))) == s[..d + 1]
    ensures s[..a] == s[0..a] && s[..d + 1] <= s
  {
  }

  /** A suffix that is a concatenation splits at the first part. */
  lemma Splits(s: string, i: nat, x: string, y: string)
    requires i <= |s| && s[i..] == x + y
    ensures i + |x| <= |s| && s[i..i + |x|] == x && s[i + |x|..] == y
  {
    assert s[i..][..|x|] == x && s[i..][|x|..] == y;
  }

  /** `c` cannot be read as part of what precedes it. */
  predicate Ends(c: char) {
    !IsDigit(c) && c != '*'
  }

  lemma {:induction false} FlagsEndAt(flags: string, rest: string)
    requires AreFlags(flags) && (rest == "" || !IsFlag(rest[0]))
    ensures forall i :: 0 <= i <= |flags| ==> FlagsEnd(flags + rest, i) == |flags|
  {
    var s := flags + rest;
    var i := |flags|;
    while i > 0
      invariant 0 <= i <= |flags|
      invariant forall k :: i <= k <= |flags| ==> FlagsEnd(s, k) == |flags|
    {
      i := i - 1;
    }
  }

  lemma {:induction false} DigitsEndAt(s: string, i: nat, digits: string, max: nat)
    requires i + |digits| <= |s| && s[i..i + |digits|] == digits && AreDigits(digits) && |digits| <= max
    requires !IsDigit(At(s, i + |digits|))
    ensures DigitsEnd(s, i, max) == i + |digits|
    decreases max
  {
    if digits == "" {
    } else {
      assert s[i] == digits[0];
      assert s[i + 1..i + 1 + |digits[1..]|] == digits[1..];
      DigitsEndAt(s, i + 1, digits[1..], max - 1);
    }
  }

  /** Where the length or the specifier starts, nothing earlier can go on. */
  lemma TailStarts(p: Spec, tail: string)
    requires Grammatical(p)
    ensures var l := p.length + [p.specifier] + tail;
      l != "" && Ends(l[0]) && l[0] != '.' && !IsFlag(l[0])
    ensures var m := p.precision + (p.length + [p.specifier] + tail); m != "" && Ends(m[0]) && !IsFlag(m[0])
    ensures var w := p.width + (p.precision + (p.length + [p.specifier] + tail)); w != "" && !IsFlag(w[0])
  {
  }

  lemma LengthEndAt(s: string, i: nat, length: string, specifier: char)
    requires IsLength(length) && !CategoryOf(specifier).NoCategory?
    requires i + |length| < |s| && s[i..i + |length|] == length && s[i + |length|] == specifier
    ensures LengthEnd(s, i) == i + |length|
  {
    assert forall k :: 0 <= k < |length| ==> s[i + k] == length[k];
  }

  /** The recognizer finds every specification of the grammar, in full, whatever follows it. */
  lemma GrammaticalIsRecognized(p: Spec, tail: string)
    requires Grammatical(p)
    ensures Recognize(Text(p) + tail) == Some(p)
  {
    hide Grammatical, FlagsEnd, WidthEnd, PrecisionEnd, LengthEnd, Text, CategoryOf, IsLength;
    var s := Text(p) + tail;
    PartsFound(p, tail);
    var c := |p.flags| + |p.width| + |p.precision|;
    GrammaticalLength(p);
    LengthFound(s, c, p, tail);
  }

  lemma LengthFound(s: string, c: nat, p: Spec, tail: string)
    requires IsLength(p.length) && !CategoryOf(p.specifier).NoCategory?
    requires c <= |s| && s[c..] == p.length + [p.specifier] + tail
    ensures var d := c + |p.length|; LengthEnd(s, c) == d < |s| && s[c..d] == p.length && s[d] == p.specifier
  {
    hide LengthEnd, CategoryOf, IsLength;
    Associate(p.length, [p.specifier], tail);
    Splits(s, c, p.length, [p.specifier] + tail);
    assert s[c + |p.length|..][0] == p.specifier;
    LengthEndAt(s, c, p.length, p.specifier);
  }

  /** The parts before the length are found where they are. */
  lemma PartsFound(p: Spec, tail: string)
    requires Grammatical(p)
    ensures var s := Text(p) + tail;
      var a := |p.flags|; var b := a + |p.width|; var c := b + |p.precision|;
      && FlagsEnd(s, 0) == a && s[..a] == p.flags
      && a <= b <= c <= |s|
      && WidthEnd(s, a) == b && s[a..b] == p.width
      && PrecisionEnd(s, b) == c && s[b..c] == p.precision
      && s[c..] == p.length + [p.specifier] + tail
  {
    hide Grammatical, FlagsEnd, WidthEnd, PrecisionEnd, Text, Recognize;
    var s := Text(p) + tail;
    var l := p.length + [p.specifier] + tail;
    var m := p.precision + l;
    var w := p.width + m;
    TextSplits(p, tail);
    FlagsEndFound(p, tail);
    var a := |p.flags|;
    assert s[0..] == s;
    Splits(s, 0, p.flags, w);
    assert s[..a] == s[0..a];
    Splits(s, a, p.width, m);
    WidthEndAt(s, a, p, tail);
    var b := a + |p.width|;
    PrecisionEndAt(s, b, p, tail);
    Splits(s, b, p.precision, l);
  }

  lemma TextSplits(p: Spec, tail: string)
    ensures Text(p) + tail == p.flags + (p.width + (p.precision + (p.length + [p.specifier] + tail)))
  {
  }

  lemma GrammaticalLength(p: Spec)
    requires Grammatical(p)
    ensures IsLength(p.length) && !CategoryOf(p.specifier).NoCategory?
  {
  }

  lemma FlagsEndFound(p: Spec, tail: string)
    requires Grammatical(p)
    ensures FlagsEnd(p.flags + (p.width + (p.precision + (p.length + [p.specifier] + tail))), 0) == |p.flags|
  {
    hide FlagsEnd;
    var w := p.width + (p.precision + (p.length + [p.specifier] + tail));
    TailStarts(p, tail);
    FlagsEndAt(p.flags, w);
  }

  lemma WidthEndAt(s: string, a: nat, p: Spec, tail: string)
    requires Grammatical(p) && a <= |s| && s[a..] == p.width + (p.precision + (p.length + [p.specifier] + tail))
    ensures WidthEnd(s, a) == a + |p.width|
  {
    var m := p.precision + (p.length + [p.specifier] + tail);
    TailStarts(p, tail);
    var b := a + |p.width|;
    assert s[b..] == m && At(s, b) == m[0] && s[a..b] == p.width;
    if p.width == "*" {
      assert s[a] == p.width[0];
    } else {
      if p.width != "" {
        assert s[a] == p.width[0];
      }
      DigitsEndAt(s, a, p.width, MAX_DIGITS);
    }
  }

  lemma PrecisionEndAt(s: string, b: nat, p: Spec, tail: string)
    requires Grammatical(p) && b <= |s| && s[b..] == p.precision + (p.length + [p.specifier] + tail)
    ensures PrecisionEnd(s, b) == b + |p.precision|
  {
    var l := p.length + [p.specifier] + tail;
    TailStarts(p, tail);
    var c := b + |p.precision|;
    assert s[c..] == l && At(s, c) == l[0];
    assert s[b..c] == p.precision;
    if p.precision != "" {
      assert s[b] == p.precision[0] == '.';
      if p.precision != ".*" {
        assert s[b + 1..c] == p.precision[1..];
        DigitsEndAt(s, b + 1, p.precision[1..], MAX_DIGITS);
        assert At(s, b + 1) != '*';
      } else {
        assert s[b + 1] == p.precision[1];
      }
    }
  }

  /** A string starts with at most one specification, and exactly then it is recognized. */
  lemma RecognizesTheGrammar(s: string)
    ensures Recognize(s).Some? <==> exists p :: Grammatical(p) && Text(p) <= s
    ensures forall p :: Grammatical(p) && Text(p) <= s ==> Recognize(s) == Some(p)
  {
    hide Recognize, Text, Grammatical;
    forall p | Grammatical(p) && Text(p) <= s ensures Recognize(s) == Some(p) {
      assert s == Text(p) + s[|Text(p)|..];
      GrammaticalIsRecognized(p, s[|Text(p)|..]);
    }
    if Recognize(s).Some? {
      RecognizedIsGrammatical(s);
    }
  }

  lemma {:induction false} DistinctIsShort(flags: string, seen: set<char>)
    requires AreFlags(flags)
    ensures |Distinct(flags, seen)| <= |{'-', '+', ' ', '#', '0'} - seen|
  {
    if flags == "" {
    } else {
      assert flags[0] in {'-', '+', ' ', '#', '0'};
      if flags[0] in seen {
        DistinctIsShort(flags[1..], seen);
      } else {
        DistinctIsShort(flags[1..], seen + {flags[0]});
        assert {'-', '+', ' ', '#', '0'} - (seen + {flags[0]}) == {'-', '+', ' ', '#', '0'} - seen - {flags[0]};
      }
    }
  }

  /** The copied prefix fits in the 15 characters reserved for it. */
  lemma KeptIsShort(p: Spec)
    requires Grammatical(p)
    ensures |Kept(p)| <= 15 && KeptBeforePrecision(p) <= |Kept(p)|
  {
    DistinctIsShort(p.flags, {});
    assert {'-', '+', ' ', '#', '0'} - {} == {'-', '+', ' ', '#', '0'};
  }

  // ------------------------------------------------------------------ what is kept

  /** The specifiers of each category. */
  lemma CategoriesAre(c: char)
    ensures CategoryOf(c) == CategoryCharacter <==> c in "cC"
    ensures CategoryOf(c) == CategoryInteger <==> c in "diouxXp"
    ensures CategoryOf(c) == CategoryFloat <==> c in "fFeEgGaA"
    ensures CategoryOf(c) == CategoryString <==> c in "sSZ"
  {
  }

  /** The flags, and the lengths. */
  lemma FlagsAndLengthsAre(c: char, s: string)
    ensures IsFlag(c) <==> c in "-+ #0"
    ensures IsLength(s) <==> s in {"", "h", "hh", "l", "ll", "I", "I32", "I64", "j", "z", "t", "L", "w"}
  {
    if |s| == 1 {
      assert s == [s[0]];
    } else if |s| == 2 {
      assert s == [s[0], s[1]];
    } else if |s| == 3 {
      assert s == [s[0], s[1], s[2]];
    }
  }

  /** A width has at most four digits; with more of them the text is no specification at all. */
  lemma WidthHasFourDigits(digits: string, c: char)
    requires AreDigits(digits) && digits != "" && digits[0] != '0' && c in "cCdiouxXpfFeEgGaAsSZ"
    ensures Recognize(digits + [c]) == if |digits| <= 4 then Some(Spec("", digits, "", "", c)) else None
  {
    hide CategoryOf, LengthEnd, Recognize;
    var s := digits + [c];
    if |digits| <= 4 {
      CategoriesAre(c);
      var p := Spec("", digits, "", "", c);
      assert Text(p) + "" == s;
      GrammaticalIsRecognized(p, "");
    } else {
      NotRecognized(s, digits);
    }
  }

  lemma NotRecognized(s: string, digits: string)
    requires AreDigits(digits) && |digits| > 4 && digits[0] != '0' && digits <= s
    ensures Recognize(s).None?
  {
    hide CategoryOf;
    assert s[..4] == digits[..4] && s[0..4] == s[..4];
    FourDigits(s);
    CategoriesAre(s[4]);
    DigitHasNoCategory(s[4]);
  }

  lemma FourDigits(s: string)
    requires |s| > 4 && IsDigit(s[0]) && IsDigit(s[1]) && IsDigit(s[2]) && IsDigit(s[3])
    ensures DigitsEnd(s, 0, MAX_DIGITS) == 4
  {
    assert DigitsEnd(s, 3, 1) == 4 && DigitsEnd(s, 2, 2) == 4 && DigitsEnd(s, 1, 3) == 4;
  }

  lemma DigitHasNoCategory(c: char)
    requires IsDigit(c)
    ensures CategoryOf(c).NoCategory?
  {
  }

  /** The first place of a character. */
  function FirstAt(s: string, c: char): (i: nat)
    requires c in s
    ensures i < |s| && s[i] == c && forall k :: 0 <= k < i ==> s[k] != c
  {
    if s[0] == c then 0 else 1 + FirstAt(s[1..], c)
  }

  /** `once` has each character of `s` once, in the order in which they first appear. */
  ghost predicate OnceEach(once: string, s: string) {
    (forall c :: c in once <==> c in s) && Ordered(once, s)
  }

  lemma {:induction false} DistinctHasEach(flags: string, seen: set<char>)
    ensures forall c :: c in Distinct(flags, seen) <==> c in flags && c !in seen
    decreases |flags|
  {
    if flags == "" {
    } else {
      assert flags == [flags[0]] + flags[1..];
      DistinctHasEach(flags[1..], seen);
      DistinctHasEach(flags[1..], seen + {flags[0]});
    }
  }

  /** In the order in which they first appear. */
  ghost predicate Ordered(once: string, s: string)
    requires forall c :: c in once ==> c in s
  {
    forall i, j :: 0 <= i < j < |once| ==> FirstAt(s, once[i]) < FirstAt(s, once[j])
  }

  lemma {:induction false} DistinctIsOrdered(flags: string, seen: set<char>)
    ensures forall c :: c in Distinct(flags, seen) ==> c in flags
    ensures Ordered(Distinct(flags, seen), flags)
    decreases |flags|
  {
    hide Distinct;
    DistinctHasEach(flags, seen);
    if flags == "" {
      assert Distinct(flags, seen) == "" by {
        DistinctNothing(seen);
      }
    } else {
      var next := if flags[0] in seen then seen else seen + {flags[0]};
      var rest := Distinct(flags[1..], next);
      DistinctIsOrdered(flags[1..], next);
      DistinctHasEach(flags[1..], next);
      LaterIsOrdered(flags, rest);
      DistinctUnfolds(flags, seen);
      if flags[0] !in seen {
        FirstIsBefore(flags, rest);
      }
    }
  }

  lemma DistinctUnfolds(flags: string, seen: set<char>)
    requires flags != ""
    ensures Distinct(flags, seen)
      == if flags[0] in seen then Distinct(flags[1..], seen) else [flags[0]] + Distinct(flags[1..], seen + {flags[0]})
  {
  }

  lemma LaterIsOrdered(s: string, rest: string)
    requires s != "" && s[0] !in rest && (forall c :: c in rest ==> c in s[1..]) && Ordered(rest, s[1..])
    ensures (forall c :: c in rest ==> c in s) && Ordered(rest, s)
  {
    assert s == [s[0]] + s[1..];
    forall i, j | 0 <= i < j < |rest| ensures FirstAt(s, rest[i]) < FirstAt(s, rest[j]) {
      assert rest[i] in rest && rest[j] in rest;
      assert FirstAt(s[1..], rest[i]) < FirstAt(s[1..], rest[j]);
    }
  }

  lemma FirstIsBefore(s: string, rest: string)
    requires s != "" && s[0] !in rest && (forall c :: c in rest ==> c in s) && Ordered(rest, s)
    ensures Ordered([s[0]] + rest, s)
  {
    var once := [s[0]] + rest;
    forall i, j | 0 <= i < j < |once| ensures FirstAt(s, once[i]) < FirstAt(s, once[j]) {
      assert once[j] == rest[j - 1] && rest[j - 1] in rest;
      if i > 0 {
        assert FirstAt(s, rest[i - 1]) < FirstAt(s, rest[j - 1]);
      }
    }
  }

  /** The flags once each, then width and precision unless they are stars. */
  lemma KeptIsExact(p: Spec)
    requires Grammatical(p)
    ensures
      var width := if p.width == "*" then "" else p.width;
      var precision := if p.precision == ".*" then "." else p.precision;
      exists flags :: OnceEach(flags, p.flags) && Kept(p) == "%" + flags + width + precision
  {
    hide Distinct, CategoryOf;
    DistinctHasEach(p.flags, {});
    DistinctIsOrdered(p.flags, {});
    assert OnceEach(Distinct(p.flags, {}), p.flags);
  }

  /** As a string, a value is printed with the flags and the width, and with a precision only if it is a string. */
  lemma StringFormatIs(p: Spec)
    ensures StringFormat(p) == Kept(if p.specifier in "sSZ" then p else p.(precision := "")) + "ls"
  {
    hide Distinct;
    CategoriesAre(p.specifier);
    assert KeptHead(p) + "" == KeptHead(p);
  }

  // ------------------------------------------------------------------ the recognizer as the original runs it

  class ParsedPrintf {
    var consumed: nat       // characters recognized, or 0
    var copied: nat         // characters kept in `format`
    var copiedBeforePrecision: nat
    var specifier: char
    var category: Category
    const format: array<char>

    ghost predicate Valid()
      reads this
    {
      format.Length == MAX_PREFIX + MAX_SUFFIX && copiedBeforePrecision <= copied <= MAX_PREFIX
    }

    /** The kept characters. */
    ghost function Prefix(): string
      reads this, format
      requires Valid()
    {
      format[..copied]
    }

    /** Everything the specification decides, and nothing when there is none. */
    ghost predicate Represents(r: Option<Spec>)
      reads this, format
      requires Valid()
    {
      match r
      case None => consumed == 0
      case Some(p) =>
        && consumed == |Text(p)| && Prefix() == Kept(p) && copiedBeforePrecision == KeptBeforePrecision(p)
        && specifier == p.specifier && category == CategoryOf(p.specifier)
    }

    constructor (szFormat: string)
      ensures Valid() && Represents(Recognize(szFormat)) && fresh(format)
    {
      consumed, copied, copiedBeforePrecision := 0, 0, 0;
      specifier, category := '\0', NoCategory;
      format := new char[MAX_PREFIX + MAX_SUFFIX];
      new;
      Parse(szFormat);
    }

    /** Copies a flag or the precision's point. */
    method Copy(c: char)
      requires Valid() && copied < MAX_PREFIX
      modifies this`copied, format
      ensures Valid() && Prefix() == old(Prefix()) + [c]
    {
      format[copied] := c;
      copied := copied + 1;
    }

    /** The two digit loops. */
    method CopyDigits(szFormat: string, start: nat) returns (i: nat)
      requires Valid() && copied + MAX_DIGITS <= MAX_PREFIX && start <= |szFormat| && IsDigit(At(szFormat, start))
      modifies this`copied, format
      ensures Valid() && i == DigitsEnd(szFormat, start, MAX_DIGITS) && copied == old(copied) + (i - start)
      ensures Prefix() == old(Prefix()) + szFormat[start..i]
    {
      i := start;
      var digits := 0;
      assert old(Prefix()) + szFormat[start..start] == old(Prefix());
      while true
        invariant Valid() && start <= i < |szFormat| && IsDigit(At(szFormat, i)) && digits == i - start < MAX_DIGITS
        invariant copied == old(copied) + digits
        invariant DigitsEnd(szFormat, start, MAX_DIGITS) == DigitsEnd(szFormat, i, MAX_DIGITS - digits)
        invariant Prefix() == old(Prefix()) + szFormat[start..i]
        decreases MAX_DIGITS - digits
      {
        digits := digits + 1;
        SliceGrows(szFormat, start, i);
        Associate(old(Prefix()), szFormat[start..i], [szFormat[i]]);
        Copy(szFormat[i]);
        i := i + 1;
        if !(IsDigit(At(szFormat, i)) && digits != MAX_DIGITS) {
          break;
        }
      }
    }

    /** The loop over the flags: each is copied the first time it is seen. */
    method CopyFlags(szFormat: string) returns (i: nat)
      requires Valid() && copied == 1 && Prefix() == "%"
      modifies this`copied, format
      ensures Valid() && i == FlagsEnd(szFormat, 0) && copied <= 6
      ensures Prefix() == "%" + Distinct(szFormat[..i], {})
    {
      hide Distinct;
      var seen: set<char> := {};
      i := 0;
      ghost var end := FlagsEnd(szFormat, 0);
      assert szFormat[0..end] == szFormat[..end];
      while true
        invariant Valid() && i <= end && FlagsEnd(szFormat, i) == end
        invariant seen <= ALL_FLAGS && copied == 1 + |seen|
        invariant Prefix() + Distinct(szFormat[i..end], seen) == "%" + Distinct(szFormat[..end], {})
        decreases |szFormat| - i
      {
        var c := At(szFormat, i);
        if !IsFlag(c) {
          break;
        }
        DistinctStep(szFormat, i, end, seen);
        if c !in seen {
          FewFlags(seen, c);
          Associate(Prefix(), [c], Distinct(szFormat[i + 1..end], seen + {c}));
          seen := seen + {c};
          Copy(c);
        }
        i := i + 1;
      }
      FlagsAreFew(seen);
      DistinctNothing(seen);
      assert szFormat[i..end] == "" && Prefix() + "" == Prefix();
    }

    /** The constructor's body: the jumps of the original become the order of these steps. */
    method Parse(szFormat: string)
      requires Valid() && copied == 0 && consumed == 0
      modifies this, format
      ensures Valid() && Represents(Recognize(szFormat))
    {
      hide FlagsEnd, DigitsEnd, Distinct, LengthEnd, CategoryOf, DropStar;
      Copy('%');
      var i := CopyFlags(szFormat);
      ghost var a := i;
      i := ParseWidth(szFormat, i);
      ghost var b := i;
      i := ParsePrecision(szFormat, i);
      ghost var c := i;
      i := ParseLength(szFormat, i);
      category := CategoryOf(At(szFormat, i));
      NulHasNoCategory();
      if category != NoCategory {
        specifier := At(szFormat, i);
        i := i + 1;
        consumed := i;
        Slices(szFormat, a, b, c, i - 1);
      }
    }

    method ParseWidth(szFormat: string, start: nat) returns (i: nat)
      requires Valid() && copied <= 6 && start <= |szFormat|
      modifies this`copied, format
      ensures Valid() && i == WidthEnd(szFormat, start) && copied <= 6 + MAX_DIGITS
      ensures Prefix() == old(Prefix()) + DropStar(szFormat[start..i])
    {
      i := start;
      var c := At(szFormat, i);
      if '1' <= c <= '9' {
        i := CopyDigits(szFormat, i);
        DigitsEndIsRun(szFormat, start, MAX_DIGITS);
        DigitsHaveNoStar(szFormat[start..i]);
      } else if c == '*' {
        i := i + 1;
      }
    }

    method ParsePrecision(szFormat: string, start: nat) returns (i: nat)
      requires Valid() && copied <= 6 + MAX_DIGITS && start <= |szFormat|
      modifies this`copied, this`copiedBeforePrecision, format
      ensures Valid() && i == PrecisionEnd(szFormat, start)
      ensures Prefix() == old(Prefix()) + DropStar(szFormat[start..i])
      ensures copiedBeforePrecision == if i == start then old(copiedBeforePrecision) else old(copied)
    {
      i := start;
      ghost var before := Prefix();
      if At(szFormat, i) == '.' {
        copiedBeforePrecision := copied;
        Copy('.');
        i := i + 1;
        if IsDigit(At(szFormat, i)) {
          i := CopyDigits(szFormat, i);
          DigitsEndIsRun(szFormat, start + 1, MAX_DIGITS);
          SliceGrows(szFormat, start, i - 1);
          Associate(before, ['.'], szFormat[start + 1..i]);
          PointAndDigitsHaveNoStar(szFormat[start + 1..i]);
        } else if At(szFormat, i) == '*' {
          i := i + 1;
          assert szFormat[start..i] == ".*";
        } else {
          assert szFormat[start..i] == ".";
        }
      }
    }

    /** The length is skipped. */
    method ParseLength(szFormat: string, start: nat) returns (i: nat)
      requires start <= |szFormat|
      ensures i == LengthEnd(szFormat, start)
    {
      i := start;
      match At(szFormat, i) {
        case 'h' | 'l' =>
          i := i + 1;
          if At(szFormat, i) == At(szFormat, i - 1) {
            i := i + 1;
          }
        case 'I' =>
          i := i + 1;
          if (At(szFormat, i) == '6' && At(szFormat, i + 1) == '4')
            || (At(szFormat, i) == '3' && At(szFormat, i + 1) == '2') {
            i := i + 2;
          }
        case 'j' | 'z' | 't' | 'L' | 'w' => i := i + 1;
        case _ =>
      }
    }

    /** Consumed() and IsPlainString(): nothing was kept but the percent sign, so no formatting is needed. */
    method IsPlainString() returns (plain: bool)
      requires Valid()
      ensures forall p :: Represents(Some(p)) ==>
        (plain <==> CategoryOf(p.specifier) == CategoryString && StringFormat(p) == "%ls")
    {
      plain := category == CategoryString && copied == 1;
    }

    /** MakeStringFormat: a precision means truncation for strings only, so it is dropped for other categories. */
    method MakeStringFormat() returns (text: string)
      requires Valid()
      modifies this`copied, format
      ensures Valid()
      ensures forall p :: old(Represents(Some(p))) ==> text == StringFormat(p)
    {
      ghost var prefix := Prefix();
      ghost var point := copiedBeforePrecision;
      ghost var kept := if category != CategoryString && point != 0 then prefix[..point] else prefix;
      if category != CategoryString && copiedBeforePrecision != 0 {
        copied := copiedBeforePrecision;
      }
      format[copied] := 'l';
      format[copied + 1] := 's';
      format[copied + 2] := '\0';
      text := format[..copied + 2];
      assert text == kept + "ls";
      forall p | old(Represents(Some(p))) ensures text == StringFormat(p) {
        assert KeptHead(p) + "" == KeptHead(p);
        assert p.precision != "" ==> Kept(p)[..|KeptHead(p)|] == KeptHead(p);
      }
    }
  }

  lemma DistinctStep(s: string, i: nat, end: nat, seen: set<char>)
    requires i < end <= |s|
    ensures Distinct(s[i..end], seen)
      == if s[i] in seen then Distinct(s[i + 1..end], seen) else [s[i]] + Distinct(s[i + 1..end], seen + {s[i]})
  {
    assert s[i..end][1..] == s[i + 1..end];
  }

  lemma DistinctNothing(seen: set<char>)
    ensures Distinct("", seen) == ""
  {
  }

  const ALL_FLAGS: set<char> := {'-', '+', ' ', '#', '0'}

  lemma FlagsAreFew(seen: set<char>)
    requires seen <= ALL_FLAGS
    ensures |seen| <= 5
  {
    SubsetIsSmaller(seen, ALL_FLAGS);
  }

  lemma FewFlags(seen: set<char>, c: char)
    requires seen <= ALL_FLAGS && c in ALL_FLAGS && c !in seen
    ensures |seen| < 5
  {
    FlagsAreFew(seen + {c});
  }

  lemma {:induction false} SubsetIsSmaller(a: set<char>, b: set<char>)
    requires a <= b
    ensures |a| <= |b|
  {
    if a == {} {
    } else {
      var c :| c in a;
      SubsetIsSmaller(a - {c}, b - {c});
    }
  }

  lemma DigitsHaveNoStar(digits: string)
    requires AreDigits(digits)
    ensures DropStar(digits) == digits
  {
  }

  lemma PointAndDigitsHaveNoStar(digits: string)
    requires AreDigits(digits)
    ensures DropStar(['.'] + digits) == ['.'] + digits
  {
  }

  lemma NulHasNoCategory()
    ensures CategoryOf('\0').NoCategory?
  {
  }
}
