/** Which addresses are printed with a dotted end, and how the numbers in all of them are written. */
module IPv6Forms {
  import opened IPv6
  import D = Digits

  // ------------------------------------------------------------------ dotted ends

  /** An IPv4-compatible, mapped or translated address, whose IPv4 address is not 0.0.x.y. */
  predicate EmbedsIPv4(b: Address) {
    && (forall i :: 0 <= i < 4 ==> GroupAt(b, i) == 0)
    && GroupAt(b, 6) != 0
    && ((GroupAt(b, 4) == 0 && GroupAt(b, 5) == 0)
        || (GroupAt(b, 4) == 0 && GroupAt(b, 5) == 0xffff)
        || (GroupAt(b, 4) == 0xffff && GroupAt(b, 5) == 0))
  }

  /** The interface identifier of an ISATAP address. */
  predicate IsIsatap(b: Address) {
    (GroupAt(b, 4) == 0 || GroupAt(b, 4) == 0x200) && GroupAt(b, 5) == 0x5efe
  }

  lemma JoinedIsHex(g: seq<nat>, i: nat, j: nat)
    requires i <= j <= |g| && forall k :: i <= k < j ==> g[k] < 0x1_0000
    ensures '.' !in Joined(g, i, j)
    decreases j - i
  {
    hide HexText, Number;
    if i < j {
      HexReads(g[i]);
      if i + 1 < j {
        JoinedIsHex(g, i + 1, j);
      }
    }
  }

  lemma HexPartIsHex(g: seq<nat>, end: nat, first: nat, len: nat)
    requires end <= |g| && (first == end || first + len <= end) && forall k :: 0 <= k < end ==> g[k] < 0x1_0000
    ensures '.' !in HexPart(g, end, first, len)
  {
    hide Joined;
    JoinedIsHex(g, 0, first);
    if first + len < end {
      JoinedIsHex(g, first + len, end);
    }
  }

  lemma DottedHasDots(b: Address)
    ensures '.' in Dotted(b)
  {
    hide D.Render;
    assert Dotted(b)[|D.Decimal(b[12])|] == '.';
  }

  /** The two middle groups as the 32-bit word that the original compares. */
  lemma WordIsGroups(b: Address)
    ensures WordAt(b, 2) == 0xffff_0000 <==> GroupAt(b, 4) == 0 && GroupAt(b, 5) == 0xffff
    ensures WordAt(b, 2) == 0x0000_ffff <==> GroupAt(b, 4) == 0xffff && GroupAt(b, 5) == 0
    ensures b[12] as nat + b[13] as nat * 256 != 0 <==> GroupAt(b, 6) != 0
  {
  }

  lemma ClassIsForm(b: Address)
    ensures EmbedsIPv4(b) <==> Classify(b).Compatible? || Classify(b).Mapped? || Classify(b).Translated?
    ensures IsIsatap(b) <==> EndHex(b) == 6
    ensures IsIsatap(b) ==> Classify(b).General?
    ensures Classify(b).AllZero? <==> forall i :: 0 <= i < 8 ==> GroupAt(b, i) == 0
  {
    hide WordAt, GroupAt, WithoutBit1;
    ZeroWord(b, 0);
    ZeroWord(b, 1);
    ZeroWord(b, 2);
    ZeroWord(b, 3);
    MiddleWord(b);
    WordIsGroups(b);
  }

  /** The text has a dotted end exactly for embedded IPv4 addresses and ISATAP addresses. */
  lemma DottedExactly(b: Address, text: string)
    requires Prints(b, text)
    ensures '.' in text <==> EmbedsIPv4(b) || IsIsatap(b)
  {
    hide EmbedsIPv4, IsIsatap, Classify, EndHex, HexPart, Dotted, IsLongestRun;
    ClassIsForm(b);
    DottedHasDots(b);
    if Classify(b).General? {
      var first, len :| PrintsGeneral(b, text, first, len);
      RunIsInside(Groups(b), EndHex(b), first, len);
      HexPartIsHex(Groups(b), EndHex(b), first, len);
    }
  }

  /** Seven groups of zeros: what is left is two colons and the last group. */
  lemma OneGroupLeft(b: Address, text: string)
    requires Prints(b, text) && (forall i :: 0 <= i < 7 ==> GroupAt(b, i) == 0) && GroupAt(b, 7) != 0
    ensures exists digits :: text == "::" + digits && D.Denotes(digits, 16, GroupAt(b, 7)) && D.HasCase(digits, false)
  {
    hide Classify, EndHex, Dotted, D.Render, D.Denotes, D.HasCase;
    ClassIsForm(b);
    assert GroupAt(b, 6) == 0 && GroupAt(b, 5) == 0;
    assert Classify(b).General? && EndHex(b) == 8;
    var g := Groups(b);
    var first, len :| PrintsGeneral(b, text, first, len);
    assert AllZeros(g, 0, 7);
    assert first == 0 && len == 7;
    D.RenderDenotes(g[7], 16, false);
    assert Joined(g, 0, 0) == "" && Joined(g, 7, 8) == HexText(g[7]);
    assert text == "::" + HexText(g[7]);
  }

  // ------------------------------------------------------------------ how numbers are written

  predicate IsSeparator(c: char) {
    c == ':' || c == '.'
  }

  /** No capitals, and no number has a zero in front (sections 4.1 and 4.3 of RFC 5952). */
  ghost predicate IsTidy(s: string) {
    D.HasCase(s, false) && forall i :: 0 <= i < |s| ==> IsTidyAt(s, i)
  }

  /** A zero where a number starts is where it ends. */
  predicate IsTidyAt(s: string, i: nat)
    requires i < |s|
  {
    s[i] == '0' && (i == 0 || IsSeparator(s[i - 1])) ==> i + 1 == |s| || IsSeparator(s[i + 1])
  }

  lemma NumberIsTidy(n: nat, base: nat)
    requires base == 10 || base == 16
    ensures IsTidy(D.Render(n, base, false))
  {
    hide D.NumberOf;
    D.RenderDenotes(n, base, false);
    D.NoLeadingZero(n, base, false);
    var s := D.Render(n, base, false);
    assert forall i :: 0 <= i < |s| ==> D.IsDigitOf(s[i], base) && !IsSeparator(s[i]);
  }

  lemma TidyBehind(a: string, c: char, b: string)
    requires IsTidy(a) && IsTidy(b) && IsSeparator(c)
    ensures IsTidy(a + ([c] + b))
  {
    hide IsTidyAt;
    var s := a + ([c] + b);
    var at := |a| + 1;
    forall i | 0 <= i < |s| ensures IsTidyAt(s, i) && !('A' <= s[i] <= 'Z') {
      if i < |a| {
        TidyLeft(a, c, b, i);
      } else if i >= at {
        TidyRight(a, c, b, i - at);
      } else {
        TidySeparator(a, c, b);
      }
    }
  }

  lemma TidyLeft(a: string, c: char, b: string, i: nat)
    requires i < |a| && IsTidyAt(a, i) && IsSeparator(c)
    ensures var s := a + ([c] + b); IsTidyAt(s, i) && s[i] == a[i]
  {
    var s := a + ([c] + b);
    assert s[i] == a[i] && (i > 0 ==> s[i - 1] == a[i - 1]);
    assert s[i + 1] == if i + 1 < |a| then a[i + 1] else c;
  }

  lemma TidyRight(a: string, c: char, b: string, k: nat)
    requires k < |b| && IsTidyAt(b, k) && IsSeparator(c)
    ensures var s := a + ([c] + b); var i := |a| + 1 + k; IsTidyAt(s, i) && s[i] == b[k]
  {
    var s := a + ([c] + b);
    var i := |a| + 1 + k;
    assert s[i] == b[k] && s[i - 1] == if k > 0 then b[k - 1] else c;
    assert k + 1 < |b| ==> s[i + 1] == b[k + 1];
  }

  lemma TidySeparator(a: string, c: char, b: string)
    requires IsSeparator(c)
    ensures var s := a + ([c] + b); IsTidyAt(s, |a|) && s[|a|] == c
  {
  }

  lemma NothingIsTidy()
    ensures IsTidy("")
  {
  }

  /** Two colons in front. */
  lemma TidyGap(s: string)
    requires IsTidy(s)
    ensures IsTidy("::" + s)
  {
    hide IsTidy;
    NothingIsTidy();
    TidyBehind("", ':', s);
    TidyBehind("", ':', "" + ([':'] + s));
    assert "" + ([':'] + ("" + ([':'] + s))) == "::" + s;
  }

  lemma {:induction false} JoinedIsTidy(g: seq<nat>, i: nat, j: nat)
    requires i <= j <= |g|
    ensures IsTidy(Joined(g, i, j))
    decreases j - i
  {
    hide IsTidy, D.Render;
    if i == j {
      NothingIsTidy();
    } else {
      NumberIsTidy(g[i], 16);
      if i + 1 < j {
        JoinedIsTidy(g, i + 1, j);
        TidyBehind(HexText(g[i]), ':', Joined(g, i + 1, j));
      }
    }
  }

  lemma DottedIsTidy(b: Address)
    ensures IsTidy(Dotted(b))
  {
    hide IsTidy, D.Render;
    var (s0, s1, s2, s3) := (D.Decimal(b[12]), D.Decimal(b[13]), D.Decimal(b[14]), D.Decimal(b[15]));
    NumberIsTidy(b[12], 10);
    NumberIsTidy(b[13], 10);
    NumberIsTidy(b[14], 10);
    NumberIsTidy(b[15], 10);
    TidyBehind(s2, '.', s3);
    TidyBehind(s1, '.', s2 + ("." + s3));
    TidyBehind(s0, '.', s1 + ("." + (s2 + ("." + s3))));
  }

  lemma HexPartIsTidy(g: seq<nat>, end: nat, first: nat, len: nat)
    requires end <= |g| && (first == end || first + len <= end)
    ensures IsTidy(HexPart(g, end, first, len))
  {
    hide IsTidy, Joined;
    var a := Joined(g, 0, first);
    JoinedIsTidy(g, 0, first);
    NothingIsTidy();
    if first + len < end || first != end {
      var rest := if first + len < end then Joined(g, first + len, end) else "";
      if first + len < end {
        JoinedIsTidy(g, first + len, end);
      }
      TidyBehind("", ':', rest);
      TidyBehind(a, ':', "" + ([':'] + rest));
      assert a + ([':'] + ("" + ([':'] + rest))) == a + ("::" + rest);
      assert "::" + "" == "::";
    } else {
      assert a + "" == a;
    }
  }

  /** The numbers in the text of any address are written without capitals and without zeros in front. */
  lemma TextIsTidy(b: Address, text: string)
    requires Prints(b, text)
    ensures IsTidy(text)
  {
    hide IsTidy, Classify, EndHex, HexPart, Dotted, IsLongestRun;
    DottedIsTidy(b);
    NothingIsTidy();
    match Classify(b) {
      case AllZero =>
        TidyGap("");
        assert "::" + "" == "::";
      case Compatible => TidyGap(Dotted(b));
      case Mapped =>
        PrefixesAreTidy();
        TidyBehind("ffff", ':', Dotted(b));
        TidyGap("ffff" + ([':'] + Dotted(b)));
        assert "::" + ("ffff" + ([':'] + Dotted(b))) == text;
      case Translated =>
        PrefixesAreTidy();
        TidyBehind("0", ':', Dotted(b));
        TidyBehind("ffff", ':', "0" + ([':'] + Dotted(b)));
        TidyGap("ffff" + ([':'] + ("0" + ([':'] + Dotted(b)))));
        assert "::" + ("ffff" + ([':'] + ("0" + ([':'] + Dotted(b))))) == text;
      case General =>
        var first, len :| PrintsGeneral(b, text, first, len);
        RunIsInside(Groups(b), EndHex(b), first, len);
        HexPartIsTidy(Groups(b), EndHex(b), first, len);
        var hex := HexPart(Groups(b), EndHex(b), first, len);
        TidyBehind(hex, ':', Dotted(b));
        assert hex + "" == hex;
    }
  }

  lemma PrefixesAreTidy()
    ensures IsTidy("ffff") && IsTidy("0")
  {
  }
}
