/** FormatMapValue: numbers with the name, or the list of flag names, that the event's map gives them. */
module ValueMaps {
  import opened Basics
  import opened GrowableBuffer
  import opened FormattedText
  import D = Digits

  datatype MapEntry = MapEntry(value: bv32, name: string)

  /** What the flags of EVENT_MAP_INFO select; WBEM_NO_MAP makes a value map an indexed one. */
  datatype MapKind = ValueMap | IndexedMap | BitMap | Unsupported

  // ------------------------------------------------------------------ the text

  /** MapStringLen: map strings may end in spaces that are not printed. */
  function Trimmed(s: string): (r: string)
    ensures r <= s
    ensures forall k :: |r| <= k < |s| ==> s[k] == ' '
    ensures r != "" ==> r[|r| - 1] != ' '
  {
    if s != "" && s[|s| - 1] == ' ' then Trimmed(s[..|s| - 1]) else s
  }

  function NumberText(value: bv32, hex: bool): string {
    if hex then "0x" + D.Render(value as nat, 16, true) else D.Decimal(value as nat)
  }

  /** Every bit of `mask` is a bit of `value`. */
  predicate Within(mask: bv32, value: bv32) {
    value & mask == mask
  }

  /** The condition of the loop over the flags. */
  predicate Shows(mask: bv32, value: bv32) {
    Within(mask, value) && (mask != 0 || value == 0)
  }

  function Listed(entries: seq<MapEntry>, value: bv32): seq<MapEntry> {
    if entries == [] then []
    else
      var last := entries[|entries| - 1];
      Listed(entries[..|entries| - 1], value) + if Shows(last.value, value) then [last] else []
  }

  function Join(a: bv32, b: bv32): bv32 {
    a | b
  }

  function Union(entries: seq<MapEntry>): bv32 {
    if entries == [] then 0 else Join(Union(entries[..|entries| - 1]), entries[|entries| - 1].value)
  }

  /** The opened list: the number, a bracket and the names with commas between them. */
  function ListText(listed: seq<MapEntry>, number: string): string {
    if listed == [] then ""
    else
      var name := Trimmed(listed[|listed| - 1].name);
      if |listed| == 1 then number + "[" + name
      else ListText(listed[..|listed| - 1], number) + ("," + name)
  }

  function Unmatched(value: bv32, matchedBits: bv32): bv32 {
    value ^ matchedBits
  }

  /** The bits that no listed flag accounts for. */
  function Remainder(entries: seq<MapEntry>, value: bv32): bv32 {
    Unmatched(value, Union(Listed(entries, value)))
  }

  /** The text after the names when some bits have no name. */
  function RemainderText(bits: bv32): string {
    ",0x" + D.Render(bits as nat, 16, true) + "]"
  }

  /** What is printed when no flag matches: an empty set only for zero. */
  function NothingText(value: bv32, hex: bool): string {
    NumberText(value, hex) + "[" + (if value == 0 then "" else "??") + "]"
  }

  function BitMapText(entries: seq<MapEntry>, value: bv32, hex: bool): string {
    var listed := Listed(entries, value);
    var number := NumberText(value, hex);
    if listed == [] then NothingText(value, hex)
    else if Remainder(entries, value) == 0 then ListText(listed, number) + "]"
    else ListText(listed, number) + RemainderText(Remainder(entries, value))
  }

  /** The name of the first entry with the given value. */
  function NameOf(entries: seq<MapEntry>, value: bv32): Option<string> {
    if entries == [] then None
    else if entries[0].value == value then Some(entries[0].name)
    else NameOf(entries[1..], value)
  }

  function NamedText(name: Option<string>, value: bv32, hex: bool): string {
    NumberText(value, hex) + ("(" + (if name.Some? then Trimmed(name.value) else "??") + ")")
  }

  // ------------------------------------------------------------------ properties

  /** Exactly the flags contained in the value are listed; a flag without bits only for the value zero. */
  lemma {:induction false} ListedExactly(entries: seq<MapEntry>, value: bv32, x: MapEntry)
    ensures x in Listed(entries, value) <==> x in entries && Within(x.value, value) && (x.value == 0 ==> value == 0)
    ensures |Listed(entries, value)| <= |entries|
  {
    hide Within, Join;
    if entries == [] {
    } else {
      var (init, last) := (entries[..|entries| - 1], entries[|entries| - 1]);
      ListedExactly(init, value, x);
      assert entries == init + [last];
    }
  }

  lemma JoinWithin(a: bv32, b: bv32, value: bv32)
    requires Within(a, value) && Within(b, value)
    ensures Within(Join(a, b), value)
  {
  }

  /** Two masks without a common bit that make up `whole`. */
  predicate Partition(a: bv32, b: bv32, whole: bv32) {
    Join(a, b) == whole && a & b == 0
  }

  lemma WithinComplement(a: bv32, value: bv32)
    requires Within(a, value)
    ensures Partition(a, Unmatched(value, a), value)
  {
  }

  lemma NothingUnmatched(a: bv32, value: bv32)
    ensures Unmatched(value, a) == 0 <==> a == value
  {
  }

  lemma WithinMore(a: bv32, b: bv32, c: bv32)
    requires Within(a, b)
    ensures Within(a, Join(b, c))
  {
  }

  lemma WithinJoin(a: bv32, b: bv32)
    ensures Within(b, Join(a, b))
  {
  }

  lemma WithinDisjoint(a: bv32, b: bv32, c: bv32, whole: bv32)
    requires Within(a, b) && Partition(b, c, whole)
    ensures a & c == 0
  {
  }

  lemma NothingWithin(value: bv32)
    ensures Within(0, value)
  {
  }

  lemma {:induction false} UnionIsWithin(entries: seq<MapEntry>, value: bv32)
    ensures Within(Union(Listed(entries, value)), value)
  {
    hide Within, Join;
    if entries == [] {
      NothingWithin(value);
    } else {
      var last := entries[|entries| - 1];
      var listed := Listed(entries[..|entries| - 1], value);
      UnionIsWithin(entries[..|entries| - 1], value);
      if Shows(last.value, value) {
        assert (listed + [last])[..|listed|] == listed;
        JoinWithin(Union(listed), last.value, value);
      } else {
        assert listed + [] == listed;
      }
    }
  }

  lemma {:induction false} UnionHolds(entries: seq<MapEntry>, x: MapEntry)
    requires x in entries
    ensures Within(x.value, Union(entries))
  {
    hide Within, Join;
    var (init, last) := (entries[..|entries| - 1], entries[|entries| - 1]);
    assert entries == init + [last];
    if x in init {
      UnionHolds(init, x);
      WithinMore(x.value, Union(init), last.value);
    } else {
      WithinJoin(Union(init), last.value);
    }
  }

  /** The listed flags and the printed remainder account for every bit of the value, and for no bit twice. */
  lemma BitsAreConserved(entries: seq<MapEntry>, value: bv32)
    ensures Partition(Union(Listed(entries, value)), Remainder(entries, value), value)
    ensures Remainder(entries, value) == 0 <==> Union(Listed(entries, value)) == value
  {
    hide Within, Union, Listed, Partition, Unmatched;
    UnionIsWithin(entries, value);
    WithinComplement(Union(Listed(entries, value)), value);
    NothingUnmatched(Union(Listed(entries, value)), value);
  }

  lemma ListedIsDisjoint(entries: seq<MapEntry>, value: bv32, x: MapEntry)
    requires x in Listed(entries, value)
    ensures x.value & Remainder(entries, value) == 0
  {
    hide Within, Union, Listed, Remainder, Partition;
    BitsAreConserved(entries, value);
    UnionHolds(Listed(entries, value), x);
    WithinDisjoint(x.value, Union(Listed(entries, value)), Remainder(entries, value), value);
  }

  // ------------------------------------------------------------------ reading the text

  /** The value in decimal digits, or in capital hexadecimal digits behind 0x. */
  predicate IsNumber(s: string, n: nat, hex: bool) {
    if hex then |s| > 2 && s[..2] == "0x" && D.Denotes(s[2..], 16, n) && D.HasCase(s[2..], true)
    else D.Denotes(s, 10, n)
  }

  lemma NumberReads(value: bv32, hex: bool)
    ensures IsNumber(NumberText(value, hex), value as nat, hex)
  {
    hide IsNumber, D.Render;
    DigitsRead(value as nat, hex);
  }

  lemma DigitsRead(n: nat, hex: bool)
    ensures IsNumber(if hex then "0x" + D.Render(n, 16, true) else D.Decimal(n), n, hex)
  {
    hide D.Render, D.Denotes, D.HasCase;
    if hex {
      D.RenderDenotes(n, 16, true);
      assert ("0x" + D.Render(n, 16, true))[2..] == D.Render(n, 16, true);
    } else {
      D.RenderDenotes(n, 10, false);
    }
  }

  /** The names with commas between them, without the spaces at their ends. */
  function Names(listed: seq<MapEntry>): string {
    if listed == [] then ""
    else if |listed| == 1 then Trimmed(listed[0].name)
    else Trimmed(listed[0].name) + "," + Names(listed[1..])
  }

  lemma {:induction false} NamesOneMore(listed: seq<MapEntry>, x: MapEntry)
    requires listed != []
    ensures Names(listed + [x]) == Names(listed) + ("," + Trimmed(x.name))
    decreases |listed|
  {
    hide Trimmed;
    assert (listed + [x])[1..] == listed[1..] + [x];
    if |listed| > 1 {
      NamesOneMore(listed[1..], x);
      var (name, rest, more) := (Trimmed(listed[0].name) + ",", Names(listed[1..]), "," + Trimmed(x.name));
      Associate(name, rest, more);
    } else {
      assert Names([x]) == Trimmed(x.name);
      Associate(Trimmed(listed[0].name), ",", Trimmed(x.name));
    }
  }

  lemma {:induction false} ListReads(listed: seq<MapEntry>, number: string)
    requires listed != []
    ensures ListText(listed, number) == number + "[" + Names(listed)
    decreases |listed|
  {
    hide Trimmed;
    var (init, x) := (listed[..|listed| - 1], listed[|listed| - 1]);
    assert listed == init + [x];
    if |listed| > 1 {
      ListReads(init, number);
      NamesOneMore(init, x);
      Associate(number + "[", Names(init), "," + Trimmed(x.name));
    }
  }

  /** Two masks have a bit in common. */
  predicate Meets(a: bv32, b: bv32) {
    a & b != 0
  }

  lemma CoverStep(m: bv32, a: bv32, b: bv32)
    requires Meets(m, Join(a, b))
    ensures Meets(m, a) || Meets(m, b)
  {
  }

  lemma NothingMeets(m: bv32)
    ensures !Meets(m, 0)
  {
  }

  /** Bits of the union are bits of a listed flag. */
  lemma {:induction false} UnionIsCovered(listed: seq<MapEntry>, m: bv32)
    requires Meets(m, Union(listed))
    ensures exists x :: x in listed && Meets(m, x.value)
    decreases |listed|
  {
    hide Join, Meets;
    NothingMeets(m);
    if listed != [] {
      var (init, last) := (listed[..|listed| - 1], listed[|listed| - 1]);
      CoverStep(m, Union(init), last.value);
      assert last in listed;
      if !Meets(m, last.value) {
        UnionIsCovered(init, m);
        var x :| x in init && Meets(m, x.value);
        assert x in listed;
      }
    }
  }

  /** `bits` are exactly the bits of the value that no listed flag has. */
  ghost predicate IsLeftOver(bits: bv32, listed: seq<MapEntry>, value: bv32) {
    && Within(bits, value)
    && (forall x :: x in listed ==> !Meets(x.value, bits))
    && forall m: bv32 :: Meets(m, value) ==> Meets(m, bits) || exists x :: x in listed && Meets(m, x.value)
  }

  /** The end of a list: a bracket, behind the bits that are left over if there are any. */
  predicate IsListEnd(end: string, bits: bv32) {
    if bits == 0 then end == "]"
    else
      && |end| > 4 && end[..3] == ",0x" && end[|end| - 1] == ']'
      && D.Denotes(end[3..|end| - 1], 16, bits as nat) && D.HasCase(end[3..|end| - 1], true)
  }

  lemma PartitionIsWithin(a: bv32, b: bv32, whole: bv32)
    requires Partition(a, b, whole)
    ensures Within(b, whole)
  {
  }

  lemma RemainderIsLeftOver(entries: seq<MapEntry>, value: bv32)
    ensures IsLeftOver(Remainder(entries, value), Listed(entries, value), value)
  {
    hide Within, Listed, Remainder, Union, Partition, Meets;
    var (listed, bits) := (Listed(entries, value), Remainder(entries, value));
    BitsAreConserved(entries, value);
    PartitionIsWithin(Union(listed), bits, value);
    forall x | x in listed ensures !Meets(x.value, bits) {
      DoesNotMeet(entries, value, x);
    }
    forall m: bv32 | Meets(m, value)
      ensures Meets(m, bits) || exists x :: x in listed && Meets(m, x.value)
    {
      PartitionCovers(m, Union(listed), bits, value);
      if !Meets(m, bits) {
        UnionIsCovered(listed, m);
      }
    }
  }

  lemma DoesNotMeet(entries: seq<MapEntry>, value: bv32, x: MapEntry)
    requires x in Listed(entries, value)
    ensures !Meets(x.value, Remainder(entries, value))
  {
    hide Listed, Remainder;
    ListedIsDisjoint(entries, value, x);
  }

  lemma PartitionCovers(m: bv32, a: bv32, b: bv32, whole: bv32)
    requires Partition(a, b, whole) && Meets(m, whole)
    ensures Meets(m, a) || Meets(m, b)
  {
  }

  lemma RemainderReads(bits: bv32)
    requires bits != 0
    ensures IsListEnd(RemainderText(bits), bits)
  {
    hide D.Render, D.Denotes, D.HasCase;
    EndReads(bits as nat);
  }

  lemma EndReads(n: nat)
    ensures var digits := D.Render(n, 16, true); var end := ",0x" + digits + "]";
      && |end| > 4 && end[..3] == ",0x" && end[|end| - 1] == ']' && end[3..|end| - 1] == digits
      && D.Denotes(digits, 16, n) && D.HasCase(digits, true)
  {
    hide D.Render, D.Denotes, D.HasCase;
    D.RenderDenotes(n, 16, true);
  }

  /** `text` consists of the number, the names of the listed flags and the end. */
  ghost predicate SplitsInto(
      text: string, listed: seq<MapEntry>, value: bv32, hex: bool, number: string, end: string,
      bits: bv32)
  {
    && IsNumber(number, value as nat, hex)
    && IsLeftOver(bits, listed, value)
    && IsListEnd(end, if listed == [] then 0 else bits)
    && text == number + "[" + (if listed != [] then Names(listed) else if value == 0 then "" else "??") + end
  }

  /**
   The text of a set of flags can be read: the number is the value; the names are those of the listed flags; and
   what stands behind them is the bits of the value that none of these flags has.
   */
  lemma BitMapReads(entries: seq<MapEntry>, value: bv32, hex: bool)
    ensures exists number, end, bits ::
      SplitsInto(BitMapText(entries, value, hex), Listed(entries, value), value, hex, number, end, bits)
  {
    hide Listed, Names, ListText, NumberText, IsNumber, Remainder, RemainderText, IsLeftOver, IsListEnd;
    var (listed, number, bits) := (Listed(entries, value), NumberText(value, hex), Remainder(entries, value));
    NumberReads(value, hex);
    RemainderIsLeftOver(entries, value);
    BracketReads();
    var end := if listed == [] || bits == 0 then "]" else RemainderText(bits);
    if bits != 0 {
      RemainderReads(bits);
    }
    if listed != [] {
      ListReads(listed, number);
    }
    assert BitMapText(entries, value, hex)
      == number + "[" + (if listed != [] then Names(listed) else if value == 0 then "" else "??") + end;
    assert SplitsInto(BitMapText(entries, value, hex), listed, value, hex, number, end, bits);
  }

  lemma BracketReads()
    ensures IsListEnd("]", 0)
  {
  }

  /** The name of a value is that of the first entry for it. */
  lemma {:induction false} NameIsFirst(entries: seq<MapEntry>, value: bv32)
    ensures NameOf(entries, value).None? <==> forall k :: 0 <= k < |entries| ==> entries[k].value != value
    ensures NameOf(entries, value).Some? ==>
      exists k :: 0 <= k < |entries| && entries[k].value == value && NameOf(entries, value).value == entries[k].name
        && forall j :: 0 <= j < k ==> entries[j].value != value
    decreases |entries|
  {
    if entries == [] || entries[0].value == value {
    } else {
      NameIsFirst(entries[1..], value);
      assert forall k :: 0 < k < |entries| ==> entries[k] == entries[1..][k - 1];
      if NameOf(entries, value).Some? {
        var k :| 0 <= k < |entries[1..]| && entries[1..][k].value == value
          && NameOf(entries[1..], value).value == entries[1..][k].name
          && forall j :: 0 <= j < k ==> entries[1..][j].value != value;
        assert entries[k + 1].value == value;
      }
    }
  }

  /** The text of a single value: the value and, in parentheses, its name without the spaces at its end. */
  lemma NamedReads(entries: seq<MapEntry>, value: bv32, hex: bool)
    ensures exists number, name ::
      && IsNumber(number, value as nat, hex)
      && NamedText(NameOf(entries, value), value, hex) == number + "(" + name + ")"
      && name == match NameOf(entries, value)
        case Some(s) => Trimmed(s)
        case None => "??"
  {
    hide NameOf, Trimmed, NumberText, IsNumber;
    NumberReads(value, hex);
    var found := NameOf(entries, value);
    var (number, name) := (NumberText(value, hex), if found.Some? then Trimmed(found.value) else "??");
    assert number + ("(" + name + ")") == number + "(" + name + ")";
  }

  lemma SameNumber(a: bv32, b: bv32)
    requires a as nat == b as nat
    ensures a == b
  {
    assert (a as nat) as bv32 == a && (b as nat) as bv32 == b;
  }

  /** In a well-formed indexed map, looking at the index finds what a search for the value finds. */
  lemma {:induction false} IndexIsSearch(entries: seq<MapEntry>, offset: nat, value: bv32, n: nat)
    requires n == value as nat && offset <= n
    requires forall k :: 0 <= k < |entries| ==> entries[k].value as nat == offset + k
    ensures NameOf(entries, value) == if n - offset < |entries| then Some(entries[n - offset].name) else None
    decreases |entries|
  {
    if entries == [] {
    } else {
      if n == offset {
        SameNumber(entries[0].value, value);
      } else {
        assert entries[0].value as nat == offset + 0;
        forall k | 0 <= k < |entries| - 1 ensures entries[1..][k].value as nat == offset + 1 + k {
          assert entries[k + 1].value as nat == offset + (k + 1);
        }
        IndexIsSearch(entries[1..], offset + 1, value, n);
      }
    }
  }

  lemma ListedOneMore(entries: seq<MapEntry>, i: nat, value: bv32)
    requires i < |entries|
    ensures var (a, b) := (Listed(entries[..i], value), Listed(entries[..i + 1], value));
      if Shows(entries[i].value, value) then b == a + [entries[i]] && Union(b) == Join(Union(a), entries[i].value)
      else b == a
  {
    hide Shows, Join;
    assert entries[..i + 1][..i] == entries[..i];
    var a := Listed(entries[..i], value);
    if Shows(entries[i].value, value) {
      assert (a + [entries[i]])[..|a|] == a;
    } else {
      assert a + [] == a;
    }
  }

  lemma ListTextOneMore(listed: seq<MapEntry>, x: MapEntry, number: string)
    ensures ListText(listed + [x], number)
      == if listed == [] then number + "[" + Trimmed(x.name) else ListText(listed, number) + ("," + Trimmed(x.name))
  {
    assert (listed + [x])[..|listed|] == listed;
  }

  /** The list only grows while the loop runs. */
  lemma {:induction false} ListTextGrows(entries: seq<MapEntry>, i: nat, j: nat, value: bv32, number: string)
    requires i <= j <= |entries|
    ensures |ListText(Listed(entries[..i], value), number)| <= |ListText(Listed(entries[..j], value), number)|
    decreases j - i
  {
    hide Shows, Listed, ListText;
    if i < j {
      ListedOneMore(entries, i, value);
      ListTextGrows(entries, i + 1, j, value, number);
      var listed := Listed(entries[..i], value);
      if Shows(entries[i].value, value) {
        ListTextOneMore(listed, entries[i], number);
        ListTextNothing(number);
      }
    }
  }

  lemma ListTextNothing(number: string)
    ensures ListText([], number) == ""
  {
  }

  // ------------------------------------------------------------------ the printer

  /** How many characters formatted text can still add to a builder. */
  ghost function Room(builder: Buffer<char>): nat
    requires builder.Valid()
    reads builder
  {
    SummitOf(builder) - builder.size
  }

  /** Enough memory for `n` more characters, however they are appended. */
  ghost predicate HasRoom(builder: Buffer<char>, n: nat)
    reads builder
  {
    builder.Valid() && builder.size + n + (STEP - 1) <= builder.maxCapacity <= builder.heapLimit
  }

  lemma RoomIsEnough(builder: Buffer<char>, n: nat)
    requires HasRoom(builder, n)
    ensures n <= Room(builder)
  {
    hide Summit;
    SummitIsHigh(builder.data.Length, builder.maxCapacity, builder.heapLimit);
  }

  /** A buffer with this capacity takes one more character. */
  predicate CharFits(capacity: nat, size: nat, max: nat, heap: nat) {
    var grown := GrownCapacity(capacity, size + 1, max);
    size < capacity || (size < max && grown.Some? && grown.value <= heap)
  }

  /** The list with the entries before `read` fits in `room`, and the next one does not. */
  predicate FitsUpTo(entries: seq<MapEntry>, value: bv32, number: string, room: nat, read: nat) {
    && read <= |entries|
    && |ListText(Listed(entries[..read], value), number)| <= room
    && (read < |entries| ==> |ListText(Listed(entries[..read + 1], value), number)| > room)
  }

  /** There is one such place; it is the end when the whole list fits. */
  lemma FitsOnce(entries: seq<MapEntry>, value: bv32, number: string, room: nat, read: nat, other: nat)
    requires FitsUpTo(entries, value, number, room, read)
    ensures FitsUpTo(entries, value, number, room, other) ==> other == read
    ensures read == |entries| <==> |ListText(Listed(entries, value), number)| <= room
  {
    hide Listed, ListText;
    assert entries[..|entries|] == entries;
    if read < |entries| {
      ListTextGrows(entries, read + 1, |entries|, value, number);
      if read < other <= |entries| {
        ListTextGrows(entries, read + 1, other, value, number);
      }
    }
    if other < read {
      ListTextGrows(entries, other + 1, read, value, number);
    }
  }

  /**
   The loop over the flags, which stops at the first one that does not fit; `status` is NotFound until
   one has been printed.
   */
  method AppendFlags(builder: Buffer<char>, entries: seq<MapEntry>, value: bv32, hex: bool)
    returns (status: Status, matchedBits: bv32, ghost read: nat)
    requires builder.Valid()
    modifies builder, builder.data
    ensures builder.Valid() && (builder.data == old(builder.data) || fresh(builder.data))
    ensures SummitOf(builder) == old(SummitOf(builder))
    ensures read <= |entries| && FitsUpTo(entries, value, NumberText(value, hex), old(Room(builder)), read)
    ensures builder.Contents() == old(builder.Contents())
      + ListText(Listed(entries[..read], value), NumberText(value, hex))
    ensures var listed := Listed(entries, value);
      && status == (if read < |entries| then OutOfMemory else if listed == [] then NotFound else Success)
      && (read == |entries| ==>
           && matchedBits == Union(listed)
           && builder.data.Length
              == Climb(old(builder.data.Length), builder.size, builder.maxCapacity, builder.heapLimit))
  {
    hide Shows, Listed, Union, ListText, GrownCapacity, Join, NumberText, Climb, Summit;
    var number := NumberText(value, hex);
    ghost var before := builder.Contents();
    ghost var capacity := builder.data.Length;
    status, matchedBits := NotFound, 0;
    ListNothing(value, number, before, builder);
    for i := 0 to |entries|
      invariant builder.Valid() && (builder.data == old(builder.data) || fresh(builder.data))
      invariant SummitOf(builder) == old(SummitOf(builder))
      invariant builder.data.Length == Climb(capacity, builder.size, builder.maxCapacity, builder.heapLimit)
      invariant status == if Listed(entries[..i], value) == [] then NotFound else Success
      invariant matchedBits == Union(Listed(entries[..i], value))
      invariant builder.Contents() == before + ListText(Listed(entries[..i], value), number)
    {
      ListedOneMore(entries, i, value);
      read := i;
      if Shows(entries[i].value, value) {
        status := AppendFlag(
          builder, entries[i], status == NotFound, number, Listed(entries[..i], value), before, capacity);
        if status != Success {
          return;
        }
        matchedBits := Join(matchedBits, entries[i].value);
      }
    }
    read := |entries|;
    assert entries[..|entries|] == entries;
  }

  /** One name, after the number or after a comma. */
  method AppendFlag(
      builder: Buffer<char>, entry: MapEntry, first: bool, number: string, ghost listed: seq<MapEntry>,
      ghost before: string, ghost capacity: nat)
    returns (status: Status)
    requires builder.Valid() && first == (listed == []) && builder.Contents() == before + ListText(listed, number)
    requires capacity <= builder.maxCapacity
    requires builder.data.Length == Climb(capacity, builder.size, builder.maxCapacity, builder.heapLimit)
    modifies builder, builder.data
    ensures builder.Valid() && (builder.data == old(builder.data) || fresh(builder.data))
    ensures SummitOf(builder) == old(SummitOf(builder))
    ensures var text := ListText(listed + [entry], number);
      && status == (if |before| + |text| <= old(SummitOf(builder)) then Success else OutOfMemory)
      && (if status == Success then
            && builder.Contents() == before + text
            && builder.data.Length == Climb(capacity, builder.size, builder.maxCapacity, builder.heapLimit)
          else builder.Contents() == old(builder.Contents()))
  {
    hide ListText, GrownCapacity, Climb, Summit;
    var name := Trimmed(entry.name);
    ListTextOneMore(listed, entry, number);
    ListTextNothing(number);
    var text := if first then number + "[" + name else "," + name;
    ClimbTwice(capacity, builder.size, builder.size + |text|, builder.maxCapacity, builder.heapLimit);
    status := AppendPrintf(builder, text);
    if first {
      assert before + "" == before;
    } else {
      Associate(before, ListText(listed, number), "," + name);
    }
  }

  lemma ListNothing(value: bv32, number: string, before: string, builder: Buffer<char>)
    requires builder.Valid()
    ensures Listed([], value) == [] && Union([]) == 0 && before + ListText([], number) == before
    ensures Climb(builder.data.Length, builder.size, builder.maxCapacity, builder.heapLimit) == builder.data.Length
  {
  }

  /** What the bitmap branch has written when the entries before `read` were printed. */
  function WrittenText(entries: seq<MapEntry>, value: bv32, hex: bool, read: nat, status: Status): string
    requires read <= |entries|
  {
    var list := ListText(Listed(entries[..read], value), NumberText(value, hex));
    if status != Success then list
    else if read < |entries| then list + NothingText(value, hex)
    else BitMapText(entries, value, hex)
  }

  /**
   The end of the text fits: the text for "nothing matched", behind whatever names have been printed; the
   bits without a name; or the bracket, for which the buffer grows like for any single character.
   */
  predicate EndFits(
      entries: seq<MapEntry>, value: bv32, hex: bool, read: nat, capacity: nat, size: nat, max: nat, heap: nat)
    requires read <= |entries| && capacity <= max && 8 <= max
  {
    var listed := Listed(entries[..read], value);
    var end := size + |ListText(listed, NumberText(value, hex))|;
    if read < |entries| || listed == [] then end + |NothingText(value, hex)| <= Summit(capacity, max, heap)
    else if Union(listed) != value then
      end + |RemainderText(Unmatched(value, Union(listed)))| <= Summit(capacity, max, heap)
    else CharFits(Climb(capacity, end, max, heap), end, max, heap)
  }

  /**
   The bitmap branch. The names are printed up to the first one that does not fit; when there is such a
   name, the text for "nothing matched" still comes behind the others, and if it fits the result is Success.
   */
  method FormatBitMap(builder: Buffer<char>, entries: seq<MapEntry>, value: bv32, hex: bool)
    returns (status: Status, ghost read: nat)
    requires builder.Valid()
    modifies builder, builder.data
    ensures builder.Valid() && (builder.data == old(builder.data) || fresh(builder.data))
    ensures read <= |entries| && FitsUpTo(entries, value, NumberText(value, hex), old(Room(builder)), read)
    ensures status == if EndFits(
      entries, value, hex, read, old(builder.data.Length), old(builder.size), builder.maxCapacity, builder.heapLimit)
      then Success else OutOfMemory
    ensures builder.Contents() == old(builder.Contents()) + WrittenText(entries, value, hex, read, status)
  {
    hide Shows, Listed, Union, ListText, NumberText, EndText, EndFits, BitMapText, WrittenText, Climb, Summit, FitsUpTo;
    ghost var before := builder.Contents();
    ghost var room := SummitOf(builder);
    ghost var capacity := builder.data.Length;
    var matchedBits;
    status, matchedBits, read := AppendFlags(builder, entries, value, hex);
    ghost var list := ListText(Listed(entries[..read], value), NumberText(value, hex));
    ghost var end := EndText(status == Success, matchedBits, value, hex);
    Ends(entries, value, hex, read, capacity, |before|, builder.maxCapacity, builder.heapLimit, matchedBits);
    Associate(before, list, end);
    status := AppendEnd(builder, status == Success, matchedBits, value, hex);
    assert before + list + "" == before + list;
  }

  /** What comes behind the names. */
  function EndText(matched: bool, matchedBits: bv32, value: bv32, hex: bool): string {
    if !matched then NothingText(value, hex)
    else if matchedBits != value then RemainderText(Unmatched(value, matchedBits))
    else "]"
  }

  method AppendEnd(builder: Buffer<char>, matched: bool, matchedBits: bv32, value: bv32, hex: bool)
    returns (status: Status)
    requires builder.Valid()
    modifies builder, builder.data
    ensures builder.Valid() && (builder.data == old(builder.data) || fresh(builder.data))
    ensures var end := EndText(matched, matchedBits, value, hex);
      && builder.Contents() == old(builder.Contents()) + (if status == Success then end else "")
      && status == (if (if matched && matchedBits == value
             then CharFits(old(builder.data.Length), old(builder.size), builder.maxCapacity, builder.heapLimit)
             else old(builder.size) + |end| <= old(SummitOf(builder)))
           then Success else OutOfMemory)
  {
    hide RemainderText, NothingText, Unmatched, GrownCapacity, Climb, Summit;
    if !matched || matchedBits != value {
      status := AppendPrintf(builder, EndText(matched, matchedBits, value, hex));
    } else {
      var ok := builder.PushBack(']');
      status := if ok then Success else OutOfMemory;
    }
  }

  /** The end that the code chooses is the one of the specification. */
  lemma Ends(
      entries: seq<MapEntry>, value: bv32, hex: bool, read: nat, capacity: nat, size: nat, max: nat, heap: nat,
      matchedBits: bv32)
    requires read <= |entries| && capacity <= max && 8 <= max
    requires read == |entries| ==> matchedBits == Union(Listed(entries, value))
    ensures var listed := Listed(entries[..read], value); var list := ListText(listed, NumberText(value, hex));
      var matched := read == |entries| && Listed(entries, value) != [];
      var end := EndText(matched, matchedBits, value, hex);
      && WrittenText(entries, value, hex, read, Success) == list + end
      && WrittenText(entries, value, hex, read, OutOfMemory) == list
      && EndFits(entries, value, hex, read, capacity, size, max, heap)
         == if matched && matchedBits == value
           then CharFits(Climb(capacity, size + |list|, max, heap), size + |list|, max, heap)
            else size + |list| + |end| <= Summit(capacity, max, heap)
  {
    hide Listed, Union, ListText, NumberText, Unmatched, RemainderText, NothingText, BitMapText, GrownCapacity, Climb;
    hide Summit;
    BitMapEnds(entries, value, hex);
    assert entries[..|entries|] == entries;
    ListTextNothing(NumberText(value, hex));
    assert "" + NothingText(value, hex) == NothingText(value, hex);
  }

  /** With enough memory all of it is right. */
  lemma BitMapFits(builder: Buffer<char>, entries: seq<MapEntry>, value: bv32, hex: bool, read: nat)
    requires HasRoom(builder, |BitMapText(entries, value, hex)|)
    requires FitsUpTo(entries, value, NumberText(value, hex), Room(builder), read)
    ensures read == |entries|
    ensures EndFits(
      entries, value, hex, read, builder.data.Length, builder.size, builder.maxCapacity, builder.heapLimit)
  {
    hide Listed, Union, ListText, NumberText, Unmatched, RemainderText, NothingText, BitMapText, GrownCapacity;
    hide Climb, Summit, FitsUpTo;
    var number := NumberText(value, hex);
    BitMapEnds(entries, value, hex);
    RoomIsEnough(builder, |BitMapText(entries, value, hex)|);
    ListTextNothing(number);
    FitsOnce(entries, value, number, Room(builder), read, read);
    assert entries[..|entries|] == entries;
    var end := builder.size + |ListText(Listed(entries, value), number)|;
    var capacity := Climb(builder.data.Length, end, builder.maxCapacity, builder.heapLimit);
    if capacity <= end < builder.maxCapacity {
      GrowthIsEnough(capacity, end + 1, builder.maxCapacity);
    }
  }

  lemma BitMapEnds(entries: seq<MapEntry>, value: bv32, hex: bool)
    ensures var listed := Listed(entries, value); var list := ListText(listed, NumberText(value, hex));
      BitMapText(entries, value, hex)
      == if listed == [] then NothingText(value, hex)
         else list + if Union(listed) != value then RemainderText(Unmatched(value, Union(listed))) else "]"
    ensures Listed(entries, value) == [] ==> ListText(Listed(entries, value), NumberText(value, hex)) == ""
    ensures Listed(entries, value) == [] ==> Union(Listed(entries, value)) == 0
  {
    hide Listed, NumberText, Unmatched, RemainderText, Partition;
    BitsAreConserved(entries, value);
  }

  /**
   That a known flag is printed as unknown: the value 1 is the flag "Enabled", whose name does not fit in
   eight characters; the text says that nothing matched, and the call succeeds.
   */
  method MatchedButUnknown() returns (builder: Buffer<char>, status: Status)
    ensures status == Success && builder.Valid() && builder.Contents() == "1[??]"
    ensures BitMapText([MapEntry(1, "Enabled")], 1, false) == "1[Enabled]"
  {
    hide EndFits, FitsUpTo;
    var entries := [MapEntry(1, "Enabled")];
    builder := new Buffer(100, 8, 8);
    ghost var read;
    status, read := FormatBitMap(builder, entries, 1, false);
    EnabledDoesNotFit(entries, read);
    assert [] + "1[??]" == "1[??]";
  }

  lemma EnabledDoesNotFit(entries: seq<MapEntry>, read: nat)
    requires entries == [MapEntry(1, "Enabled")] && FitsUpTo(entries, 1, NumberText(1, false), Summit(8, 100, 8), read)
    ensures read == 0 && EndFits(entries, 1, false, 0, 8, 0, 100, 8)
    ensures WrittenText(entries, 1, false, 0, Success) == "1[??]" && BitMapText(entries, 1, false) == "1[Enabled]"
  {
    hide Summit;
    assert Summit(8, 100, 8) == 8 by {
      SummitOfEight();
    }
    FlagOne(entries);
    FitsOnce(entries, 1, "1", 8, read, 0);
  }

  lemma SummitOfEight()
    ensures Summit(8, 100, 8) == 8
  {
    assert GrownCapacity(8, 108, 100).None?;
  }

  lemma FlagOne(entries: seq<MapEntry>)
    requires entries == [MapEntry(1, "Enabled")]
    ensures Listed(entries[..0], 1) == [] && ListText([], "1") == ""
    ensures Listed(entries, 1) == entries && ListText(entries, "1") == "1[Enabled"
    ensures NumberText(1, false) == "1" && NothingText(1, false) == "1[??]"
    ensures BitMapText(entries, 1, false) == "1[Enabled]"
  {
    assert entries[..0] == [];
    assert Trimmed("Enabled") == "Enabled";
    assert Listed(entries, 1) == [] + [entries[0]] == entries;
    assert Union(entries) == Join(Union([]), 1) == 1;
  }

  /** The value map branches. */
  method FormatNamed(builder: Buffer<char>, entries: seq<MapEntry>, indexed: bool, value: bv32, hex: bool)
    returns (status: Status)
    requires builder.Valid()
    requires indexed ==> forall k :: 0 <= k < |entries| ==> entries[k].value as nat == k
    modifies builder, builder.data
    ensures builder.Valid() && (builder.data == old(builder.data) || fresh(builder.data))
    ensures var text := NamedText(NameOf(entries, value), value, hex);
      && status == (if |text| <= old(Room(builder)) then Success else OutOfMemory)
      && builder.Contents() == old(builder.Contents()) + if status == Success then text else ""
  {
    hide NumberText, NameOf, GrownCapacity;
    var name := FindName(entries, indexed, value);
    var number := NumberText(value, hex);
    status := AppendPrintf(builder, number + ("(" + (if name.Some? then Trimmed(name.value) else "??") + ")"));
  }

  /** An index when the map is made for it, and otherwise a search. */
  method FindName(entries: seq<MapEntry>, indexed: bool, value: bv32) returns (name: Option<string>)
    requires indexed ==> forall k :: 0 <= k < |entries| ==> entries[k].value as nat == k
    ensures name == NameOf(entries, value)
  {
    if indexed {
      IndexIsSearch(entries, 0, value, value as nat);
      return if value as nat < |entries| then Some(entries[value as nat].name) else None;
    }
    var i := 0;
    assert entries[0..] == entries;
    while i != |entries|
      invariant i <= |entries| && NameOf(entries, value) == NameOf(entries[i..], value)
    {
      assert entries[i..][1..] == entries[i + 1..];
      if entries[i].value == value {
        return Some(entries[i].name);
      }
      i := i + 1;
    }
    name := None;
  }

  /**
   FormatMapValue. A named value is printed exactly when there is room for it; a set of flags is printed
   as FitsUpTo and EndFits say, which with enough memory is all of it.
   */
  method FormatMapValue(builder: Buffer<char>, kind: MapKind, entries: seq<MapEntry>, value: bv32, hex: bool)
    returns (status: Status, ghost read: nat)
    requires builder.Valid()
    requires kind.IndexedMap? ==> forall k :: 0 <= k < |entries| ==> entries[k].value as nat == k
    modifies builder, builder.data
    ensures builder.Valid()
    ensures kind.Unsupported? ==> status == NotFound && builder.Contents() == old(builder.Contents())
    ensures kind.ValueMap? || kind.IndexedMap? ==>
      var text := NamedText(NameOf(entries, value), value, hex);
      && status == (if |text| <= old(Room(builder)) then Success else OutOfMemory)
      && builder.Contents() == old(builder.Contents()) + if status == Success then text else ""
    ensures kind.BitMap? ==>
      && FitsUpTo(entries, value, NumberText(value, hex), old(Room(builder)), read)
      && status == (if EndFits(
           entries, value, hex, read, old(builder.data.Length), old(builder.size),
           builder.maxCapacity, builder.heapLimit)
         then Success else OutOfMemory)
      && builder.Contents() == old(builder.Contents()) + WrittenText(entries, value, hex, read, status)
    ensures var text := if kind.BitMap? then BitMapText(entries, value, hex)
      else NamedText(NameOf(entries, value), value, hex);
      !kind.Unsupported? && old(HasRoom(builder, |text|)) ==>
        status == Success && builder.Contents() == old(builder.Contents()) + text
  {
    hide BitMapText, NamedText, NameOf, GrownCapacity, ListText, NothingText, EndFits, FitsUpTo, Summit, HasRoom;
    hide NumberText;
    ghost var text := if kind.BitMap? then BitMapText(entries, value, hex)
      else NamedText(NameOf(entries, value), value, hex);
    ghost var enough := HasRoom(builder, |text|);
    if enough {
      RoomIsEnough(builder, |text|);
    }
    read := |entries|;
    match kind {
      case ValueMap => status := FormatNamed(builder, entries, false, value, hex);
      case IndexedMap => status := FormatNamed(builder, entries, true, value, hex);
      case BitMap =>
        ghost var capacity, size := builder.data.Length, builder.size;
        forall k: nat | enough && FitsUpTo(entries, value, NumberText(value, hex), Room(builder), k)
          ensures k == |entries|
          ensures EndFits(entries, value, hex, k, capacity, size, builder.maxCapacity, builder.heapLimit)
        {
          BitMapFits(builder, entries, value, hex, k);
        }
        status, read := FormatBitMap(builder, entries, value, hex);
      case Unsupported => status := NotFound;
    }
  }
}
