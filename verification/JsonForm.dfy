/** What reading printed JSON back does not tell: how long escapes are, and where the optional spaces are. */
module JsonForm {
  import opened JsonText
  import D = Digits

  /** Characters for which section 7 of RFC 8259 has an escape of two characters. */
  predicate HasShortEscape(c: char) {
    c == '"' || c == '\\' || c as int in {8, 9, 10, 12, 13}
  }

  /** Quotes, backslashes and control characters alone are escaped, shortly when that is possible. */
  lemma EscapesAreShort(c: char)
    ensures |EscapeChar(c)| == if HasShortEscape(c) then 2 else if c as int < 0x20 then 6 else 1
    ensures !HasShortEscape(c) && c as int >= 0x20 ==> EscapeChar(c) == [c]
    ensures |EscapeChar(c)| == 6 ==> D.HasCase(EscapeChar(c)[2..], true)
  {
  }

  /** The number of commas and colons between the values of a tree. */
  function Separators(v: Json): nat
    decreases v, 0
  {
    match v
    case Text(_) => 0
    case Literal(_) => 0
    case Array(items) => (if items == [] then 0 else |items| - 1) + ItemSeparators(items)
    case Object(members) => (if members == [] then 0 else 2 * |members| - 1) + MemberSeparators(members)
  }

  function ItemSeparators(items: seq<Json>): nat
    decreases items, 0
  {
    if items == [] then 0 else Separators(items[0]) + ItemSeparators(items[1..])
  }

  function MemberSeparators(members: seq<Member>): nat
    decreases members, 0
  {
    if members == [] then 0 else Separators(members[0].value) + MemberSeparators(members[1..])
  }

  /** With spaces there is one behind every comma and colon, and without there is none. */
  lemma {:induction false} SpacesAreCounted(v: Json)
    ensures |Print(v, true)| == |Print(v, false)| + Separators(v)
    decreases v, 0
  {
    hide Escape;
    match v {
      case Text(_) =>
      case Literal(_) =>
      case Array(items) => ItemSpaces(items);
      case Object(members) => MemberSpaces(members);
    }
  }

  lemma {:induction false} ItemSpaces(items: seq<Json>)
    ensures |PrintItems(items, true)|
      == |PrintItems(items, false)| + ItemSeparators(items) + if items == [] then 0 else |items| - 1
    decreases items, 0
  {
    if items == [] {
    } else {
      SpacesAreCounted(items[0]);
      ItemSpaces(items[1..]);
    }
  }

  lemma {:induction false} MemberSpaces(members: seq<Member>)
    ensures |PrintMembers(members, true)|
      == |PrintMembers(members, false)| + MemberSeparators(members) + if members == [] then 0 else 2 * |members| - 1
    decreases members, 0
  {
    hide Escape;
    if members == [] {
    } else {
      SpacesAreCounted(members[0].value);
      MemberSpaces(members[1..]);
    }
  }
}
