/**
 Exactly when enumerating an event again, after Reset, gives the same items. Reset keeps the integer
 table, so the second pass starts with what the first one left in it.
 */
module SecondPass {
  import opened Basics
  import opened Schema
  import opened Values
  import opened Decoder
  import opened Replay

  // ------------------------------------------------------------------ the condition

  /** The entries of the integer table that a pass has written when it has gone over `visits`. */
  ghost function Written(e: Event, visits: seq<Visit>): set<nat> {
    set v | v in visits && Writes(e, v) :: v.index
  }

  predicate Writes(e: Event, v: Visit) {
    v.kind.Value? && !v.isArray && v.index < |e.props| && IsReferable(e.props[v.index].inType)
  }

  /** What the second pass finds in entry `j` where the first one has `ints`: its own value, or the one left over. */
  function Seen(ints: seq<U16>, written: set<nat>, final: seq<U16>, j: nat): U16
    requires j < |ints| == |final|
  {
    if j in written then ints[j] else final[j]
  }

  /** The size that a stated length means. */
  function StatedSize(shape: Shape, n: U16): nat {
    if shape == Text(true) then Wrap16(2 * n as nat) else n
  }

  /** A length that the first pass takes from the table still means the same size, or one that does not fit either. */
  predicate SameLength(e: Event, i: nat, pos: nat, ints: seq<U16>, written: set<nat>, final: seq<U16>)
    requires i < |e.props| && pos <= |e.data| && |ints| == |final|
    requires e.props[i].paramLength ==> e.props[i].length < |ints|
  {
    var p := e.props[i];
    var shape := ShapeOf(p.inType, e.pointerSize);
    p.paramLength && (shape.Text? || shape.Sized?) ==>
      var (n, m) := (StatedSize(shape, ints[p.length]), StatedSize(shape, Seen(ints, written, final, p.length)));
      n == m || (n > |e.data| - pos && m > |e.data| - pos)
  }

  /** The same for a count: an array that does not fit is rejected whatever its count. */
  predicate SameCount(e: Event, i: nat, pos: nat, ints: seq<U16>, written: set<nat>, final: seq<U16>)
    requires i < |e.props| && pos <= |e.data| && |ints| == |final|
    requires e.props[i].paramCount ==> e.props[i].count < |ints|
  {
    var p := e.props[i];
    p.paramCount ==>
      var (n, m) := (ints[p.count], Seen(ints, written, final, p.count));
      n == m || (!p.isStruct && ShapeOf(p.inType, e.pointerSize).Unknown?)
      || (Bytes(n, ArrayElement(e, p)) > |e.data| - pos && Bytes(m, ArrayElement(e, p)) > |e.data| - pos)
  }

  /**
   No length or count is disturbed that the first pass uses from here on: `final` is the table that the
   pass ends with, `written` the entries that it has written so far.
   */
  ghost predicate GroupUndisturbed(
      e: Event, lo: nat, hi: nat, pos: nat, ints: seq<U16>, written: set<nat>, final: seq<U16>)
    requires Start(e, pos, ints) && lo <= hi <= |e.props| && |final| == |ints|
    decreases |e.props| - lo, 3, 0
  {
    lo < hi ==>
      && Undisturbed(e, lo, pos, ints, written, final)
      && var t := One(e, lo, pos, ints);
        t.outcome.Done? ==> GroupUndisturbed(e, lo + 1, hi, t.pos, t.ints, written + Written(e, t.visits), final)
  }

  ghost predicate Undisturbed(e: Event, i: nat, pos: nat, ints: seq<U16>, written: set<nat>, final: seq<U16>)
    requires Start(e, pos, ints) && i < |e.props| && |final| == |ints|
    decreases |e.props| - i, 2, 0
  {
    var p := e.props[i];
    assert WellFormedProperty(e, i);
    if IsScalar(p) then SameLength(e, i, pos, ints, written, final)
    else if !IsArray(p) then StructsUndisturbed(e, i, 0, 1, pos, ints, written, final)
    else
      && SameCount(e, i, pos, ints, written, final)
      && var n := ArrayCount(p, ints);
        if p.isStruct then StructsUndisturbed(e, i, 0, n, pos, ints, written, final)
        else ArrayElement(e, p) == 0 && !ShapeOf(p.inType, e.pointerSize).Unknown? ==>
          ElementsUndisturbed(e, i, 0, n, pos, ints, written, final)
  }

  ghost predicate StructsUndisturbed(
      e: Event, i: nat, k: nat, n: nat, pos: nat, ints: seq<U16>, written: set<nat>, final: seq<U16>)
    requires Start(e, pos, ints) && i < |e.props| && e.props[i].isStruct && k <= n && |final| == |ints|
    decreases |e.props| - i, 1, n - k
  {
    var p := e.props[i];
    assert WellFormedProperty(e, i);
    k < n ==>
      && GroupUndisturbed(e, p.structStart, MemberEnd(p), pos, ints, written, final)
      && var body := Group(e, p.structStart, MemberEnd(p), pos, ints);
        body.outcome.Done? ==>
          StructsUndisturbed(e, i, k + 1, n, body.pos, body.ints, written + Written(e, body.visits), final)
  }

  ghost predicate ElementsUndisturbed(
      e: Event, i: nat, k: nat, n: nat, pos: nat, ints: seq<U16>, written: set<nat>, final: seq<U16>)
    requires Start(e, pos, ints) && i < |e.props| && k <= n && |final| == |ints|
    decreases n - k
  {
    assert WellFormedProperty(e, i);
    k < n ==>
      && SameLength(e, i, pos, ints, written, final)
      && var d := DecodeValue(e, i, pos, ints);
        d.Read? ==> ElementsUndisturbed(e, i, k + 1, n, pos + d.item.raw, d.ints, written, final)
  }

  // ------------------------------------------------------------------ the two passes side by side

  /** `b` is the second pass's table where the first pass has `a`. */
  ghost predicate IsLater(a: seq<U16>, written: set<nat>, final: seq<U16>, b: seq<U16>) {
    |a| == |final| == |b| && forall j :: 0 <= j < |a| ==> b[j] == Seen(a, written, final, j)
  }

  /** The traces part: one lists an item where the other lists another one or has failed. */
  ghost predicate Diverge(t: Trace, u: Trace)
    decreases |t.visits|
  {
    if t.visits != [] && u.visits != [] then
      t.visits[0] != u.visits[0] || Diverge(t.(visits := t.visits[1..]), u.(visits := u.visits[1..]))
    else
      || (t.visits == [] && t.outcome.Failed? && u.visits != [])
      || (u.visits == [] && u.outcome.Failed? && t.visits != [])
  }

  lemma {:induction false} DivergeDiffers(t: Trace, u: Trace)
    requires Diverge(t, u)
    ensures t.visits != u.visits
    decreases |t.visits|
  {
    if t.visits != [] && u.visits != [] && t.visits[0] == u.visits[0] {
      DivergeDiffers(t.(visits := t.visits[1..]), u.(visits := u.visits[1..]));
    }
  }

  function Continue(t: Trace, rest: Trace): Trace {
    if t.outcome.Failed? then t else Append(t, rest)
  }

  lemma {:induction false} DivergeContinues(t: Trace, u: Trace, x: Trace, y: Trace)
    requires Diverge(t, u)
    ensures Diverge(Continue(t, x), Continue(u, y))
    decreases |t.visits|
  {
    if t.visits != [] && u.visits != [] {
      var (t', u') := (t.(visits := t.visits[1..]), u.(visits := u.visits[1..]));
      assert Continue(t, x).visits[1..] == Continue(t', x).visits;
      assert Continue(u, y).visits[1..] == Continue(u', y).visits;
      if t.visits[0] == u.visits[0] {
        DivergeContinues(t', u', x, y);
      }
    }
  }

  lemma {:induction false} DivergeAfter(t: Trace, u: Trace, x: Trace, y: Trace)
    requires t.visits == u.visits && Diverge(x, y)
    ensures Diverge(Append(t, x), Append(u, y))
    decreases |t.visits|
  {
    if t.visits == [] {
      assert Append(t, x) == x && Append(u, y) == y;
    } else {
      var (t', u') := (t.(visits := t.visits[1..]), u.(visits := u.visits[1..]));
      assert Append(t, x).visits[1..] == Append(t', x).visits;
      assert Append(u, y).visits[1..] == Append(u', y).visits;
      DivergeAfter(t', u', x, y);
    }
  }

  lemma DivergePrepends(v: Visit, x: Trace, y: Trace)
    requires Diverge(x, y)
    ensures Diverge(Prepend(v, x), Prepend(v, y))
  {
    assert Prepend(v, x).visits[1..] == x.visits && Prepend(v, y).visits[1..] == y.visits;
  }

  /** The two passes agree on `t`, or they part in it. */
  ghost predicate Compared(
      e: Event, same: bool, t: Trace, u: Trace, written: set<nat>, final: seq<U16>)
  {
    if same then SameItems(t, u) && IsLater(t.ints, written + Written(e, t.visits), final, u.ints)
    else Diverge(t, u)
  }

  /** Comparing in sequence. */
  lemma ComparedContinues(
      e: Event, same: bool, t: Trace, u: Trace, written: set<nat>, final: seq<U16>, same': bool, x: Trace, y: Trace)
    requires Compared(e, same, t, u, written, final)
    requires same && t.outcome.Done? ==> Compared(e, same', x, y, written + Written(e, t.visits), final)
    ensures Compared(e, same && (t.outcome.Done? ==> same'), Continue(t, x), Continue(u, y), written, final)
  {
    if !same {
      DivergeContinues(t, u, x, y);
    } else if t.outcome.Done? {
      if same' {
        var (a, b) := (Written(e, t.visits), Written(e, x.visits));
        assert Written(e, t.visits + x.visits) == a + b;
        assert written + a + b == written + (a + b);
      } else {
        DivergeAfter(t, u, x, y);
      }
    }
  }

  lemma ComparedPrepends(e: Event, same: bool, v: Visit, t: Trace, u: Trace, written: set<nat>, final: seq<U16>)
    requires Compared(e, same, t, u, written, final) && !Writes(e, v)
    ensures Compared(e, same, Prepend(v, t), Prepend(v, u), written, final)
  {
    if same {
      assert Written(e, [v] + t.visits) == Written(e, t.visits);
    } else {
      DivergePrepends(v, t, u);
    }
  }

  /** One value in both passes. */
  lemma ValueTwice(e: Event, i: nat, pos: nat, a: seq<U16>, b: seq<U16>, written: set<nat>, final: seq<U16>)
    requires Start(e, pos, a) && Start(e, pos, b) && i < |e.props| && !e.props[i].isStruct
      && IsLater(a, written, final, b)
    requires e.props[i].paramLength ==> e.props[i].length < |a|
    ensures var d := DecodeValue(e, i, pos, a); var f := DecodeValue(e, i, pos, b);
      if SameLength(e, i, pos, a, written, final) then
        if d.Rejected? then f == d
        else
          f.Read? && f.item == d.item
          && IsLater(d.ints, if IsReferable(e.props[i].inType) then written + {i} else written, final, f.ints)
          && (!IsReferable(e.props[i].inType) ==> d.ints == a && f.ints == b)
      else d.Read? != f.Read? || (d.Read? && d.item != f.item)
  {
    hide CookedType, LittleEndian;
    assert WellFormedProperty(e, i);
    var p := e.props[i];
    if p.paramLength {
      assert b[p.length] == Seen(a, written, final, p.length);
    }
  }

  lemma {:induction false} GroupTwice(
      e: Event, lo: nat, hi: nat, pos: nat, a: seq<U16>, b: seq<U16>, written: set<nat>, final: seq<U16>)
    requires Start(e, pos, a) && Start(e, pos, b) && lo <= hi <= |e.props| && IsLater(a, written, final, b)
    ensures Compared(e, GroupUndisturbed(e, lo, hi, pos, a, written, final),
      Group(e, lo, hi, pos, a), Group(e, lo, hi, pos, b), written, final)
    decreases |e.props| - lo, 3, 0
  {
    hide One, Undisturbed, Diverge, Written;
    if lo == hi {
      NothingWritten(e, written);
    } else {
      PropertyTwice(e, lo, pos, a, b, written, final);
      var same := Undisturbed(e, lo, pos, a, written, final);
      var t := One(e, lo, pos, a);
      var u := One(e, lo, pos, b);
      var x := Group(e, lo + 1, hi, t.pos, t.ints);
      var y := Group(e, lo + 1, hi, u.pos, u.ints);
      var same' := t.outcome.Done? && GroupUndisturbed(e, lo + 1, hi, t.pos, t.ints, written + Written(e, t.visits),
        final);
      if same && t.outcome.Done? {
        GroupTwice(e, lo + 1, hi, t.pos, t.ints, u.ints, written + Written(e, t.visits), final);
      }
      ComparedContinues(e, same, t, u, written, final, same', x, y);
    }
  }

  lemma NothingWritten(e: Event, written: set<nat>)
    ensures written + Written(e, []) == written
  {
  }

  lemma {:induction false} PropertyTwice(
      e: Event, i: nat, pos: nat, a: seq<U16>, b: seq<U16>, written: set<nat>, final: seq<U16>)
    requires Start(e, pos, a) && Start(e, pos, b) && i < |e.props| && IsLater(a, written, final, b)
    ensures Compared(e, Undisturbed(e, i, pos, a, written, final), One(e, i, pos, a), One(e, i, pos, b), written, final)
    decreases |e.props| - i, 2, 0
  {
    hide DecodeValue, SameLength, Structs, Elements, FixedElements, StructsUndisturbed, ElementsUndisturbed, ShapeOf;
    hide CookedType;
    var p := e.props[i];
    assert WellFormedProperty(e, i);
    if IsScalar(p) {
      ScalarTwice(e, i, pos, a, b, written, final);
    } else if !IsArray(p) {
      StructsTwice(e, i, 0, 1, false, pos, a, b, written, final);
    } else {
      ArrayTwice(e, i, pos, a, b, written, final);
    }
  }

  lemma ScalarTwice(e: Event, i: nat, pos: nat, a: seq<U16>, b: seq<U16>, written: set<nat>, final: seq<U16>)
    requires Start(e, pos, a) && Start(e, pos, b) && i < |e.props| && IsLater(a, written, final, b)
      && IsScalar(e.props[i])
    requires e.props[i].paramLength ==> e.props[i].length < |a|
    ensures Compared(e, SameLength(e, i, pos, a, written, final), One(e, i, pos, a), One(e, i, pos, b), written, final)
  {
    hide DecodeValue, SameLength, IsLater;
    ValueTwice(e, i, pos, a, b, written, final);
    var d := DecodeValue(e, i, pos, a);
    NothingWritten(e, written);
    if d.Read? {
      var v := Visit(Kind.Value, i, 0, 1, false, pos, d.item);
      assert Written(e, [v]) == if IsReferable(e.props[i].inType) then {i} else {};
      assert written + {} == written;
    }
  }

  lemma {:induction false} ArrayTwice(
      e: Event, i: nat, pos: nat, a: seq<U16>, b: seq<U16>, written: set<nat>, final: seq<U16>)
    requires Start(e, pos, a) && Start(e, pos, b) && i < |e.props| && IsLater(a, written, final, b)
      && IsArray(e.props[i])
    ensures Compared(e, Undisturbed(e, i, pos, a, written, final), One(e, i, pos, a), One(e, i, pos, b), written, final)
    decreases |e.props| - i, 1, 0x1_0000
  {
    hide DecodeValue, SameLength, Structs, Elements, FixedElements, StructsUndisturbed, ElementsUndisturbed, ShapeOf;
    hide CookedType;
    hide Written, Bytes, ArrayElement, ArrayType;
    var p := e.props[i];
    assert WellFormedProperty(e, i);
    var (n, m) := (ArrayCount(p, a), ArrayCount(p, b));
    NothingWritten(e, written);
    if n != m {
      CountTwice(e, i, pos, a, b, written, final);
    } else {
      var begin := BeginArray(e, i, n, pos);
      if p.isStruct {
        StructsTwice(e, i, 0, n, true, pos, a, b, written, final);
        ComparedPrepends(e, StructsUndisturbed(e, i, 0, n, pos, a, written, final), begin,
          Structs(e, i, 0, n, true, pos, a), Structs(e, i, 0, n, true, pos, b), written, final);
      } else if One(e, i, pos, a).visits != [] {
        if ArrayElement(e, p) == 0 {
          ElementsTwice(e, i, 0, n, pos, a, b, written, final);
          ComparedPrepends(e, ElementsUndisturbed(e, i, 0, n, pos, a, written, final), begin,
            Elements(e, i, 0, n, pos, a), Elements(e, i, 0, n, pos, b), written, final);
        } else {
          FixedElementsTwice(e, i, 0, n, pos, a, b, written, final);
          ComparedPrepends(e, true, begin, FixedElements(e, i, 0, n, pos, a), FixedElements(e, i, 0, n, pos, b),
            written, final);
        }
      }
    }
  }

  /** A count that is another one in the second pass shows at the array's begin item, unless neither array fits. */
  lemma CountTwice(e: Event, i: nat, pos: nat, a: seq<U16>, b: seq<U16>, written: set<nat>, final: seq<U16>)
    requires Start(e, pos, a) && Start(e, pos, b) && i < |e.props| && IsLater(a, written, final, b)
      && IsArray(e.props[i])
    requires e.props[i].paramCount ==> e.props[i].count < |a|
    requires ArrayCount(e.props[i], a) != ArrayCount(e.props[i], b)
    ensures var (t, u) := (One(e, i, pos, a), One(e, i, pos, b));
      if SameCount(e, i, pos, a, written, final) then
        && SameItems(t, u) && t.visits == [] && t.ints == a && u.ints == b
        && (!e.props[i].isStruct && !ShapeOf(e.props[i].inType, e.pointerSize).Unknown? ==>
              ArrayElement(e, e.props[i]) != 0)
      else Diverge(t, u)
  {
    hide DecodeValue, Structs, Elements, FixedElements, ShapeOf, CookedType, Bytes, ArrayType;
    var p := e.props[i];
    assert b[p.count] == Seen(a, written, final, p.count);
    NoBytes(ArrayCount(p, a));
    NoBytes(ArrayCount(p, b));
  }

  lemma {:induction false} StructsTwice(
      e: Event, i: nat, k: nat, n: nat, isArray: bool, pos: nat, a: seq<U16>, b: seq<U16>, written: set<nat>,
      final: seq<U16>)
    requires Start(e, pos, a) && Start(e, pos, b) && i < |e.props| && e.props[i].isStruct && k <= n
    requires IsLater(a, written, final, b)
    ensures Compared(e, StructsUndisturbed(e, i, k, n, pos, a, written, final),
      Structs(e, i, k, n, isArray, pos, a), Structs(e, i, k, n, isArray, pos, b), written, final)
    decreases |e.props| - i, 1, n - k
  {
    hide Group, GroupUndisturbed, Diverge, Written, ArrayElement, ArrayType;
    if k == n {
      EndWritesNothing(e, i, n, isArray, pos, written);
    } else {
      var p := e.props[i];
      assert WellFormedProperty(e, i);
      GroupTwice(e, p.structStart, MemberEnd(p), pos, a, b, written, final);
      var same := GroupUndisturbed(e, p.structStart, MemberEnd(p), pos, a, written, final);
      var t := Group(e, p.structStart, MemberEnd(p), pos, a);
      var u := Group(e, p.structStart, MemberEnd(p), pos, b);
      var x := Prepend(EndStruct(i, k, n, isArray, t.pos), Structs(e, i, k + 1, n, isArray, t.pos, t.ints));
      var y := Prepend(EndStruct(i, k, n, isArray, u.pos), Structs(e, i, k + 1, n, isArray, u.pos, u.ints));
      var after := written + Written(e, t.visits);
      var same' := t.outcome.Done? && StructsUndisturbed(e, i, k + 1, n, t.pos, t.ints, after, final);
      if same && t.outcome.Done? {
        StructsTwice(e, i, k + 1, n, isArray, t.pos, t.ints, u.ints, after, final);
        ComparedPrepends(e, same', EndStruct(i, k, n, isArray, t.pos),
          Structs(e, i, k + 1, n, isArray, t.pos, t.ints), Structs(e, i, k + 1, n, isArray, u.pos, u.ints), after,
            final);
      }
      ComparedContinues(e, same, t, u, written, final, same', x, y);
      ComparedPrepends(e, same && (t.outcome.Done? ==> same'), BeginStruct(i, k, n, isArray, pos),
        Continue(t, x), Continue(u, y), written, final);
    }
  }

  lemma EndWritesNothing(e: Event, i: nat, n: nat, isArray: bool, pos: nat, written: set<nat>)
    requires i < |e.props|
    ensures written + Written(e, if isArray then [EndArray(e, i, n, pos)] else []) == written
  {
    hide ArrayElement, ArrayType;
  }

  lemma {:induction false} ElementsTwice(
      e: Event, i: nat, k: nat, n: nat, pos: nat, a: seq<U16>, b: seq<U16>, written: set<nat>, final: seq<U16>)
    requires Start(e, pos, a) && Start(e, pos, b) && i < |e.props| && !e.props[i].isStruct && k <= n
    requires IsLater(a, written, final, b) && ArrayElement(e, e.props[i]) == 0
    ensures Compared(e, ElementsUndisturbed(e, i, k, n, pos, a, written, final),
      Elements(e, i, k, n, pos, a), Elements(e, i, k, n, pos, b), written, final)
    decreases n - k
  {
    hide DecodeValue, SameLength, Written, ArrayType, CookedType;
    NothingWritten(e, written);
    if k == n {
      EndWritesNothing(e, i, n, true, pos, written);
    } else {
      assert WellFormedProperty(e, i);
      ValueTwice(e, i, pos, a, b, written, final);
      var (d, f) := (DecodeValue(e, i, pos, a), DecodeValue(e, i, pos, b));
      if SameLength(e, i, pos, a, written, final) && d.Read? {
        ElementsTwice(e, i, k + 1, n, pos + d.item.raw, a, b, written, final);
        ComparedPrepends(e, ElementsUndisturbed(e, i, k + 1, n, pos + d.item.raw, a, written, final),
          Visit(Kind.Value, i, k, n, true, pos, d.item),
          Elements(e, i, k + 1, n, pos + d.item.raw, a), Elements(e, i, k + 1, n, pos + d.item.raw, b), written, final);
      }
    }
  }

  lemma {:induction false} FixedElementsTwice(
      e: Event, i: nat, k: nat, n: nat, pos: nat, a: seq<U16>, b: seq<U16>, written: set<nat>, final: seq<U16>)
    requires Start(e, pos, a) && Start(e, pos, b) && i < |e.props| && k <= n && IsLater(a, written, final, b)
    requires pos + Bytes(n - k, ArrayElement(e, e.props[i])) <= |e.data|
    ensures Compared(e, true, FixedElements(e, i, k, n, pos, a), FixedElements(e, i, k, n, pos, b), written, final)
    decreases n - k
  {
    hide Bytes, ArrayElement, ArrayType, CookedType, Written, IsLater;
    if k == n {
      EndWritesNothing(e, i, n, true, pos, written);
    } else {
      var size := ArrayElement(e, e.props[i]);
      OneElement(n - k, size);
      FixedElementsTwice(e, i, k + 1, n, pos + size, a, b, written, final);
      ComparedPrepends(e, true, Visit(Kind.Value, i, k, n, true, pos,
        Item(pos, size, size, CookedType(e.props[i].inType), size)),
        FixedElements(e, i, k + 1, n, pos + size, a), FixedElements(e, i, k + 1, n, pos + size, b), written, final);
    }
  }

  // ------------------------------------------------------------------ the theorem

  /**
   For every event and every table to start from: enumerating again after Reset lists the same items,
   with the same cursor and outcome, if and only if the first pass has disturbed none of the lengths
   and counts that it took from entries it had not yet written.
   */
  lemma SecondPassIsSame(e: Event, ints: seq<U16>)
    requires WellFormed(e) && |ints| == |e.props|
    ensures SameItems(Decode(e, ints), Decode(e, Decode(e, ints).ints))
      <==> GroupUndisturbed(e, 0, e.topLevel, 0, ints, {}, Decode(e, ints).ints)
  {
    hide Group, GroupUndisturbed, Diverge;
    var t := Decode(e, ints);
    var u := Decode(e, t.ints);
    GroupTwice(e, 0, e.topLevel, 0, ints, t.ints, {}, t.ints);
    if !GroupUndisturbed(e, 0, e.topLevel, 0, ints, {}, t.ints) {
      DivergeDiffers(t, u);
    }
  }

  /** Backward references, a condition on the property table alone, are never disturbed. */
  lemma BackwardIsUndisturbed(e: Event, ints: seq<U16>)
    requires WellFormed(e) && |ints| == |e.props| && BackwardGroup(e, 0, e.topLevel, {})
    ensures GroupUndisturbed(e, 0, e.topLevel, 0, ints, {}, Decode(e, ints).ints)
  {
    hide Group, GroupUndisturbed, BackwardGroup;
    SecondPassIsSame(e, ints);
    ReplayIsIdentical(e, ints, Decode(e, ints).ints);
  }

  /**
   Jumping back to top-level property `i` with the table that the pass ended with shows the property's
   items again if and only if none of the lengths and counts that it used is another one by then.
   */
  lemma JumpIsSame(e: Event, i: nat, ints: seq<U16>)
    requires WellFormed(e) && |ints| == |e.props| && i < e.topLevel
    ensures var reached := Group(e, 0, i, 0, ints); var final := Decode(e, ints).ints;
      SameItems(One(e, i, reached.pos, reached.ints), One(e, i, reached.pos, final))
      <==> Undisturbed(e, i, reached.pos, reached.ints, {}, final)
  {
    hide One, Group, Undisturbed, Diverge;
    var reached := Group(e, 0, i, 0, ints);
    var final := Decode(e, ints).ints;
    PropertyTwice(e, i, reached.pos, reached.ints, final, {}, final);
    if !Undisturbed(e, i, reached.pos, reached.ints, {}, final) {
      DivergeDiffers(One(e, i, reached.pos, reached.ints), One(e, i, reached.pos, final));
    }
  }

  /**
   Both cases occur. A string whose length refers to the integer behind it is read with the length 0xffff
   first, which twice wraps to 65534 bytes, and with the integer's value in the second pass.
   */
  lemma ForwardReferenceDoesNotReplay()
    ensures exists e: Event, ints: seq<U16> ::
      && WellFormed(e) && |ints| == |e.props| && (forall j :: 0 <= j < |ints| ==> ints[j] == 0xffff)
      && Decode(e, ints).outcome.Done?
      && !SameItems(Decode(e, ints), Decode(e, Decode(e, ints).ints))
  {
    var text := Property("s", false, false, false, true, false, 1, 1, UnicodeString, false, 0, 0);
    var number := Property("n", false, false, false, false, false, 1, 0, UInt8, false, 0, 0);
    var e := Event([text, number], 2, seq(65535, _ => 7), 8);
    assert WellFormedProperty(e, 0) && WellFormedProperty(e, 1);
    hide WellFormed, Group;
    var ints: seq<U16> := [0xffff, 0xffff];
    StringThenNumber(e, ints);
    StringThenNumber(e, Decode(e, ints).ints);
  }

  /** How such an event is decoded. */
  lemma StringThenNumber(e: Event, ints: seq<U16>)
    requires WellFormed(e) && |ints| == |e.props| == 2 == e.topLevel
    requires var p := e.props[0]; IsScalar(p) && p.paramLength && p.length == 1 && p.inType == UnicodeString
    requires IsScalar(e.props[1]) && e.props[1].inType == UInt8 && !e.props[1].paramLength
    requires |e.data| == 65535 && forall k :: 0 <= k < 65535 ==> e.data[k] == 7
    ensures var t := Decode(e, ints); var size := Wrap16(2 * ints[1] as nat);
      t.outcome.Done? && t.ints == ints[1 := 7] && t.visits != [] && t.visits[0].item.raw == size
  {
    var size := Wrap16(2 * ints[1] as nat);
    assert size % 2 == 0;
    assert WellFormedProperty(e, 0) && WellFormedProperty(e, 1);
    var first := One(e, 0, 0, ints);
    assert first.outcome.Done? && first.pos == size && first.ints == ints;
    assert e.data[size..size + 1] == [7];
    assert LittleEndian([7]) == 7 + 0x100 * LittleEndian([]);
    var second := One(e, 1, size, ints);
    assert second.outcome.Done? && second.ints == ints[1 := 7];
    assert Group(e, 2, 2, second.pos, second.ints).visits == [];
    assert Group(e, 1, 2, size, ints).ints == ints[1 := 7];
  }
}
