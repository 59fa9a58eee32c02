/**
 Enumerating again. Reset keeps the integer table of the previous pass, and formatting a message
 jumps back to earlier properties with the table of the finished pass. Both are harmless when
 references point backwards; SecondPass says exactly when a second pass is.
 */
module Replay {
  import opened Basics
  import opened Schema
  import opened Values
  import opened Decoder

  /** The indices known after property `i`, given those known before it. */
  function Defines(e: Event, i: nat, known: set<nat>): set<nat>
    requires i < |e.props|
  {
    if IsScalar(e.props[i]) && IsReferable(e.props[i].inType) then known + {i} else known
  }

  /**
   References from members lo, ..., hi - 1 name integers of an enclosing group (`known`) or
   earlier integers of the same group, and the same holds inside every struct.
   */
  ghost predicate BackwardGroup(e: Event, lo: nat, hi: nat, known: set<nat>)
    requires WellFormed(e) && lo <= hi <= |e.props|
    decreases |e.props| - lo, 1
  {
    lo < hi ==> BackwardProperty(e, lo, known) && BackwardGroup(e, lo + 1, hi, Defines(e, lo, known))
  }

  ghost predicate BackwardProperty(e: Event, i: nat, known: set<nat>)
    requires WellFormed(e) && i < |e.props|
    decreases |e.props| - i, 0
  {
    var p := e.props[i];
    assert WellFormedProperty(e, i);
    && (p.paramCount ==> p.count as nat in known)
    && (p.paramLength && !p.isStruct ==> p.length as nat in known)
    && (p.isStruct ==> BackwardGroup(e, p.structStart, MemberEnd(p), known))
  }

  ghost predicate Agree(a: seq<U16>, b: seq<U16>, known: set<nat>) {
    |a| == |b| && forall j :: j in known && j < |a| ==> a[j] == b[j]
  }

  /** The same items, cursor and outcome; the tables may differ. */
  ghost predicate SameItems(t: Trace, u: Trace) {
    t.visits == u.visits && t.pos == u.pos && t.outcome == u.outcome
  }

  lemma ValueReplays(e: Event, i: nat, pos: nat, a: seq<U16>, b: seq<U16>, known: set<nat>)
    requires Start(e, pos, a) && Start(e, pos, b) && i < |e.props| && !e.props[i].isStruct
    requires BackwardProperty(e, i, known) && Agree(a, b, known)
    ensures var d := DecodeValue(e, i, pos, a); var f := DecodeValue(e, i, pos, b);
      if d.Rejected? then f == d
      else
        f.Read? && f.item == d.item && Agree(d.ints, f.ints, known)
        && (IsReferable(e.props[i].inType) ==> d.ints[i] == f.ints[i])
  {
    assert WellFormedProperty(e, i);
    var p := e.props[i];
    assert PropertyLength(p, a) == PropertyLength(p, b);
    assert MeasureShape(e, p, pos, a) == MeasureShape(e, p, pos, b);
  }

  lemma {:induction false} GroupReplays(e: Event, lo: nat, hi: nat, pos: nat, a: seq<U16>, b: seq<U16>, known: set<nat>)
    requires Start(e, pos, a) && Start(e, pos, b) && lo <= hi <= |e.props|
    requires BackwardGroup(e, lo, hi, known) && Agree(a, b, known)
    ensures SameItems(Group(e, lo, hi, pos, a), Group(e, lo, hi, pos, b))
    ensures Agree(Group(e, lo, hi, pos, a).ints, Group(e, lo, hi, pos, b).ints, known)
    decreases |e.props| - lo, 3, 0
  {
    hide One, BackwardProperty;
    if lo == hi {
    } else {
      PropertyReplays(e, lo, pos, a, b, known);
      var t := One(e, lo, pos, a);
      var u := One(e, lo, pos, b);
      if t.outcome.Done? {
        GroupReplays(e, lo + 1, hi, t.pos, t.ints, u.ints, Defines(e, lo, known));
      }
    }
  }

  lemma {:induction false} PropertyReplays(e: Event, i: nat, pos: nat, a: seq<U16>, b: seq<U16>, known: set<nat>)
    requires Start(e, pos, a) && Start(e, pos, b) && i < |e.props|
    requires BackwardProperty(e, i, known) && Agree(a, b, known)
    ensures SameItems(One(e, i, pos, a), One(e, i, pos, b))
    ensures Agree(One(e, i, pos, a).ints, One(e, i, pos, b).ints, known)
    ensures One(e, i, pos, a).outcome.Done? ==>
      Agree(One(e, i, pos, a).ints, One(e, i, pos, b).ints, Defines(e, i, known))
    decreases |e.props| - i, 2, 0
  {
    hide DecodeValue, Group, Structs, Elements, FixedElements, BackwardGroup;
    var p := e.props[i];
    assert WellFormedProperty(e, i);
    assert ArrayCount(p, a) == ArrayCount(p, b);
    var n := ArrayCount(p, a);
    if IsScalar(p) {
      ValueReplays(e, i, pos, a, b, known);
    } else if !IsArray(p) {
      StructsReplay(e, i, 0, 1, false, pos, a, b, known);
    } else if p.isStruct {
      StructsReplay(e, i, 0, n, true, pos, a, b, known);
    } else if One(e, i, pos, a).visits != [] {
      if ArrayElement(e, p) == 0 {
        ElementsReplay(e, i, 0, n, pos, a, b, known);
      } else {
        FixedElementsReplay(e, i, 0, n, pos, a, b);
      }
    }
  }

  lemma {:induction false} StructsReplay(
      e: Event, i: nat, k: nat, n: nat, isArray: bool, pos: nat, a: seq<U16>, b: seq<U16>, known: set<nat>)
    requires Start(e, pos, a) && Start(e, pos, b) && i < |e.props| && e.props[i].isStruct && k <= n
    requires BackwardProperty(e, i, known) && Agree(a, b, known)
    ensures SameItems(Structs(e, i, k, n, isArray, pos, a), Structs(e, i, k, n, isArray, pos, b))
    ensures Agree(Structs(e, i, k, n, isArray, pos, a).ints, Structs(e, i, k, n, isArray, pos, b).ints, known)
    decreases |e.props| - i, 1, n - k
  {
    hide Group, BackwardGroup;
    if k == n {
    } else {
      var p := e.props[i];
      assert WellFormedProperty(e, i);
      GroupReplays(e, p.structStart, MemberEnd(p), pos, a, b, known);
      var t := Group(e, p.structStart, MemberEnd(p), pos, a);
      var u := Group(e, p.structStart, MemberEnd(p), pos, b);
      if t.outcome.Done? {
        StructsReplay(e, i, k + 1, n, isArray, t.pos, t.ints, u.ints, known);
      }
    }
  }

  lemma {:induction false} ElementsReplay(
      e: Event, i: nat, k: nat, n: nat, pos: nat, a: seq<U16>, b: seq<U16>, known: set<nat>)
    requires Start(e, pos, a) && Start(e, pos, b) && i < |e.props| && !e.props[i].isStruct && k <= n
    requires BackwardProperty(e, i, known) && Agree(a, b, known)
    ensures SameItems(Elements(e, i, k, n, pos, a), Elements(e, i, k, n, pos, b))
    ensures Agree(Elements(e, i, k, n, pos, a).ints, Elements(e, i, k, n, pos, b).ints, known)
    decreases n - k
  {
    hide DecodeValue, BackwardProperty;
    if k == n {
    } else {
      ValueReplays(e, i, pos, a, b, known);
      var d := DecodeValue(e, i, pos, a);
      if d.Read? {
        ElementsReplay(e, i, k + 1, n, pos + d.item.raw, d.ints, DecodeValue(e, i, pos, b).ints, known);
      }
    }
  }

  lemma {:induction false} FixedElementsReplay(e: Event, i: nat, k: nat, n: nat, pos: nat, a: seq<U16>, b: seq<U16>)
    requires Start(e, pos, a) && Start(e, pos, b) && i < |e.props| && k <= n
    requires pos + Bytes(n - k, ArrayElement(e, e.props[i])) <= |e.data|
    ensures SameItems(FixedElements(e, i, k, n, pos, a), FixedElements(e, i, k, n, pos, b))
    decreases n - k
  {
    hide Bytes, ShapeOf, CookedType;
    if k == n {
    } else {
      var size := ArrayElement(e, e.props[i]);
      OneElement(n - k, size);
      FixedElementsReplay(e, i, k + 1, n, pos + size, a, b);
    }
  }

  /** With backward references, the table left over from an earlier pass cannot be observed. */
  lemma ReplayIsIdentical(e: Event, first: seq<U16>, second: seq<U16>)
    requires WellFormed(e) && |first| == |second| == |e.props|
    requires BackwardGroup(e, 0, e.topLevel, {})
    ensures SameItems(Decode(e, first), Decode(e, second))
  {
    GroupReplays(e, 0, e.topLevel, 0, first, second, {});
  }

  // ------------------------------------------------------------------ seeking

  /** Decoding members lo, ..., hi - 1 writes no table entry of another top-level property. */
  lemma {:induction false} GroupWrites(e: Event, lo: nat, hi: nat, pos: nat, ints: seq<U16>, j: nat)
    requires Start(e, pos, ints) && lo <= hi <= |e.props|
    requires j < e.topLevel && (j < lo || hi <= j)
    ensures Group(e, lo, hi, pos, ints).ints[j] == ints[j]
    decreases |e.props| - lo, 3, 0
  {
    hide One;
    if lo == hi {
    } else {
      PropertyWrites(e, lo, pos, ints, j);
      var first := One(e, lo, pos, ints);
      if first.outcome.Done? {
        GroupWrites(e, lo + 1, hi, first.pos, first.ints, j);
      }
    }
  }

  lemma {:induction false} PropertyWrites(e: Event, i: nat, pos: nat, ints: seq<U16>, j: nat)
    requires Start(e, pos, ints) && i < |e.props| && j < e.topLevel && j != i
    ensures One(e, i, pos, ints).ints[j] == ints[j]
    decreases |e.props| - i, 2, 0
  {
    hide MeasureShape, Group, Structs, Elements, FixedElements;
    var p := e.props[i];
    assert WellFormedProperty(e, i);
    var n := ArrayCount(p, ints);
    if p.isStruct {
      StructsWrite(e, i, 0, if IsArray(p) then n else 1, IsArray(p), pos, ints, j);
    } else if !IsScalar(p) && ArrayElement(e, p) == 0 {
      ElementsWrite(e, i, 0, n, pos, ints, j);
    }
  }

  lemma {:induction false} StructsWrite(
      e: Event, i: nat, k: nat, n: nat, isArray: bool, pos: nat, ints: seq<U16>, j: nat)
    requires Start(e, pos, ints) && i < |e.props| && e.props[i].isStruct && k <= n && j < e.topLevel
    ensures Structs(e, i, k, n, isArray, pos, ints).ints[j] == ints[j]
    decreases |e.props| - i, 1, n - k
  {
    hide Group;
    if k == n {
    } else {
      var p := e.props[i];
      assert WellFormedProperty(e, i);
      GroupWrites(e, p.structStart, MemberEnd(p), pos, ints, j);
      var body := Group(e, p.structStart, MemberEnd(p), pos, ints);
      if body.outcome.Done? {
        StructsWrite(e, i, k + 1, n, isArray, body.pos, body.ints, j);
      }
    }
  }

  lemma {:induction false} ElementsWrite(e: Event, i: nat, k: nat, n: nat, pos: nat, ints: seq<U16>, j: nat)
    requires Start(e, pos, ints) && i < |e.props| && k <= n && j < |ints| && j != i
    ensures Elements(e, i, k, n, pos, ints).ints[j] == ints[j]
    decreases n - k
  {
    hide MeasureShape;
    if k == n {
    } else {
      var d := DecodeValue(e, i, pos, ints);
      if d.Read? {
        ElementsWrite(e, i, k + 1, n, pos + d.item.raw, d.ints, j);
      }
    }
  }

  /** The top-level integers before property `i`. */
  function KnownBefore(e: Event, i: nat): (known: set<nat>)
    requires i <= |e.props|
    ensures forall j :: j in known ==> j < i
  {
    if i == 0 then {} else Defines(e, i - 1, KnownBefore(e, i - 1))
  }

  lemma {:induction false} BackwardSuffix(e: Event, i: nat)
    requires WellFormed(e) && i <= e.topLevel && BackwardGroup(e, 0, e.topLevel, {})
    ensures BackwardGroup(e, i, e.topLevel, KnownBefore(e, i))
  {
    if i == 0 {
    } else {
      BackwardSuffix(e, i - 1);
    }
  }

  lemma {:induction false} GroupSplits(e: Event, lo: nat, mid: nat, hi: nat, pos: nat, ints: seq<U16>)
    requires Start(e, pos, ints) && lo <= mid <= hi <= |e.props|
    ensures var a := Group(e, lo, mid, pos, ints);
      Group(e, lo, hi, pos, ints)
      == if a.outcome.Failed? then a else Append(a, Group(e, mid, hi, a.pos, a.ints))
    decreases mid - lo
  {
    hide One;
    if lo == mid {
      var t := Group(e, lo, hi, pos, ints);
      assert [] + t.visits == t.visits;
    } else {
      var first := One(e, lo, pos, ints);
      if first.outcome.Done? {
        GroupSplits(e, lo + 1, mid, hi, first.pos, first.ints);
        var a := Group(e, lo + 1, mid, first.pos, first.ints);
        if a.outcome.Done? {
          var b := Group(e, mid, hi, a.pos, a.ints);
          assert first.visits + (a.visits + b.visits) == first.visits + a.visits + b.visits;
        }
      }
    }
  }

  /**
   Jumping back to top-level property `i`, after a complete pass, with the cursor saved from that
   pass but the table of its end, produces the same items as reaching the property in order.
   */
  lemma SeekIsInOrder(e: Event, i: nat, ints: seq<U16>)
    requires WellFormed(e) && |ints| == |e.props| && i < e.topLevel
    requires BackwardGroup(e, 0, e.topLevel, {})
    requires Decode(e, ints).outcome.Done?
    ensures var reached := Group(e, 0, i, 0, ints);
      && reached.outcome.Done?
      && SameItems(One(e, i, reached.pos, Decode(e, ints).ints), One(e, i, reached.pos, reached.ints))
      && One(e, i, reached.pos, reached.ints).outcome.Done?
  {
    hide One, Group;
    GroupSplits(e, 0, i, e.topLevel, 0, ints);
    var reached := Group(e, 0, i, 0, ints);
    var known := KnownBefore(e, i);
    var final := Decode(e, ints).ints;
    forall j | j in known && j < |final|
      ensures final[j] == reached.ints[j]
    {
      GroupWrites(e, i, e.topLevel, reached.pos, reached.ints, j);
    }
    BackwardSuffix(e, i);
    assert BackwardProperty(e, i, known);
    PropertyReplays(e, i, reached.pos, final, reached.ints, known);
    PropertySucceeds(e, i, e.topLevel, reached.pos, reached.ints);
  }

  lemma PropertySucceeds(e: Event, lo: nat, hi: nat, pos: nat, ints: seq<U16>)
    requires Start(e, pos, ints) && lo < hi <= |e.props|
    requires Group(e, lo, hi, pos, ints).outcome.Done?
    ensures One(e, lo, pos, ints).outcome.Done?
  {
    hide One;
  }
}
