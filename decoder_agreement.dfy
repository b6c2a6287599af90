/**
  When the decoder's 32-bit arithmetic cannot overflow, it computes exactly the route
  the string stands for in the unbounded reading of the format: every raw value is
  accumulated without loss, the zigzag step is Unzig, and the running sums are the
  points of the route.
*/
module DecoderAgreement {
  import opened Wrappers
  import opened KotlinInt
  import opened PolylineFormat
  import opened PolylineDecoder
  import opened DecoderProperties

  /** Every raw value fits in a non-negative Kotlin `Int`. */
  predicate RawFits(vs: seq<nat>) {
    forall k :: 0 <= k < |vs| ==> vs[k] < TWO_31
  }

  /** Every point has coordinates a Kotlin `Int` can hold. */
  predicate PointsFit(ps: seq<Point>) {
    forall k :: 0 <= k < |ps| ==> InInt32(ps[k])
  }

  // ------------------------------------------------------------ one component

  /** The first chunk of the component at s[i..] and the rest of the component. */
  lemma ComponentHead(s: string, i: nat)
    requires i <= |s| && ComponentLength(s[i..]).Some?
    ensures var m := ComponentLength(s[i..]).value;
      && i < i + m <= |s|
      && (!Continues(s[i]) ==> m == 1 && Value(s[i..i + m]) == Payload(s[i]))
      && (Continues(s[i]) ==>
            && ComponentLength(s[i + 1..]).Some?
            && m == 1 + ComponentLength(s[i + 1..]).value
            && Value(s[i..i + m]) == Payload(s[i]) + 32 * Value(s[i + 1..i + m]))
  {
    var m := ComponentLength(s[i..]).value;
    var t := s[i..];
    assert t[0] == s[i] && t[1..] == s[i + 1..];
    assert s[i..i + m][0] == s[i] && s[i..i + m][1..] == s[i + 1..i + m];
    assert s[i + 1..i + 1][..] == [];
  }

  /** A chunk with no data bits leaves `result` as it is. */
  lemma ZeroChunk(s: string, i: nat, result: Int32, shift: Int32)
    requires i < |s| && Payload(s[i]) == 0
    ensures ReadComponent(s, i, result, shift)
      == if Continues(s[i]) then ReadComponent(s, i + 1, result, Plus(shift, 5)) else Success(Read(result, i + 1))
  {
    AndLowFive(ChunkValue(s[i]));
    DoubledZero(shift % 32);
    OrZero(result);
    ReadComponentStep(s, i, result, shift);
  }

  /** The chunk loop adds nothing for a component whose raw value is 0, whatever the
      shift: each `(b and 0x1f) shl shift` is 0. */
  lemma {:induction false} ReadZero(s: string, i: nat, result: Int32, shift: Int32)
    requires i <= |s| && ComponentLength(s[i..]).Some?
    requires Value(s[i..i + ComponentLength(s[i..]).value]) == 0
    decreases |s| - i
    ensures ReadComponent(s, i, result, shift) == Success(Read(result, i + ComponentLength(s[i..]).value))
  {
    ComponentHead(s, i);
    ZeroChunk(s, i, result, shift);
    if Continues(s[i]) {
      ReadZero(s, i + 1, result, Plus(shift, 5));
    }
  }

  /** One chunk read at s[i] with accumulated bits below 2^shift: its data bits are added
      above them, as long as the whole value stays below 2^31. */
  lemma AddChunk(s: string, i: nat, result: Int32, shift: Int32, v: int)
    requires i < |s| && 0 <= shift && 0 <= result < Doubled(1, shift)
    requires Payload(s[i]) <= v && 1 <= v && result + Doubled(v, shift) < TWO_31
    requires 0 <= Doubled(Payload(s[i]), shift) <= Doubled(v, shift)
    ensures shift <= 30
    ensures var result' := result + Doubled(Payload(s[i]), shift);
      ReadComponent(s, i, result, shift)
        == if Continues(s[i]) then ReadComponent(s, i + 1, result', shift + 5) else Success(Read(result', i + 1))
  {
    var b := ChunkValue(s[i]);
    assert b % 32 == Payload(s[i]);
    OrChunk(b, result, shift, v);
    ReadComponentStep(s, i, result, shift);
  }

  /** A positive value shifted left by `shift` stays below 2^31 only for shifts up to 30. */
  lemma SmallShift(v: int, shift: nat)
    requires 1 <= v && Doubled(v, shift) < TWO_31
    ensures shift <= 30
  {
    if shift >= 31 {
      DoubledPast31(v, shift);
      assert false;
    }
  }

  /** `result or ((b and 0x1f) shl shift)` adds the chunk's five data bits above the
      bits already accumulated, as long as the total stays below 2^31. */
  lemma OrChunk(b: Int32, result: Int32, shift: Int32, v: int)
    requires 0 <= shift && 0 <= result < Doubled(1, shift)
    requires b % 32 <= v && 1 <= v && result + Doubled(v, shift) < TWO_31
    ensures shift <= 30
    ensures Or(result, Shl(And(b, 0x1F), shift)) == result + Doubled(b % 32, shift)
  {
    DoubledMonotone(b % 32, v, shift);
    SmallShift(v, shift);
    AndLowFive(b);
    ShlExact(b % 32, shift);
    OrDisjoint(result, Doubled(b % 32, shift), shift, b % 32);
  }

  /** Shifting a value made of a chunk p and the rest above it, and the bound that keeps
      the accumulated bits below the next shift. */
  lemma ShiftSplit(result: int, p: int, rest: int, v: int, shift: nat)
    requires 0 <= p < 32 && 0 <= result < Doubled(1, shift) && v == p + 32 * rest
    ensures result + Doubled(v, shift) == (result + Doubled(p, shift)) + Doubled(rest, shift + 5)
    ensures result + Doubled(p, shift) < Doubled(1, shift + 5)
  {
    DoubledAdd(p, 32 * rest, shift);
    DoubledBy32(rest, shift);
    DoubledBy32(1, shift);
    DoubledAdd(31, 1, shift);
    DoubledMonotone(p, 31, shift);
  }

  /** The chunk loop run with accumulated bits below 2^shift adds the component's raw
      value shifted left by `shift`, provided the sum fits in a non-negative `Int`. */
  lemma {:induction false} ReadValue(s: string, i: nat, result: Int32, shift: Int32)
    requires i <= |s| && ComponentLength(s[i..]).Some?
    requires var v := Value(s[i..i + ComponentLength(s[i..]).value]);
      0 <= shift && 0 <= result < Doubled(1, shift) && result + Doubled(v, shift) < TWO_31
    decreases |s| - i, 1
    ensures var m, r := ComponentLength(s[i..]).value, ReadComponent(s, i, result, shift);
      r.Success? && r.value.result == result + Doubled(Value(s[i..i + m]), shift) && r.value.next == i + m
  {
    ComponentHead(s, i);
    var v := Value(s[i..i + ComponentLength(s[i..]).value]);
    if v == 0 {
      DoubledZero(shift);
      ReadZero(s, i, result, shift);
    } else if Continues(s[i]) {
      ReadValueMore(s, i, result, shift);
    } else {
      DoubledMonotone(Payload(s[i]), v, shift);
      AddChunk(s, i, result, shift, v);
    }
  }

  /** ReadValue for a component that goes on after s[i]. */
  lemma {:induction false} ReadValueMore(s: string, i: nat, result: Int32, shift: Int32)
    requires i <= |s| && ComponentLength(s[i..]).Some?
    requires var v := Value(s[i..i + ComponentLength(s[i..]).value]);
      0 < v && 0 <= shift && 0 <= result < Doubled(1, shift) && result + Doubled(v, shift) < TWO_31
    requires i < |s| && Continues(s[i])
    decreases |s| - i, 0
    ensures var m, r := ComponentLength(s[i..]).value, ReadComponent(s, i, result, shift);
      r.Success? && r.value.result == result + Doubled(Value(s[i..i + m]), shift) && r.value.next == i + m
  {
    MoreArith(s, i, result, shift);
    var m := ComponentLength(s[i..]).value;
    var v := Value(s[i..i + m]);
    var result': Int32 := result + Doubled(Payload(s[i]), shift);
    ReadValue(s, i + 1, result', shift + 5);
    AddChunk(s, i, result, shift, v);
  }

  /** The arithmetic of ReadValueMore: the rest of the component, shifted five bits
      further, completes the value; the accumulated bits stay below the next shift. */
  lemma MoreArith(s: string, i: nat, result: Int32, shift: Int32)
    requires i <= |s| && ComponentLength(s[i..]).Some?
    requires var v := Value(s[i..i + ComponentLength(s[i..]).value]);
      0 < v && 0 <= shift && 0 <= result < Doubled(1, shift) && result + Doubled(v, shift) < TWO_31
    requires i < |s| && Continues(s[i])
    ensures ComponentLength(s[i + 1..]).Some?
    ensures var m, m' := ComponentLength(s[i..]).value, ComponentLength(s[i + 1..]).value;
      var v, rest := Value(s[i..i + m]), Value(s[i + 1..i + 1 + m']);
      var result' := result + Doubled(Payload(s[i]), shift);
      && m == m' + 1
      && shift <= 30
      && Payload(s[i]) <= v
      && 0 <= Doubled(Payload(s[i]), shift) <= Doubled(v, shift)
      && 0 <= result' < Doubled(1, shift + 5)
      && result' + Doubled(rest, shift + 5) == result + Doubled(v, shift)
  {
    ComponentHead(s, i);
    var m := ComponentLength(s[i..]).value;
    var v, p := Value(s[i..i + m]), Payload(s[i]);
    DoubledMonotone(p, v, shift);
    var m' := ComponentLength(s[i + 1..]).value;
    var rest := Value(s[i + 1..i + 1 + m']);
    assert i + 1 + m' == i + m;
    ShiftSplit(result, p, rest, v, shift);
    SmallShift(v, shift);
  }

  /** One turn of the chunk loop, with the continuation test read as Continues. */
  lemma ReadComponentStep(s: string, i: nat, result: Int32, shift: Int32)
    requires i < |s|
    ensures var result' := Or(result, Shl(And(ChunkValue(s[i]), 0x1F), shift));
      ReadComponent(s, i, result, shift)
        == if Continues(s[i]) then ReadComponent(s, i + 1, result', Plus(shift, 5)) else Success(Read(result', i + 1))
  {
  }

  /** Read from scratch (`result = 0`, `shift = 0`), a component whose raw value fits in
      a non-negative `Int` yields exactly that raw value. */
  lemma {:induction false} ReadRaw(s: string, i: nat)
    requires i <= |s| && ComponentLength(s[i..]).Some?
    requires Value(s[i..i + ComponentLength(s[i..]).value]) < TWO_31
    ensures var m, r := ComponentLength(s[i..]).value, ReadComponent(s, i, 0, 0);
      r.Success? && r.value.result == Value(s[i..i + m]) && r.value.next == i + m
  {
    ReadValue(s, i, 0, 0);
  }

  // ------------------------------------------------------------ the whole string

  /** The first two components of s[i..], s[i..j] and s[j..k], and the components after them. */
  lemma FirstPair(s: string, i: nat) returns (j: nat, k: nat, rest: seq<nat>)
    requires i < |s| && Components(s[i..]).Some? && |Components(s[i..]).value| % 2 == 0
    ensures ComponentLength(s[i..]).Some? && j == i + ComponentLength(s[i..]).value
    ensures j <= |s| && ComponentLength(s[j..]).Some? && k == j + ComponentLength(s[j..]).value
    ensures k <= |s| && Components(s[k..]) == Some(rest)
    ensures var vs := Components(s[i..]).value;
      2 <= |vs| && vs[0] == Value(s[i..j]) && vs[1] == Value(s[j..k]) && rest == vs[2..]
  {
    var t := s[i..];
    assert t != [];
    j := i + ComponentLength(t).value;
    ComponentsStep(s, i, j);
    var vs := Components(t).value;
    if j == |s| {
      assert false;
    }
    assert ComponentLength(s[j..]).Some?;
    k := j + ComponentLength(s[j..]).value;
    ComponentsStep(s, j, k);
    rest := Components(s[k..]).value;
    assert vs[2..] == rest;
  }

  /** The first point of a walk, and the walk that goes on from it, whose points and
      raw values still fit when those of the whole walk do. */
  lemma WalkPair(start: Point, vs: seq<nat>)
    requires 2 <= |vs| && |vs| % 2 == 0
    requires RawFits(vs) && PointsFit(Walk(start, Deltas(vs)))
    ensures var p := Add(start, Point(Unzig(vs[0]), Unzig(vs[1])));
      && Walk(start, Deltas(vs)) == [p] + Walk(p, Deltas(vs[2..]))
      && InInt32(p) && vs[0] < TWO_31 && vs[1] < TWO_31
      && RawFits(vs[2..]) && PointsFit(Walk(p, Deltas(vs[2..])))
  {
    var p := Add(start, Point(Unzig(vs[0]), Unzig(vs[1])));
    var ds := Deltas(vs);
    assert ds[0] == Point(Unzig(vs[0]), Unzig(vs[1])) && ds[1..] == Deltas(vs[2..]);
    var w := Walk(start, ds);
    assert w == [p] + Walk(p, ds[1..]);
    PointsFitTail(w);
    RawFitsTail(vs);
  }

  lemma PointsFitTail(ps: seq<Point>)
    requires 0 < |ps| && PointsFit(ps)
    ensures InInt32(ps[0]) && PointsFit(ps[1..])
  {
    forall n | 0 <= n < |ps[1..]|
      ensures InInt32(ps[1..][n])
    {
      assert ps[1..][n] == ps[n + 1];
    }
  }

  lemma RawFitsTail(vs: seq<nat>)
    requires 2 <= |vs| && RawFits(vs)
    ensures vs[0] < TWO_31 && vs[1] < TWO_31 && RawFits(vs[2..])
  {
    forall n | 0 <= n < |vs[2..]|
      ensures vs[2..][n] < TWO_31
    {
      assert vs[2..][n] == vs[n + 2];
    }
  }

  /** One step of the running totals: with a raw value below 2^31 and a sum that fits,
      `lat += dlat` adds exactly the delta Unzig gives. */
  lemma NextTotal(total: Int32, raw: Int32)
    requires 0 <= raw && -TWO_31 <= total + Unzig(raw) < TWO_31
    ensures Plus(total, SignedDelta(raw)) == total + Unzig(raw)
  {
  }

  /** The component read from i, when its raw value fits, in the form the outer loop
      matches on. */
  lemma ReadRawAt(s: string, i: nat, j: nat, v: Int32)
    requires i <= |s| && ComponentLength(s[i..]).Some? && j == i + ComponentLength(s[i..]).value
    requires 0 <= v == Value(s[i..j])
    ensures ReadComponent(s, i, 0, 0) == Success(Read(v, j))
  {
    ReadRawFrom(s, i, j, v, 0);
  }

  // The loop's initial `result` and `shift` are passed as a variable equal to 0: with both
  // as literals in view the solver keeps unfolding the chunk loop.
  lemma ReadRawFrom(s: string, i: nat, j: nat, v: Int32, zero: Int32)
    requires i <= |s| && ComponentLength(s[i..]).Some? && j == i + ComponentLength(s[i..]).value
    requires 0 <= v == Value(s[i..j]) && zero == 0
    ensures ReadComponent(s, i, zero, zero) == Success(Read(v, j))
  {
    assert Doubled(1, zero) == 1 && Doubled(v, zero) == v;
    ReadValue(s, i, zero, zero);
  }

  /** One turn of the outer loop, put together from its two reads and the rest. */
  lemma DecodeFromPair(s: string, i: nat, lat: Int32, lng: Int32, v0: Int32, j: nat, v1: Int32, k: nat,
                       p: Point, tail: seq<Point>)
    requires i < |s| && ReadComponent(s, i, 0, 0) == Success(Read(v0, j))
    requires j <= |s| && ReadComponent(s, j, 0, 0) == Success(Read(v1, k))
    requires p == Point(Plus(lat, SignedDelta(v0)), Plus(lng, SignedDelta(v1)))
    requires k <= |s| && DecodeFrom(s, k, p.lat, p.lng) == Success(tail)
    ensures DecodeFrom(s, i, lat, lng) == Success([p] + tail)
  {
    DecodeFromCons(s, i, lat, lng, v0, j, v1, k);
  }

  /** What one turn of the outer loop meets on a well-formed string whose values fit:
      the two components, the point they lead to and the fitting rest. */
  lemma PairAhead(s: string, i: nat, lat: Int32, lng: Int32)
      returns (j: nat, k: nat, v0: Int32, v1: Int32, lat': Int32, lng': Int32, rest: seq<nat>)
    requires i < |s| && Components(s[i..]).Some?
    requires var vs := Components(s[i..]).value;
      |vs| % 2 == 0 && RawFits(vs) && PointsFit(Walk(Point(lat, lng), Deltas(vs)))
    ensures ComponentLength(s[i..]).Some? && j == i + ComponentLength(s[i..]).value
    ensures j <= |s| && ComponentLength(s[j..]).Some? && k == j + ComponentLength(s[j..]).value
    ensures 0 <= v0 == Value(s[i..j]) && 0 <= v1 == Value(s[j..k])
    ensures lat' == Plus(lat, SignedDelta(v0)) && lng' == Plus(lng, SignedDelta(v1))
    ensures k <= |s| && Components(s[k..]) == Some(rest)
    ensures |rest| % 2 == 0 && RawFits(rest) && PointsFit(Walk(Point(lat', lng'), Deltas(rest)))
    ensures Walk(Point(lat, lng), Deltas(Components(s[i..]).value))
         == [Point(lat', lng')] + Walk(Point(lat', lng'), Deltas(rest))
  {
    j, k, rest := FirstPair(s, i);
    v0, v1, lat', lng', rest := WalkAhead(lat, lng, Components(s[i..]).value);
  }

  /** The first point of a walk whose raw values and points fit, reached the way the
      outer loop's `lat += dlat` and `lng += dlng` reach it. */
  lemma WalkAhead(lat: Int32, lng: Int32, vs: seq<nat>)
      returns (v0: Int32, v1: Int32, lat': Int32, lng': Int32, rest: seq<nat>)
    requires 2 <= |vs| && |vs| % 2 == 0 && RawFits(vs) && PointsFit(Walk(Point(lat, lng), Deltas(vs)))
    ensures 0 <= v0 == vs[0] && 0 <= v1 == vs[1] && rest == vs[2..]
    ensures lat' == Plus(lat, SignedDelta(v0)) && lng' == Plus(lng, SignedDelta(v1))
    ensures |rest| % 2 == 0 && RawFits(rest) && PointsFit(Walk(Point(lat', lng'), Deltas(rest)))
    ensures Walk(Point(lat, lng), Deltas(vs)) == [Point(lat', lng')] + Walk(Point(lat', lng'), Deltas(rest))
  {
    var start := Point(lat, lng);
    WalkPair(start, vs);
    var p := Add(start, Point(Unzig(vs[0]), Unzig(vs[1])));
    v0, v1 := vs[0], vs[1];
    NextTotal(lat, v0);
    NextTotal(lng, v1);
    lat', lng', rest := p.lat, p.lng, vs[2..];
  }

  /** Whenever no raw value and no point overflows a Kotlin `Int`, the outer loop run from
      index i with running totals (lat, lng) returns the walk the rest of the string
      describes from that point. */
  lemma {:induction false} DecodeFromAgrees(s: string, i: nat, lat: Int32, lng: Int32)
    requires i <= |s| && Components(s[i..]).Some?
    requires var vs := Components(s[i..]).value;
      |vs| % 2 == 0 && RawFits(vs) && PointsFit(Walk(Point(lat, lng), Deltas(vs)))
    decreases |s| - i
    ensures DecodeFrom(s, i, lat, lng) == Success(Walk(Point(lat, lng), Deltas(Components(s[i..]).value)))
  {
    if i == |s| {
      assert s[i..] == [];
      return;
    }
    var j, k, v0, v1, lat', lng', rest := PairAhead(s, i, lat, lng);
    DecodeFromAgrees(s, k, lat', lng');
    ReadRawAt(s, i, j, v0);
    ReadRawAt(s, j, k, v1);
    DecodeFromPair(s, i, lat, lng, v0, j, v1, k, Point(lat', lng'), Walk(Point(lat', lng'), Deltas(rest)));
  }

  /** Whenever no raw value and no point overflows a Kotlin `Int`, `decode` returns
      exactly the route the string stands for. */
  lemma DecodedIsRoute(s: string)
    requires Route(s).Some?
    requires RawFits(Components(s).value) && PointsFit(Route(s).value)
    ensures Decoded(s) == Success(Route(s).value)
  {
    assert s[0..] == s;
    DecodeFromAgrees(s, 0, 0, 0);
  }
}
