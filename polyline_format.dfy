/**
  The Encoded Polyline Algorithm Format read with unbounded integers: what a string
  means, independently of the 32-bit arithmetic the decoder carries it out with.

  Every character is a chunk whose value is its code minus 63. A chunk whose value is
  at least 0x20 carries a continuation bit; a component is a run of continuing chunks
  closed by one that does not continue, and its raw value is the chunks' low five bits
  read least significant first. Raw values are zigzag-encoded deltas, taken in
  (latitude, longitude) pairs; the points of the route are the running sums of the
  deltas, scaled by 10^5.
*/
module PolylineFormat {
  import opened Wrappers

  /** A route point with both coordinates scaled by 10^5 (degrees times 100000). */
  datatype Point = Point(lat: int, lng: int)

  const Origin := Point(0, 0)

  function Add(p: Point, q: Point): Point {
    Point(p.lat + q.lat, p.lng + q.lng)
  }

  // ---------------------------------------------------------------- chunks

  /** The chunk a character stands for: its code minus 63. */
  function Chunk(c: char): int {
    c as int - 63
  }

  /** Whether the chunk has its continuation bit 0x20 set, so that the component goes on. */
  predicate Continues(c: char) {
    Chunk(c) >= 0x20
  }

  /** The five data bits of a chunk. For chunks below 0 this is still the low five bits
      of the two's-complement value, which is the Euclidean residue modulo 32. */
  function Payload(c: char): (p: nat)
    ensures p < 32
  {
    Chunk(c) % 32
  }

  /** Number of chunks without the continuation bit, each of which closes a component. */
  function Terminators(cs: string): (n: nat)
    ensures n <= |cs|
  {
    if cs == [] then 0 else (if Continues(cs[0]) then 0 else 1) + Terminators(cs[1..])
  }

  // ---------------------------------------------------------------- framing

  /** Length of the component at the front of cs, or None if cs ends while a
      continuation is still pending. */
  function ComponentLength(cs: string): (r: Option<nat>)
    ensures r.Some? ==> 0 < r.value <= |cs|
  {
    if cs == [] then None
    else if !Continues(cs[0]) then Some(1)
    else match ComponentLength(cs[1..])
      case None => None
      case Some(n) => Some(n + 1)
  }

  /** A component ends at the first chunk without the continuation bit; every chunk
      before it continues, and there is no component when every chunk continues. */
  lemma {:induction false} ComponentLengthFrames(cs: string)
    ensures var r := ComponentLength(cs);
      && (r.Some? ==> !Continues(cs[r.value - 1]))
      && (r.Some? ==> forall k :: 0 <= k < r.value - 1 ==> Continues(cs[k]))
      && (r.None? <==> forall k :: 0 <= k < |cs| ==> Continues(cs[k]))
  {
    if cs != [] && Continues(cs[0]) {
      ComponentLengthFrames(cs[1..]);
      assert forall k :: 1 <= k < |cs| ==> cs[k] == cs[1..][k - 1];
    }
  }

  /** The raw value of a run of chunks: their five-bit payloads, least significant first. */
  function Value(cs: string): nat {
    if cs == [] then 0 else Payload(cs[0]) + 32 * Value(cs[1..])
  }

  /** The raw values of the components the string splits into, or None if the string
      ends inside a component. */
  function Components(cs: string): Option<seq<nat>>
    decreases |cs|
  {
    if cs == [] then Some([])
    else match ComponentLength(cs)
      case None => None
      case Some(n) =>
        match Components(cs[n..])
          case None => None
          case Some(vs) => Some([Value(cs[..n])] + vs)
  }

  /** A string splits into whole components exactly when it is empty or its last chunk
      has no continuation bit, and then there is one component per such chunk. */
  lemma {:induction false} ComponentsFrames(cs: string)
    decreases |cs|
    ensures Components(cs).Some? <==> cs == [] || !Continues(cs[|cs| - 1])
    ensures Components(cs).Some? ==> |Components(cs).value| == Terminators(cs)
  {
    if cs != [] {
      ComponentLengthFrames(cs);
      if ComponentLength(cs).Some? {
        var n := ComponentLength(cs).value;
        TerminatorsSplit(cs, n);
        ComponentsFrames(cs[n..]);
      }
    }
  }

  /** Splitting off the first component of cs splits off the first raw value. */
  lemma ComponentsCons(cs: string, n: nat)
    requires ComponentLength(cs) == Some(n)
    ensures Components(cs).Some? <==> Components(cs[n..]).Some?
    ensures Components(cs).Some? ==> Components(cs).value == [Value(cs[..n])] + Components(cs[n..]).value
  {
  }

  lemma {:induction false} TerminatorsAppend(a: string, b: string)
    ensures Terminators(a + b) == Terminators(a) + Terminators(b)
  {
    if a != [] {
      assert (a + b)[0] == a[0] && (a + b)[1..] == a[1..] + b;
      assert Terminators(a + b) == (if Continues(a[0]) then 0 else 1) + Terminators(a[1..] + b);
      TerminatorsAppend(a[1..], b);
    } else {
      assert a + b == b;
    }
  }

  lemma {:induction false} TerminatorsOfContinuing(cs: string)
    requires forall k :: 0 <= k < |cs| ==> Continues(cs[k])
    ensures Terminators(cs) == 0
  {
    if cs != [] {
      TerminatorsOfContinuing(cs[1..]);
    }
  }

  /** Cutting a string after its first component moves exactly one terminator to the left part. */
  lemma TerminatorsSplit(cs: string, n: nat)
    requires ComponentLength(cs) == Some(n)
    ensures Terminators(cs) == 1 + Terminators(cs[n..])
  {
    var head := cs[..n - 1];
    ComponentLengthFrames(cs);
    TerminatorsOfContinuing(head);
    assert cs == head + [cs[n - 1]] + cs[n..];
    TerminatorsAppend(head + [cs[n - 1]], cs[n..]);
    TerminatorsAppend(head, [cs[n - 1]]);
    assert [cs[n - 1]][1..] == [];
  }

  /** The k-th chunk of a run contributes its payload shifted left by 5k bits. */
  lemma {:induction false} ValueAppend(cs: string, c: char)
    ensures Value(cs + [c]) == Value(cs) + Payload(c) * Pow32(|cs|)
  {
    if cs != [] {
      var rest, p, w := cs[1..], Payload(c), Pow32(|cs| - 1);
      assert (cs + [c])[0] == cs[0] && (cs + [c])[1..] == rest + [c];
      ValueAppend(rest, c);
      assert Value(cs + [c]) == Payload(cs[0]) + 32 * Value(rest + [c]);
      assert Value(cs) == Payload(cs[0]) + 32 * Value(rest);
      assert Pow32(|cs|) == 32 * w;
      ShiftIn(Payload(cs[0]), Value(rest), p, w);
    } else {
      assert [c][1..] == [];
    }
  }

  lemma ShiftIn(a: int, v: int, p: int, w: int)
    ensures a + 32 * (v + p * w) == (a + 32 * v) + p * (32 * w)
  {
  }

  function Pow32(k: nat): (r: nat)
    ensures r >= 1
  {
    if k == 0 then 1 else 32 * Pow32(k - 1)
  }

  // ---------------------------------------------------------------- zigzag

  /** The signed delta a raw value stands for: even values are non-negative, odd values
      negative. */
  function Unzig(n: nat): (d: int)
    ensures n % 2 == 0 <==> d >= 0
  {
    if n % 2 == 0 then n / 2 else -(n / 2) - 1
  }

  /** The raw value of a signed delta, as the standard's encoder computes it: twice the
      delta, complemented when the delta is negative. */
  function Zig(d: int): (n: nat)
    ensures Unzig(n) == d
  {
    if d < 0 then -2 * d - 1 else 2 * d
  }

  /** Zigzag decoding is one-to-one and onto, and Zig is its inverse on either side. */
  lemma ZigzagBijection(n: nat, m: nat, d: int)
    ensures Zig(Unzig(n)) == n
    ensures Unzig(n) == Unzig(m) ==> n == m
    ensures Unzig(Zig(d)) == d
  {
  }

  // ---------------------------------------------------------------- points

  /** Pairs up raw values as (latitude, longitude) deltas. */
  function Deltas(vs: seq<nat>): (ds: seq<Point>)
    requires |vs| % 2 == 0
    ensures |ds| == |vs| / 2
  {
    if vs == [] then [] else [Point(Unzig(vs[0]), Unzig(vs[1]))] + Deltas(vs[2..])
  }

  /** The points visited when the deltas ds are added one after another to start. */
  function Walk(start: Point, ds: seq<Point>): (ps: seq<Point>)
    decreases ds
    ensures |ps| == |ds|
  {
    if ds == [] then [] else var p := Add(start, ds[0]); [p] + Walk(p, ds[1..])
  }

  /** Sum of a sequence of deltas. */
  function Total(ds: seq<Point>): Point {
    if ds == [] then Origin else Add(Total(ds[..|ds| - 1]), ds[|ds| - 1])
  }

  /** The i-th point of a walk is the start plus the prefix sum of deltas 0..i. */
  lemma {:induction false} WalkIsPrefixSums(start: Point, ds: seq<Point>, i: nat)
    requires i < |ds|
    decreases i
    ensures Walk(start, ds)[i] == Add(start, Total(ds[..i + 1]))
  {
    if i > 0 {
      assert Walk(start, ds)[i] == Walk(Add(start, ds[0]), ds[1..])[i - 1];
      WalkIsPrefixSums(Add(start, ds[0]), ds[1..], i - 1);
      assert ds[1..][..i] == ds[1..i + 1];
      TotalOfCons(ds[0], ds[1..i + 1]);
      assert [ds[0]] + ds[1..i + 1] == ds[..i + 1];
    } else {
      assert ds[..1] == [ds[0]];
      assert ds[..1][..0] == [];
    }
  }

  lemma {:induction false} TotalOfCons(d: Point, ds: seq<Point>)
    ensures Total([d] + ds) == Add(d, Total(ds))
  {
    if ds != [] {
      var last := |ds| - 1;
      assert ([d] + ds)[..|ds|] == [d] + ds[..last];
      TotalOfCons(d, ds[..last]);
    } else {
      assert ([d] + ds)[..0] == [];
    }
  }

  /** The route a well-formed string stands for, or None when it ends inside a component
      or after a latitude with no longitude. */
  function Route(s: string): Option<seq<Point>> {
    match Components(s)
      case None => None
      case Some(vs) => if |vs| % 2 == 1 then None else Some(Walk(Origin, Deltas(vs)))
  }

  /** The route has one point per complete (latitude, longitude) pair of components, and
      its i-th point is the sum of the first i + 1 delta pairs. */
  lemma RouteIsPrefixSums(s: string, i: nat)
    requires Route(s).Some? && i < |Route(s).value|
    ensures |Route(s).value| == Terminators(s) / 2
    ensures Route(s).value[i] == Total(Deltas(Components(s).value)[..i + 1])
  {
    ComponentsFrames(s);
    WalkIsPrefixSums(Origin, Deltas(Components(s).value), i);
  }
}
