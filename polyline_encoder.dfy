// The encoder of the Encoded Polyline Algorithm Format, the inverse the decoder is
// checked against. The repository itself only decodes: its polylines come from the
// Directions service, which encodes them with this algorithm.

module PolylineEncoder {
  import opened Wrappers
  import opened PolylineFormat

  /** The characters of a raw value: five bits at a time, least significant first, each
      chunk but the last with the continuation bit 0x20 set, each plus 63. */
  function EncodeValue(n: nat): string
    decreases n
  {
    if n < 0x20 then [(n + 63) as char]
    else [((n % 32 + 0x20) + 63) as char] + EncodeValue(n / 32)
  }

  /** An encoded value is one whole component whose raw value is the value encoded. */
  lemma {:induction false} EncodeValueReads(n: nat)
    decreases n
    ensures var cs := EncodeValue(n); ComponentLength(cs) == Some(|cs|) && Value(cs) == n
  {
    var cs := EncodeValue(n);
    if n >= 0x20 {
      var rest := EncodeValue(n / 32);
      EncodeValueReads(n / 32);
      assert Chunk(cs[0]) == n % 32 + 0x20 && cs[1..] == rest;
      assert Value(cs) == n % 32 + 32 * Value(rest);
    } else {
      assert Chunk(cs[0]) == n && cs[1..] == [];
    }
  }

  /** Every character of an encoded value is printable ASCII, from '?' to '~'. */
  lemma {:induction false} EncodeValuePrintable(n: nat)
    decreases n
    ensures forall k :: 0 <= k < |EncodeValue(n)| ==> '?' <= EncodeValue(n)[k] <= '~'
  {
    if n >= 0x20 {
      var cs, rest := EncodeValue(n), EncodeValue(n / 32);
      EncodeValuePrintable(n / 32);
      assert cs[0] as int == n % 32 + 0x20 + 63;
      forall k | 1 <= k < |cs|
        ensures '?' <= cs[k] <= '~'
      {
        assert cs[k] == rest[k - 1];
      }
    }
  }

  /** An encoded value is read back as one whole component, whatever follows it. */
  lemma {:induction false} EncodeValueThen(n: nat, t: string)
    decreases n
    ensures ComponentLength(EncodeValue(n) + t) == Some(|EncodeValue(n)|)
  {
    var cs := EncodeValue(n);
    EncodeValueReads(n);
    assert (cs + t)[0] == cs[0];
    if n >= 0x20 {
      assert (cs + t)[1..] == EncodeValue(n / 32) + t;
      EncodeValueThen(n / 32, t);
    }
  }

  /** The raw values one after another. */
  function EncodeAll(vs: seq<nat>): string {
    if vs == [] then [] else EncodeValue(vs[0]) + EncodeAll(vs[1..])
  }

  /** The encoding of a sequence of raw values splits back into exactly those values. */
  lemma {:induction false} ComponentsOfEncoding(vs: seq<nat>)
    ensures Components(EncodeAll(vs)) == Some(vs)
  {
    if vs != [] {
      var head, tail := EncodeValue(vs[0]), EncodeAll(vs[1..]);
      var s := head + tail;
      EncodeValueThen(vs[0], tail);
      EncodeValueReads(vs[0]);
      ComponentsOfEncoding(vs[1..]);
      assert s[|head|..] == tail && s[..|head|] == head;
      ComponentsCons(s, |head|);
      assert vs == [vs[0]] + vs[1..];
    }
  }

  /** The raw values of a track: each point's latitude and longitude difference from the
      point before it (the first from prev), zigzag encoded. */
  function Differences(pts: seq<Point>, prev: Point): (vs: seq<nat>)
    ensures |vs| == 2 * |pts|
  {
    if pts == [] then []
    else [Zig(pts[0].lat - prev.lat), Zig(pts[0].lng - prev.lng)] + Differences(pts[1..], pts[0])
  }

  /** Walking the differences from prev retraces the points. */
  lemma {:induction false} WalkDifferences(pts: seq<Point>, prev: Point)
    ensures Walk(prev, Deltas(Differences(pts, prev))) == pts
  {
    if pts != [] {
      var vs := Differences(pts, prev);
      assert vs[2..] == Differences(pts[1..], pts[0]);
      assert Deltas(vs)[0] == Point(pts[0].lat - prev.lat, pts[0].lng - prev.lng);
      assert Deltas(vs)[1..] == Deltas(vs[2..]);
      WalkDifferences(pts[1..], pts[0]);
      assert pts == [pts[0]] + pts[1..];
    }
  }

  /** The standard's encoding of a track of scaled integer points, starting from (0, 0). */
  function Encode(pts: seq<Point>): string {
    EncodeAll(Differences(pts, Origin))
  }

  /** On unbounded integers, every track is the route of its own encoding. */
  lemma RouteOfEncode(pts: seq<Point>)
    ensures Route(Encode(pts)) == Some(pts)
  {
    var vs := Differences(pts, Origin);
    ComponentsOfEncoding(vs);
    WalkDifferences(pts, Origin);
  }
}
