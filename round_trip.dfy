// Decoding with the 32-bit arithmetic of the code undoes the standard's encoder on every
// track whose coordinates are valid scaled latitudes and longitudes, and worked examples.

module RoundTrip {
  import opened Wrappers
  import opened KotlinInt
  import opened PolylineFormat
  import opened PolylineDecoder
  import opened DecoderProperties
  import opened DecoderAgreement
  import opened PolylineEncoder

  /** `decode` returns exactly the encoded track whenever neither the points nor the raw
      values of their differences overflow a Kotlin `Int`. */
  lemma DecodedEncode(pts: seq<Point>)
    requires PointsFit(pts) && RawFits(Differences(pts, Origin))
    ensures Decoded(Encode(pts)) == Success(pts)
  {
    var s, vs := Encode(pts), Differences(pts, Origin);
    ComponentsOfEncoding(vs);
    RouteOfEncode(pts);
    DecodedIsRoute(s);
  }

  /** A point in scaled degrees (degrees times 10^5) with a valid latitude and longitude. */
  predicate OnEarth(p: Point) {
    -9_000_000 <= p.lat <= 9_000_000 && -18_000_000 <= p.lng <= 18_000_000
  }

  /** Differences between points on Earth zigzag to raw values far below 2^31. */
  lemma {:induction false} DifferencesFit(pts: seq<Point>, prev: Point)
    requires OnEarth(prev) && forall k :: 0 <= k < |pts| ==> OnEarth(pts[k])
    ensures RawFits(Differences(pts, prev))
  {
    if pts != [] {
      var vs := Differences(pts, prev);
      DifferencesFit(pts[1..], pts[0]);
      assert vs[2..] == Differences(pts[1..], pts[0]);
      assert vs[0] < TWO_31 && vs[1] < TWO_31;
      forall n | 0 <= n < |vs|
        ensures vs[n] < TWO_31
      {
        if n >= 2 {
          assert vs[n] == vs[2..][n - 2];
        }
      }
    }
  }

  /** Every track of points on Earth survives encoding and then decoding by the code. */
  lemma DecodedEncodeOnEarth(pts: seq<Point>)
    requires forall k :: 0 <= k < |pts| ==> OnEarth(pts[k])
    ensures Decoded(Encode(pts)) == Success(pts)
  {
    DifferencesFit(pts, Origin);
    DecodedEncode(pts);
  }

  lemma EncodeLatOne()
    ensures EncodeValue(7_700_000) == "_p~iF"
  {
    assert EncodeValue(7) == "F";
    assert EncodeValue(234) == "iF";
    assert EncodeValue(7_519) == "~iF";
    assert EncodeValue(240_625) == "p~iF";
  }

  lemma EncodeLngOne()
    ensures EncodeValue(24_039_999) == "~ps|U"
  {
    assert EncodeValue(22) == "U";
    assert EncodeValue(733) == "|U";
    assert EncodeValue(23_476) == "s|U";
    assert EncodeValue(751_249) == "ps|U";
  }

  lemma EncodeLatTwo()
    ensures EncodeValue(440_000) == "_ulL"
  {
    assert EncodeValue(13) == "L";
    assert EncodeValue(429) == "lL";
    assert EncodeValue(13_750) == "ulL";
  }

  lemma EncodeLngTwo()
    ensures EncodeValue(149_999) == "nnqC"
  {
    assert EncodeValue(4) == "C";
    assert EncodeValue(146) == "qC";
    assert EncodeValue(4_687) == "nqC";
  }

  lemma EncodeLatThree()
    ensures EncodeValue(510_400) == "_mqN"
  {
    assert EncodeValue(15) == "N";
    assert EncodeValue(498) == "qN";
    assert EncodeValue(15_950) == "mqN";
  }

  lemma EncodeLngThree()
    ensures EncodeValue(1_100_599) == "vxq`@"
  {
    assert EncodeValue(1) == "@";
    assert EncodeValue(33) == "`@";
    assert EncodeValue(1_074) == "q`@";
    assert EncodeValue(34_393) == "xq`@";
  }

  /** The standard's worked example: the string below is the three points (38.5, -120.2),
      (40.7, -120.95) and (43.252, -126.453) in degrees, and `decode` returns them.
      The string and the points are bound through `requires` so that the solver does not
      unfold the literals on its own; a caller passes the literals themselves. */
  lemma WorkedExample(s: string, p1: Point, p2: Point, p3: Point)
    requires s == "_p~iF~ps|U_ulLnnqC_mqNvxq`@"
    requires p1 == Point(3_850_000, -12_020_000) && p2 == Point(4_070_000, -12_095_000)
    requires p3 == Point(4_325_200, -12_645_300)
    ensures Decoded(s) == Success([p1, p2, p3])
  {
    var vs := Differences([p1, p2, p3], Origin);
    DifferencesThree(p1, p2, p3);
    assert vs == [7_700_000, 24_039_999, 440_000, 149_999, 510_400, 1_100_599];
    EncodeSix(vs);
    EncodeLatOne();
    EncodeLngOne();
    EncodeLatTwo();
    EncodeLngTwo();
    EncodeLatThree();
    EncodeLngThree();
    WorkedExampleChars(EncodeValue(vs[0]), EncodeValue(vs[1]), EncodeValue(vs[2]),
                       EncodeValue(vs[3]), EncodeValue(vs[4]), EncodeValue(vs[5]), s);
    DecodedEncodeOnEarth([p1, p2, p3]);
  }

  lemma DifferencesThree(p1: Point, p2: Point, p3: Point)
    ensures Differences([p1, p2, p3], Origin)
         == [Zig(p1.lat), Zig(p1.lng), Zig(p2.lat - p1.lat), Zig(p2.lng - p1.lng),
             Zig(p3.lat - p2.lat), Zig(p3.lng - p2.lng)]
  {
    assert [p1, p2, p3][1..] == [p2, p3] && [p2, p3][1..] == [p3] && [p3][1..] == [];
    assert p1.lat - Origin.lat == p1.lat && p1.lng - Origin.lng == p1.lng;
    assert Differences([p3], p2) == [Zig(p3.lat - p2.lat), Zig(p3.lng - p2.lng)];
    assert Differences([p2, p3], p1)
        == [Zig(p2.lat - p1.lat), Zig(p2.lng - p1.lng)] + Differences([p3], p2);
  }

  lemma EncodeSix(vs: seq<nat>)
    requires |vs| == 6
    ensures EncodeAll(vs) == EncodeValue(vs[0]) + (EncodeValue(vs[1]) + (EncodeValue(vs[2])
                             + (EncodeValue(vs[3]) + (EncodeValue(vs[4]) + EncodeValue(vs[5])))))
  {
    assert EncodeAll(vs[5..]) == EncodeValue(vs[5]) + EncodeAll(vs[6..]);
    assert vs[6..] == [] && EncodeValue(vs[5]) + [] == EncodeValue(vs[5]);
    assert EncodeAll(vs[4..]) == EncodeValue(vs[4]) + EncodeAll(vs[5..]);
    assert EncodeAll(vs[3..]) == EncodeValue(vs[3]) + EncodeAll(vs[4..]);
    assert EncodeAll(vs[2..]) == EncodeValue(vs[2]) + EncodeAll(vs[3..]);
    assert EncodeAll(vs[1..]) == EncodeValue(vs[1]) + EncodeAll(vs[2..]);
  }

  lemma WorkedExampleChars(a: string, b: string, c: string, d: string, e: string, f: string, s: string)
    requires a == "_p~iF" && b == "~ps|U" && c == "_ulL" && d == "nnqC" && e == "_mqN" && f == "vxq`@"
    requires s == "_p~iF~ps|U_ulLnnqC_mqNvxq`@"
    ensures a + (b + (c + (d + (e + f)))) == s
  {
  }

  /** A string ending inside a component, or after a latitude with no longitude, makes
      the code read at index `length`. */
  lemma TruncatedInputs()
    ensures Decoded("_") == Failure(ReadPastEnd(1))
    ensures Decoded("?") == Failure(ReadPastEnd(1))
  {
    DecodedFraming("_");
    DecodedFraming("?");
    assert Terminators("?") == 1;
  }

  /** Two zero chunks are one point at the origin. */
  lemma OriginInput()
    ensures Decoded("??") == Success([Origin])
  {
    assert Differences([Origin], Origin) == [0, 0];
    assert EncodeValue(0) == "?";
    assert EncodeAll([0, 0]) == "??";
    DecodedEncodeOnEarth([Origin]);
  }
}
