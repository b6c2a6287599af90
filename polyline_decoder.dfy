/**
  `PolylineDecoder.decode`: turns an encoded polyline into the list of its points.

  The recursive functions below follow the Kotlin code step for step, with its 32-bit
  `Int` arithmetic; the method `Decode` is the loop itself and is proved to compute
  them. The lemmas then say what those functions compute: which strings are decoded
  and which make the code read past the end of the input, and, whenever the values
  fit in 32 bits, the route the string stands for in the unbounded reading of the
  format (module PolylineFormat).
*/
module PolylineDecoder {
  import opened Wrappers
  import opened KotlinInt
  import opened PolylineFormat

  /** The only failure of the code: `encoded[index++]` with index equal to the length
      of the string, which throws a StringIndexOutOfBoundsException. */
  datatype DecodeError = ReadPastEnd(index: nat)

  /** What one chunk loop leaves behind: the accumulated `result` and the index after
      the last chunk it read. */
  datatype Read = Read(result: Int32, next: nat)

  /** A point whose coordinates a Kotlin `Int` can hold. */
  predicate InInt32(p: Point) {
    -TWO_31 <= p.lat < TWO_31 && -TWO_31 <= p.lng < TWO_31
  }

  /** `encoded[index].code - 63`: the chunk of the format, whose low five bits
      `b and 0x1f` are its payload. */
  function ChunkValue(c: char): (b: Int32)
    ensures b == Chunk(c)
    ensures And(b, 0x1F) == Payload(c)
  {
    AndLowFive(Chunk(c));
    Chunk(c)
  }

  // ------------------------------------------------------------ the code as written

  /** The chunk loop (`do { ... } while (b >= 0x20)`) run from index i with the
      accumulators result and shift. */
  function ReadComponent(s: string, i: nat, result: Int32, shift: Int32): (r: Result<Read, DecodeError>)
    requires i <= |s|
    decreases |s| - i
    ensures r.Success? <==> ComponentLength(s[i..]).Some?
    ensures r.Success? ==> r.value.next == i + ComponentLength(s[i..]).value
    ensures r.Failure? ==> r.error == ReadPastEnd(|s|)
  {
    if i == |s| then Failure(ReadPastEnd(i))
    else
      assert s[i..][0] == s[i] && s[i..][1..] == s[i + 1..];
      var b := ChunkValue(s[i]);
      var result' := Or(result, Shl(And(b, 0x1F), shift));
      if b >= 0x20 then ReadComponent(s, i + 1, result', Plus(shift, 5))
      else Success(Read(result', i + 1))
  }

  /** The zigzag step: `if ((result and 1) != 0) (result shr 1).inv() else (result shr 1)`.
      On every raw value a non-negative `Int` holds it is the format's zigzag decoding. */
  function SignedDelta(result: Int32): (r: Int32)
    ensures 0 <= result ==> r == Unzig(result)
  {
    AndOne(result);
    assert Halved(result, 1) == Halved(result, 0) / 2 == result / 2;
    if And(result, 1) != 0 then Inv(Shr(result, 1)) else Shr(result, 1)
  }

  /** The outer loop (`while (index < len)`) from index i with the running totals lat
      and lng: one latitude component, one longitude component, one point. */
  function DecodeFrom(s: string, i: nat, lat: Int32, lng: Int32): (r: Result<seq<Point>, DecodeError>)
    requires i <= |s|
    decreases |s| - i
    ensures r.Failure? ==> r.error == ReadPastEnd(|s|)
  {
    if i == |s| then Success([])
    else match ReadComponent(s, i, 0, 0)
      case Failure(e) => Failure(e)
      case Success(Read(rLat, j)) =>
        var lat' := Plus(lat, SignedDelta(rLat));
        match ReadComponent(s, j, 0, 0)
          case Failure(e) => Failure(e)
          case Success(Read(rLng, k)) =>
            var lng' := Plus(lng, SignedDelta(rLng));
            match DecodeFrom(s, k, lat', lng')
              case Failure(e) => Failure(e)
              case Success(ps) => Success([Point(lat', lng')] + ps)
  }

  /** What `decode` returns for s, or the read past the end it fails with. */
  function Decoded(s: string): Result<seq<Point>, DecodeError> {
    DecodeFrom(s, 0, 0, 0)
  }

  // ------------------------------------------------------------ the loop

  function Prepend(ps: seq<Point>, r: Result<seq<Point>, DecodeError>): Result<seq<Point>, DecodeError> {
    match r
      case Success(qs) => Success(ps + qs)
      case Failure(e) => Failure(e)
  }

  /** One turn of the outer loop reads at least two characters and puts exactly one point
      in front of what the rest of the input decodes to. */
  lemma DecodeFromCons(s: string, i: nat, lat: Int32, lng: Int32, rLat: Int32, j: nat, rLng: Int32, k: nat)
    requires i < |s| && ReadComponent(s, i, 0, 0) == Success(Read(rLat, j))
    requires j <= |s| && ReadComponent(s, j, 0, 0) == Success(Read(rLng, k))
    ensures i + 2 <= k <= |s|
    ensures var lat', lng' := Plus(lat, SignedDelta(rLat)), Plus(lng, SignedDelta(rLng));
      DecodeFrom(s, i, lat, lng) == Prepend([Point(lat', lng')], DecodeFrom(s, k, lat', lng'))
  {
  }

  /** A turn of the outer loop whose first or second component runs into the end of the
      input ends the decoding with that read past the end. */
  lemma DecodeFromTruncated(s: string, i: nat, lat: Int32, lng: Int32)
    requires i < |s|
    requires ReadComponent(s, i, 0, 0).Failure?
      || ReadComponent(s, ReadComponent(s, i, 0, 0).value.next, 0, 0).Failure?
    ensures DecodeFrom(s, i, lat, lng) == Failure(ReadPastEnd(|s|))
  {
  }

  lemma PrependNothing(r: Result<seq<Point>, DecodeError>)
    ensures Prepend([], r) == r
  {
    if r.Success? {
      assert [] + r.value == r.value;
    }
  }

  lemma PrependTwice(ps: seq<Point>, qs: seq<Point>, r: Result<seq<Point>, DecodeError>)
    ensures Prepend(ps, Prepend(qs, r)) == Prepend(ps + qs, r)
  {
    if r.Success? {
      assert ps + (qs + r.value) == (ps + qs) + r.value;
    }
  }

  /** The chunk loop `do { b = encoded[index++].code - 63; result = result or ((b and 0x1f)
      shl shift); shift += 5 } while (b >= 0x20)`, which the code runs once for the
      latitude and once for the longitude. It returns the accumulated `result` and the
      index after the last chunk, or the read past the end of the input. */
  method ReadChunks(encoded: string, start: nat) returns (r: Result<Read, DecodeError>)
    requires start <= |encoded|
    ensures r == ReadComponent(encoded, start, 0, 0)
  {
    var index := start;
    var len := |encoded|;
    var b: Int32;
    var shift: Int32 := 0;
    var result: Int32 := 0;
    var more := true;
    while more
      invariant start <= index <= len
      invariant more ==> ReadComponent(encoded, start, 0, 0) == ReadComponent(encoded, index, result, shift)
      invariant !more ==> ReadComponent(encoded, start, 0, 0) == Success(Read(result, index))
      decreases len - index
    {
      if index == len {
        return Failure(ReadPastEnd(index));
      }
      b := ChunkValue(encoded[index]);
      index := index + 1;
      result := Or(result, Shl(And(b, 0x1F), shift));
      shift := Plus(shift, 5);
      more := b >= 0x20;
    }
    r := Success(Read(result, index));
  }

  /** `PolylineDecoder.decode`. The point list `poly` only ever grows at its end; a
      read past the end of the input is returned as a failure instead of thrown. */
  method Decode(encoded: string) returns (r: Result<seq<Point>, DecodeError>)
    ensures r == Decoded(encoded)
    ensures encoded == [] ==> r == Success([])
  {
    var poly: seq<Point> := [];
    var index: nat := 0;
    var len := |encoded|;
    var lat: Int32 := 0;
    var lng: Int32 := 0;
    PrependNothing(Decoded(encoded));

    while index < len
      invariant index <= len
      invariant Decoded(encoded) == Prepend(poly, DecodeFrom(encoded, index, lat, lng))
      decreases len - index
    {
      var first := ReadChunks(encoded, index);
      if first.Failure? {
        DecodeFromTruncated(encoded, index, lat, lng);
        return Failure(first.error);
      }
      var second := ReadChunks(encoded, first.value.next);
      if second.Failure? {
        DecodeFromTruncated(encoded, index, lat, lng);
        return Failure(second.error);
      }
      var lat', lng' := Plus(lat, SignedDelta(first.value.result)), Plus(lng, SignedDelta(second.value.result));
      DecodeFromCons(encoded, index, lat, lng, first.value.result, first.value.next, second.value.result, second.value.next);
      PrependTwice(poly, [Point(lat', lng')], DecodeFrom(encoded, second.value.next, lat', lng'));
      poly := poly + [Point(lat', lng')];
      index, lat, lng := second.value.next, lat', lng';
    }
    assert DecodeFrom(encoded, index, lat, lng) == Success([]) && poly + [] == poly;
    r := Success(poly);
  }
}
