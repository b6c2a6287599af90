# Polyline decoder

A model of `PolylineDecoder.decode`. This is the routine the app uses to turn the
encoded route geometry from the Directions service into the list of points drawn on the
map. The input follows Google's Encoded Polyline Algorithm Format:

- Each character stands for a six-bit chunk: its code minus 63.
- The low five bits of the chunks are OR-ed into `result` at shifts 0, 5, 10, and so on.
  A chunk of 0x20 or more says that another chunk follows.
- The accumulated value is zigzag-decoded into a signed delta.
- The delta is added to the running latitude or longitude. Components alternate
  latitude, longitude, and every pair yields one point.

The project has these modules:

- `KotlinInt` (kotlin_int.dfy): Kotlin's 32-bit `Int` as the decoder uses it. Addition
  wraps. `shl`/`shr` mask the shift distance to five bits. `shr` is arithmetic. `inv`
  is the complement. `and`/`or` work on the two's-complement bits. It also has the
  lemmas for the cases the decoder meets: `b and 0x1F` is `b mod 32`, an OR of disjoint
  bit ranges is a sum, and a `shl` whose doubled value fits in an `Int` is a doubling.
- `PolylineFormat` (polyline_format.dfy): the format read with unbounded integers.
  It defines chunks, how a string splits into components (`ComponentLength`,
  `Components`), the raw value of a component (`Value`, base 32 with the least
  significant chunk first), zigzag (`Unzig`/`Zig`), and the walk of prefix sums that
  gives the points (`Walk`, `Route`).
- `PolylineDecoder` (polyline_decoder.dfy): the code as written.
  - `ReadComponent` and `DecodeFrom` follow the chunk loop and the outer loop with the
    code's 32-bit arithmetic. `Decoded` is what `decode` returns.
  - The methods `ReadChunks` (the `do … while` chunk loop) and `Decode` (the whole
    function, appending to `poly`) are proved to compute exactly those functions.
- `DecoderProperties` (polyline_decoder_properties.dfy): which strings decode, how many
  points they give, and which strings make the code read past the end.
- `DecoderAgreement` (decoder_agreement.dfy): the 32-bit code computes the route of
  the unbounded reading whenever no raw value and no coordinate overflows an `Int`.
- `PolylineEncoder` (polyline_encoder.dfy): the format's encoder, as the inverse the
  decoder is checked against. The repository does not contain it; the Directions
  service encodes with it.
- `RoundTrip` (round_trip.dfy): `decode` undoes the encoder on every track of valid
  coordinates. Also worked examples: the format's canonical string, one point at the
  origin, and truncated inputs.

Coordinates are integers scaled by 10^5, as the code's `lat` and `lng` accumulators
hold them.

A truncated input makes the code evaluate `encoded[index++]` with `index` equal to the
length of the string, which throws. The model returns `Failure(ReadPastEnd(length))`
at exactly those inputs. The format's canonical string `` _p~iF~ps|U_ulLnnqC_mqNvxq`@ ``
decodes to the three points (38.5, -120.2), (40.7, -120.95) and (43.252, -126.453);
`RoundTrip.WorkedExample` proves that the code returns all three.

## Model

| member | source | states |
|---|---|---|
| PolylineDecoder.Decode | app/src/main/java/com/example/gozizigo/map/PolylineDecoder.kt:7-44 | The loop over `index < len` returns exactly `Decoded(encoded)`. Its invariant says the decoded list is `poly` followed by what the rest of the input decodes to, so points are only appended, in order. The empty string gives the empty list. A read past the end is returned as a failure. |
| PolylineDecoder.ReadChunks | app/src/main/java/com/example/gozizigo/map/PolylineDecoder.kt:19-23 | The `do … while (b >= 0x20)` chunk loop, which the code runs at lines 19-23 and again at 31-35, returns exactly `ReadComponent(encoded, start, 0, 0)`: the accumulated `result` and the index after the last chunk, or the read past the end. |
| PolylineDecoder.ReadComponent | app/src/main/java/com/example/gozizigo/map/PolylineDecoder.kt:19-23 | The chunk loop succeeds exactly when the rest of the input starts with a whole component. It then stops right after the first chunk below 0x20. Otherwise it fails by reading at index `length`. |
| PolylineDecoder.ChunkValue | app/src/main/java/com/example/gozizigo/map/PolylineDecoder.kt:20-21 | `encoded[index++].code - 63`, here and at line 32, is the format's chunk of that character, and its `b and 0x1f` is the chunk's five payload bits. |
| PolylineDecoder.SignedDelta | app/src/main/java/com/example/gozizigo/map/PolylineDecoder.kt:25 | The zigzag step `if ((result and 1) != 0) (result shr 1).inv() else (result shr 1)`, here and at line 37, is the format's zigzag decoding `Unzig` for every non-negative `result`. |
| PolylineDecoder.DecodeFrom | app/src/main/java/com/example/gozizigo/map/PolylineDecoder.kt:14-41 | The only failure of the outer loop is a read at index `length`. |
| PolylineDecoder.DecodeFromCons | app/src/main/java/com/example/gozizigo/map/PolylineDecoder.kt:14-41 | One turn of the outer loop reads at least two characters, so `index` strictly increases. It puts exactly one point, (`lat += dLat`, `lng += dLng`), in front of what the rest decodes to. |
| PolylineDecoder.DecodeFromTruncated | app/src/main/java/com/example/gozizigo/map/PolylineDecoder.kt:20 | When the latitude's chunk loop (line 20) or the longitude's (line 32) runs into the end of the input, the whole decoding fails with that read past the end. |
| DecoderProperties.DecodeFromFraming | app/src/main/java/com/example/gozizigo/map/PolylineDecoder.kt:14-41 | From any index, the outer loop succeeds exactly when the rest splits into whole components and their number is even. It then yields one point per pair. |
| DecoderProperties.DecodedFraming | app/src/main/java/com/example/gozizigo/map/PolylineDecoder.kt:7-44 | `decode` returns normally exactly when the input is empty or ends with a chunk below 0x20, and that input has an even number of such chunks. It then returns that number halved, at most one point per two characters. Otherwise it fails reading at index `length`. |
| PolylineFormat.ComponentLengthFrames | app/src/main/java/com/example/gozizigo/map/PolylineDecoder.kt:19-23 | A component ends at the first chunk below 0x20, and every chunk before it is 0x20 or more. There is no component when every remaining chunk continues. |
| PolylineFormat.ComponentsFrames | app/src/main/java/com/example/gozizigo/map/PolylineDecoder.kt:14-41 | A string splits into whole components exactly when it is empty or its last chunk is below 0x20. There is then one component per such chunk. |
| PolylineFormat.TerminatorsSplit | app/src/main/java/com/example/gozizigo/map/PolylineDecoder.kt:19-23 | Reading one component consumes exactly one chunk below 0x20. |
| PolylineFormat.ValueAppend | app/src/main/java/com/example/gozizigo/map/PolylineDecoder.kt:21 | The k-th chunk of a component contributes its five payload bits times 32^k, that is, shifted left by 5k. |
| PolylineFormat.Unzig | app/src/main/java/com/example/gozizigo/map/PolylineDecoder.kt:25 | The delta is non-negative exactly when the raw value is even. |
| PolylineFormat.Zig | app/src/main/java/com/example/gozizigo/map/PolylineDecoder.kt:25 | The encoder's zigzag step is a right inverse of the decoder's. |
| PolylineFormat.ZigzagBijection | app/src/main/java/com/example/gozizigo/map/PolylineDecoder.kt:25 | Zigzag decoding is a bijection from the naturals onto the integers, with `Zig` as its inverse on both sides. |
| PolylineFormat.WalkIsPrefixSums | app/src/main/java/com/example/gozizigo/map/PolylineDecoder.kt:26-40 | The i-th point is the start plus the sum of deltas 0..i. |
| PolylineFormat.RouteIsPrefixSums | app/src/main/java/com/example/gozizigo/map/PolylineDecoder.kt:11-40 | Starting from (0, 0), there is one point per complete pair of components, and the i-th point is the prefix sum of the first i + 1 delta pairs. |
| KotlinInt.Wrap | app/src/main/java/com/example/gozizigo/map/PolylineDecoder.kt:26 | 32-bit addition leaves every sum that fits in an `Int` unchanged. |
| KotlinInt.AndLowFive | app/src/main/java/com/example/gozizigo/map/PolylineDecoder.kt:21 | `b and 0x1F` is `b` modulo 32, for negative `b` too. |
| KotlinInt.OrDisjoint | app/src/main/java/com/example/gozizigo/map/PolylineDecoder.kt:21 | `result or y` is `result + y` when 0 ≤ `result` < 2^k, `y` is a non-negative multiple of 2^k, and the sum is below 2^31, so k ≤ 30 for a non-zero `y`. |
| KotlinInt.ShlExact | app/src/main/java/com/example/gozizigo/map/PolylineDecoder.kt:21 | `x shl n` with n ≤ 30 is x doubled n times whenever that doubled value, negative or not, fits in an `Int`. |
| KotlinInt.AndOne | app/src/main/java/com/example/gozizigo/map/PolylineDecoder.kt:25 | `result and 1` is the parity of a non-negative `result`. |
| DecoderAgreement.ReadValue | app/src/main/java/com/example/gozizigo/map/PolylineDecoder.kt:19-23 | The chunk loop started with bits below 2^shift adds the component's raw value shifted left by `shift`, while the sum fits in an `Int`. It stops after the component. |
| DecoderAgreement.ReadRaw | app/src/main/java/com/example/gozizigo/map/PolylineDecoder.kt:16-23 | Started from `shift = 0`, `result = 0`, the chunk loop returns the component's raw value when that value is below 2^31. |
| DecoderAgreement.NextTotal | app/src/main/java/com/example/gozizigo/map/PolylineDecoder.kt:26 | `lat += dLat` adds the exact delta when the new total fits. |
| DecoderAgreement.DecodeFromAgrees | app/src/main/java/com/example/gozizigo/map/PolylineDecoder.kt:14-41 | From any index and totals, the outer loop returns the walk that the rest of the string describes, provided no raw value or point overflows. |
| DecoderAgreement.DecodedIsRoute | app/src/main/java/com/example/gozizigo/map/PolylineDecoder.kt:7-44 | `decode` returns exactly the route of the unbounded reading when no raw value and no coordinate overflows an `Int`. |
| PolylineEncoder.EncodeValueReads | app/src/main/java/com/example/gozizigo/map/PolylineDecoder.kt:19-23 | The encoder's characters for a raw value are read back as one whole component with that value. |
| PolylineEncoder.EncodeValueThen | app/src/main/java/com/example/gozizigo/map/PolylineDecoder.kt:19-23 | An encoded value is read as one whole component, whatever follows it. |
| PolylineEncoder.EncodeValuePrintable | app/src/main/java/com/example/gozizigo/map/PolylineDecoder.kt:20 | Encoded characters lie between '?' and '~', so every chunk is between 0 and 63. |
| PolylineEncoder.ComponentsOfEncoding | app/src/main/java/com/example/gozizigo/map/PolylineDecoder.kt:14-41 | Encoding raw values one after another and splitting the result into components gives back the values. |
| PolylineEncoder.WalkDifferences | app/src/main/java/com/example/gozizigo/map/PolylineDecoder.kt:26-40 | Accumulating the zigzagged differences of a track retraces the track. |
| PolylineEncoder.RouteOfEncode | app/src/main/java/com/example/gozizigo/map/PolylineDecoder.kt:7-44 | With unbounded integers, every track is the route of its own encoding. |
| RoundTrip.DecodedEncode | app/src/main/java/com/example/gozizigo/map/PolylineDecoder.kt:7-44 | The 32-bit `decode` returns exactly the encoded track when neither the points nor their zigzagged differences overflow an `Int`. |
| RoundTrip.DifferencesFit | app/src/main/java/com/example/gozizigo/map/PolylineDecoder.kt:21 | Differences between valid latitudes (±90°) and longitudes (±180°) zigzag to raw values below 2^31. |
| RoundTrip.DecodedEncodeOnEarth | app/src/main/java/com/example/gozizigo/map/PolylineDecoder.kt:7-44 | Every track of valid coordinates survives encoding and then `decode`. |
| RoundTrip.WorkedExample | app/src/main/java/com/example/gozizigo/map/PolylineDecoder.kt:7-44 | The format's canonical example string decodes to (3850000, -12020000), (4070000, -12095000), (4325200, -12645300). The longitude deltas here are negative. |
| RoundTrip.TruncatedInputs | app/src/main/java/com/example/gozizigo/map/PolylineDecoder.kt:20 | `_` ends inside a component and `?` is a latitude without a longitude. Each makes the code read at index 1, the length. |
| RoundTrip.OriginInput | app/src/main/java/com/example/gozizigo/map/PolylineDecoder.kt:14-40 | The minimal pair `??` decodes to exactly one point, the origin. |

## Left out

- `LatLng` and the scaling `lat / 1E5`, `lng / 1E5` (line 40) are left out: floating
  point and a Maps SDK type. The model returns the scaled integer totals that the code
  divides. These are taken before the `LatLng` constructor clamps the latitude to ±90°
  and wraps the longitude into [-180°, 180°), so out-of-range totals are returned as
  they are.
- The exception is not modelled as such. `encoded[index++]` past the end throws
  `StringIndexOutOfBoundsException`; the model returns a `Failure` carrying the index
  read, and the caller's handling of the exception is not part of this model.
- Characters are Dafny `char`s (Unicode scalar values), not Kotlin's UTF-16 code
  units. The two agree on every character up to U+FFFF that is not a surrogate, which
  covers every encoded polyline. A string with characters beyond U+FFFF has a different
  `length` in Kotlin and is not modelled.
- The two textual copies of the chunk loop (lines 19-23 and 31-35) are one method,
  `ReadChunks`, called twice.
- DecoderAgreement.DecodedIsRoute: relates the code to the unbounded reading only when
  every raw value is below 2^31 and every coordinate fits in an `Int`. Past that,
  `Decoded` still gives the code's exact wrapped result, but no lemma describes it.
- KotlinInt.OrDisjoint: covers only shifted values that did not wrap, so shifts up to 30.
  Once a long component pushes `shift` to 32 or more, Kotlin masks the shift distance to
  five bits and line 21's `or` is no longer a sum; `ReadComponent` computes that case
  exactly, but no lemma describes it.
- RoundTrip.DecodedEncodeOnEarth: covers coordinates within ±90° latitude and ±180°
  longitude. Those are the coordinates a Directions response carries, and the
  encoder's 32-bit limits are not modelled beyond them.
- The encoder is the format's algorithm on unbounded integers, stated as the decoder's
  inverse. It is not code of this repository, and its rounding of degrees to scaled
  integers is not modelled.
- The rest of the app is not part of this model: the UI screens, speech recognition,
  location updates, the Directions HTTP client, map-camera bounds, and the restaurant
  data.
