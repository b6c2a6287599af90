/**
  What the decoder computes: which inputs it decodes, which make it read past the end,
  and which route it returns, stated against the unbounded reading of the format.
*/
module DecoderProperties {
  import opened Wrappers
  import opened KotlinInt
  import opened PolylineFormat
  import opened PolylineDecoder

  /** Two components cut off the front of s[i..] are two raw values cut off its components. */
  lemma ComponentsPairStep(s: string, i: nat)
    requires i < |s| && ReadComponent(s, i, 0, 0).Success?
    requires ReadComponent(s, ReadComponent(s, i, 0, 0).value.next, 0, 0).Success?
    ensures var k := ReadComponent(s, ReadComponent(s, i, 0, 0).value.next, 0, 0).value.next;
      var cs, cs' := Components(s[i..]), Components(s[k..]);
      && (cs.Some? <==> cs'.Some?)
      && (cs.Some? ==> |cs.value| == |cs'.value| + 2)
  {
    var j := ReadComponent(s, i, 0, 0).value.next;
    var k := ReadComponent(s, j, 0, 0).value.next;
    ComponentsStep(s, i, j);
    ComponentsStep(s, j, k);
  }

  /** Cutting off the component s[i..j] leaves the components of s[j..]. */
  lemma ComponentsStep(s: string, i: nat, j: nat)
    requires i <= j <= |s| && ComponentLength(s[i..]) == Some(j - i)
    ensures Components(s[i..]).Some? <==> Components(s[j..]).Some?
    ensures Components(s[i..]).Some? ==> Components(s[i..]).value == [Value(s[i..j])] + Components(s[j..]).value
  {
    ComponentsCons(s[i..], j - i);
    assert s[i..][j - i..] == s[j..];
    assert s[i..][..j - i] == s[i..j];
  }

  /** The code decodes s from index i exactly when the rest of s splits into whole
      components and there is an even number of them; it then yields one point per pair. */
  lemma {:induction false} DecodeFromFraming(s: string, i: nat, lat: Int32, lng: Int32)
    requires i <= |s|
    decreases |s| - i
    ensures var r, cs := DecodeFrom(s, i, lat, lng), Components(s[i..]);
      && (r.Success? <==> cs.Some? && |cs.value| % 2 == 0)
      && (r.Success? ==> |r.value| == |cs.value| / 2)
  {
    if i == |s| {
      assert s[i..] == [];
      return;
    }
    var first := ReadComponent(s, i, 0, 0);
    if first.Failure? {
      DecodeFromTruncated(s, i, lat, lng);
      return;
    }
    var j := first.value.next;
    ComponentsStep(s, i, j);
    var second := ReadComponent(s, j, 0, 0);
    if second.Failure? {
      DecodeFromTruncated(s, i, lat, lng);
      if j == |s| {
        assert s[j..] == [];
      }
      return;
    }
    var k := second.value.next;
    var lat', lng' := Plus(lat, SignedDelta(first.value.result)), Plus(lng, SignedDelta(second.value.result));
    DecodeFromCons(s, i, lat, lng, first.value.result, j, second.value.result, k);
    ComponentsPairStep(s, i);
    DecodeFromFraming(s, k, lat', lng');
    var cs, cs' := Components(s[i..]), Components(s[k..]);
    if cs.Some? {
      SameParity(|cs.value|, |cs'.value|);
    }
  }

  lemma SameParity(a: nat, b: nat)
    requires a == b + 2
    ensures a % 2 == b % 2 && a / 2 == b / 2 + 1
  {
  }

  /** `decode` returns normally exactly when the input is empty or ends with a chunk
      without continuation bit, and the number of such chunks is even; it then returns
      one point per pair of components, and so at most one point per two characters.
      Otherwise it fails by reading at index `encoded.length`. */
  lemma DecodedFraming(s: string)
    ensures Decoded(s).Success? <==> (s == [] || !Continues(s[|s| - 1])) && Terminators(s) % 2 == 0
    ensures Decoded(s).Success? <==> Route(s).Some?
    ensures Decoded(s).Success? ==> |Decoded(s).value| == Terminators(s) / 2 <= |s| / 2
    ensures Decoded(s).Failure? ==> Decoded(s).error == ReadPastEnd(|s|)
  {
    assert s[0..] == s;
    DecodeFromFraming(s, 0, 0, 0);
    ComponentsFrames(s);
  }
}
