/** The claim-check reference protocol of the envelope streamer: a reference to an
    envelope stored elsewhere, written as UTF-16LE text that starts with a fixed
    signature and carries three CRLF-separated fields. */
module ReferenceMessages {
  import opened Outcomes
  import opened Primitives
  import opened Utf16

  datatype EnvelopeReference = EnvelopeReference(envelopeId: Text, storageContainer: Text, storageReference: Text)

  const SignatureText: Text := Units("[cqrs-ref-r1]")
  const Crlf: Text := [CR, LF]

  /** The signature bytes every reference message starts with. */
  const ReferenceSignature: seq<uint8> := Encode(SignatureText)

  /** True exactly when `buffer` starts with `signature`. */
  function BytesStart(buffer: seq<uint8>, signature: seq<uint8>): (b: bool)
    ensures b <==> |signature| <= |buffer| && buffer[..|signature|] == signature
  {
    |buffer| >= |signature| && MatchesFrom(buffer, signature, 0)
  }

  /** The comparison loop of BytesStart, from index `i` on. */
  function MatchesFrom(buffer: seq<uint8>, signature: seq<uint8>, i: nat): (b: bool)
    requires i <= |signature| <= |buffer|
    ensures b <==> buffer[i..|signature|] == signature[i..]
    decreases |signature| - i
  {
    if i == |signature| then true
    else if buffer[i] != signature[i] then false
    else
      var b := MatchesFrom(buffer, signature, i + 1);
      assert buffer[i..|signature|] == [buffer[i]] + buffer[i + 1..|signature|];
      assert signature[i..] == [signature[i]] + signature[i + 1..];
      b
  }

  /** The text of a reference message, before encoding. */
  function ReferenceText(r: EnvelopeReference): Text {
    SignatureText + Crlf + r.envelopeId + Crlf + r.storageContainer + Crlf + r.storageReference
  }

  /** `SaveReferenceMessage`. */
  function SaveReferenceMessage(r: EnvelopeReference): (b: seq<uint8>)
    ensures BytesStart(b, ReferenceSignature)
    ensures Decode(b) == ReferenceText(r)
    ensures |b| == 2 * |ReferenceText(r)|
  {
    var text := ReferenceText(r);
    assert text == SignatureText + (Crlf + r.envelopeId + Crlf + r.storageContainer + Crlf + r.storageReference);
    EncodeAppend(SignatureText, Crlf + r.envelopeId + Crlf + r.storageContainer + Crlf + r.storageReference);
    DecodeEncode(text);
    Encode(text)
  }

  /** `String.Split` on CRLF: scans left to right, cutting at each CRLF; `current`
      holds the segment read so far. */
  function SplitFrom(t: Text, current: Text): (parts: seq<Text>)
    ensures |parts| >= 1
    ensures Join(parts) == current + t
    decreases |t|
  {
    if |t| == 0 then
      assert current + t == current;
      [current]
    else if |t| >= 2 && t[0] == CR && t[1] == LF then
      var rest := SplitFrom(t[2..], []);
      assert t == Crlf + t[2..];
      [current] + rest
    else
      var parts := SplitFrom(t[1..], current + [t[0]]);
      assert current + t == current + [t[0]] + t[1..];
      parts
  }

  /** The segments joined back with CRLF between them; the partner of SplitFrom. */
  function Join(parts: seq<Text>): Text
    decreases |parts|
  {
    if |parts| == 0 then []
    else if |parts| == 1 then parts[0]
    else parts[0] + Crlf + Join(parts[1..])
  }

  /** `StringSplitOptions.RemoveEmptyEntries`. */
  function RemoveEmpty(parts: seq<Text>): (r: seq<Text>)
    ensures forall i :: 0 <= i < |r| ==> |r[i]| > 0
    ensures (forall i :: 0 <= i < |parts| ==> |parts[i]| > 0) ==> r == parts
    decreases |parts|
  {
    if |parts| == 0 then []
    else if |parts[0]| == 0 then RemoveEmpty(parts[1..])
    else
      assert parts == [parts[0]] + parts[1..];
      [parts[0]] + RemoveEmpty(parts[1..])
  }

  /** RemoveEmpty keeps exactly the non-empty segments. */
  lemma {:induction false} RemoveEmptyKeepsNonEmpty(parts: seq<Text>)
    ensures forall t :: t in RemoveEmpty(parts) <==> t in parts && |t| > 0
    decreases |parts|
  {
    if |parts| > 0 {
      RemoveEmptyKeepsNonEmpty(parts[1..]);
      assert parts == [parts[0]] + parts[1..];
    }
  }

  /** RemoveEmpty works segment by segment: over a concatenation it is the concatenation
      of its results. With RemoveEmptySingle and `RemoveEmpty([]) == []` this determines
      it, order and multiplicity included. */
  lemma {:induction false} RemoveEmptyAppend(a: seq<Text>, b: seq<Text>)
    ensures RemoveEmpty(a + b) == RemoveEmpty(a) + RemoveEmpty(b)
    decreases |a|
  {
    if |a| == 0 {
      assert a + b == b;
    } else {
      assert (a + b)[0] == a[0];
      assert (a + b)[1..] == a[1..] + b;
      RemoveEmptyAppend(a[1..], b);
      if |a[0]| > 0 {
        assert RemoveEmpty(a + b) == [a[0]] + RemoveEmpty(a[1..] + b);
        assert RemoveEmpty(a) == [a[0]] + RemoveEmpty(a[1..]);
      }
    }
  }

  /** A single segment is kept exactly when it is non-empty. */
  lemma RemoveEmptySingle(x: Text)
    ensures RemoveEmpty([x]) == if |x| == 0 then [] else [x]
  {
    assert [x][1..] == [];
  }

  /** `String.Split` on CRLF, dropping empty entries. */
  function SplitLines(t: Text): seq<Text> {
    RemoveEmpty(SplitFrom(t, []))
  }

  /** `TryReadAsReference`: Ok(None) is the `false` return, Ok(Some(r)) the `true`
      return with its reference, Err the IndexOutOfRangeException of a text with
      fewer than four fields. */
  function TryReadAsReference(buffer: seq<uint8>): (r: Result<Option<EnvelopeReference>>)
    ensures r == Ok(None) <==> !BytesStart(buffer, ReferenceSignature)
    ensures r.Err? ==> r.error == MalformedReference
    ensures BytesStart(buffer, ReferenceSignature) ==> (r.Err? <==> |SplitLines(Decode(buffer))| < 4)
    ensures r.Ok? && r.value.Some? ==> var args := SplitLines(Decode(buffer));
      |args| >= 4 && r.value.value == EnvelopeReference(args[1], args[2], args[3])
  {
    if BytesStart(buffer, ReferenceSignature) then
      var args := SplitLines(Decode(buffer));
      if |args| < 4 then Err(MalformedReference)
      else Ok(Some(EnvelopeReference(args[1], args[2], args[3])))
    else Ok(None)
  }

  /** No CR in `t` is immediately followed by LF: `t` holds no separator. */
  predicate NoCrlf(t: Text) {
    forall i :: 0 <= i < |t| - 1 ==> !(t[i] == CR && t[i + 1] == LF)
  }

  /** The scan never leaves a separator inside a segment: every segment it produces,
      from an empty start, is free of CRLF. With `Join(SplitFrom(t, [])) == t` and
      SplitJoin, this pins SplitFrom down as the one CRLF-free segmentation of `t`. */
  lemma {:induction false} SplitFromSegmentsNoCrlf(t: Text, current: Text)
    requires NoCrlf(current)
    requires |current| > 0 && current[|current| - 1] == CR && |t| > 0 ==> t[0] != LF
    ensures forall k :: 0 <= k < |SplitFrom(t, current)| ==> NoCrlf(SplitFrom(t, current)[k])
    decreases |t|
  {
    if |t| == 0 {
    } else if |t| >= 2 && t[0] == CR && t[1] == LF {
      SplitFromSegmentsNoCrlf(t[2..], []);
    } else {
      var next := current + [t[0]];
      SplitFromSegmentsNoCrlf(t[1..], next);
    }
  }

  /** The segments of SplitLines are non-empty and free of CRLF. */
  lemma SplitLinesSegments(t: Text)
    ensures forall k :: 0 <= k < |SplitLines(t)| ==> |SplitLines(t)[k]| > 0 && NoCrlf(SplitLines(t)[k])
  {
    SplitFromSegmentsNoCrlf(t, []);
    RemoveEmptyKeepsNonEmpty(SplitFrom(t, []));
    forall k | 0 <= k < |SplitLines(t)|
      ensures NoCrlf(SplitLines(t)[k])
    {
      assert SplitLines(t)[k] in SplitFrom(t, []);
    }
  }

  /** Text holding no separator, whose last CR (if it ends in one) is not followed by LF,
      is added whole to the current segment. */
  lemma {:induction false} SplitFromNoCrlf(x: Text, rest: Text, current: Text)
    requires NoCrlf(x)
    requires |x| > 0 && x[|x| - 1] == CR && |rest| > 0 ==> rest[0] != LF
    ensures SplitFrom(x + rest, current) == SplitFrom(rest, current + x)
    decreases |x|
  {
    if |x| == 0 {
      assert x + rest == rest;
      assert current + x == current;
    } else {
      assert (x + rest)[0] == x[0];
      assert (x + rest)[1..] == x[1..] + rest;
      if |x| >= 2 {
        assert (x + rest)[1] == x[1];
      }
      SplitFromNoCrlf(x[1..], rest, current + [x[0]]);
      assert current + [x[0]] + x[1..] == current + x;
    }
  }

  /** A CRLF-free field followed by CRLF closes the current segment. */
  lemma SplitFieldThenCrlf(x: Text, rest: Text)
    requires NoCrlf(x)
    ensures SplitFrom(x + Crlf + rest, []) == [x] + SplitFrom(rest, [])
  {
    assert x + Crlf + rest == x + (Crlf + rest);
    SplitFromNoCrlf(x, Crlf + rest, []);
    assert [] + x == x;
    assert (Crlf + rest)[2..] == rest;
  }

  lemma SplitLastField(x: Text)
    requires NoCrlf(x)
    ensures SplitFrom(x, []) == [x]
  {
    assert x + [] == x;
    SplitFromNoCrlf(x, [], []);
    assert [] + x == x;
  }

  /** Splitting CRLF-free segments joined with CRLF gives back the segments: any
      segmentation of a text into CRLF-free pieces is the one SplitFrom finds. */
  lemma {:induction false} SplitJoin(fields: seq<Text>)
    requires |fields| >= 1
    requires forall i :: 0 <= i < |fields| ==> NoCrlf(fields[i])
    ensures SplitFrom(Join(fields), []) == fields
    decreases |fields|
  {
    if |fields| == 1 {
      SplitLastField(fields[0]);
    } else {
      SplitFieldThenCrlf(fields[0], Join(fields[1..]));
      SplitJoin(fields[1..]);
      assert fields == [fields[0]] + fields[1..];
    }
  }

  lemma ReferenceTextIsJoin(r: EnvelopeReference)
    ensures ReferenceText(r) == Join([SignatureText, r.envelopeId, r.storageContainer, r.storageReference])
  {
    var fields := [SignatureText, r.envelopeId, r.storageContainer, r.storageReference];
    assert fields[1..][1..][1..] == [r.storageReference];
    assert Join(fields[1..][1..]) == r.storageContainer + Crlf + r.storageReference;
    assert Join(fields[1..]) == r.envelopeId + Crlf + (r.storageContainer + Crlf + r.storageReference);
  }

  /** A field the reader recovers intact: non-empty (empty segments are dropped)
      and free of CRLF (a CRLF inside it would split it). */
  predicate ReadableField(t: Text) {
    |t| > 0 && NoCrlf(t)
  }

  /** Splitting text joined from readable fields with CRLF, dropping empty segments,
      gives back exactly those fields, in order. */
  lemma SplitLinesJoin(fields: seq<Text>)
    requires |fields| >= 1
    requires forall i :: 0 <= i < |fields| ==> ReadableField(fields[i])
    ensures SplitLines(Join(fields)) == fields
  {
    SplitJoin(fields);
  }

  /** The fields TryReadAsReference sees in a saved reference. */
  lemma SavedReferenceLines(r: EnvelopeReference)
    requires NoCrlf(r.envelopeId) && NoCrlf(r.storageContainer) && NoCrlf(r.storageReference)
    ensures var b := SaveReferenceMessage(r);
      BytesStart(b, ReferenceSignature) &&
      SplitFrom(Decode(b), []) == [SignatureText, r.envelopeId, r.storageContainer, r.storageReference]
  {
    assert NoCrlf(SignatureText);
    ReferenceTextIsJoin(r);
    SplitJoin([SignatureText, r.envelopeId, r.storageContainer, r.storageReference]);
  }

  /** With no empty field, no segment is dropped. */
  lemma ReadableReferenceLines(r: EnvelopeReference)
    requires ReadableField(r.envelopeId) && ReadableField(r.storageContainer) && ReadableField(r.storageReference)
    ensures var b := SaveReferenceMessage(r);
      BytesStart(b, ReferenceSignature) &&
      SplitLines(Decode(b)) == [SignatureText, r.envelopeId, r.storageContainer, r.storageReference]
  {
    SavedReferenceLines(r);
    assert |SignatureText| > 0;
  }

  /** Reading back a saved reference gives the same reference. */
  lemma ReferenceRoundTrip(r: EnvelopeReference)
    requires ReadableField(r.envelopeId) && ReadableField(r.storageContainer) && ReadableField(r.storageReference)
    ensures TryReadAsReference(SaveReferenceMessage(r)) == Ok(Some(r))
  {
    ReadableReferenceLines(r);
  }

  /** Of four segments, an empty second one is the only one dropped. */
  lemma DropsEmptySecond(a: Text, c: Text, d: Text)
    requires |a| > 0 && |c| > 0 && |d| > 0
    ensures RemoveEmpty([a, [], c, d]) == [a, c, d]
  {
    var parts := [a, [], c, d];
    assert parts[1..] == [[], c, d];
    assert parts[1..][1..] == [c, d];
    assert RemoveEmpty(parts[1..]) == [c, d];
  }

  /** With an empty envelope id, the id's segment is dropped and three remain. */
  lemma EmptyFieldLines(r: EnvelopeReference)
    requires r.envelopeId == []
    requires ReadableField(r.storageContainer) && ReadableField(r.storageReference)
    ensures var b := SaveReferenceMessage(r);
      BytesStart(b, ReferenceSignature) &&
      SplitLines(Decode(b)) == [SignatureText, r.storageContainer, r.storageReference]
  {
    SavedReferenceLines(r);
    assert |SignatureText| > 0;
    DropsEmptySecond(SignatureText, r.storageContainer, r.storageReference);
  }

  /** A reference with an empty field loses that segment and fails to read. */
  lemma EmptyFieldIsMalformed(r: EnvelopeReference)
    requires r.envelopeId == []
    requires ReadableField(r.storageContainer) && ReadableField(r.storageReference)
    ensures TryReadAsReference(SaveReferenceMessage(r)) == Err(MalformedReference)
  {
    EmptyFieldLines(r);
  }

  /** Buffers shorter than the signature, the empty one included, are not references. */
  lemma ShortBufferIsNotReference(buffer: seq<uint8>)
    requires |buffer| < |ReferenceSignature|
    ensures TryReadAsReference(buffer) == Ok(None)
  {
  }
}
