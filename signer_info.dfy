/** SignerInfo, the per-signer record of section 5.3 of RFC 5652:

      SignerInfo ::= SEQUENCE {
        version CMSVersion,
        sid SignerIdentifier,
        digestAlgorithm DigestAlgorithmIdentifier,
        signedAttrs [0] IMPLICIT SignedAttributes OPTIONAL,
        signatureAlgorithm SignatureAlgorithmIdentifier,
        signature SignatureValue,
        unsignedAttrs [1] IMPLICIT UnsignedAttributes OPTIONAL }

    The two attribute sets are SET SIZE (1..MAX) OF Attribute. Under IMPLICIT
    tagging the context tag takes the place of the SET tag, and an absent set
    is left out of the encoding altogether. */
module SignerInfoCodec {
  import opened Der
  import opened Leaves
  import opened SignerIdentifiers

  datatype SignerInfo = SignerInfo(
    version: CmsVersion,
    sid: SignerIdentifier,
    digestAlgorithm: AlgorithmIdentifier,
    signedAttributes: Option<seq<Attribute>>,
    signatureAlgorithm: AlgorithmIdentifier,
    signature: seq<byte>,
    unsignedAttributes: Option<seq<Attribute>>)

  /** The SIZE (1..MAX) constraint: a present attribute set is not empty. */
  predicate WellFormed(si: SignerInfo)
  {
    && (si.signedAttributes.Some? ==> |si.signedAttributes.value| > 0)
    && (si.unsignedAttributes.Some? ==> |si.unsignedAttributes.value| > 0)
  }

  // Attribute sets

  /** The elements of an attribute set, one after the other, in stored order. */
  function EncodeAttributes(attrs: seq<Attribute>): Result<seq<byte>>
    decreases |attrs|
  {
    if attrs == [] then Ok([])
    else
      var head :- Frame(SequenceTag, attrs[0].content);
      var tail :- EncodeAttributes(attrs[1..]);
      Ok(head + tail)
  }

  /** Reads Attribute elements until the contents are used up. */
  function DecodeAttributes(s: seq<byte>): Result<seq<Attribute>>
    decreases |s|
  {
    if s == [] then Ok([])
    else
      var head :- ReadExpected(SequenceTag, s);
      var tail :- DecodeAttributes(head.rest);
      Ok([Attribute(head.value)] + tail)
  }

  /** SignedAttributes / UnsignedAttributes in their own, universal SET form. */
  function EncodeAttributeSet(attrs: seq<Attribute>): Result<seq<byte>>
  {
    var elements :- EncodeAttributes(attrs);
    Frame(SetTag, elements)
  }

  /** An OPTIONAL IMPLICIT attribute set: nothing when absent, otherwise the
      set's elements under the context tag. */
  function EncodeOptionalAttributes(tag: byte, attrs: Option<seq<Attribute>>): (r: Result<seq<byte>>)
    ensures attrs.None? ==> r == Ok([])
    ensures attrs.Some? && r.Ok? ==> |r.value| > 0 && r.value[0] == tag
  {
    match attrs
    case None => Ok([])
    case Some(a) =>
      var elements :- EncodeAttributes(a);
      Frame(tag, elements)
  }

  /** Takes the attribute set only when the next identifier is tag; otherwise
      reports it absent and leaves the input where it was. */
  function DecodeOptionalAttributes(tag: byte, s: seq<byte>): (r: Result<Parsed<Option<seq<Attribute>>>>)
    ensures s == [] || s[0] != tag ==> r == Ok(Parsed(None, s))
    ensures r.Ok? && r.value.value.Some? ==> s != [] && s[0] == tag && |r.value.rest| < |s|
    ensures r.Ok? ==> |r.value.rest| <= |s|
  {
    if s != [] && s[0] == tag then
      var element :- ReadExpected(tag, s);
      var attrs :- DecodeAttributes(element.value);
      Ok(Parsed(Some(attrs), element.rest))
    else Ok(Parsed(None, s))
  }

  lemma {:induction false} AttributesRoundTrip(attrs: seq<Attribute>)
    requires EncodeAttributes(attrs).Ok?
    ensures DecodeAttributes(EncodeAttributes(attrs).value) == Ok(attrs)
  {
    if attrs != [] {
      var head := Frame(SequenceTag, attrs[0].content).value;
      var tail := EncodeAttributes(attrs[1..]).value;
      FrameRoundTrip(SequenceTag, attrs[0].content, tail);
      AttributesRoundTrip(attrs[1..]);
      assert [attrs[0]] + attrs[1..] == attrs;
    }
  }

  lemma {:induction false} AttributesCanonical(s: seq<byte>)
    requires DecodeAttributes(s).Ok?
    ensures EncodeAttributes(DecodeAttributes(s).value) == Ok(s)
    decreases |s|
  {
    if s != [] {
      var head := ReadExpected(SequenceTag, s).value;
      ReadExpectedCanonical(SequenceTag, s);
      AttributesCanonical(head.rest);
      var attrs := DecodeAttributes(s).value;
      assert attrs[0] == Attribute(head.value);
      assert attrs[1..] == DecodeAttributes(head.rest).value;
    }
  }

  /** IMPLICIT tagging: the present optional field is the universal SET OF
      encoding with its first octet, the SET tag, replaced by the context tag. */
  lemma ImplicitTagReplacesSetTag(tag: byte, attrs: seq<Attribute>)
    ensures EncodeOptionalAttributes(tag, Some(attrs)).Ok? == EncodeAttributeSet(attrs).Ok?
    ensures EncodeAttributeSet(attrs).Ok? ==>
              EncodeOptionalAttributes(tag, Some(attrs)).value == [tag] + EncodeAttributeSet(attrs).value[1..]
  {
    if EncodeAttributeSet(attrs).Ok? {
      var elements := EncodeAttributes(attrs).value;
      var universal := EncodeAttributeSet(attrs).value;
      assert universal == [SetTag] + (EncodeLength(|elements|) + elements);
      assert universal[1..] == EncodeLength(|elements|) + elements;
    }
  }

  /** Round trip of an optional set; an absent one needs the next octet not
      to be mistaken for its tag. */
  lemma OptionalAttributesRoundTrip(tag: byte, attrs: Option<seq<Attribute>>, rest: seq<byte>)
    requires EncodeOptionalAttributes(tag, attrs).Ok?
    requires attrs.None? ==> rest == [] || rest[0] != tag
    ensures DecodeOptionalAttributes(tag, EncodeOptionalAttributes(tag, attrs).value + rest)
            == Ok(Parsed(attrs, rest))
  {
    if attrs.Some? {
      var elements := EncodeAttributes(attrs.value).value;
      FrameRoundTrip(tag, elements, rest);
      AttributesRoundTrip(attrs.value);
    } else {
      assert EncodeOptionalAttributes(tag, attrs).value + rest == rest;
    }
  }

  lemma OptionalAttributesCanonical(tag: byte, s: seq<byte>)
    requires DecodeOptionalAttributes(tag, s).Ok?
    ensures EncodeOptionalAttributes(tag, DecodeOptionalAttributes(tag, s).value.value).Ok?
    ensures s == EncodeOptionalAttributes(tag, DecodeOptionalAttributes(tag, s).value.value).value
                 + DecodeOptionalAttributes(tag, s).value.rest
  {
    if s != [] && s[0] == tag {
      var element := ReadExpected(tag, s).value;
      ReadExpectedCanonical(tag, s);
      AttributesCanonical(element.value);
    }
  }

  // The record

  /** The SEQUENCE contents: the seven fields in declaration order. */
  function EncodeSignerInfoFields(si: SignerInfo): (r: Result<seq<byte>>)
    ensures r.Ok? ==> |r.value| > 0 && r.value[0] == IntegerTag
  {
    var version :- Frame(IntegerTag, si.version.content);
    var sid :- EncodeSignerIdentifier(si.sid);
    var digest :- Frame(SequenceTag, si.digestAlgorithm.content);
    var signed :- EncodeOptionalAttributes(Context0, si.signedAttributes);
    var algorithm :- Frame(SequenceTag, si.signatureAlgorithm.content);
    var signature :- Frame(OctetStringTag, si.signature);
    var unsigned :- EncodeOptionalAttributes(Context1, si.unsignedAttributes);
    Ok(version + sid + digest + signed + algorithm + signature + unsigned)
  }

  function EncodeSignerInfo(si: SignerInfo): (r: Result<seq<byte>>)
    ensures r.Ok? ==> |r.value| > 0 && r.value[0] == SequenceTag
  {
    var fields :- EncodeSignerInfoFields(si);
    Frame(SequenceTag, fields)
  }

  /** Reads the fields strictly in declaration order from the SEQUENCE contents. */
  function DecodeSignerInfoFields(s: seq<byte>): (r: Result<SignerInfo>)
    ensures s == [] ==> r == Err(MissingField)
    ensures s != [] && s[0] != IntegerTag ==> r == Err(TagMismatch(s[0]))
  {
    var version :- ReadExpected(IntegerTag, s);
    var sid :- DecodeSignerIdentifier(version.rest);
    var digest :- ReadExpected(SequenceTag, sid.rest);
    var signed :- DecodeOptionalAttributes(Context0, digest.rest);
    var algorithm :- ReadExpected(SequenceTag, signed.rest);
    var signature :- ReadExpected(OctetStringTag, algorithm.rest);
    var unsigned :- DecodeOptionalAttributes(Context1, signature.rest);
    if unsigned.rest != [] then Err(TrailingData)
    else Ok(SignerInfo(CmsVersion(version.value), sid.value, AlgorithmIdentifier(digest.value),
                       signed.value, AlgorithmIdentifier(algorithm.value), signature.value,
                       unsigned.value))
  }

  /** One SignerInfo element and the input after it. */
  function DecodeSignerInfo(s: seq<byte>): (r: Result<Parsed<SignerInfo>>)
    ensures s == [] ==> r == Err(MissingField)
    ensures s != [] && s[0] != SequenceTag ==> r == Err(TagMismatch(s[0]))
    ensures r.Ok? ==> |r.value.rest| < |s|
  {
    var outer :- ReadExpected(SequenceTag, s);
    var si :- DecodeSignerInfoFields(outer.value);
    Ok(Parsed(si, outer.rest))
  }

  /** A complete DER document holding exactly one SignerInfo. */
  function SignerInfoFromDer(s: seq<byte>): (r: Result<SignerInfo>)
    ensures s == [] ==> r == Err(MissingField)
    ensures s != [] && s[0] != SequenceTag ==> r == Err(TagMismatch(s[0]))
  {
    var p :- DecodeSignerInfo(s);
    if p.rest != [] then Err(TrailingData) else Ok(p.value)
  }

  /** DecodeSignerInfoFields succeeds when each of its seven reads does. */
  lemma DecodeFieldsBySteps(si: SignerInfo, s: seq<byte>, r1: seq<byte>, r2: seq<byte>, r3: seq<byte>,
                            r4: seq<byte>, r5: seq<byte>, r6: seq<byte>)
    requires ReadExpected(IntegerTag, s) == Ok(Parsed(si.version.content, r1))
    requires DecodeSignerIdentifier(r1) == Ok(Parsed(si.sid, r2))
    requires ReadExpected(SequenceTag, r2) == Ok(Parsed(si.digestAlgorithm.content, r3))
    requires DecodeOptionalAttributes(Context0, r3) == Ok(Parsed(si.signedAttributes, r4))
    requires ReadExpected(SequenceTag, r4) == Ok(Parsed(si.signatureAlgorithm.content, r5))
    requires ReadExpected(OctetStringTag, r5) == Ok(Parsed(si.signature, r6))
    requires DecodeOptionalAttributes(Context1, r6) == Ok(Parsed(si.unsignedAttributes, []))
    ensures DecodeSignerInfoFields(s) == Ok(si)
  {
  }

  /** A successful encoding is the concatenation of the seven field encodings. */
  lemma EncodeFieldsParts(si: SignerInfo)
    requires EncodeSignerInfoFields(si).Ok?
    ensures Frame(IntegerTag, si.version.content).Ok?
    ensures EncodeSignerIdentifier(si.sid).Ok?
    ensures Frame(SequenceTag, si.digestAlgorithm.content).Ok?
    ensures EncodeOptionalAttributes(Context0, si.signedAttributes).Ok?
    ensures Frame(SequenceTag, si.signatureAlgorithm.content).Ok?
    ensures Frame(OctetStringTag, si.signature).Ok?
    ensures EncodeOptionalAttributes(Context1, si.unsignedAttributes).Ok?
    ensures EncodeSignerInfoFields(si).value ==
              Frame(IntegerTag, si.version.content).value
              + EncodeSignerIdentifier(si.sid).value
              + Frame(SequenceTag, si.digestAlgorithm.content).value
              + EncodeOptionalAttributes(Context0, si.signedAttributes).value
              + Frame(SequenceTag, si.signatureAlgorithm.content).value
              + Frame(OctetStringTag, si.signature).value
              + EncodeOptionalAttributes(Context1, si.unsignedAttributes).value
  {
  }

  lemma Reassociate(a: seq<byte>, b: seq<byte>, c: seq<byte>, d: seq<byte>, e: seq<byte>,
                    f: seq<byte>, g: seq<byte>)
    ensures a + b + c + d + e + f + g == a + (b + (c + (d + (e + (f + g)))))
  {
  }

  lemma FieldsRoundTripFromParts(si: SignerInfo, version: seq<byte>, sid: seq<byte>, digest: seq<byte>,
                                 signed: seq<byte>, algorithm: seq<byte>, signature: seq<byte>,
                                 unsigned: seq<byte>)
    requires Frame(IntegerTag, si.version.content) == Ok(version)
    requires EncodeSignerIdentifier(si.sid) == Ok(sid)
    requires Frame(SequenceTag, si.digestAlgorithm.content) == Ok(digest)
    requires EncodeOptionalAttributes(Context0, si.signedAttributes) == Ok(signed)
    requires Frame(SequenceTag, si.signatureAlgorithm.content) == Ok(algorithm)
    requires Frame(OctetStringTag, si.signature) == Ok(signature)
    requires EncodeOptionalAttributes(Context1, si.unsignedAttributes) == Ok(unsigned)
    ensures DecodeSignerInfoFields(version + sid + digest + signed + algorithm + signature + unsigned) == Ok(si)
  {
    var r5 := signature + unsigned;
    var r4 := algorithm + r5;
    var r3 := signed + r4;
    var r2 := digest + r3;
    var r1 := sid + r2;
    var content := version + sid + digest + signed + algorithm + signature + unsigned;
    Reassociate(version, sid, digest, signed, algorithm, signature, unsigned);
    assert ReadExpected(IntegerTag, content) == Ok(Parsed(si.version.content, r1)) by {
      FrameRoundTrip(IntegerTag, si.version.content, r1);
    }
    assert DecodeSignerIdentifier(r1) == Ok(Parsed(si.sid, r2)) by {
      SignerIdentifierRoundTrip(si.sid, r2);
    }
    assert ReadExpected(SequenceTag, r2) == Ok(Parsed(si.digestAlgorithm.content, r3)) by {
      FrameRoundTrip(SequenceTag, si.digestAlgorithm.content, r3);
    }
    assert DecodeOptionalAttributes(Context0, r3) == Ok(Parsed(si.signedAttributes, r4)) by {
      OptionalAttributesRoundTrip(Context0, si.signedAttributes, r4);
    }
    assert ReadExpected(SequenceTag, r4) == Ok(Parsed(si.signatureAlgorithm.content, r5)) by {
      FrameRoundTrip(SequenceTag, si.signatureAlgorithm.content, r5);
    }
    assert ReadExpected(OctetStringTag, r5) == Ok(Parsed(si.signature, unsigned)) by {
      FrameRoundTrip(OctetStringTag, si.signature, unsigned);
    }
    assert DecodeOptionalAttributes(Context1, unsigned) == Ok(Parsed(si.unsignedAttributes, [])) by {
      OptionalAttributesRoundTrip(Context1, si.unsignedAttributes, []);
      assert unsigned + [] == unsigned;
    }
    DecodeFieldsBySteps(si, content, r1, r2, r3, r4, r5, unsigned);
  }

  lemma FieldsRoundTrip(si: SignerInfo)
    requires EncodeSignerInfoFields(si).Ok?
    ensures DecodeSignerInfoFields(EncodeSignerInfoFields(si).value) == Ok(si)
  {
    EncodeFieldsParts(si);
    FieldsRoundTripFromParts(si, Frame(IntegerTag, si.version.content).value,
                             EncodeSignerIdentifier(si.sid).value,
                             Frame(SequenceTag, si.digestAlgorithm.content).value,
                             EncodeOptionalAttributes(Context0, si.signedAttributes).value,
                             Frame(SequenceTag, si.signatureAlgorithm.content).value,
                             Frame(OctetStringTag, si.signature).value,
                             EncodeOptionalAttributes(Context1, si.unsignedAttributes).value);
  }

  /** Decoding the encoding of any SignerInfo gives it back, for both
      signer identifier alternatives and every presence combination of the
      two attribute sets, and leaves what follows untouched. */
  lemma SignerInfoRoundTrip(si: SignerInfo, rest: seq<byte>)
    requires EncodeSignerInfo(si).Ok?
    ensures DecodeSignerInfo(EncodeSignerInfo(si).value + rest) == Ok(Parsed(si, rest))
  {
    var fields := EncodeSignerInfoFields(si).value;
    FieldsRoundTrip(si);
    FrameRoundTrip(SequenceTag, fields, rest);
  }

  lemma SignerInfoFromDerRoundTrip(si: SignerInfo)
    requires EncodeSignerInfo(si).Ok?
    ensures SignerInfoFromDer(EncodeSignerInfo(si).value) == Ok(si)
  {
    SignerInfoRoundTrip(si, []);
    assert EncodeSignerInfo(si).value + [] == EncodeSignerInfo(si).value;
  }

  /** A document holding a complete SignerInfo followed by anything more is
      refused with TrailingData. */
  lemma TrailingDataRejected(si: SignerInfo, extra: seq<byte>)
    requires EncodeSignerInfo(si).Ok? && extra != []
    ensures SignerInfoFromDer(EncodeSignerInfo(si).value + extra) == Err(TrailingData)
  {
    SignerInfoRoundTrip(si, extra);
  }

  /** A successful decoding is made of seven successful reads. */
  lemma DecodeFieldsParts(s: seq<byte>)
    requires DecodeSignerInfoFields(s).Ok?
    ensures var si := DecodeSignerInfoFields(s).value;
            var r1 := ReadExpected(IntegerTag, s);
            r1.Ok? && r1.value.value == si.version.content &&
            var r2 := DecodeSignerIdentifier(r1.value.rest);
            r2.Ok? && r2.value.value == si.sid &&
            var r3 := ReadExpected(SequenceTag, r2.value.rest);
            r3.Ok? && r3.value.value == si.digestAlgorithm.content &&
            var r4 := DecodeOptionalAttributes(Context0, r3.value.rest);
            r4.Ok? && r4.value.value == si.signedAttributes &&
            var r5 := ReadExpected(SequenceTag, r4.value.rest);
            r5.Ok? && r5.value.value == si.signatureAlgorithm.content &&
            var r6 := ReadExpected(OctetStringTag, r5.value.rest);
            r6.Ok? && r6.value.value == si.signature &&
            var r7 := DecodeOptionalAttributes(Context1, r6.value.rest);
            r7.Ok? && r7.value == Parsed(si.unsignedAttributes, [])
  {
    var v := ReadExpected(IntegerTag, s);
    assert v.Ok?;
    var i := DecodeSignerIdentifier(v.value.rest);
    assert i.Ok?;
    var d := ReadExpected(SequenceTag, i.value.rest);
    assert d.Ok?;
    var sa := DecodeOptionalAttributes(Context0, d.value.rest);
    assert sa.Ok?;
    var a := ReadExpected(SequenceTag, sa.value.rest);
    assert a.Ok?;
    var sg := ReadExpected(OctetStringTag, a.value.rest);
    assert sg.Ok?;
    var u := DecodeOptionalAttributes(Context1, sg.value.rest);
    assert u.Ok? && u.value.rest == [];
    assert DecodeSignerInfoFields(s).value
           == SignerInfo(CmsVersion(v.value.value), i.value.value, AlgorithmIdentifier(d.value.value),
                         sa.value.value, AlgorithmIdentifier(a.value.value), sg.value.value,
                         u.value.value);
  }

  /** The seven field encodings, concatenated, are the fields' encoding. */
  lemma EncodeFieldsBySteps(si: SignerInfo, version: seq<byte>, sid: seq<byte>, digest: seq<byte>,
                            signed: seq<byte>, algorithm: seq<byte>, signature: seq<byte>,
                            unsigned: seq<byte>)
    requires Frame(IntegerTag, si.version.content) == Ok(version)
    requires EncodeSignerIdentifier(si.sid) == Ok(sid)
    requires Frame(SequenceTag, si.digestAlgorithm.content) == Ok(digest)
    requires EncodeOptionalAttributes(Context0, si.signedAttributes) == Ok(signed)
    requires Frame(SequenceTag, si.signatureAlgorithm.content) == Ok(algorithm)
    requires Frame(OctetStringTag, si.signature) == Ok(signature)
    requires EncodeOptionalAttributes(Context1, si.unsignedAttributes) == Ok(unsigned)
    ensures EncodeSignerInfoFields(si) == Ok(version + sid + digest + signed + algorithm + signature + unsigned)
  {
  }

  lemma FieldsCanonicalFromSteps(si: SignerInfo, s: seq<byte>, r1: seq<byte>, r2: seq<byte>, r3: seq<byte>,
                                 r4: seq<byte>, r5: seq<byte>, r6: seq<byte>)
    requires ReadExpected(IntegerTag, s) == Ok(Parsed(si.version.content, r1))
    requires DecodeSignerIdentifier(r1) == Ok(Parsed(si.sid, r2))
    requires ReadExpected(SequenceTag, r2) == Ok(Parsed(si.digestAlgorithm.content, r3))
    requires DecodeOptionalAttributes(Context0, r3) == Ok(Parsed(si.signedAttributes, r4))
    requires ReadExpected(SequenceTag, r4) == Ok(Parsed(si.signatureAlgorithm.content, r5))
    requires ReadExpected(OctetStringTag, r5) == Ok(Parsed(si.signature, r6))
    requires DecodeOptionalAttributes(Context1, r6) == Ok(Parsed(si.unsignedAttributes, []))
    ensures EncodeSignerInfoFields(si) == Ok(s)
  {
    ReadExpectedCanonical(IntegerTag, s);
    SignerIdentifierCanonical(r1);
    ReadExpectedCanonical(SequenceTag, r2);
    OptionalAttributesCanonical(Context0, r3);
    ReadExpectedCanonical(SequenceTag, r4);
    ReadExpectedCanonical(OctetStringTag, r5);
    OptionalAttributesCanonical(Context1, r6);
    var version := Frame(IntegerTag, si.version.content).value;
    var sid := EncodeSignerIdentifier(si.sid).value;
    var digest := Frame(SequenceTag, si.digestAlgorithm.content).value;
    var signed := EncodeOptionalAttributes(Context0, si.signedAttributes).value;
    var algorithm := Frame(SequenceTag, si.signatureAlgorithm.content).value;
    var signature := Frame(OctetStringTag, si.signature).value;
    var unsigned := EncodeOptionalAttributes(Context1, si.unsignedAttributes).value;
    assert r6 == unsigned by {
      assert r6 == unsigned + [];
    }
    Reassociate(version, sid, digest, signed, algorithm, signature, unsigned);
    EncodeFieldsBySteps(si, version, sid, digest, signed, algorithm, signature, unsigned);
  }

  lemma FieldsCanonical(s: seq<byte>)
    requires DecodeSignerInfoFields(s).Ok?
    ensures EncodeSignerInfoFields(DecodeSignerInfoFields(s).value) == Ok(s)
  {
    DecodeFieldsParts(s);
    var si := DecodeSignerInfoFields(s).value;
    var r1 := ReadExpected(IntegerTag, s).value.rest;
    var r2 := DecodeSignerIdentifier(r1).value.rest;
    var r3 := ReadExpected(SequenceTag, r2).value.rest;
    var r4 := DecodeOptionalAttributes(Context0, r3).value.rest;
    var r5 := ReadExpected(SequenceTag, r4).value.rest;
    var r6 := ReadExpected(OctetStringTag, r5).value.rest;
    FieldsCanonicalFromSteps(si, s, r1, r2, r3, r4, r5, r6);
  }

  /** DER is a canonical encoding: the decoder accepts only the encoding of
      the value it returns. */
  lemma SignerInfoCanonical(s: seq<byte>)
    requires DecodeSignerInfo(s).Ok?
    ensures EncodeSignerInfo(DecodeSignerInfo(s).value.value).Ok?
    ensures s == EncodeSignerInfo(DecodeSignerInfo(s).value.value).value + DecodeSignerInfo(s).value.rest
  {
    var outer := ReadExpected(SequenceTag, s).value;
    ReadExpectedCanonical(SequenceTag, s);
    FieldsCanonical(outer.value);
    assert DecodeSignerInfo(s).value == Parsed(DecodeSignerInfoFields(outer.value).value, outer.rest);
  }

  lemma SignerInfoFromDerCanonical(s: seq<byte>)
    requires SignerInfoFromDer(s).Ok?
    ensures EncodeSignerInfo(SignerInfoFromDer(s).value) == Ok(s)
  {
    var p := DecodeSignerInfo(s).value;
    assert p.rest == [] && SignerInfoFromDer(s) == Ok(p.value);
    SignerInfoCanonical(s);
    var e := EncodeSignerInfo(p.value);
    assert e.Ok? && s == e.value + [];
    assert e.value + [] == e.value;
  }

  // Field order

  /** The identifiers of the SEQUENCE components, in the order RFC 5652 declares them. */
  function FieldTags(si: SignerInfo): seq<byte>
  {
    [IntegerTag, SignerIdentifierTag(si.sid), SequenceTag]
    + (if si.signedAttributes.Some? then [Context0] else [])
    + [SequenceTag, OctetStringTag]
    + (if si.unsignedAttributes.Some? then [Context1] else [])
  }

  lemma TagsOfOptional(tag: byte, attrs: Option<seq<Attribute>>, b: seq<byte>, rest: seq<byte>, ts: seq<byte>)
    requires EncodeOptionalAttributes(tag, attrs) == Ok(b) && Tags(rest) == Ok(ts)
    ensures Tags(b + rest) == Ok((if attrs.Some? then [tag] else []) + ts)
  {
    if attrs.Some? {
      var elements := EncodeAttributes(attrs.value).value;
      assert Frame(tag, elements) == Ok(b);
      TagsOfFrame(tag, elements, b, rest, ts);
    } else {
      assert b == [];
      assert b + rest == rest;
      assert [] + ts == ts;
    }
  }

  lemma FlattenTags(sidTag: byte, signed: seq<byte>, unsigned: seq<byte>)
    ensures [IntegerTag] + ([sidTag] + ([SequenceTag] + (signed + ([SequenceTag] + ([OctetStringTag] + unsigned)))))
            == [IntegerTag, sidTag, SequenceTag] + signed + [SequenceTag, OctetStringTag] + unsigned
  {
  }

  lemma FieldOrderFromParts(si: SignerInfo, version: seq<byte>, sid: seq<byte>, digest: seq<byte>,
                            signed: seq<byte>, algorithm: seq<byte>, signature: seq<byte>,
                            unsigned: seq<byte>)
    requires Frame(IntegerTag, si.version.content) == Ok(version)
    requires EncodeSignerIdentifier(si.sid) == Ok(sid)
    requires Frame(SequenceTag, si.digestAlgorithm.content) == Ok(digest)
    requires EncodeOptionalAttributes(Context0, si.signedAttributes) == Ok(signed)
    requires Frame(SequenceTag, si.signatureAlgorithm.content) == Ok(algorithm)
    requires Frame(OctetStringTag, si.signature) == Ok(signature)
    requires EncodeOptionalAttributes(Context1, si.unsignedAttributes) == Ok(unsigned)
    ensures Tags(version + sid + digest + signed + algorithm + signature + unsigned) == Ok(FieldTags(si))
  {
    var r5 := signature + unsigned;
    var r4 := algorithm + r5;
    var r3 := signed + r4;
    var r2 := digest + r3;
    var r1 := sid + r2;
    Reassociate(version, sid, digest, signed, algorithm, signature, unsigned);
    var signedTag := if si.signedAttributes.Some? then [Context0] else [];
    var ts6 := if si.unsignedAttributes.Some? then [Context1] else [];
    var ts5 := [OctetStringTag] + ts6;
    var ts4 := [SequenceTag] + ts5;
    var ts3 := signedTag + ts4;
    var ts2 := [SequenceTag] + ts3;
    var ts1 := [SignerIdentifierTag(si.sid)] + ts2;
    var ts0 := [IntegerTag] + ts1;
    assert Tags(unsigned) == Ok(ts6) by {
      assert Tags([]) == Ok([]);
      TagsOfOptional(Context1, si.unsignedAttributes, unsigned, [], []);
      assert unsigned + [] == unsigned;
      assert ts6 + [] == ts6;
    }
    TagsOfFrame(OctetStringTag, si.signature, signature, unsigned, ts6);
    TagsOfFrame(SequenceTag, si.signatureAlgorithm.content, algorithm, r5, ts5);
    TagsOfOptional(Context0, si.signedAttributes, signed, r4, ts4);
    TagsOfFrame(SequenceTag, si.digestAlgorithm.content, digest, r3, ts3);
    assert Tags(r1) == Ok(ts1) by {
      SignerIdentifierIsOneElement(si.sid, r2);
      TagsOfElement(sid, SignerIdentifierTag(si.sid), r2, ts2);
    }
    TagsOfFrame(IntegerTag, si.version.content, version, r1, ts1);
    FlattenTags(SignerIdentifierTag(si.sid), signedTag, ts6);
  }

  /** The encoding is one SEQUENCE whose components are, in this order:
      version, sid, digestAlgorithm, [0] signedAttrs when present,
      signatureAlgorithm, signature, [1] unsignedAttrs when present. An
      absent attribute set contributes no element at all. */
  lemma EncodingFieldOrder(si: SignerInfo)
    requires EncodeSignerInfo(si).Ok?
    ensures var outer := ReadExpected(SequenceTag, EncodeSignerInfo(si).value);
            outer.Ok? && outer.value.rest == [] && Tags(outer.value.value) == Ok(FieldTags(si))
  {
    var fields := EncodeSignerInfoFields(si).value;
    FrameRoundTrip(SequenceTag, fields, []);
    assert EncodeSignerInfo(si).value + [] == EncodeSignerInfo(si).value;
    EncodeFieldsParts(si);
    FieldOrderFromParts(si, Frame(IntegerTag, si.version.content).value,
                        EncodeSignerIdentifier(si.sid).value,
                        Frame(SequenceTag, si.digestAlgorithm.content).value,
                        EncodeOptionalAttributes(Context0, si.signedAttributes).value,
                        Frame(SequenceTag, si.signatureAlgorithm.content).value,
                        Frame(OctetStringTag, si.signature).value,
                        EncodeOptionalAttributes(Context1, si.unsignedAttributes).value);
  }

  // Rejections and the size constraint

  lemma Reassociate5(a: seq<byte>, b: seq<byte>, c: seq<byte>, d: seq<byte>, e: seq<byte>)
    ensures a + b + c + d + e == a + (b + (c + (d + e)))
  {
  }

  /** DecodeSignerInfoFields stops with MissingField when the contents end
      where the signature is due. */
  lemma DecodeFieldsStopsAtSignature(si: SignerInfo, s: seq<byte>, r1: seq<byte>, r2: seq<byte>,
                                     r3: seq<byte>, r4: seq<byte>)
    requires ReadExpected(IntegerTag, s) == Ok(Parsed(si.version.content, r1))
    requires DecodeSignerIdentifier(r1) == Ok(Parsed(si.sid, r2))
    requires ReadExpected(SequenceTag, r2) == Ok(Parsed(si.digestAlgorithm.content, r3))
    requires DecodeOptionalAttributes(Context0, r3) == Ok(Parsed(si.signedAttributes, r4))
    requires ReadExpected(SequenceTag, r4) == Ok(Parsed(si.signatureAlgorithm.content, []))
    ensures DecodeSignerInfoFields(s) == Err(MissingField)
  {
  }

  /** A SignerInfo SEQUENCE whose contents end after signatureAlgorithm is
      refused with MissingField: signature is mandatory. */
  lemma MissingSignatureRejected(si: SignerInfo, version: seq<byte>, sid: seq<byte>, digest: seq<byte>,
                                 signed: seq<byte>, algorithm: seq<byte>)
    requires Frame(IntegerTag, si.version.content) == Ok(version)
    requires EncodeSignerIdentifier(si.sid) == Ok(sid)
    requires Frame(SequenceTag, si.digestAlgorithm.content) == Ok(digest)
    requires EncodeOptionalAttributes(Context0, si.signedAttributes) == Ok(signed)
    requires Frame(SequenceTag, si.signatureAlgorithm.content) == Ok(algorithm)
    ensures DecodeSignerInfoFields(version + sid + digest + signed + algorithm) == Err(MissingField)
    ensures var truncated := Frame(SequenceTag, version + sid + digest + signed + algorithm);
            truncated.Ok? ==> SignerInfoFromDer(truncated.value) == Err(MissingField)
  {
    var content := version + sid + digest + signed + algorithm;
    var r3 := signed + algorithm;
    var r2 := digest + r3;
    var r1 := sid + r2;
    Reassociate5(version, sid, digest, signed, algorithm);
    assert ReadExpected(IntegerTag, content) == Ok(Parsed(si.version.content, r1)) by {
      FrameRoundTrip(IntegerTag, si.version.content, r1);
    }
    assert DecodeSignerIdentifier(r1) == Ok(Parsed(si.sid, r2)) by {
      SignerIdentifierRoundTrip(si.sid, r2);
    }
    assert ReadExpected(SequenceTag, r2) == Ok(Parsed(si.digestAlgorithm.content, r3)) by {
      FrameRoundTrip(SequenceTag, si.digestAlgorithm.content, r3);
    }
    assert DecodeOptionalAttributes(Context0, r3) == Ok(Parsed(si.signedAttributes, algorithm)) by {
      OptionalAttributesRoundTrip(Context0, si.signedAttributes, algorithm);
    }
    assert ReadExpected(SequenceTag, algorithm) == Ok(Parsed(si.signatureAlgorithm.content, [])) by {
      FrameRoundTrip(SequenceTag, si.signatureAlgorithm.content, []);
      assert algorithm + [] == algorithm;
    }
    DecodeFieldsStopsAtSignature(si, content, r1, r2, r3, algorithm);
    var truncated := Frame(SequenceTag, content);
    if truncated.Ok? {
      FrameRoundTrip(SequenceTag, content, []);
      assert truncated.value + [] == truncated.value;
    }
  }

  /** The decoder does not enforce SIZE (1..MAX): a present but empty signed
      attribute set is encoded as `[0]` with length zero and decoded back as
      present and empty, although the value is not WellFormed. */
  lemma EmptySignedAttributesAccepted(si: SignerInfo)
    requires si.signedAttributes == Some([]) && EncodeSignerInfo(si).Ok?
    ensures !WellFormed(si)
    ensures EncodeOptionalAttributes(Context0, si.signedAttributes) == Ok([Context0, 0])
    ensures SignerInfoFromDer(EncodeSignerInfo(si).value) == Ok(si)
  {
    assert EncodeOptionalAttributes(Context0, si.signedAttributes) == Ok([Context0, 0]) by {
      assert EncodeAttributes([]) == Ok([]);
      assert EncodeLength(0) == [0];
      assert Frame(Context0, []) == Ok([Context0] + [0] + []);
      assert [Context0] + [0] + [] == [Context0, 0];
    }
    SignerInfoFromDerRoundTrip(si);
  }

  // Encoding succeeds below the length limit

  /** Upper bounds on the encoded sizes: every element adds at most six
      octets of identifier and length to its contents. */
  function AttributesSize(attrs: seq<Attribute>): nat
  {
    if attrs == [] then 0 else |attrs[0].content| + 6 + AttributesSize(attrs[1..])
  }

  function OptionalAttributesSize(attrs: Option<seq<Attribute>>): nat
  {
    match attrs
    case None => 0
    case Some(a) => AttributesSize(a) + 6
  }

  function SignerInfoSize(si: SignerInfo): nat
  {
    |si.version.content| + 6 + SignerIdentifierSize(si.sid) + |si.digestAlgorithm.content| + 6
    + OptionalAttributesSize(si.signedAttributes) + |si.signatureAlgorithm.content| + 6
    + |si.signature| + 6 + OptionalAttributesSize(si.unsignedAttributes) + 6
  }

  lemma {:induction false} AttributesEncode(attrs: seq<Attribute>)
    requires AttributesSize(attrs) <= MaxLength
    ensures EncodeAttributes(attrs).Ok? && |EncodeAttributes(attrs).value| <= AttributesSize(attrs)
  {
    if attrs != [] {
      AttributesEncode(attrs[1..]);
    }
  }

  lemma OptionalAttributesEncode(tag: byte, attrs: Option<seq<Attribute>>)
    requires OptionalAttributesSize(attrs) <= MaxLength
    ensures EncodeOptionalAttributes(tag, attrs).Ok?
    ensures |EncodeOptionalAttributes(tag, attrs).value| <= OptionalAttributesSize(attrs)
  {
    if attrs.Some? {
      AttributesEncode(attrs.value);
    }
  }

  /** Encoding never fails for a SignerInfo whose encoding stays within the
      framing limit; the only encoding error is Overflow. */
  lemma EncodeSucceedsWithinLimit(si: SignerInfo)
    requires SignerInfoSize(si) <= MaxLength
    ensures EncodeSignerInfo(si).Ok?
    ensures |EncodeSignerInfo(si).value| <= SignerInfoSize(si)
  {
    SignerIdentifierEncodes(si.sid);
    OptionalAttributesEncode(Context0, si.signedAttributes);
    OptionalAttributesEncode(Context1, si.unsignedAttributes);
    var version := Frame(IntegerTag, si.version.content).value;
    var sid := EncodeSignerIdentifier(si.sid).value;
    var digest := Frame(SequenceTag, si.digestAlgorithm.content).value;
    var signed := EncodeOptionalAttributes(Context0, si.signedAttributes).value;
    var algorithm := Frame(SequenceTag, si.signatureAlgorithm.content).value;
    var signature := Frame(OctetStringTag, si.signature).value;
    var unsigned := EncodeOptionalAttributes(Context1, si.unsignedAttributes).value;
    EncodeFieldsBySteps(si, version, sid, digest, signed, algorithm, signature, unsigned);
    var fields := version + sid + digest + signed + algorithm + signature + unsigned;
    assert |fields| <= SignerInfoSize(si) - 6;
    assert EncodeSignerInfo(si) == Frame(SequenceTag, fields);
  }

  /** A signer identified by issuer and serial number, with neither
      attribute set and a 256-octet signature (RSA over SHA-256, say),
      encodes and decodes back to the same record with both sets absent. */
  lemma IssuerSerialWithoutAttributesExample(name: Name, serial: SerialNumber, digest: AlgorithmIdentifier,
                                             algorithm: AlgorithmIdentifier, signature: seq<byte>)
    requires |signature| == 256
    requires |name.content| <= 0xFFFF && |serial.content| <= 20
    requires |digest.content| <= 0xFF && |algorithm.content| <= 0xFF
    ensures var si := SignerInfo(CmsVersion([1]), ByIssuerAndSerialNumber(IssuerAndSerialNumber(name, serial)),
                                 digest, None, algorithm, signature, None);
            EncodeSignerInfo(si).Ok?
            && SignerInfoFromDer(EncodeSignerInfo(si).value) == Ok(si)
            && SignerInfoFromDer(EncodeSignerInfo(si).value).value.signedAttributes.None?
            && SignerInfoFromDer(EncodeSignerInfo(si).value).value.unsignedAttributes.None?
  {
    var si := SignerInfo(CmsVersion([1]), ByIssuerAndSerialNumber(IssuerAndSerialNumber(name, serial)),
                         digest, None, algorithm, signature, None);
    EncodeSucceedsWithinLimit(si);
    SignerInfoFromDerRoundTrip(si);
  }
}
