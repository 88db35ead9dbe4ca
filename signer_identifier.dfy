/** SignerIdentifier, the CHOICE naming the certificate of the signer
    (section 5.3 of RFC 5652), and IssuerAndSerialNumber, its first
    alternative.

    The second alternative carries `[0]` with no tag mode, so the derive
    default applies and the tag is EXPLICIT: `[0]` wraps a complete
    OCTET STRING element. */
module SignerIdentifiers {
  import opened Der
  import opened Leaves

  /** IssuerAndSerialNumber ::= SEQUENCE { issuer Name, serialNumber CertificateSerialNumber } */
  datatype IssuerAndSerialNumber = IssuerAndSerialNumber(name: Name, serialNumber: SerialNumber)

  /** Exactly one of the two alternatives. */
  datatype SignerIdentifier =
    | ByIssuerAndSerialNumber(issuerAndSerialNumber: IssuerAndSerialNumber)
    | BySubjectKeyIdentifier(subjectKeyIdentifier: SubjectKeyIdentifier)

  /** The identifier octet that starts the encoding of each alternative. */
  function SignerIdentifierTag(sid: SignerIdentifier): byte
  {
    match sid
    case ByIssuerAndSerialNumber(_) => SequenceTag
    case BySubjectKeyIdentifier(_) => Context0
  }

  function EncodeIssuerAndSerialNumber(i: IssuerAndSerialNumber): (r: Result<seq<byte>>)
    ensures r.Ok? ==> |r.value| > 0 && r.value[0] == SequenceTag
  {
    var name :- Frame(SequenceTag, i.name.content);
    var serial :- Frame(IntegerTag, i.serialNumber.content);
    Frame(SequenceTag, name + serial)
  }

  function DecodeIssuerAndSerialNumber(s: seq<byte>): (r: Result<Parsed<IssuerAndSerialNumber>>)
    ensures s == [] ==> r == Err(MissingField)
    ensures s != [] && s[0] != SequenceTag ==> r == Err(TagMismatch(s[0]))
    ensures r.Ok? ==> |r.value.rest| < |s|
  {
    var outer :- ReadExpected(SequenceTag, s);
    var name :- ReadExpected(SequenceTag, outer.value);
    var serial :- ReadExpected(IntegerTag, name.rest);
    if serial.rest != [] then Err(TrailingData)
    else Ok(Parsed(IssuerAndSerialNumber(Name(name.value), SerialNumber(serial.value)), outer.rest))
  }

  /** The untagged alternative is written as it is; the other inside an explicit `[0]`. */
  function EncodeSignerIdentifier(sid: SignerIdentifier): (r: Result<seq<byte>>)
    ensures r.Ok? ==> |r.value| > 0 && r.value[0] == SignerIdentifierTag(sid)
  {
    match sid
    case ByIssuerAndSerialNumber(i) => EncodeIssuerAndSerialNumber(i)
    case BySubjectKeyIdentifier(ski) =>
      var inner :- Frame(OctetStringTag, ski.content);
      Frame(Context0, inner)
  }

  function DecodeSubjectKeyIdentifier(s: seq<byte>): (r: Result<Parsed<SubjectKeyIdentifier>>)
    ensures s == [] ==> r == Err(MissingField)
    ensures s != [] && s[0] != Context0 ==> r == Err(TagMismatch(s[0]))
    ensures r.Ok? ==> |r.value.rest| < |s|
  {
    var outer :- ReadExpected(Context0, s);
    var inner :- ReadExpected(OctetStringTag, outer.value);
    if inner.rest != [] then Err(TrailingData)
    else Ok(Parsed(SubjectKeyIdentifier(inner.value), outer.rest))
  }

  /** CHOICE dispatch on the next identifier octet. */
  function DecodeSignerIdentifier(s: seq<byte>): (r: Result<Parsed<SignerIdentifier>>)
    ensures s == [] ==> r == Err(MissingField)
    ensures s != [] && s[0] != SequenceTag && s[0] != Context0 ==> r == Err(TagMismatch(s[0]))
    ensures r.Ok? ==> s[0] == SignerIdentifierTag(r.value.value)
    ensures r.Ok? ==> |r.value.rest| < |s|
  {
    if s == [] then Err(MissingField)
    else if s[0] == SequenceTag then
      var i :- DecodeIssuerAndSerialNumber(s);
      Ok(Parsed(ByIssuerAndSerialNumber(i.value), i.rest))
    else if s[0] == Context0 then
      var ski :- DecodeSubjectKeyIdentifier(s);
      Ok(Parsed(BySubjectKeyIdentifier(ski.value), ski.rest))
    else Err(TagMismatch(s[0]))
  }

  lemma IssuerAndSerialNumberRoundTrip(i: IssuerAndSerialNumber, rest: seq<byte>)
    requires EncodeIssuerAndSerialNumber(i).Ok?
    ensures DecodeIssuerAndSerialNumber(EncodeIssuerAndSerialNumber(i).value + rest) == Ok(Parsed(i, rest))
  {
    var name := Frame(SequenceTag, i.name.content).value;
    var serial := Frame(IntegerTag, i.serialNumber.content).value;
    FrameRoundTrip(SequenceTag, name + serial, rest);
    FrameRoundTrip(SequenceTag, i.name.content, serial);
    FrameRoundTrip(IntegerTag, i.serialNumber.content, []);
    assert serial + [] == serial;
  }

  /** Decoding the encoding of either alternative gives it back and leaves
      whatever follows untouched. */
  lemma SignerIdentifierRoundTrip(sid: SignerIdentifier, rest: seq<byte>)
    requires EncodeSignerIdentifier(sid).Ok?
    ensures DecodeSignerIdentifier(EncodeSignerIdentifier(sid).value + rest) == Ok(Parsed(sid, rest))
  {
    match sid
    case ByIssuerAndSerialNumber(i) =>
      IssuerAndSerialNumberRoundTrip(i, rest);
    case BySubjectKeyIdentifier(ski) =>
      var inner := Frame(OctetStringTag, ski.content).value;
      FrameRoundTrip(Context0, inner, rest);
      FrameRoundTrip(OctetStringTag, ski.content, []);
      assert inner + [] == inner;
  }

  lemma IssuerAndSerialNumberCanonical(s: seq<byte>)
    requires DecodeIssuerAndSerialNumber(s).Ok?
    ensures EncodeIssuerAndSerialNumber(DecodeIssuerAndSerialNumber(s).value.value).Ok?
    ensures s == EncodeIssuerAndSerialNumber(DecodeIssuerAndSerialNumber(s).value.value).value
                 + DecodeIssuerAndSerialNumber(s).value.rest
  {
    var outer := ReadExpected(SequenceTag, s).value;
    var name := ReadExpected(SequenceTag, outer.value).value;
    var serial := ReadExpected(IntegerTag, name.rest).value;
    var i := IssuerAndSerialNumber(Name(name.value), SerialNumber(serial.value));
    assert DecodeIssuerAndSerialNumber(s) == Ok(Parsed(i, outer.rest));
    ReadExpectedCanonical(SequenceTag, s);
    ReadExpectedCanonical(SequenceTag, outer.value);
    ReadExpectedCanonical(IntegerTag, name.rest);
    var nameBytes := Frame(SequenceTag, name.value).value;
    var serialBytes := Frame(IntegerTag, serial.value).value;
    assert outer.value == nameBytes + serialBytes by {
      assert name.rest == serialBytes + [];
    }
    assert EncodeIssuerAndSerialNumber(i) == Frame(SequenceTag, outer.value);
  }

  lemma SubjectKeyIdentifierCanonical(s: seq<byte>)
    requires DecodeSubjectKeyIdentifier(s).Ok?
    ensures Frame(OctetStringTag, DecodeSubjectKeyIdentifier(s).value.value.content).Ok?
    ensures Frame(Context0, Frame(OctetStringTag, DecodeSubjectKeyIdentifier(s).value.value.content).value).Ok?
    ensures s == Frame(Context0, Frame(OctetStringTag, DecodeSubjectKeyIdentifier(s).value.value.content).value).value
                 + DecodeSubjectKeyIdentifier(s).value.rest
  {
    var outer := ReadExpected(Context0, s).value;
    var inner := ReadExpected(OctetStringTag, outer.value).value;
    assert inner.rest == [];
    assert DecodeSubjectKeyIdentifier(s).value == Parsed(SubjectKeyIdentifier(inner.value), outer.rest);
    SubjectKeyIdentifierFromParts(s, outer.value, inner.value, outer.rest);
  }

  lemma SubjectKeyIdentifierFromParts(s: seq<byte>, octetString: seq<byte>, key: seq<byte>, rest: seq<byte>)
    requires ReadExpected(Context0, s) == Ok(Parsed(octetString, rest))
    requires ReadExpected(OctetStringTag, octetString) == Ok(Parsed(key, []))
    ensures Frame(OctetStringTag, key).Ok? && Frame(Context0, Frame(OctetStringTag, key).value).Ok?
    ensures s == Frame(Context0, Frame(OctetStringTag, key).value).value + rest
  {
    ReadExpectedCanonical(Context0, s);
    ReadExpectedCanonical(OctetStringTag, octetString);
    assert octetString == Frame(OctetStringTag, key).value + [];
  }

  /** The decoder accepts only canonical encodings: what it reads is exactly
      the encoding of the value it returns, followed by the rest. */
  lemma SignerIdentifierCanonical(s: seq<byte>)
    requires DecodeSignerIdentifier(s).Ok?
    ensures EncodeSignerIdentifier(DecodeSignerIdentifier(s).value.value).Ok?
    ensures s == EncodeSignerIdentifier(DecodeSignerIdentifier(s).value.value).value
                 + DecodeSignerIdentifier(s).value.rest
  {
    if s[0] == SequenceTag {
      IssuerAndSerialNumberCanonical(s);
    } else {
      SubjectKeyIdentifierCanonical(s);
    }
  }

  /** Either alternative is a single element carrying SignerIdentifierTag. */
  lemma SignerIdentifierIsOneElement(sid: SignerIdentifier, rest: seq<byte>)
    requires EncodeSignerIdentifier(sid).Ok?
    ensures var t := ReadTlv(EncodeSignerIdentifier(sid).value + rest);
            t.Ok? && t.value.rest == rest && t.value.value.tag == SignerIdentifierTag(sid)
  {
    match sid
    case ByIssuerAndSerialNumber(i) =>
      var name := Frame(SequenceTag, i.name.content).value;
      var serial := Frame(IntegerTag, i.serialNumber.content).value;
      FrameRoundTrip(SequenceTag, name + serial, rest);
    case BySubjectKeyIdentifier(ski) =>
      FrameRoundTrip(Context0, Frame(OctetStringTag, ski.content).value, rest);
  }

  /** An upper bound on the encoded size: every element adds at most six
      octets of identifier and length to its contents. */
  function SignerIdentifierSize(sid: SignerIdentifier): nat
  {
    match sid
    case ByIssuerAndSerialNumber(i) => |i.name.content| + 6 + |i.serialNumber.content| + 6 + 6
    case BySubjectKeyIdentifier(ski) => |ski.content| + 6 + 6
  }

  /** Encoding fails only when some content exceeds the framing limit. */
  lemma SignerIdentifierEncodes(sid: SignerIdentifier)
    requires SignerIdentifierSize(sid) <= MaxLength
    ensures EncodeSignerIdentifier(sid).Ok?
    ensures |EncodeSignerIdentifier(sid).value| <= SignerIdentifierSize(sid)
  {
    match sid
    case ByIssuerAndSerialNumber(i) =>
      var name := Frame(SequenceTag, i.name.content);
      var serial := Frame(IntegerTag, i.serialNumber.content);
      assert name.Ok? && serial.Ok?;
      assert |name.value + serial.value| <= |i.name.content| + 6 + |i.serialNumber.content| + 6;
    case BySubjectKeyIdentifier(ski) =>
  }
}
