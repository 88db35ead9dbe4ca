/** The leaf types a SignerInfo is built from. Their own structure belongs to
    other crates (x509_cert, spki, the CMS version enum), so each is kept as
    the opaque contents of one element whose outer identifier is fixed. */
module Leaves {
  import opened Der

  const IntegerTag: byte := 0x02
  const OctetStringTag: byte := 0x04
  const SequenceTag: byte := 0x30
  const SetTag: byte := 0x31
  /** Context-specific, constructed, tag number 0: `[0]`. */
  const Context0: byte := 0xA0
  /** Context-specific, constructed, tag number 1: `[1]`. */
  const Context1: byte := 0xA1

  /** CMSVersion, an INTEGER. */
  datatype CmsVersion = CmsVersion(content: seq<byte>)
  /** The issuer's distinguished Name, a SEQUENCE. */
  datatype Name = Name(content: seq<byte>)
  /** CertificateSerialNumber, an INTEGER. */
  datatype SerialNumber = SerialNumber(content: seq<byte>)
  /** AlgorithmIdentifier, a SEQUENCE. */
  datatype AlgorithmIdentifier = AlgorithmIdentifier(content: seq<byte>)
  /** SubjectKeyIdentifier, an OCTET STRING. */
  datatype SubjectKeyIdentifier = SubjectKeyIdentifier(content: seq<byte>)
  /** Attribute, a SEQUENCE of a type and its values. */
  datatype Attribute = Attribute(content: seq<byte>)
}
