# SignerInfo (RFC 5652, section 5.3) — a Dafny model of its DER codec

The pkcs7 crate declares `SignerInfo`, the record a CMS `SignedData` message
carries for each signer. It also declares the two-way CHOICE
`SignerIdentifier`, the SEQUENCE `IssuerAndSerialNumber`, the `SignerInfos`
SET OF, and the ordering hook `value_cmp`. These declarations contain no
encoding code. The der derive macros produce it from the attributes, and the
attributes fix the wire format:

- the fields and their order;
- the context tags `[0]` and `[1]` and their tag modes;
- which fields are OPTIONAL.

This project states that format as pure Dafny functions, one `Encode…` and one
`Decode…` per type, and proves the properties the declarations promise.

- `der.dfy` (`Der`) is support code standing in for the der crate. It reads
  and writes one-octet identifiers and DER definite lengths (ITU-T X.690
  sections 8.1.3 and 10.1). Like der, it refuses any length above
  0x0FFF_FFFF, so a length field has at most four octets. It returns
  `Result` values with the error kinds `TagMismatch`, `LengthMismatch`,
  `NonCanonicalLength`, `MissingField`, `TrailingData`, `Overflow` and
  `SetDuplicate`. It also
  orders octet strings lexicographically and proves that this order on DER
  length octets is the numeric order of the lengths.
- `leaves.dfy` (`Leaves`) keeps the leaf types as opaque contents under a fixed
  outer identifier:
  - `CmsVersion` and `SerialNumber` under INTEGER, 0x02;
  - `Name`, `AlgorithmIdentifier` and `Attribute` under SEQUENCE, 0x30;
  - `SubjectKeyIdentifier` under OCTET STRING, 0x04.
- `signer_identifier.dfy` (`SignerIdentifiers`) covers the CHOICE and
  IssuerAndSerialNumber. The decoder dispatches on the next identifier octet.
- `signer_info.dfy` (`SignerInfoCodec`) covers the record:
  - the seven fields, in declaration order;
  - the two OPTIONAL IMPLICIT attribute sets. The decoder takes a set only
    when the next octet is 0xA0 or 0xA1, and otherwise leaves the input where
    it was.
  - the SIZE (1..MAX) constraint, as the predicate `WellFormed`.
- `signer_info_set.dfy` (`SignerInfoSet`) covers the `SignerInfos` SET OF:
  - the constant ordering hook;
  - the order der's `SetOfVec` sorts its elements by, `DerCmp`. It compares
    the identifier and length octets of the two encodings first, and consults
    the hook only when they are equal.
  - the stable insertion sort the container runs when it is built and when it
    is decoded;
  - the check a decoded set must pass after sorting: each element must
    compare Less than the next, and otherwise decoding fails with
    `SetDuplicate`;
  - the codec.

Every codec has two directions, both proved:

- **Round trip:** decoding an encoding gives the value back, and leaves the
  input that follows untouched.
- **Canonicity:** whatever the decoder accepts is exactly the encoding of the
  value it returns, so DER's uniqueness holds.

`SignerInfos` is the exception to both. Its decoder sorts what it reads, so an
input whose elements are out of order is accepted and comes back reordered
(`LongerFirstInputReordered`). And it refuses a set holding two records of
the same encoded size, which the encoder writes without complaint
(`SameSizeSetRefused`).

Encoding returns `Overflow` only when some contents exceed 0x0FFF_FFFF octets.
`EncodeSucceedsWithinLimit` gives a size bound under which it cannot fail.

### How `SignerInfos` is ordered

All SignerInfo encodings start with the SEQUENCE identifier 0x30. Comparing
headers therefore compares length octets, and for DER lengths that is
comparing the lengths (`Der.LengthOctetsOrder`). So `DerCmp` orders two
records by the sizes of their encodings (`DerCmpBySize`). The hook answers
`Equal` for every pair.

- **Building a collection:** records of the same size keep the order in which
  they were inserted, also in a list that mixes sizes. The sort is stable
  (`SortStable`, `FromVecSortsBySize`, `MixedSizesKeepInsertionOrder`). A
  record with a shorter encoding is stored before a longer one, whatever the
  insertion order (`ShorterFirst`). Size order plus insertion order within
  each size leave one possible result, so what a collection stores is fully
  determined (`FromVecIsDetermined`).
- **Decoding:** the elements read are sorted the same way. Then every element
  must compare Less than the next. Two records of the same size compare
  Equal, so decoding succeeds exactly when no two records read have the same
  size, and otherwise fails with `SetDuplicate` (`DecodeSortsBySize`,
  `DecodeIsDetermined`). A collection built from two records of the same size
  is therefore encoded, but its encoding is not decoded
  (`SameSizeSetRefused`, `SignerInfosRoundTrip`).

### Where the code and the standards differ

The model follows the code in each case.

- DER (ITU-T X.690 section 11.6) writes the elements of a SET OF in
  ascending order of their complete encodings. The code's hook answers
  `Equal` for every pair. Two records of the same size therefore stay in
  insertion order even when their encodings compare the other way, and the
  set can be written out of DER order. The decoder refuses such a set as a
  duplicate, even when the two records differ.
- RFC 5652 (section 5.3) declares both attribute sets SIZE (1..MAX). The
  `SignedAttributes`/`UnsignedAttributes` aliases are plain `SetOfVec`
  values, and nothing in the code rejects an empty one. `WellFormed` states
  SIZE (1..MAX). The decoder accepts an empty present set, as shown by
  `EmptySignedAttributesAccepted`.

### Open question: the tag mode of `subjectKeyIdentifier`

The `SubjectKeyIdentifier` variant carries `[0]` without a `tag_mode`. The
derive default is therefore EXPLICIT: `[0]` (0xA0) wraps a complete OCTET
STRING element, and this is how the model encodes it. The ASN.1 module of
RFC 5652 (section 12.1) is written under IMPLICIT TAGS. There the variant
would be `[0]` directly around the key identifier octets (0x80, primitive).
The model keeps what the source declares and leaves the mismatch open.

## Model

| member | source | states |
|---|---|---|
| `SignerIdentifiers.EncodeSignerIdentifier` | pkcs7/src/signer_info.rs:40-47 | a successful encoding starts with 0x30 for IssuerAndSerialNumber and with the context tag 0xA0 for SubjectKeyIdentifier |
| `SignerIdentifiers.EncodeIssuerAndSerialNumber` | pkcs7/src/signer_info.rs:50-55 | a successful encoding is a SEQUENCE element, starting with 0x30; `IssuerAndSerialNumberRoundTrip` is its inverse |
| `SignerIdentifiers.DecodeIssuerAndSerialNumber` | pkcs7/src/signer_info.rs:50-55 | empty input is MissingField, a first octet other than 0x30 is TagMismatch carrying it, and success consumes input; `IssuerAndSerialNumberCanonical` states what it accepts |
| `SignerIdentifiers.DecodeSubjectKeyIdentifier` | pkcs7/src/signer_info.rs:46-47 | empty input is MissingField, a first octet other than 0xA0 is TagMismatch carrying it, and success consumes input; `SubjectKeyIdentifierCanonical` states what it accepts |
| `SignerIdentifiers.DecodeSignerIdentifier` | pkcs7/src/signer_info.rs:35-48 | CHOICE dispatch: empty input is MissingField; any first octet other than 0x30 or 0xA0 is TagMismatch carrying that octet; on success the first octet is the tag of the alternative returned, and input is consumed |
| `SignerIdentifiers.IssuerAndSerialNumberRoundTrip` | pkcs7/src/signer_info.rs:50-55 | the SEQUENCE of name then serial number decodes back to the same pair and leaves what follows untouched |
| `SignerIdentifiers.IssuerAndSerialNumberCanonical` | pkcs7/src/signer_info.rs:50-55 | whatever the IssuerAndSerialNumber decoder accepts is exactly the encoding of the pair it returns, followed by the rest |
| `SignerIdentifiers.SubjectKeyIdentifierCanonical` | pkcs7/src/signer_info.rs:46-47 | whatever the SubjectKeyIdentifier decoder accepts is exactly `[0]` wrapping an OCTET STRING of the key identifier, followed by the rest |
| `SignerIdentifiers.SignerIdentifierRoundTrip` | pkcs7/src/signer_info.rs:35-55 | for both alternatives, decoding the encoding gives the same alternative and value back, with the following input untouched |
| `SignerIdentifiers.SignerIdentifierCanonical` | pkcs7/src/signer_info.rs:35-55 | whatever the CHOICE decoder accepts is exactly the encoding of the alternative it returns, followed by the rest |
| `SignerIdentifiers.SignerIdentifierIsOneElement` | pkcs7/src/signer_info.rs:35-48 | either alternative is written as a single element whose identifier is that alternative's tag |
| `SignerIdentifiers.SignerIdentifierEncodes` | pkcs7/src/signer_info.rs:40-55 | encoding either alternative succeeds when its size bound is within the length limit, and produces no more octets than that bound |
| `SignerInfoCodec.DecodeOptionalAttributes` | pkcs7/src/signer_info.rs:84-97 | lookahead: when the input is empty or its next octet is not the field's context tag, the set is absent and the input is left unchanged; a present set is reported only after that tag, and it consumes input |
| `SignerInfoCodec.EncodeOptionalAttributes` | pkcs7/src/signer_info.rs:86-87 | an absent set is written as no octets at all; a present one starts with its context tag; `OptionalAttributesRoundTrip` is its inverse |
| `SignerInfoCodec.AttributesRoundTrip` | pkcs7/src/signer_info.rs:25-33 | the elements of an attribute set decode back to the same attributes, in the same order |
| `SignerInfoCodec.AttributesCanonical` | pkcs7/src/signer_info.rs:25-33 | whatever the attribute-set reader accepts is exactly the encoding of the attributes it returns |
| `SignerInfoCodec.ImplicitTagReplacesSetTag` | pkcs7/src/signer_info.rs:86-87 | IMPLICIT tagging: a present set is the universal SET OF encoding with its first octet, 0x31, replaced by the context tag; both succeed or fail together |
| `SignerInfoCodec.OptionalAttributesRoundTrip` | pkcs7/src/signer_info.rs:96-97 | an optional set decodes back to the same presence and contents; an absent set needs only that the next octet is not its tag |
| `SignerInfoCodec.OptionalAttributesCanonical` | pkcs7/src/signer_info.rs:85-87 | whatever the optional-set reader accepts is exactly the encoding of what it returns: nothing for an absent set, the tagged set for a present one |
| `SignerInfoCodec.FieldsRoundTrip` | pkcs7/src/signer_info.rs:75-97 | the SEQUENCE contents, read strictly in declaration order, give back all seven fields |
| `SignerInfoCodec.EncodeSignerInfoFields` | pkcs7/src/signer_info.rs:75-97 | the contents start with the version INTEGER, 0x02; `EncodingFieldOrder` gives the identifiers of all seven fields in order |
| `SignerInfoCodec.DecodeSignerInfoFields` | pkcs7/src/signer_info.rs:75-97 | empty contents are MissingField and contents that do not start with 0x02 are TagMismatch carrying that octet; `FieldsRoundTrip` and `FieldsCanonical` are its partners |
| `SignerInfoCodec.EncodeSignerInfo` | pkcs7/src/signer_info.rs:74-98 | a successful encoding is one SEQUENCE element, starting with 0x30; `SignerInfoRoundTrip` is its inverse |
| `SignerInfoCodec.DecodeSignerInfo` | pkcs7/src/signer_info.rs:74-98 | empty input is MissingField, a first octet other than 0x30 is TagMismatch carrying it, and success consumes input; `SignerInfoCanonical` states what it accepts |
| `SignerInfoCodec.SignerInfoFromDer` | pkcs7/src/signer_info.rs:74-98 | empty input is MissingField and a first octet other than 0x30 is TagMismatch carrying it; `TrailingDataRejected` and `SignerInfoFromDerCanonical` state the rest |
| `SignerInfoCodec.FieldsCanonical` | pkcs7/src/signer_info.rs:76-97 | whatever the field reader accepts, with no trailing octets, is exactly the encoding of the fields it returns |
| `SignerInfoCodec.SignerInfoRoundTrip` | pkcs7/src/signer_info.rs:64-98 | for every SignerInfo, including both sid alternatives and all four presence combinations of the attribute sets, decoding the encoding returns the same record and leaves the following input untouched |
| `SignerInfoCodec.SignerInfoFromDerRoundTrip` | pkcs7/src/signer_info.rs:74-98 | a complete DER document made of one encoded SignerInfo decodes to that record |
| `SignerInfoCodec.TrailingDataRejected` | pkcs7/src/signer_info.rs:74-98 | a complete encoded SignerInfo followed by any further octet is refused with TrailingData |
| `SignerInfoCodec.SignerInfoCanonical` | pkcs7/src/signer_info.rs:62-98 | DER uniqueness: whatever the decoder accepts is exactly the encoding of the record it returns, followed by the rest |
| `SignerInfoCodec.SignerInfoFromDerCanonical` | pkcs7/src/signer_info.rs:74-97 | a document the decoder accepts is byte for byte the encoding of the record it returns |
| `SignerInfoCodec.EncodingFieldOrder` | pkcs7/src/signer_info.rs:65-72 | the encoding is one SEQUENCE with nothing after it; its elements carry, in order, INTEGER, the sid tag, SEQUENCE, 0xA0 only when signed attributes are present, SEQUENCE, OCTET STRING, and 0xA1 only when unsigned attributes are present; an absent set contributes no element |
| `SignerInfoCodec.MissingSignatureRejected` | pkcs7/src/signer_info.rs:89-93 | contents that end after signatureAlgorithm are refused with MissingField, both as contents and as a complete SEQUENCE |
| `SignerInfoCodec.EmptySignedAttributesAccepted` | pkcs7/src/signer_info.rs:25-28 | a present but empty signed set breaks SIZE (1..MAX), yet it is written as 0xA0 0x00 and decodes back as present and empty |
| `SignerInfoCodec.WellFormed` | pkcs7/src/signer_info.rs:25-33 | SIZE (1..MAX): a present attribute set is not empty; `EmptySignedAttributesAccepted` shows the codec does not require it |
| `SignerInfoCodec.AttributesEncode` | pkcs7/src/signer_info.rs:30-33 | encoding an attribute set succeeds within its size bound and stays within it |
| `SignerInfoCodec.OptionalAttributesEncode` | pkcs7/src/signer_info.rs:85-87 | encoding an optional set succeeds within its size bound and stays within it |
| `SignerInfoCodec.EncodeSucceedsWithinLimit` | pkcs7/src/signer_info.rs:75-98 | encoding a SignerInfo fails only through Overflow: below the size bound it succeeds and produces no more octets than the bound |
| `SignerInfoCodec.IssuerSerialWithoutAttributesExample` | pkcs7/src/signer_info.rs:64-73 | a version-1 signer named by issuer and serial number, with neither attribute set and a 256-octet signature, encodes and decodes back with both sets absent |
| `SignerInfoSet.ValueCmpIgnoresContents` | pkcs7/src/signer_info.rs:100-105 | the hook answers Ok(Equal) for every pair, whatever the contents of either record |
| `SignerInfoSet.ValueCmp` | pkcs7/src/signer_info.rs:101-104 | the hook; `ValueCmpIgnoresContents` states that it is Ok(Equal) for every pair |
| `SignerInfoSet.HeaderOctets` | pkcs7/src/signer_info.rs:57-60 | the header der compares first exists exactly when the record can be encoded, and it is a prefix of the encoding |
| `SignerInfoSet.DerCmp` | pkcs7/src/signer_info.rs:57-60 | der's order for a type with a value hook, header octets first and then the hook: it fails exactly when one of the two records cannot be encoded; `DerCmpBySize` states what it answers otherwise |
| `SignerInfoSet.DerCmpBySize` | pkcs7/src/signer_info.rs:57-60 | on encodable records the comparison succeeds and answers Less, Equal or Greater exactly as the sizes of the two encodings compare |
| `SignerInfoSet.CheckAscending` | pkcs7/src/signer_info.rs:57-60 | the check after sorting; `CheckAscendingMeans` and `CheckAscendingByKey` state when it passes |
| `SignerInfoSet.CheckAscendingMeans` | pkcs7/src/signer_info.rs:57-60 | for any comparison, the check passes exactly when every element compares Less than the next, and a refusal with every comparison succeeding is SetDuplicate |
| `SignerInfoSet.CheckAscendingByKey` | pkcs7/src/signer_info.rs:57-60 | for a comparison that compares keys, on a key-ordered list the check passes exactly when no two records share a key, and is SetDuplicate otherwise |
| `SignerInfoSet.DerCmpLessBySize` | pkcs7/src/signer_info.rs:57-60 | on encodable records, the comparison answers Less exactly when the first encoding is the shorter |
| `SignerInfoSet.SignerInfosFromVec` | pkcs7/src/signer_info.rs:58-60 | building a collection keeps the number of records; `FromVecSortsBySize` and `FromVecIsDetermined` state what it stores: size order, with insertion order within each size |
| `SignerInfoSet.InsertIsPermutation` | pkcs7/src/signer_info.rs:57-60 | for any comparison, a successful insertion adds exactly the new element to the stored ones |
| `SignerInfoSet.SortIsPermutation` | pkcs7/src/signer_info.rs:57-60 | for any comparison, a successful sort is a permutation of its input |
| `SignerInfoSet.InsertAppends` | pkcs7/src/signer_info.rs:57-60 | a new element that does not compare Greater than the last stored one lands after all stored ones |
| `SignerInfoSet.SortIsIdentity` | pkcs7/src/signer_info.rs:57-60 | for any comparison, sorting a list in which no element compares Greater than the next returns it unchanged |
| `SignerInfoSet.HookAloneKeepsOrder` | pkcs7/src/signer_info.rs:101-104 | sorting by the hook alone returns the list unchanged |
| `SignerInfoSet.InsertKeepsKeyOrder` | pkcs7/src/signer_info.rs:57-60 | for a comparison that compares keys, inserting into a key-ordered list succeeds, keeps the key order and adds only the new element |
| `SignerInfoSet.SortKeepsKeyOrder` | pkcs7/src/signer_info.rs:57-60 | for a comparison that compares keys, the sort succeeds and its result is in key order |
| `SignerInfoSet.InsertStable` | pkcs7/src/signer_info.rs:57-60 | for a comparison that compares keys, insertion succeeds, leaves the records of every key in their order, and puts the new record after those of its own key |
| `SignerInfoSet.SortStable` | pkcs7/src/signer_info.rs:57-60 | for a comparison that compares keys, the sort succeeds and lists the records of every key in the order of its input |
| `SignerInfoSet.KeyBlocksDetermine` | pkcs7/src/signer_info.rs:57-60 | two key-ordered lists that list the records of every key in the same order are equal |
| `SignerInfoSet.SizeOrderedIsKept` | pkcs7/src/signer_info.rs:57-60 | a list already in size order is stored exactly as given |
| `SignerInfoSet.SameSizeKeepsInsertionOrder` | pkcs7/src/signer_info.rs:57-60 | records whose encodings all have the same size keep insertion order |
| `SignerInfoSet.FromVecSortsBySize` | pkcs7/src/signer_info.rs:58-60 | building a collection from encodable records succeeds, stores the same records as a multiset, stores them shortest encoding first, and keeps the records of each size in insertion order |
| `SignerInfoSet.FromVecIsDetermined` | pkcs7/src/signer_info.rs:58-60 | the stored list is the one list in size order that keeps the records of each size in insertion order |
| `SignerInfoSet.MixedSizesKeepInsertionOrder` | pkcs7/src/signer_info.rs:57-60 | inserting a1, b, a2, where a1 and a2 have the same size and b is shorter, stores b, a1, a2 |
| `SignerInfoSet.ShorterFirst` | pkcs7/src/signer_info.rs:57-60 | of two records of different encoded sizes, the shorter is stored first in both insertion orders |
| `SignerInfoSet.EncodeSignerInfos` | pkcs7/src/signer_info.rs:57-59 | a successful encoding of the collection starts with the SET tag 0x31 |
| `SignerInfoSet.ReadSignerInfoSet` | pkcs7/src/signer_info.rs:57-60 | empty input is MissingField, a first octet other than 0x31 is TagMismatch carrying it, and success consumes input |
| `SignerInfoSet.DecodeSignerInfos` | pkcs7/src/signer_info.rs:57-60 | empty input is MissingField, a first octet other than 0x31 is TagMismatch carrying it, and success consumes input; `DecodeSortsBySize` and `DecodeIsDetermined` state what it returns: size order, with the order read within each size, and SetDuplicate when two records read have the same size |
| `SignerInfoSet.ElementsRoundTrip` | pkcs7/src/signer_info.rs:57-58 | the concatenated elements decode back to the same records in the same order |
| `SignerInfoSet.ElementsCanonical` | pkcs7/src/signer_info.rs:59-60 | whatever the element reader accepts is exactly the concatenated encodings of the records it returns |
| `SignerInfoSet.SignerInfoSetRoundTrip` | pkcs7/src/signer_info.rs:57-60 | the encoding of any list reads back as the same list in the same order, with the following input untouched |
| `SignerInfoSet.SignerInfoSetCanonical` | pkcs7/src/signer_info.rs:57-60 | whatever the SET reader accepts is exactly the encoding of the elements it returns, in that order, followed by the rest |
| `SignerInfoSet.PermutedElementsEncode` | pkcs7/src/signer_info.rs:57-60 | a permutation of an encodable list is encodable, to the same number of octets |
| `SignerInfoSet.SignerInfosRoundTrip` | pkcs7/src/signer_info.rs:57-60 | a collection in size order, the order the container keeps, decodes from its encoding to the same records in the same order, with the following input untouched, when no two records have the same size; otherwise decoding is SetDuplicate |
| `SignerInfoSet.DecodeSortsBySize` | pkcs7/src/signer_info.rs:58-60 | decoding succeeds exactly when the SET can be read and no two records read have the same size, and is SetDuplicate when the SET reads but two records share a size; on success it returns the elements read, as a multiset, in size order with the records of each size in the order read, and with the same rest |
| `SignerInfoSet.DecodeIsDetermined` | pkcs7/src/signer_info.rs:58-60 | decoding returns the one list in size order that keeps the records of each size in the order read, or SetDuplicate when two of them have the same size |
| `SignerInfoSet.SignerInfosCanonical` | pkcs7/src/signer_info.rs:57-60 | whatever the SignerInfos decoder accepts re-encodes to exactly as many octets as it read, and to the input itself when the input listed the elements in size order |
| `SignerInfoSet.InsertionOrderIsEncodedOrder` | pkcs7/src/signer_info.rs:100-104 | two different records of the same encoded size are kept in either insertion order, and the two orders encode differently |
| `SignerInfoSet.SameSizeSetRefused` | pkcs7/src/signer_info.rs:100-105 | two records of the same encoded size are stored in insertion order and encode, but decoding that encoding fails with SetDuplicate |
| `SignerInfoSet.LongerFirstInputReordered` | pkcs7/src/signer_info.rs:58-60 | a SET written with its longer element first is accepted and decoded shortest first, and re-encoding it does not give back the input |

## Left out

- The der crate's reader and writer are not part of this model. `Der` is a minimal stand-in:
  - identifiers are single octets, so there are no high tag numbers;
  - lengths above 0x0FFF_FFFF, the limit of der's `Length`, are refused with
    `Overflow` both when writing and when reading, so length fields carry at
    most four octets;
  - indefinite lengths are refused.
- When an optional context field is absent, der's reader skips context-specific fields with lower tag numbers before deciding. At the `unsignedAttrs` position, after the signature, it consumes and discards a `[0]` element (0xA0 or 0x80) and reports the set absent. The model compares the whole identifier octet (0xA0 or 0xA1) and skips nothing, so it refuses such contents with TrailingData. `FieldsCanonical` and `SignerInfoCanonical` hold for the model's decoder, not for der's on that input.
- The insides of `Name`, `SerialNumber`, `AlgorithmIdentifier`, `SubjectKeyIdentifier`, `CmsVersion` and `Attribute` belong to other crates (x509_cert, spki, the crate's version module). Each is opaque contents under a fixed identifier, and the model does not check them.
- Attribute sets are `SetOfVec` values too, so der keeps them sorted by its order for `Attribute`. That order's hook lives in x509_cert and is not part of this model. The model keeps attributes in the order given, and does not run der's duplicate check on a decoded attribute set.
- der's `SetOfVec` is modelled by its order and its sort, not its storage. The model covers the comparison of headers, then `value_cmp`, the insertion sort run when the collection is built or decoded, and the check after decoding that each element compares Less than the next. Inserting into an existing collection is not modelled.
- Sorting SET OF elements by their complete encodings (ITU-T X.690 section 11.6) is not what the code does, and the model does not do it either.
- RFC 5652 section 5.3 ties version to the sid alternative. The source does not check this, and neither does the model.
- Borrowed and owned variants (`OctetStringRef`, lifetimes) are not modelled. Everything is an owned octet sequence.
- Cryptography is out of scope. No digest or signature is computed or checked.
- No error is raised for an empty present attribute set. `WellFormed` states SIZE (1..MAX), but neither the encoder nor the decoder enforces it; this follows the code.
