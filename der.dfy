/** Minimal DER framing after ITU-T X.690: one-octet identifiers (section 8.1.2)
    and definite lengths in their shortest form (sections 8.1.3 and 10.1).
    This is support code standing in for the der crate's TLV reader and writer;
    like der, it refuses lengths above MaxLength, so the length field carries
    at most four octets. */
module Der {

  type byte = x: int | 0 <= x < 0x100

  /** The largest content length the framing writes or reads: der's limit of
      256 MiB less one octet. */
  const MaxLength: nat := 0x0FFF_FFFF

  datatype Error =
    | TagMismatch(actual: byte)  // the identifier found where another was expected
    | LengthMismatch             // the declared length runs past the input
    | NonCanonicalLength         // indefinite, non-minimal or over-long length octets
    | MissingField               // input exhausted where a mandatory element was due
    | TrailingData               // bytes left over after a complete value
    | Overflow                   // a length above MaxLength
    | SetDuplicate               // neighbouring elements of a SET OF that do not compare Less

  datatype Result<T> = Ok(value: T) | Err(error: Error) {
    predicate IsFailure() { Err? }
    function PropagateFailure<U>(): Result<U> requires Err? { Err(error) }
    function Extract(): T requires Ok? { value }
  }

  datatype Option<T> = None | Some(value: T)

  /** A decoded value together with the input that follows it. */
  datatype Parsed<T> = Parsed(value: T, rest: seq<byte>)

  /** One element read off the wire: its identifier octet and its contents. */
  datatype Tlv = Tlv(tag: byte, content: seq<byte>)

  function Pow256(k: nat): (r: nat)
    ensures r >= 1
  {
    if k == 0 then 1 else 256 * Pow256(k - 1)
  }

  /** The big-endian base-256 digits of n without a leading zero octet. */
  function BigEndian(n: nat): (r: seq<byte>)
    ensures n > 0 <==> |r| > 0
    ensures n > 0 ==> r[0] != 0
    decreases n
  {
    if n == 0 then [] else BigEndian(n / 256) + [n % 256]
  }

  /** The number whose big-endian base-256 digits are s. */
  function FromBigEndian(s: seq<byte>): nat
  {
    if s == [] then 0 else FromBigEndian(s[..|s| - 1]) * 256 + s[|s| - 1]
  }

  lemma {:induction false} BigEndianRoundTrip(n: nat)
    ensures FromBigEndian(BigEndian(n)) == n
  {
    if n > 0 {
      BigEndianRoundTrip(n / 256);
      var b := BigEndian(n);
      assert b[..|b| - 1] == BigEndian(n / 256);
    }
  }

  lemma {:induction false} FromBigEndianRoundTrip(s: seq<byte>)
    requires s == [] || s[0] != 0
    ensures BigEndian(FromBigEndian(s)) == s
  {
    if s != [] {
      var init := s[..|s| - 1];
      FromBigEndianRoundTrip(init);
      var m := FromBigEndian(init);
      var n := FromBigEndian(s);
      assert n == m * 256 + s[|s| - 1];
      assert n / 256 == m && n % 256 == s[|s| - 1];
      assert n > 0 by {
        if init == [] {
          assert n == s[0];
        } else {
          assert BigEndian(m) != [];
        }
      }
      assert s == init + [s[|s| - 1]];
    }
  }

  lemma {:induction false} BigEndianLength(n: nat, k: nat)
    requires n < Pow256(k)
    ensures |BigEndian(n)| <= k
  {
    if n > 0 {
      assert k > 0;
      assert n / 256 < Pow256(k - 1);
      BigEndianLength(n / 256, k - 1);
    }
  }

  /** The length octets of X.690 section 8.1.3 in their DER form: the short
      form below 128, otherwise the long form with the fewest octets. */
  function EncodeLength(n: nat): (r: seq<byte>)
    requires n <= MaxLength
    ensures 1 <= |r| <= 5
  {
    if n < 0x80 then [n]
    else
      assert Pow256(4) == 0x1_0000_0000;
      BigEndianLength(n, 4);
      var b := BigEndian(n);
      [0x80 + |b|] + b
  }

  /** Reads length octets, refusing the indefinite form, every form that is
      not the shortest one and every length above MaxLength. */
  function DecodeLength(s: seq<byte>): (r: Result<Parsed<nat>>)
    ensures r.Ok? ==> |r.value.rest| < |s|
  {
    if |s| == 0 then Err(LengthMismatch)
    else if s[0] < 0x80 then Ok(Parsed(s[0], s[1..]))
    else if s[0] == 0x80 || s[0] > 0x84 then Err(NonCanonicalLength)
    else
      var k := s[0] - 0x80;
      if |s| < 1 + k then Err(LengthMismatch)
      else if s[1] == 0 || FromBigEndian(s[1..1 + k]) < 0x80 then Err(NonCanonicalLength)
      else if FromBigEndian(s[1..1 + k]) > MaxLength then Err(Overflow)
      else Ok(Parsed(FromBigEndian(s[1..1 + k]), s[1 + k..]))
  }

  lemma LengthRoundTrip(n: nat, rest: seq<byte>)
    requires n <= MaxLength
    ensures DecodeLength(EncodeLength(n) + rest) == Ok(Parsed(n, rest))
  {
    var s := EncodeLength(n) + rest;
    if n >= 0x80 {
      var b := BigEndian(n);
      assert s == [0x80 + |b|] + b + rest;
      assert s[1..1 + |b|] == b;
      assert s[1 + |b|..] == rest;
      BigEndianRoundTrip(n);
    }
  }

  /** The long form DecodeLength accepts is the one EncodeLength writes. */
  lemma LongLengthCanonical(s: seq<byte>, k: nat)
    requires 1 <= k <= 4 && |s| >= 1 + k && s[0] == 0x80 + k
    requires s[1] != 0 && 0x80 <= FromBigEndian(s[1..1 + k]) <= MaxLength
    ensures s == EncodeLength(FromBigEndian(s[1..1 + k])) + s[1 + k..]
  {
    var digits := s[1..1 + k];
    var n := FromBigEndian(digits);
    FromBigEndianRoundTrip(digits);
    assert EncodeLength(n) == [0x80 + |digits|] + digits;
    assert s == [s[0]] + digits + s[1 + k..];
  }

  /** DER lengths are unique: whatever DecodeLength accepts is exactly the
      encoding of the length it returns. */
  lemma LengthCanonical(s: seq<byte>)
    requires DecodeLength(s).Ok?
    ensures DecodeLength(s).value.value <= MaxLength
    ensures s == EncodeLength(DecodeLength(s).value.value) + DecodeLength(s).value.rest
  {
    if s[0] >= 0x80 {
      var k := s[0] - 0x80;
      assert DecodeLength(s) == Ok(Parsed(FromBigEndian(s[1..1 + k]), s[1 + k..]));
      LongLengthCanonical(s, k);
    } else {
      assert s == [s[0]] + s[1..];
    }
  }

  /** Writes one element: identifier, DER length, contents. */
  function Frame(tag: byte, content: seq<byte>): (r: Result<seq<byte>>)
    ensures r.Ok? <==> |content| <= MaxLength
    ensures r.Ok? ==> |content| < |r.value| <= |content| + 6 && r.value[0] == tag
  {
    if |content| > MaxLength then Err(Overflow)
    else Ok([tag] + EncodeLength(|content|) + content)
  }

  /** Reads one element whatever its identifier. */
  function ReadTlv(s: seq<byte>): (r: Result<Parsed<Tlv>>)
    ensures s == [] ==> r == Err(MissingField)
    ensures r.Ok? ==> |r.value.rest| < |s| && r.value.value.tag == s[0]
  {
    if s == [] then Err(MissingField)
    else
      var len :- DecodeLength(s[1..]);
      if |len.rest| < len.value then Err(LengthMismatch)
      else Ok(Parsed(Tlv(s[0], len.rest[..len.value]), len.rest[len.value..]))
  }

  /** Reads one element that must carry the identifier tag and returns its contents. */
  function ReadExpected(tag: byte, s: seq<byte>): (r: Result<Parsed<seq<byte>>>)
    ensures s == [] ==> r == Err(MissingField)
    ensures s != [] && s[0] != tag ==> r == Err(TagMismatch(s[0]))
    ensures r.Ok? ==> |r.value.rest| < |s|
  {
    if s == [] then Err(MissingField)
    else if s[0] != tag then Err(TagMismatch(s[0]))
    else
      var t :- ReadTlv(s);
      Ok(Parsed(t.value.content, t.rest))
  }

  lemma FrameRoundTrip(tag: byte, content: seq<byte>, rest: seq<byte>)
    requires Frame(tag, content).Ok?
    ensures ReadTlv(Frame(tag, content).value + rest) == Ok(Parsed(Tlv(tag, content), rest))
    ensures ReadExpected(tag, Frame(tag, content).value + rest) == Ok(Parsed(content, rest))
  {
    var s := Frame(tag, content).value + rest;
    var len := EncodeLength(|content|);
    assert s[1..] == len + (content + rest);
    LengthRoundTrip(|content|, content + rest);
    assert (content + rest)[..|content|] == content;
    assert (content + rest)[|content|..] == rest;
  }

  /** A successful ReadTlv is one DecodeLength followed by a split of the rest. */
  lemma ReadTlvParts(s: seq<byte>)
    requires ReadTlv(s).Ok?
    ensures s != [] && DecodeLength(s[1..]).Ok?
    ensures DecodeLength(s[1..]).value.value <= |DecodeLength(s[1..]).value.rest|
    ensures ReadTlv(s).value.value.content == DecodeLength(s[1..]).value.rest[..DecodeLength(s[1..]).value.value]
    ensures ReadTlv(s).value.rest == DecodeLength(s[1..]).value.rest[DecodeLength(s[1..]).value.value..]
  {
  }

  lemma FrameShape(tag: byte, content: seq<byte>)
    requires |content| <= MaxLength
    ensures Frame(tag, content) == Ok([tag] + EncodeLength(|content|) + content)
  {
  }

  /** Whatever ReadTlv accepts is exactly one framed element followed by the rest. */
  lemma ReadTlvCanonical(s: seq<byte>)
    requires ReadTlv(s).Ok?
    ensures Frame(ReadTlv(s).value.value.tag, ReadTlv(s).value.value.content).Ok?
    ensures s == Frame(ReadTlv(s).value.value.tag, ReadTlv(s).value.value.content).value
                 + ReadTlv(s).value.rest
  {
    ReadTlvParts(s);
    var len := DecodeLength(s[1..]).value;
    var t := ReadTlv(s).value;
    var content := t.value.content;
    LengthCanonical(s[1..]);
    assert |content| == len.value <= MaxLength;
    assert len.rest == content + t.rest;
    Reframe(s, EncodeLength(len.value), content, t.rest);
    FrameShape(s[0], content);
  }

  lemma Reframe(s: seq<byte>, lengthOctets: seq<byte>, content: seq<byte>, rest: seq<byte>)
    requires s != [] && s[1..] == lengthOctets + (content + rest)
    ensures s == [s[0]] + lengthOctets + content + rest
  {
    assert s == [s[0]] + s[1..];
  }

  lemma ReadExpectedCanonical(tag: byte, s: seq<byte>)
    requires ReadExpected(tag, s).Ok?
    ensures Frame(tag, ReadExpected(tag, s).value.value).Ok?
    ensures s == Frame(tag, ReadExpected(tag, s).value.value).value + ReadExpected(tag, s).value.rest
  {
    ReadTlvCanonical(s);
  }

  /** The identifiers of the consecutive elements that make up s. */
  function Tags(s: seq<byte>): Result<seq<byte>>
    decreases |s|
  {
    if s == [] then Ok([])
    else
      var t :- ReadTlv(s);
      var ts :- Tags(t.rest);
      Ok([t.value.tag] + ts)
  }

  lemma TagsOfElement(b: seq<byte>, tag: byte, rest: seq<byte>, ts: seq<byte>)
    requires ReadTlv(b + rest).Ok? && ReadTlv(b + rest).value.rest == rest
    requires ReadTlv(b + rest).value.value.tag == tag
    requires Tags(rest) == Ok(ts)
    ensures Tags(b + rest) == Ok([tag] + ts)
  {
    assert b + rest != [] by {
      assert |ReadTlv(b + rest).value.rest| < |b + rest|;
    }
  }

  lemma TagsOfFrame(tag: byte, content: seq<byte>, b: seq<byte>, rest: seq<byte>, ts: seq<byte>)
    requires Frame(tag, content) == Ok(b) && Tags(rest) == Ok(ts)
    ensures Tags(b + rest) == Ok([tag] + ts)
  {
    FrameRoundTrip(tag, content, rest);
    TagsOfElement(b, tag, rest, ts);
  }

  // Ordering octet strings

  datatype Ordering = Less | Equal | Greater

  function Reverse(o: Ordering): Ordering
  {
    match o
    case Less => Greater
    case Equal => Equal
    case Greater => Less
  }

  /** Lexicographic order on octet strings, comparing octets as unsigned
      numbers; a proper prefix comes first. */
  function CompareOctets(a: seq<byte>, b: seq<byte>): Ordering
    decreases |a|
  {
    if a == [] then (if b == [] then Equal else Less)
    else if b == [] then Greater
    else if a[0] < b[0] then Less
    else if a[0] > b[0] then Greater
    else CompareOctets(a[1..], b[1..])
  }

  lemma {:induction false} CompareOctetsReverse(a: seq<byte>, b: seq<byte>)
    ensures CompareOctets(b, a) == Reverse(CompareOctets(a, b))
    decreases |a|
  {
    if a != [] && b != [] && a[0] == b[0] {
      CompareOctetsReverse(a[1..], b[1..]);
    }
  }

  lemma {:induction false} CompareOctetsEqual(a: seq<byte>, b: seq<byte>)
    ensures CompareOctets(a, b) == Equal <==> a == b
    decreases |a|
  {
    if a != [] && b != [] && a[0] == b[0] {
      CompareOctetsEqual(a[1..], b[1..]);
      assert a == [a[0]] + a[1..];
      assert b == [b[0]] + b[1..];
    }
  }

  /** Two strings of the same length, each extended by one octet, compare as
      the strings do unless the strings are equal. */
  lemma {:induction false} CompareOctetsAppend(p: seq<byte>, q: seq<byte>, x: byte, y: byte)
    requires |p| == |q|
    ensures p != q ==> CompareOctets(p + [x], q + [y]) == CompareOctets(p, q)
    ensures p == q ==> CompareOctets(p + [x], q + [y]) == CompareOctets([x], [y])
    decreases |p|
  {
    if p == [] {
      assert p + [x] == [x] && q + [y] == [y];
    } else {
      assert (p + [x])[1..] == p[1..] + [x];
      assert (q + [y])[1..] == q[1..] + [y];
      CompareOctetsAppend(p[1..], q[1..], x, y);
      if p[0] == q[0] && p != q {
        assert p[1..] != q[1..] by {
          assert p == [p[0]] + p[1..];
          assert q == [q[0]] + q[1..];
        }
      }
    }
  }

  lemma {:induction false} BigEndianSizeMonotone(m: nat, n: nat)
    requires m <= n
    ensures |BigEndian(m)| <= |BigEndian(n)|
    decreases n
  {
    if m > 0 {
      BigEndianSizeMonotone(m / 256, n / 256);
    }
  }

  /** Among numbers with the same count of digits, the octet order of the
      digits is the numeric order. */
  lemma {:induction false} BigEndianOrder(m: nat, n: nat)
    requires m < n && |BigEndian(m)| == |BigEndian(n)|
    ensures CompareOctets(BigEndian(m), BigEndian(n)) == Less
    decreases n
  {
    var p := BigEndian(m / 256);
    var q := BigEndian(n / 256);
    assert BigEndian(m) == p + [m % 256];
    assert BigEndian(n) == q + [n % 256];
    if m / 256 == n / 256 {
      CompareOctetsAppend(p, q, m % 256, n % 256);
    } else {
      assert m / 256 < n / 256;
      BigEndianOrder(m / 256, n / 256);
      CompareOctetsEqual(p, q);
      CompareOctetsAppend(p, q, m % 256, n % 256);
    }
  }

  lemma EncodeLengthSizeMonotone(m: nat, n: nat)
    requires m <= n <= MaxLength
    ensures |EncodeLength(m)| <= |EncodeLength(n)|
  {
    BigEndianSizeMonotone(m, n);
  }

  /** Comparing DER length octets compares the lengths they encode. */
  lemma LengthOctetsOrder(m: nat, n: nat)
    requires m < n <= MaxLength
    ensures CompareOctets(EncodeLength(m), EncodeLength(n)) == Less
    ensures CompareOctets(EncodeLength(n), EncodeLength(m)) == Greater
  {
    CompareOctetsReverse(EncodeLength(m), EncodeLength(n));
    if m >= 0x80 {
      var bm := BigEndian(m);
      var bn := BigEndian(n);
      BigEndianSizeMonotone(m, n);
      if |bm| == |bn| {
        BigEndianOrder(m, n);
        assert EncodeLength(m)[1..] == bm;
        assert EncodeLength(n)[1..] == bn;
      }
    }
  }
}
