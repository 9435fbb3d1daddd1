/** Base64 on the wire: the standard encoding (section 4 of RFC 4648) broken into lines of at most 76
    characters (section 6.8 of RFC 2045), and the lenient decoder of inbound mail. */
module Base64Wire {
  import opened Prelude

  type Byte = b: int | 0 <= b < 256
  type Sextet = n: int | 0 <= n < 64

  function CharOf(n: Sextet): char {
    if n < 26 then 'A' + n as char
    else if n < 52 then 'a' + (n - 26) as char
    else if n < 62 then '0' + (n - 52) as char
    else if n == 62 then '+'
    else '/'
  }

  function SextetOf(c: char): Option<Sextet> {
    if 'A' <= c <= 'Z' then Some((c - 'A') as int)
    else if 'a' <= c <= 'z' then Some((c - 'a') as int + 26)
    else if '0' <= c <= '9' then Some((c - '0') as int + 52)
    else if c == '+' then Some(62)
    else if c == '/' then Some(63)
    else None
  }

  predicate Digits(s: string) {
    forall c <- s :: SextetOf(c).Some?
  }

  // ------------------------------------------------------------------ encoding

  /** The digits of a group of one, two or three bytes, without padding. */
  function Group(b: seq<Byte>): (s: string)
    requires 1 <= |b| <= 3
    ensures |s| == |b| + 1
  {
    if |b| == 1 then [CharOf(b[0] / 4), CharOf(b[0] % 4 * 16)]
    else if |b| == 2 then [CharOf(b[0] / 4), CharOf(b[0] % 4 * 16 + b[1] / 16), CharOf(b[1] % 16 * 4)]
    else [CharOf(b[0] / 4), CharOf(b[0] % 4 * 16 + b[1] / 16), CharOf(b[1] % 16 * 4 + b[2] / 64), CharOf(b[2] % 64)]
  }

  function EncodeRaw(b: seq<Byte>): string {
    if b == [] then "" else if |b| < 3 then Group(b) else Group(b[..3]) + EncodeRaw(b[3..])
  }

  function Padding(b: seq<Byte>): string {
    if |b| % 3 == 1 then "==" else if |b| % 3 == 2 then "=" else ""
  }

  function Encode(b: seq<Byte>): string {
    EncodeRaw(b) + Padding(b)
  }

  // ------------------------------------------------------------------ decoding

  function ValueOf(c: char): Sextet {
    SextetOf(c).GetOr(0)
  }

  /** The bytes of two, three or four digits; bits that fill no byte are dropped. */
  function Ungroup(s: string): seq<Byte>
    requires 2 <= |s| <= 4 && Digits(s)
  {
    var b0 := ValueOf(s[0]) * 4 + ValueOf(s[1]) / 16;
    if |s| == 2 then [b0]
    else
      var b1 := ValueOf(s[1]) % 16 * 16 + ValueOf(s[2]) / 4;
      if |s| == 3 then [b0, b1]
      else [b0, b1, ValueOf(s[2]) % 4 * 64 + ValueOf(s[3])]
  }

  /** Decoding without padding: any length but one over a multiple of four. */
  function DecodeRaw(s: string): Option<seq<Byte>> {
    if s == "" then Some([])
    else if !Digits(s) || |s| == 1 then None
    else if |s| < 4 then Some(Ungroup(s))
    else
      match DecodeRaw(s[4..])
      case Some(rest) => Some(Ungroup(s[..4]) + rest)
      case None => None
  }

  /** Without the equals signs at its end. */
  function Unpadded(s: string): string {
    if s != "" && s[|s| - 1] == '=' then Unpadded(s[..|s| - 1]) else s
  }

  /** Decoding with padding: full groups of four, the last one filled up by one or two equals signs. */
  function DecodePadded(s: string): Option<seq<Byte>> {
    if |s| % 4 != 0 || |s| - |Unpadded(s)| > 2 then None else DecodeRaw(Unpadded(s))
  }

  predicate Skipped(c: char) {
    c == '\r' || c == '\n' || c == ' ' || c == '\t'
  }

  function Clean(s: string): string {
    if s == "" then "" else (if Skipped(s[0]) then "" else [s[0]]) + Clean(s[1..])
  }

  /** The outcome of the base64 case: the decoded bytes, or the text as it came when neither variant
      decodes it. */
  datatype Decoded = Bytes(bytes: seq<Byte>) | Untouched(raw: string)

  function Decode(raw: string): Decoded {
    match DecodePadded(Clean(raw))
    case Some(bytes) => Bytes(bytes)
    case None =>
      match DecodeRaw(Unpadded(Clean(raw)))
      case Some(bytes) => Bytes(bytes)
      case None => Untouched(raw)
  }

  // ------------------------------------------------------------------ wrapping

  const LINE := 76
  const CRLF := "\r\n"

  /** Full lines each ended by a line break, then the rest, which is empty only for empty text. */
  function Wrapped(enc: string): string {
    if |enc| > LINE then enc[..LINE] + CRLF + Wrapped(enc[LINE..]) else enc
  }

  /** Every line ended by a line break, the last included. */
  function WrappedPart(enc: string): string {
    if enc == "" then ""
    else if |enc| <= LINE then enc + CRLF
    else enc[..LINE] + CRLF + WrappedPart(enc[LINE..])
  }

  method WrappedBase64(b: seq<Byte>) returns (s: string)
    ensures s == Wrapped(Encode(b))
  {
    var enc := Encode(b);
    s := "";
    while |enc| > LINE
      invariant s + Wrapped(enc) == Wrapped(Encode(b))
      decreases |enc|
    {
      s := s + enc[..LINE];
      s := s + CRLF;
      enc := enc[LINE..];
    }
    s := s + enc;
  }

  /** What is still to be written from position i on, which may lie past the end. */
  ghost function Unwritten(enc: string, i: nat): string {
    if i <= |enc| then WrappedPart(enc[i..]) else ""
  }

  lemma WriteLine(s: string, enc: string, i: nat, end: nat)
    requires i < |enc| && end == (if i + LINE > |enc| then |enc| else i + LINE)
    ensures s + enc[i..end] + CRLF + Unwritten(enc, i + LINE) == s + Unwritten(enc, i)
  {
    assert Unwritten(enc, i) == enc[i..end] + CRLF + Unwritten(enc, i + LINE) by {
      UnwrittenLine(enc, i, end);
    }
  }

  lemma UnwrittenLine(enc: string, i: nat, end: nat)
    requires i < |enc| && end == (if i + LINE > |enc| then |enc| else i + LINE)
    ensures Unwritten(enc, i) == enc[i..end] + CRLF + Unwritten(enc, i + LINE)
  {
    var rest := enc[i..];
    if |rest| > LINE {
      assert rest[..LINE] == enc[i..end] && rest[LINE..] == enc[i + LINE..];
    } else {
      assert enc[i..end] == rest;
      assert Unwritten(enc, i + LINE) == "";
    }
  }

  /** The body that writeAttachmentPart appends after the part's headers. */
  method WriteAttachmentBody(sb: string, data: seq<Byte>) returns (s: string)
    ensures s == sb + WrappedPart(Encode(data))
  {
    var enc := Encode(data);
    s := sb;
    var i := 0;
    assert enc[0..] == enc;
    while i < |enc|
      invariant 0 <= i
      invariant s + Unwritten(enc, i) == sb + WrappedPart(enc)
      decreases |enc| - i
    {
      var end := i + LINE;
      if end > |enc| {
        end := |enc|;
      }
      WriteLine(s, enc, i, end);
      s := s + enc[i..end];
      s := s + CRLF;
      i := i + LINE;
    }
  }

  // --------------------------------------------------------------- round trips

  /** The high bits of one byte and the low bits of the next, put together and taken apart. */
  lemma TakeApart(x: Byte, y: Byte)
    ensures (x % 4 * 16 + y / 16) / 16 == x % 4 && (x % 4 * 16 + y / 16) % 16 == y / 16
    ensures (x % 16 * 4 + y / 64) / 4 == x % 16 && (x % 16 * 4 + y / 64) % 4 == y / 64
  {
  }

  lemma ValueOfChar(n: Sextet)
    ensures SextetOf(CharOf(n)).Some? && ValueOf(CharOf(n)) == n
  {
  }

  lemma OneByte(b: seq<Byte>)
    requires |b| == 1
    ensures Digits(Group(b)) && Ungroup(Group(b)) == b
  {
    TakeApart(b[0], 0);
    ValueOfChar(b[0] / 4);
    ValueOfChar(b[0] % 4 * 16);
  }

  lemma TwoBytes(b: seq<Byte>)
    requires |b| == 2
    ensures Digits(Group(b)) && Ungroup(Group(b)) == b
  {
    TakeApart(b[0], b[1]);
    TakeApart(b[1], 0);
    ValueOfChar(b[0] / 4);
    ValueOfChar(b[0] % 4 * 16 + b[1] / 16);
    ValueOfChar(b[1] % 16 * 4);
  }

  lemma ThreeBytes(b: seq<Byte>)
    requires |b| == 3
    ensures Digits(Group(b)) && Ungroup(Group(b)) == b
  {
    TakeApart(b[0], b[1]);
    TakeApart(b[1], b[2]);
    ValueOfChar(b[0] / 4);
    ValueOfChar(b[0] % 4 * 16 + b[1] / 16);
    ValueOfChar(b[1] % 16 * 4 + b[2] / 64);
    ValueOfChar(b[2] % 64);
  }

  lemma UngroupGroup(b: seq<Byte>)
    requires 1 <= |b| <= 3
    ensures Digits(Group(b)) && Ungroup(Group(b)) == b
  {
    if |b| == 1 {
      OneByte(b);
    } else if |b| == 2 {
      TwoBytes(b);
    } else {
      ThreeBytes(b);
    }
  }

  lemma {:induction false} RawRoundTrip(b: seq<Byte>)
    ensures Digits(EncodeRaw(b)) && DecodeRaw(EncodeRaw(b)) == Some(b)
  {
    if b == [] {
    } else if |b| < 3 {
      UngroupGroup(b);
    } else {
      UngroupGroup(b[..3]);
      RawRoundTrip(b[3..]);
      DecodeStep(Group(b[..3]), EncodeRaw(b[3..]));
      assert b == b[..3] + b[3..];
    }
  }

  lemma DecodeStep(group: string, rest: string)
    requires |group| == 4 && Digits(group) && Digits(rest) && DecodeRaw(rest).Some?
    ensures Digits(group + rest)
    ensures DecodeRaw(group + rest) == Some(Ungroup(group) + DecodeRaw(rest).value)
  {
    var s := group + rest;
    assert s[..4] == group && s[4..] == rest;
  }

  lemma {:induction false} RawLength(b: seq<Byte>, groups: nat, rest: nat)
    requires |b| == 3 * groups + rest && rest < 3
    ensures |EncodeRaw(b)| == 4 * groups + (if rest == 0 then 0 else rest + 1)
  {
    if groups > 0 {
      RawLength(b[3..], groups - 1, rest);
    }
  }

  function Equals(n: nat): (s: string)
    ensures |s| == n
  {
    seq(n, _ => '=')
  }

  lemma {:induction false} UnpadDigits(s: string, n: nat)
    requires Digits(s)
    ensures Unpadded(s + Equals(n)) == s
  {
    var t := s + Equals(n);
    if n == 0 {
      assert t == s;
      assert s != "" ==> s[|s| - 1] in s;
    } else {
      assert t[..|t| - 1] == s + Equals(n - 1);
      UnpadDigits(s, n - 1);
    }
  }

  lemma {:induction false} CleanDigits(s: string)
    requires forall c <- s :: !Skipped(c)
    ensures Clean(s) == s
  {
    if s != "" {
      CleanDigits(s[1..]);
    }
  }

  lemma {:induction false} CleanConcat(s: string, t: string)
    ensures Clean(s + t) == Clean(s) + Clean(t)
  {
    if s == "" {
      assert s + t == t;
    } else {
      assert (s + t)[1..] == s[1..] + t;
      CleanConcat(s[1..], t);
    }
  }

  /** Whatever white space was put in and however many equals signs follow the digits: the decoder
      returns the bytes that were encoded. */
  lemma LenientRoundTrip(b: seq<Byte>, n: nat, raw: string)
    requires Clean(raw) == EncodeRaw(b) + Equals(n)
    ensures Decode(raw) == Bytes(b)
  {
    RawRoundTrip(b);
    UnpadDigits(EncodeRaw(b), n);
  }

  lemma PaddingIsEquals(b: seq<Byte>)
    ensures Padding(b) == Equals(|Padding(b)|) && |Padding(b)| <= 2
  {
  }

  lemma EncodedIsClean(b: seq<Byte>)
    ensures Clean(Encode(b)) == Encode(b)
  {
    RawRoundTrip(b);
    forall c | c in Encode(b) ensures !Skipped(c) {
      if c in EncodeRaw(b) {
        assert SextetOf(c).Some?;
      } else {
        assert c in Padding(b);
      }
    }
    CleanDigits(Encode(b));
  }

  lemma {:induction false} CleanWrapped(enc: string)
    ensures Clean(Wrapped(enc)) == Clean(enc)
  {
    if |enc| > LINE {
      CleanWrapped(enc[LINE..]);
      CleanConcat(enc[..LINE], CRLF + Wrapped(enc[LINE..]));
      assert enc[..LINE] + CRLF + Wrapped(enc[LINE..]) == enc[..LINE] + (CRLF + Wrapped(enc[LINE..]));
      CleanBreak(Wrapped(enc[LINE..]));
      CleanConcat(enc[..LINE], enc[LINE..]);
      assert enc == enc[..LINE] + enc[LINE..];
    }
  }

  lemma CleanBreak(s: string)
    ensures Clean(CRLF + s) == Clean(s)
  {
    assert (CRLF + s)[1..] == "\n" + s;
    assert ("\n" + s)[1..] == s;
  }

  lemma {:induction false} CleanWrappedPart(enc: string)
    ensures Clean(WrappedPart(enc)) == Clean(enc)
  {
    CleanBreak("");
    assert CRLF + "" == CRLF;
    if enc == "" {
    } else if |enc| <= LINE {
      CleanConcat(enc, CRLF);
    } else {
      CleanWrappedPart(enc[LINE..]);
      CleanConcat(enc[..LINE], CRLF + WrappedPart(enc[LINE..]));
      assert enc[..LINE] + CRLF + WrappedPart(enc[LINE..]) == enc[..LINE] + (CRLF + WrappedPart(enc[LINE..]));
      CleanBreak(WrappedPart(enc[LINE..]));
      CleanConcat(enc[..LINE], enc[LINE..]);
      assert enc == enc[..LINE] + enc[LINE..];
    }
  }

  /** The inbound decoder undoes both ways of putting bytes on the wire. */
  lemma WireRoundTrip(b: seq<Byte>)
    ensures Decode(Wrapped(Encode(b))) == Bytes(b)
    ensures Decode(WrappedPart(Encode(b))) == Bytes(b)
  {
    EncodedIsClean(b);
    CleanWrapped(Encode(b));
    CleanWrappedPart(Encode(b));
    PaddingIsEquals(b);
    LenientRoundTrip(b, |Padding(b)|, Wrapped(Encode(b)));
    LenientRoundTrip(b, |Padding(b)|, WrappedPart(Encode(b)));
  }

  lemma EncodedLength(b: seq<Byte>)
    ensures |Encode(b)| % 4 == 0
  {
    RawLength(b, |b| / 3, |b| % 3);
    FourTimes(|Encode(b)|, if |b| % 3 == 0 then |b| / 3 else |b| / 3 + 1);
  }

  lemma FourTimes(n: int, k: int)
    requires n == 4 * k
    ensures n % 4 == 0
  {
  }

  /** Well-padded text takes the strict path. */
  lemma StrictRoundTrip(b: seq<Byte>)
    ensures |Encode(b)| % 4 == 0 && DecodePadded(Encode(b)) == Some(b)
  {
    RawRoundTrip(b);
    EncodedLength(b);
    PaddingIsEquals(b);
    UnpadDigits(EncodeRaw(b), |Padding(b)|);
  }

  // --------------------------------------------------------------- line lengths

  ghost predicate Unbroken(s: string, i: nat, j: nat)
    requires i <= j <= |s|
  {
    forall k :: i <= k < j ==> s[k] != '\r' && s[k] != '\n'
  }

  /** A stretch of text without a line break is never longer than 76 characters. */
  ghost predicate ShortLines(s: string) {
    forall i, j :: 0 <= i <= j <= |s| && Unbroken(s, i, j) ==> j - i <= 76
  }

  lemma ShortThenRest(line: string, rest: string)
    requires |line| <= LINE && ShortLines(rest)
    ensures ShortLines(line + CRLF + rest)
  {
    var s := line + CRLF + rest;
    var n := |line|;
    assert s[n] == '\r' && s[n + 1] == '\n';
    forall i, j | 0 <= i <= j <= |s| && Unbroken(s, i, j)
      ensures j - i <= 76
    {
      if i >= n + 2 {
        forall k | i - (n + 2) <= k < j - (n + 2) ensures rest[k] == s[k + (n + 2)] {
        }
        assert Unbroken(rest, i - (n + 2), j - (n + 2));
      }
    }
  }

  lemma {:induction false} LinesAreShort(enc: string)
    ensures ShortLines(Wrapped(enc)) && ShortLines(WrappedPart(enc))
  {
    if enc == "" {
    } else if |enc| <= LINE {
      ShortThenRest(enc, "");
      assert enc + CRLF + "" == enc + CRLF;
    } else {
      LinesAreShort(enc[LINE..]);
      ShortThenRest(enc[..LINE], Wrapped(enc[LINE..]));
      ShortThenRest(enc[..LINE], WrappedPart(enc[LINE..]));
    }
  }

  /** Every line but the last has 76 characters, and between lines stand a carriage return and a line feed; one
      of the two ways of wrapping has them after the last line, too. */
  lemma {:induction false} LinesAreFull(line: string, rest: string)
    ensures |line| == 76 && rest != "" ==> Wrapped(line + rest) == line + "\r\n" + Wrapped(rest)
    ensures |line| <= 76 ==> Wrapped(line) == line
    ensures WrappedPart(rest) == if rest == "" then "" else Wrapped(rest) + "\r\n"
    decreases |rest|
  {
    if |line| == 76 && rest != "" {
      assert (line + rest)[..76] == line && (line + rest)[76..] == rest;
    }
    if |rest| > 76 {
      LinesAreFull(rest[..76], rest[76..]);
      assert rest[..76] + rest[76..] == rest;
    }
  }
}
