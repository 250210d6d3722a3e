/** Percent-encoding as Python 3's `urllib.parse.quote(s)` does it with its default
    `safe='/'`: the text is encoded as UTF-8, and every byte that is not an
    unreserved character of section 2.3 of RFC 3986 (letters, digits, `-`, `.`,
    `_`, `~`) or `/` becomes `%` followed by two upper-case hex digits
    (section 2.1 of RFC 3986). */
module Percent {

  import opened Optional
  import opened Strings

  type Byte = x: int | 0 <= x < 256

  /** The characters `quote` leaves alone: RFC 3986 unreserved, plus `/`. */
  predicate IsSafe(c: char)
  {
    || ('A' <= c <= 'Z') || ('a' <= c <= 'z') || ('0' <= c <= '9')
    || c == '-' || c == '.' || c == '_' || c == '~' || c == '/'
  }

  predicate IsUpperHex(c: char)
  {
    ('0' <= c <= '9') || ('A' <= c <= 'F')
  }

  /** Hex digits as a decoder accepts them: either case. */
  predicate IsHex(c: char)
  {
    IsUpperHex(c) || ('a' <= c <= 'f')
  }

  function HexValue(c: char): (d: int)
    requires IsHex(c)
    ensures 0 <= d < 16
  {
    if '0' <= c <= '9' then c as int - '0' as int
    else if 'A' <= c <= 'F' then c as int - 'A' as int + 10
    else c as int - 'a' as int + 10
  }

  function HexDigit(d: int): (c: char)
    requires 0 <= d < 16
    ensures IsUpperHex(c) && HexValue(c) == d
  {
    if d < 10 then ('0' as int + d) as char else ('A' as int + d - 10) as char
  }

  /** A Unicode scalar value: what a Dafny `char` (and a Python 3 code point that
      can be encoded) holds. */
  predicate IsScalar(v: int)
  {
    (0 <= v < 0xD800) || (0xE000 <= v <= 0x10FFFF)
  }

  /** The code point carried by a lead byte and its continuation bytes. */
  function Utf8Value(bytes: seq<Byte>): int
    requires 1 <= |bytes| <= 4
  {
    match |bytes|
    case 1 => bytes[0]
    case 2 => (bytes[0] as int - 0xC0) * 64 + (bytes[1] as int - 0x80)
    case 3 => (bytes[0] as int - 0xE0) * 4096 + (bytes[1] as int - 0x80) * 64 + (bytes[2] as int - 0x80)
    case 4 => (bytes[0] as int - 0xF0) * 262144 + (bytes[1] as int - 0x80) * 4096 + (bytes[2] as int - 0x80) * 64 + (bytes[3] as int - 0x80)
  }

  /** How many bytes a UTF-8 sequence has, read off its lead byte; 0 for a byte
      that cannot lead. */
  function SequenceLength(lead: Byte): (n: nat)
    ensures n <= 4
  {
    if lead < 0x80 then 1
    else if 0xC0 <= lead < 0xE0 then 2
    else if 0xE0 <= lead < 0xF0 then 3
    else if 0xF0 <= lead < 0xF8 then 4
    else 0
  }

  /** A byte that continues a multi-byte sequence: `10xxxxxx`. */
  predicate IsContinuation(b: Byte)
  {
    0x80 <= b < 0xC0
  }

  /** The number of bytes the shortest UTF-8 form of a code point takes. */
  function Utf8Length(v: int): nat
  {
    if v < 0x80 then 1 else if v < 0x800 then 2 else if v < 0x10000 then 3 else 4
  }

  /** The UTF-8 encoding of one character. */
  function Utf8(c: char): (bytes: seq<Byte>)
    ensures 1 <= |bytes| <= 4
    ensures SequenceLength(bytes[0]) == |bytes|
    ensures Utf8Value(bytes) == c as int
    ensures |bytes| == 1 <==> c as int < 0x80
    ensures |bytes| == Utf8Length(c as int)
    ensures forall k | 1 <= k < |bytes| :: IsContinuation(bytes[k])
  {
    var n := c as int;
    if n < 0x80 then [n]
    else
      var q1, r1 := n / 64, n % 64;
      if n < 0x800 then [0xC0 + q1, 0x80 + r1]
      else
        var q2, r2 := q1 / 64, q1 % 64;
        if n < 0x10000 then [0xE0 + q2, 0x80 + r2, 0x80 + r1]
        else [0xF0 + q2 / 64, 0x80 + q2 % 64, 0x80 + r2, 0x80 + r1]
  }

  function Utf8String(s: string): seq<Byte>
    decreases |s|
  {
    if s == [] then [] else Utf8(s[0]) + Utf8String(s[1..])
  }

  /** A well-formed UTF-8 sequence: the length its lead byte announces, continuation
      bytes after it, the shortest form of its code point, and a scalar value. */
  predicate ValidSequence(bytes: seq<Byte>)
  {
    && 1 <= |bytes| <= 4
    && SequenceLength(bytes[0]) == |bytes|
    && (forall k | 1 <= k < |bytes| :: IsContinuation(bytes[k]))
    && Utf8Length(Utf8Value(bytes)) == |bytes|
    && IsScalar(Utf8Value(bytes))
  }

  /** A strict UTF-8 decoder: reads each sequence's length off its lead byte and
      rejects bad continuation bytes, overlong forms and surrogates. */
  function DecodeUtf8(bytes: seq<Byte>): (r: Option<string>)
    decreases |bytes|
  {
    if bytes == [] then Some([])
    else
      var n := SequenceLength(bytes[0]);
      if n == 0 || |bytes| < n then None
      else
        var v := Utf8Value(bytes[..n]);
        if !ValidSequence(bytes[..n]) then None
        else match DecodeUtf8(bytes[n..])
          case None => None
          case Some(rest) => Some([v as char] + rest)
  }

  /** One byte as `quote` writes it. */
  function EncodeByte(b: Byte): string
  {
    if b < 0x80 && IsSafe(b as char) then [b as char]
    else ['%', HexDigit(b / 16), HexDigit(b % 16)]
  }

  /** The shape of `quote`'s output: safe characters and `%XX` triples with
      upper-case hex digits, nothing else. */
  predicate WellEncoded(t: string)
    decreases |t|
  {
    if t == [] then true
    else if t[0] == '%' then |t| >= 3 && IsUpperHex(t[1]) && IsUpperHex(t[2]) && WellEncoded(t[3..])
    else IsSafe(t[0]) && WellEncoded(t[1..])
  }

  function EncodeBytes(bytes: seq<Byte>): (t: string)
    ensures WellEncoded(t)
    decreases |bytes|
  {
    if bytes == [] then []
    else
      var head := EncodeByte(bytes[0]);
      var rest := EncodeBytes(bytes[1..]);
      assert (head + rest)[|head|..] == rest;
      assert |head| == 3 ==> (head + rest)[1] == head[1] && (head + rest)[2] == head[2];
      head + rest
  }

  /** Python 3's `quote(s)` with the default safe set `'/'`. */
  function Quote(s: string): (t: string)
    ensures WellEncoded(t)
  {
    EncodeBytes(Utf8String(s))
  }

  /** Percent-decoding to bytes: `%XX` (either case) gives byte XX, any other ASCII
      character gives itself; anything else is malformed. */
  function PercentDecode(t: string): (r: Option<seq<Byte>>)
    decreases |t|
  {
    if t == [] then Some([])
    else if t[0] == '%' then
      if |t| >= 3 && IsHex(t[1]) && IsHex(t[2]) then
        match PercentDecode(t[3..])
        case None => None
        case Some(rest) => Some([HexValue(t[1]) * 16 + HexValue(t[2])] + rest)
      else None
    else if t[0] as int < 0x80 then
      match PercentDecode(t[1..])
      case None => None
      case Some(rest) => Some([t[0] as int] + rest)
    else None
  }

  /** The decoder for what `quote` writes: percent-decoding followed by strict UTF-8
      decoding. Unlike Python's lenient `unquote`, it reports malformed text as
      `None` instead of passing it through or substituting U+FFFD. */
  function Unquote(t: string): Option<string>
  {
    match PercentDecode(t)
    case None => None
    case Some(bytes) => DecodeUtf8(bytes)
  }

  /** Every character of well-encoded text is safe or `%`. */
  lemma {:induction false} WellEncodedChars(t: string)
    requires WellEncoded(t)
    ensures forall i | 0 <= i < |t| :: IsSafe(t[i]) || t[i] == '%'
    decreases |t|
  {
    if t != [] {
      if t[0] == '%' {
        WellEncodedChars(t[3..]);
        forall i | 3 <= i < |t| ensures IsSafe(t[i]) || t[i] == '%' {
          assert t[i] == t[3..][i - 3];
        }
      } else {
        WellEncodedChars(t[1..]);
        forall i | 1 <= i < |t| ensures IsSafe(t[i]) || t[i] == '%' {
          assert t[i] == t[1..][i - 1];
        }
      }
    }
  }

  /** What `quote` produces contains no angle bracket, so it can never open or
      close a `<name>` placeholder by itself. */
  lemma QuoteHasNoBrackets(s: string)
    ensures '<' !in Quote(s) && '>' !in Quote(s)
  {
    WellEncodedChars(Quote(s));
  }

  /** Decoding the encoding of a byte string gives the bytes back. */
  lemma {:induction false} DecodeEncodeBytes(bytes: seq<Byte>)
    ensures PercentDecode(EncodeBytes(bytes)) == Some(bytes)
    decreases |bytes|
  {
    if bytes != [] {
      DecodeEncodeBytes(bytes[1..]);
      DecodeEncodeByte(bytes[0], EncodeBytes(bytes[1..]), bytes[1..]);
      assert bytes == [bytes[0]] + bytes[1..];
    }
  }

  /** Decoding one encoded byte in front of decodable text puts the byte in front. */
  lemma DecodeEncodeByte(b: Byte, t: string, rest: seq<Byte>)
    requires PercentDecode(t) == Some(rest)
    ensures PercentDecode(EncodeByte(b) + t) == Some([b] + rest)
  {
    var u := EncodeByte(b) + t;
    if b < 0x80 && IsSafe(b as char) {
      assert u[0] == b as char && u[1..] == t;
    } else {
      assert u[0] == '%' && u[1] == HexDigit(b / 16) && u[2] == HexDigit(b % 16);
      assert u[3..] == t;
    }
  }

  /** Decoding the UTF-8 encoding of a string gives the string back. */
  lemma {:induction false} DecodeUtf8String(s: string)
    ensures DecodeUtf8(Utf8String(s)) == Some(s)
    decreases |s|
  {
    if s != [] {
      var head := Utf8(s[0]);
      var bytes := head + Utf8String(s[1..]);
      DecodeUtf8String(s[1..]);
      assert bytes[..|head|] == head;
      assert bytes[|head|..] == Utf8String(s[1..]);
      assert bytes[0] == head[0];
      assert s == [s[0]] + s[1..];
    }
  }

  /** A quotient and remainder by 64 are recovered by `/` and `%`. */
  lemma DivMod(q: int, r: int)
    requires 0 <= q && 0 <= r < 64
    ensures (q * 64 + r) / 64 == q && (q * 64 + r) % 64 == r
  {
  }

  /** The only well-formed sequence for a code point is its UTF-8 encoding, so
      `quote` writes the shortest form and no other. */
  lemma Utf8OfSequence(bytes: seq<Byte>)
    requires ValidSequence(bytes)
    ensures Utf8(Utf8Value(bytes) as char) == bytes
  {
    var v := Utf8Value(bytes);
    var e := Utf8(v as char);
    assert |e| == |bytes|;
    if |bytes| == 2 {
      DivMod(bytes[0] as int - 0xC0, bytes[1] as int - 0x80);
    } else if |bytes| == 3 {
      var q1 := (bytes[0] as int - 0xE0) * 64 + (bytes[1] as int - 0x80);
      assert v == q1 * 64 + (bytes[2] as int - 0x80);
      DivMod(q1, bytes[2] as int - 0x80);
      DivMod(bytes[0] as int - 0xE0, bytes[1] as int - 0x80);
    } else if |bytes| == 4 {
      var q2 := (bytes[0] as int - 0xF0) * 64 + (bytes[1] as int - 0x80);
      var q1 := q2 * 64 + (bytes[2] as int - 0x80);
      assert v == q1 * 64 + (bytes[3] as int - 0x80);
      DivMod(q1, bytes[3] as int - 0x80);
      DivMod(q2, bytes[2] as int - 0x80);
      DivMod(bytes[0] as int - 0xF0, bytes[1] as int - 0x80);
    }
  }

  /** Whatever the decoder accepts is the UTF-8 encoding of what it returns: no
      overlong or otherwise non-canonical form gets through. */
  lemma {:induction false} Utf8StringOfDecoded(bytes: seq<Byte>, s: string)
    requires DecodeUtf8(bytes) == Some(s)
    ensures Utf8String(s) == bytes
    decreases |bytes|
  {
    if bytes != [] {
      var n := SequenceLength(bytes[0]);
      var head := bytes[..n];
      var rest := DecodeUtf8(bytes[n..]).value;
      assert s == [Utf8Value(head) as char] + rest;
      Utf8OfSequence(head);
      Utf8StringOfDecoded(bytes[n..], rest);
      assert s[0] == Utf8Value(head) as char && s[1..] == rest;
      assert bytes == head + bytes[n..];
    }
  }

  /** `unquote(quote(s)) == s`: percent-encoding loses nothing. */
  lemma UnquoteQuote(s: string)
    ensures Unquote(Quote(s)) == Some(s)
  {
    DecodeEncodeBytes(Utf8String(s));
    DecodeUtf8String(s);
  }

  lemma {:induction false} Utf8StringAppend(a: string, b: string)
    ensures Utf8String(a + b) == Utf8String(a) + Utf8String(b)
    decreases |a|
  {
    if a != [] {
      var ab := a + b;
      assert ab[0] == a[0] && ab[1..] == a[1..] + b;
      Utf8StringAppend(a[1..], b);
      AppendAssoc(Utf8(a[0]), Utf8String(a[1..]), Utf8String(b));
    } else {
      assert a + b == b;
    }
  }

  lemma {:induction false} EncodeBytesAppend(a: seq<Byte>, b: seq<Byte>)
    ensures EncodeBytes(a + b) == EncodeBytes(a) + EncodeBytes(b)
    decreases |a|
  {
    if a != [] {
      var ab := a + b;
      EncodeBytesCons(ab);
      EncodeBytesCons(a);
      assert ab[0] == a[0] && ab[1..] == a[1..] + b;
      EncodeBytesAppend(a[1..], b);
      AppendAssoc(EncodeByte(a[0]), EncodeBytes(a[1..]), EncodeBytes(b));
    } else {
      assert a + b == b;
    }
  }

  lemma EncodeBytesCons(bytes: seq<Byte>)
    requires bytes != []
    ensures EncodeBytes(bytes) == EncodeByte(bytes[0]) + EncodeBytes(bytes[1..])
  {
  }

  /** `quote` encodes character by character: the encoding of a concatenation is the
      concatenation of the encodings. */
  lemma QuoteAppend(a: string, b: string)
    ensures Quote(a + b) == Quote(a) + Quote(b)
  {
    Utf8StringAppend(a, b);
    EncodeBytesAppend(Utf8String(a), Utf8String(b));
  }

  /** Text made only of safe characters is its own encoding. */
  lemma {:induction false} QuoteSafeIsIdentity(s: string)
    requires forall i | 0 <= i < |s| :: IsSafe(s[i])
    ensures Quote(s) == s
    decreases |s|
  {
    if s != [] {
      QuoteSafeIsIdentity(s[1..]);
      assert Utf8(s[0]) == [s[0] as int];
      assert Utf8String(s) == [s[0] as int] + Utf8String(s[1..]);
      var bytes := Utf8String(s);
      assert bytes[0] == s[0] as int && bytes[1..] == Utf8String(s[1..]);
      assert s == [s[0]] + s[1..];
    }
  }
}
