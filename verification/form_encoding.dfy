/** The `application/x-www-form-urlencoded` serializer that `URLSearchParams.toString()` applies
    (section 5.2 of the WHATWG URL Standard): every name and value is encoded as UTF-8, each byte is
    written as itself when it is an ASCII alphanumeric or one of `*-._`, as `+` when it is a space,
    and as `%XX` (upper-case hexadecimal) otherwise; pairs are joined as `name=value` with `&`.
    A reference parser reads such a query back, and the round trip is proved. */
module FormEncoding {
  import opened Base

  type Byte = b: int | 0 <= b < 256

  /** A name-value pair of a query, in order of insertion. */
  type Param = (string, string)

  /** Integers that `char` can hold: Unicode scalar values. */
  predicate IsScalar(v: int) {
    0 <= v < 0xD800 || 0xE000 <= v < 0x11_0000
  }

  /** The UTF-8 encoding of one Unicode scalar value. */
  function Utf8Char(c: char): (bs: seq<Byte>)
    ensures 1 <= |bs| <= 4
  {
    var v := c as int;
    if v < 0x80 then [v]
    else if v < 0x800 then [0xC0 + v / 64, 0x80 + v % 64]
    else if v < 0x1_0000 then [0xE0 + v / 4096, 0x80 + (v / 64) % 64, 0x80 + v % 64]
    else [0xF0 + v / 262144, 0x80 + (v / 4096) % 64, 0x80 + (v / 64) % 64, 0x80 + v % 64]
  }

  function Utf8(s: string): seq<Byte> {
    if s == [] then [] else Utf8Char(s[0]) + Utf8(s[1..])
  }

  /** How many bytes a UTF-8 sequence starting with lead byte `b` has; 0 when `b` cannot lead. */
  function SequenceLength(b: Byte): nat {
    if b < 0x80 then 1
    else if 0xC0 <= b < 0xE0 then 2
    else if 0xE0 <= b < 0xF0 then 3
    else if 0xF0 <= b < 0xF8 then 4
    else 0
  }

  predicate IsContinuation(b: Byte) {
    0x80 <= b < 0xC0
  }

  /** The scalar value that the first `n` bytes of `bs` encode, when they form one sequence. */
  function DecodeScalar(bs: seq<Byte>, n: nat): Option<char>
    requires 1 <= n <= 4 && n <= |bs|
  {
    var v := ScalarBits(bs, n);
    if (forall k :: 1 <= k < n ==> IsContinuation(bs[k])) && IsScalar(v) then Some(v as char) else None
  }

  /** The payload bits of a sequence of `n` bytes: lead bits first, six bits per continuation byte. */
  function ScalarBits(bs: seq<Byte>, n: nat): int
    requires 1 <= n <= 4 && n <= |bs|
  {
    var b0: int := bs[0];
    if n == 1 then b0
    else
      var lead := if n == 2 then b0 - 0xC0 else if n == 3 then b0 - 0xE0 else b0 - 0xF0;
      ContinuationBits(bs[1..n], lead)
  }

  /** Folds continuation bytes into `acc`, six bits each. */
  function ContinuationBits(cs: seq<Byte>, acc: int): int {
    if cs == [] then acc else ContinuationBits(cs[1..], acc * 64 + (cs[0] as int - 0x80))
  }

  /** A UTF-8 decoder, the reference inverse of `Utf8`. It checks lead and continuation bytes and
      refuses surrogates and values past U+10FFFF, but it does not reject overlong forms:
      `[0xC0, 0x80]` decodes to `"\0"`. */
  function Utf8Decode(bs: seq<Byte>): Option<string>
    decreases |bs|
  {
    if bs == [] then Some([])
    else
      var n := SequenceLength(bs[0]);
      if n == 0 || |bs| < n then None
      else match DecodeScalar(bs, n)
        case None => None
        case Some(c) =>
          match Utf8Decode(bs[n..])
          case None => None
          case Some(rest) => Some([c] + rest)
  }

  lemma TwoByteDecodes(c: char, tail: seq<Byte>)
    requires 0x80 <= c as int < 0x800
    ensures var bs := Utf8Char(c) + tail;
      SequenceLength(bs[0]) == 2 && DecodeScalar(bs, 2) == Some(c)
  {
    var v := c as int;
    var a, r := v / 64, v % 64;
    assert v == a * 64 + r;
    var bs := Utf8Char(c) + tail;
    assert bs[0] == 0xC0 + a && bs[1] == 0x80 + r;
    assert bs[1..2] == [0x80 + r];
    assert ScalarBits(bs, 2) == ContinuationBits([0x80 + r], a) == a * 64 + r;
  }

  lemma ThreeByteDecodes(c: char, tail: seq<Byte>)
    requires 0x800 <= c as int < 0x1_0000
    ensures var bs := Utf8Char(c) + tail;
      SequenceLength(bs[0]) == 3 && DecodeScalar(bs, 3) == Some(c)
  {
    var v := c as int;
    var a, m, r := v / 4096, (v / 64) % 64, v % 64;
    assert v / 64 == a * 64 + m;
    assert v == (v / 64) * 64 + r;
    var bs := Utf8Char(c) + tail;
    assert bs[0] == 0xE0 + a && bs[1] == 0x80 + m && bs[2] == 0x80 + r;
    assert bs[1..3] == [0x80 + m, 0x80 + r];
    assert [0x80 + m, 0x80 + r][1..] == [0x80 + r];
    assert ScalarBits(bs, 3) == ContinuationBits([0x80 + m, 0x80 + r], a)
      == ContinuationBits([0x80 + r], a * 64 + m) == (a * 64 + m) * 64 + r;
  }

  /** The four 3- and 6-bit groups of a supplementary-plane scalar value rebuild it. */
  lemma FourByteGroups(v: int)
    requires 0x1_0000 <= v < 0x11_0000
    ensures 0 <= v / 262144 < 8
    ensures ((v / 262144 * 64 + (v / 4096) % 64) * 64 + (v / 64) % 64) * 64 + v % 64 == v
  {
    assert v / 4096 == v / 262144 * 64 + (v / 4096) % 64;
    assert v / 64 == (v / 4096) * 64 + (v / 64) % 64;
    assert v == (v / 64) * 64 + v % 64;
  }

  lemma FourByteDecodes(c: char, tail: seq<Byte>)
    requires 0x1_0000 <= c as int
    ensures var bs := Utf8Char(c) + tail;
      SequenceLength(bs[0]) == 4 && DecodeScalar(bs, 4) == Some(c)
  {
    var v := c as int;
    var a, m1, m2, r := v / 262144, (v / 4096) % 64, (v / 64) % 64, v % 64;
    FourByteGroups(v);
    var cs := [0x80 + m1, 0x80 + m2, 0x80 + r];
    var bs := Utf8Char(c) + tail;
    assert Utf8Char(c) == [0xF0 + a] + cs;
    assert bs[0] == 0xF0 + a && bs[1..4] == cs;
    assert cs[1..] == [0x80 + m2, 0x80 + r] && cs[1..][1..] == [0x80 + r];
    assert ScalarBits(bs, 4) == ContinuationBits(cs, a)
      == ContinuationBits([0x80 + m2, 0x80 + r], a * 64 + m1)
      == ContinuationBits([0x80 + r], (a * 64 + m1) * 64 + m2)
      == v;
  }

  lemma Utf8CharDecodes(c: char, tail: seq<Byte>)
    ensures var bs := Utf8Char(c) + tail;
      SequenceLength(bs[0]) == |Utf8Char(c)| && DecodeScalar(bs, |Utf8Char(c)|) == Some(c)
  {
    var v := c as int;
    if v < 0x80 {
    } else if v < 0x800 {
      TwoByteDecodes(c, tail);
    } else if v < 0x1_0000 {
      ThreeByteDecodes(c, tail);
    } else {
      FourByteDecodes(c, tail);
    }
  }

  /** Decoding the UTF-8 encoding of a string gives the string back. */
  lemma {:induction false} Utf8RoundTrip(s: string)
    ensures Utf8Decode(Utf8(s)) == Some(s)
  {
    if s != [] {
      var bs := Utf8(s);
      var n := |Utf8Char(s[0])|;
      Utf8CharDecodes(s[0], Utf8(s[1..]));
      assert bs == Utf8Char(s[0]) + Utf8(s[1..]);
      assert bs[n..] == Utf8(s[1..]);
      Utf8RoundTrip(s[1..]);
      assert bs != [] && SequenceLength(bs[0]) == n && |bs| >= n;
      assert Utf8Decode(bs) == Some([s[0]] + s[1..]);
      assert [s[0]] + s[1..] == s;
    }
  }

  const HexDigits := "0123456789ABCDEF"

  /** Bytes that the serializer writes as themselves: `*`, `-`, `.`, digits, letters and `_`. */
  predicate IsUnreserved(b: Byte) {
    b == 0x2A || b == 0x2D || b == 0x2E || 0x30 <= b <= 0x39 || 0x41 <= b <= 0x5A || b == 0x5F
    || 0x61 <= b <= 0x7A
  }

  function EncodeByte(b: Byte): string {
    if b == 0x20 then "+"
    else if IsUnreserved(b) then [b as char]
    else ['%', HexDigits[b / 16], HexDigits[b % 16]]
  }

  function EncodeBytes(bs: seq<Byte>): string {
    if bs == [] then "" else EncodeByte(bs[0]) + EncodeBytes(bs[1..])
  }

  /** The form-urlencoded form of one name or value. */
  function Encode(s: string): string {
    EncodeBytes(Utf8(s))
  }

  function HexValue(c: char): Option<nat> {
    if '0' <= c <= '9' then Some(c as int - '0' as int)
    else if 'A' <= c <= 'F' then Some(c as int - 'A' as int + 10)
    else None
  }

  /** Percent-decoding of an encoded component back to bytes; `+` is a space. */
  function DecodeBytes(e: string): Option<seq<Byte>>
    decreases |e|
  {
    if e == [] then Some([])
    else if e[0] == '+' then
      match DecodeBytes(e[1..])
      case None => None
      case Some(rest) => Some([0x20] + rest)
    else if e[0] == '%' then
      if |e| < 3 then None
      else match (HexValue(e[1]), HexValue(e[2]))
        case (Some(hi), Some(lo)) =>
          if hi < 16 && lo < 16 then
            match DecodeBytes(e[3..])
            case None => None
            case Some(rest) => Some([hi * 16 + lo] + rest)
          else None
        case _ => None
    else if e[0] as int < 0x80 then
      match DecodeBytes(e[1..])
      case None => None
      case Some(rest) => Some([e[0] as int] + rest)
    else None
  }

  /** The reference decoder for one name or value. */
  function Decode(e: string): Option<string> {
    match DecodeBytes(e)
    case None => None
    case Some(bs) => Utf8Decode(bs)
  }

  lemma HexDigitValue(k: nat)
    requires k < 16
    ensures HexValue(HexDigits[k]) == Some(k)
  {
  }

  lemma {:induction false} EncodeByteDecodes(b: Byte, tail: string)
    ensures DecodeBytes(EncodeByte(b) + tail) ==
      (match DecodeBytes(tail) case None => None case Some(rest) => Some([b] + rest))
  {
    var e := EncodeByte(b) + tail;
    if b == 0x20 {
      assert e[1..] == tail;
    } else if IsUnreserved(b) {
      assert e[1..] == tail;
    } else {
      HexDigitValue(b / 16);
      HexDigitValue(b % 16);
      assert e[3..] == tail;
    }
  }

  lemma {:induction false} BytesRoundTrip(bs: seq<Byte>)
    ensures DecodeBytes(EncodeBytes(bs)) == Some(bs)
  {
    if bs != [] {
      BytesRoundTrip(bs[1..]);
      EncodeByteDecodes(bs[0], EncodeBytes(bs[1..]));
      assert [bs[0]] + bs[1..] == bs;
    }
  }

  /** Every name or value is recovered by decoding its encoding. */
  lemma EncodeRoundTrip(s: string)
    ensures Decode(Encode(s)) == Some(s)
  {
    BytesRoundTrip(Utf8(s));
    Utf8RoundTrip(s);
  }

  /** The characters an encoded component can contain: never a separator `&` or `=`. */
  predicate IsEncodedChar(c: char) {
    c == '+' || c == '%' || c in HexDigits || (c as int < 0x80 && IsUnreserved(c as int))
  }

  lemma {:induction false} EncodedChars(bs: seq<Byte>)
    ensures forall k :: 0 <= k < |EncodeBytes(bs)| ==> IsEncodedChar(EncodeBytes(bs)[k])
  {
    if bs != [] {
      EncodedChars(bs[1..]);
      var e := EncodeBytes(bs);
      var h := EncodeByte(bs[0]);
      assert e == h + EncodeBytes(bs[1..]);
      forall k | 0 <= k < |e|
        ensures IsEncodedChar(e[k])
      {
        if k >= |h| {
          assert e[k] == EncodeBytes(bs[1..])[k - |h|];
        }
      }
    }
  }

  lemma NoSeparators(s: string)
    ensures '&' !in Encode(s) && '=' !in Encode(s)
  {
    EncodedChars(Utf8(s));
  }

  function EncodePair(p: Param): string {
    Encode(p.0) + "=" + Encode(p.1)
  }

  /** `URLSearchParams.toString()`: the encoded pairs joined with `&`. */
  function Serialize(ps: seq<Param>): string {
    if ps == [] then ""
    else if |ps| == 1 then EncodePair(ps[0])
    else EncodePair(ps[0]) + "&" + Serialize(ps[1..])
  }

  /** `s.split(sep)` for a single-character separator. */
  function Split(s: string, sep: char): (parts: seq<string>)
    ensures |parts| >= 1
    decreases |s|
  {
    if s == [] then [[]]
    else if s[0] == sep then [[]] + Split(s[1..], sep)
    else
      var rest := Split(s[1..], sep);
      [[s[0]] + rest[0]] + rest[1..]
  }

  lemma {:induction false} SplitNoSeparator(a: string, sep: char, tail: string)
    requires sep !in a
    ensures Split(a + tail, sep) ==
      [a + Split(tail, sep)[0]] + Split(tail, sep)[1..]
  {
    var t := Split(tail, sep);
    if a == [] {
      assert a + tail == tail;
      assert a + t[0] == t[0];
      assert [t[0]] + t[1..] == t;
    } else {
      assert (a + tail)[0] == a[0];
      assert (a + tail)[1..] == a[1..] + tail;
      SplitNoSeparator(a[1..], sep, tail);
      assert [a[0]] + (a[1..] + t[0]) == a + t[0];
    }
  }

  lemma SplitAtSeparator(a: string, sep: char, b: string)
    requires sep !in a
    ensures Split(a + [sep] + b, sep) == [a] + Split(b, sep)
  {
    SplitNoSeparator(a, sep, [sep] + b);
    assert a + [sep] + b == a + ([sep] + b);
    assert ([sep] + b)[0] == sep;
    assert ([sep] + b)[1..] == b;
    assert Split([sep] + b, sep) == [[]] + Split(b, sep);
    assert a + [] == a;
  }

  lemma SplitWhole(a: string, sep: char)
    requires sep !in a
    ensures Split(a, sep) == [a]
  {
    SplitNoSeparator(a, sep, []);
    assert a + [] == a;
  }

  function IndexOf(s: string, c: char): (i: nat)
    requires c in s
    ensures i < |s| && s[i] == c && c !in s[..i]
  {
    if s[0] == c then 0 else 1 + IndexOf(s[1..], c)
  }

  /** Reads one `name=value` piece; the name ends at the first `=`. */
  function ParsePair(piece: string): Option<Param> {
    if '=' !in piece then None
    else
      var i := IndexOf(piece, '=');
      match (Decode(piece[..i]), Decode(piece[i + 1..]))
      case (Some(k), Some(v)) => Some((k, v))
      case _ => None
  }

  function ParsePieces(pieces: seq<string>): Option<seq<Param>> {
    if pieces == [] then Some([])
    else match (ParsePair(pieces[0]), ParsePieces(pieces[1..]))
      case (Some(p), Some(ps)) => Some([p] + ps)
      case _ => None
  }

  /** The reference reader of a serialized query. */
  function ParseQuery(q: string): Option<seq<Param>> {
    ParsePieces(Split(q, '&'))
  }

  lemma PairRoundTrip(p: Param)
    ensures ParsePair(EncodePair(p)) == Some(p)
  {
    var k := Encode(p.0);
    var piece := EncodePair(p);
    NoSeparators(p.0);
    NoSeparators(p.1);
    assert piece[|k|] == '=';
    assert '=' !in piece[..|k|] by { assert piece[..|k|] == k; }
    var i := IndexOf(piece, '=');
    assert i == |k|;
    assert piece[..i] == k;
    assert piece[i + 1..] == Encode(p.1);
    EncodeRoundTrip(p.0);
    EncodeRoundTrip(p.1);
  }

  lemma PairHasNoAmpersand(p: Param)
    ensures '&' !in EncodePair(p)
  {
    NoSeparators(p.0);
    NoSeparators(p.1);
  }

  function EncodePairs(ps: seq<Param>): seq<string> {
    if ps == [] then [] else [EncodePair(ps[0])] + EncodePairs(ps[1..])
  }

  lemma {:induction false} SplitSerialize(ps: seq<Param>)
    requires |ps| >= 1
    ensures Split(Serialize(ps), '&') == EncodePairs(ps)
  {
    PairHasNoAmpersand(ps[0]);
    if |ps| == 1 {
      SplitWhole(EncodePair(ps[0]), '&');
    } else {
      SplitSerialize(ps[1..]);
      SplitAtSeparator(EncodePair(ps[0]), '&', Serialize(ps[1..]));
    }
  }

  lemma {:induction false} ParsePiecesRoundTrip(ps: seq<Param>)
    ensures ParsePieces(EncodePairs(ps)) == Some(ps)
  {
    if ps != [] {
      PairRoundTrip(ps[0]);
      ParsePiecesRoundTrip(ps[1..]);
      assert EncodePairs(ps)[1..] == EncodePairs(ps[1..]);
      assert [ps[0]] + ps[1..] == ps;
    }
  }

  /** Reading back a serialized, non-empty parameter list yields the list: names, values and order. */
  lemma {:induction false} SerializeRoundTrip(ps: seq<Param>)
    requires |ps| >= 1
    ensures ParseQuery(Serialize(ps)) == Some(ps)
  {
    SplitSerialize(ps);
    ParsePiecesRoundTrip(ps);
  }
}
