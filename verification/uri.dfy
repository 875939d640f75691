/** JavaScript's `encodeURI`, and a percent-decoder that undoes it.
    `encodeURI` keeps letters, digits, the marks `-_.!~*'()`, the reserved
    characters `;/?:@&=+$,` and `#`; every other character is written as the
    `%XX` escapes of its UTF-8 bytes, with upper-case hexadecimal digits
    (section 19.2.6 of ECMA-262). Dafny characters are Unicode scalar values,
    so the lone surrogates for which `encodeURI` throws cannot occur. */
module UriCodec {
  import opened Wrappers

  type Byte = b: int | 0 <= b < 256

  /** The characters `encodeURI` leaves as they are. */
  predicate IsUnescaped(c: char) {
    ('a' <= c <= 'z') || ('A' <= c <= 'Z') || ('0' <= c <= '9') || c in "-_.!~*'();/?:@&=+$,#"
  }

  /** The characters an escape is made of, besides `%`. */
  predicate IsUpperHexDigit(c: char) {
    ('0' <= c <= '9') || ('A' <= c <= 'F')
  }

  /** The UTF-8 bytes of a code point. */
  function Utf8(cp: int): (bs: seq<Byte>)
    requires 0 <= cp < 0x11_0000
    ensures 1 <= |bs| <= 4
  {
    var r0 := cp % 64;
    var q1 := cp / 64;
    var r1 := q1 % 64;
    var q2 := q1 / 64;
    var r2 := q2 % 64;
    var q3 := q2 / 64;
    if cp < 0x80 then [cp]
    else if cp < 0x800 then [0xC0 + q1, 0x80 + r0]
    else if cp < 0x1_0000 then [0xE0 + q2, 0x80 + r1, 0x80 + r0]
    else [0xF0 + q3, 0x80 + r2, 0x80 + r1, 0x80 + r0]
  }

  function HexDigit(n: int): (c: char)
    requires 0 <= n < 16
    ensures IsUpperHexDigit(c)
  {
    if n < 10 then ('0' as int + n) as char else ('A' as int + n - 10) as char
  }

  /** `%XX` for one byte. */
  function PercentByte(b: Byte): (s: string)
    ensures |s| == 3 && s[0] == '%' && IsUpperHexDigit(s[1]) && IsUpperHexDigit(s[2])
  {
    ['%', HexDigit(b / 16), HexDigit(b % 16)]
  }

  /** The escapes of a byte sequence, one after another. */
  function PercentBytes(bs: seq<Byte>): (s: string)
    ensures |s| == 3 * |bs|
    ensures forall i :: 0 <= i < |s| ==> s[i] == '%' || IsUpperHexDigit(s[i])
  {
    if |bs| == 0 then "" else PercentByte(bs[0]) + PercentBytes(bs[1..])
  }

  function EncodeChar(c: char): (s: string)
    ensures IsUnescaped(c) ==> s == [c]
    ensures !IsUnescaped(c) ==> 3 <= |s| && forall i :: 0 <= i < |s| ==> s[i] == '%' || IsUpperHexDigit(s[i])
  {
    if IsUnescaped(c) then [c] else PercentBytes(Utf8(c as int))
  }

  /** `encodeURI(s)`. The result only holds characters `encodeURI` leaves
      alone or `%`; it is never shorter than `s`, and it is longer exactly
      when some character had to be escaped. */
  function EncodeUri(s: string): (r: string)
    ensures forall i :: 0 <= i < |r| ==> IsUnescaped(r[i]) || r[i] == '%'
    ensures |r| >= |s|
    ensures |r| == |s| <==> forall i :: 0 <= i < |s| ==> IsUnescaped(s[i])
    decreases |s|
  {
    if |s| == 0 then ""
    else
      var head := EncodeChar(s[0]);
      var tail := EncodeUri(s[1..]);
      assert forall i :: 0 <= i < |tail| ==> (head + tail)[|head| + i] == tail[i];
      head + tail
  }

  /** A string needs no escaping exactly when encoding leaves it unchanged. */
  lemma {:induction false} EncodeUriIdentity(s: string)
    ensures EncodeUri(s) == s <==> forall i :: 0 <= i < |s| ==> IsUnescaped(s[i])
    decreases |s|
  {
    if |s| > 0 && forall i :: 0 <= i < |s| ==> IsUnescaped(s[i]) {
      EncodeUriIdentity(s[1..]);
      assert forall i :: 0 <= i < |s[1..]| ==> IsUnescaped(s[1..][i]);
      assert [s[0]] + s[1..] == s;
    }
  }

  /** An unescaped character that is neither `%` nor a hexadecimal digit
      appears in the encoding exactly when it appears in the input: escapes
      never produce it, and it is never escaped. */
  lemma {:induction false} EncodeUriKeeps(s: string, c: char)
    requires IsUnescaped(c) && c != '%' && !IsUpperHexDigit(c)
    ensures c in EncodeUri(s) <==> c in s
    decreases |s|
  {
    if |s| > 0 {
      EncodeUriKeeps(s[1..], c);
      EncodeCharKeeps(s[0], c);
      assert EncodeUri(s) == EncodeChar(s[0]) + EncodeUri(s[1..]);
      assert s == [s[0]] + s[1..];
    }
  }

  lemma EncodeCharKeeps(d: char, c: char)
    requires IsUnescaped(c) && c != '%' && !IsUpperHexDigit(c)
    ensures c in EncodeChar(d) <==> c == d
  {
  }

  function HexValue(c: char): (r: Option<int>)
    ensures r.Some? ==> 0 <= r.value < 16
  {
    if '0' <= c <= '9' then Some(c as int - '0' as int)
    else if 'A' <= c <= 'F' then Some(c as int - 'A' as int + 10)
    else if 'a' <= c <= 'f' then Some(c as int - 'a' as int + 10)
    else None
  }

  /** Reads one `%XX` escape off the front of `t`. */
  function ReadByte(t: string): (r: Option<(Byte, string)>)
    ensures r.Some? ==> |r.value.1| + 3 == |t|
  {
    if |t| >= 3 && t[0] == '%' && HexValue(t[1]).Some? && HexValue(t[2]).Some?
    then Some((16 * HexValue(t[1]).value + HexValue(t[2]).value, t[3..]))
    else None
  }

  predicate IsContinuation(b: Byte) {
    0x80 <= b < 0xC0
  }

  /** Reads `n` escaped UTF-8 continuation bytes off the front of `t`. */
  function ReadContinuations(t: string, n: nat): (r: Option<(seq<Byte>, string)>)
    ensures r.Some? ==> |r.value.0| == n && |r.value.1| + 3 * n == |t|
    ensures r.Some? ==> forall i :: 0 <= i < n ==> IsContinuation(r.value.0[i])
    decreases n
  {
    if n == 0 then Some(([], t))
    else match ReadByte(t)
      case None => None
      case Some((b, rest)) =>
        if !IsContinuation(b) then None
        else match ReadContinuations(rest, n - 1)
          case None => None
          case Some((bs, rest')) => Some(([b] + bs, rest'))
  }

  /** The length of the UTF-8 sequence a lead byte starts; 0 when it starts none. */
  function SequenceLength(lead: Byte): nat {
    if lead < 0x80 then 1
    else if 0xC0 <= lead < 0xE0 then 2
    else if 0xE0 <= lead < 0xF0 then 3
    else if 0xF0 <= lead < 0xF8 then 4
    else 0
  }

  /** The code point a lead byte and its continuation bytes stand for. */
  function CombineBytes(lead: Byte, conts: seq<Byte>): int
    requires forall i :: 0 <= i < |conts| ==> IsContinuation(conts[i])
  {
    var b0: int := lead;
    if |conts| == 0 then b0
    else
      var b1: int := conts[0];
      if |conts| == 1 then (b0 - 0xC0) * 64 + (b1 - 0x80)
      else
        var b2: int := conts[1];
        if |conts| == 2 then ((b0 - 0xE0) * 64 + (b1 - 0x80)) * 64 + (b2 - 0x80)
        else
          var b3: int := conts[2];
          (((b0 - 0xF0) * 64 + (b1 - 0x80)) * 64 + (b2 - 0x80)) * 64 + (b3 - 0x80)
  }

  /** The smallest code point a sequence of `n` UTF-8 bytes may encode;
      a smaller one would be an overlong form, which UTF-8 forbids. */
  function MinCodePoint(n: nat): int {
    if n <= 1 then 0
    else if n == 2 then 0x80
    else if n == 3 then 0x800
    else 0x1_0000
  }

  predicate IsScalarValue(cp: int) {
    (0 <= cp < 0xD800) || (0xE000 <= cp < 0x11_0000)
  }

  /** Decodes one character off the front of `t`: a plain character, or the
      escapes of one UTF-8 sequence in its shortest form. Overlong forms such
      as `%C0%BC` for `<` are rejected. */
  function DecodeOne(t: string): (r: Option<(char, string)>)
    requires |t| > 0
    ensures r.Some? ==> |r.value.1| < |t|
  {
    if t[0] != '%' then Some((t[0], t[1..]))
    else match ReadByte(t)
      case None => None
      case Some((lead, rest)) =>
        var n := SequenceLength(lead);
        if n == 0 then None
        else match ReadContinuations(rest, n - 1)
          case None => None
          case Some((conts, rest')) =>
            var cp := CombineBytes(lead, conts);
            if IsScalarValue(cp) && cp >= MinCodePoint(n) then Some((cp as char, rest')) else None
  }

  /** Undoes percent-encoding: every `%XX` escape sequence is read back as
      UTF-8; a malformed escape makes the whole decoding fail. */
  function PercentDecode(t: string): (r: Option<string>)
    decreases |t|
  {
    if |t| == 0 then Some("")
    else match DecodeOne(t)
      case None => None
      case Some((c, rest)) =>
        match PercentDecode(rest)
        case None => None
        case Some(s) => Some([c] + s)
  }

  /** An escape reads back as the byte it was made from. */
  lemma ReadPercentByte(b: Byte, rest: string)
    ensures ReadByte(PercentByte(b) + rest) == Some((b, rest))
  {
  }

  lemma ReadContinuationsStep(t: string, n: nat, b: Byte, tail: string, m: nat, bs: seq<Byte>, rest: string)
    requires n == m + 1 && ReadByte(t) == Some((b, tail)) && IsContinuation(b)
    requires ReadContinuations(tail, m) == Some((bs, rest))
    ensures ReadContinuations(t, n) == Some(([b] + bs, rest))
  {
  }

  /** Escaped continuation bytes read back as themselves. */
  lemma {:induction false} ReadPercentContinuations(bs: seq<Byte>, rest: string)
    requires forall i :: 0 <= i < |bs| ==> IsContinuation(bs[i])
    ensures ReadContinuations(PercentBytes(bs) + rest, |bs|) == Some((bs, rest))
    decreases |bs|
  {
    if |bs| > 0 {
      var t := PercentBytes(bs) + rest;
      var tail := PercentBytes(bs[1..]) + rest;
      assert t == PercentByte(bs[0]) + tail;
      ReadPercentByte(bs[0], tail);
      assert ReadByte(t) == Some((bs[0], tail));
      ReadPercentContinuations(bs[1..], rest);
      ReadContinuationsStep(t, |bs|, bs[0], tail, |bs[1..]|, bs[1..], rest);
      assert [bs[0]] + bs[1..] == bs;
    } else {
      assert PercentBytes(bs) + rest == rest;
    }
  }

  /** The UTF-8 bytes of a code point: the lead byte announces their number,
      the others are continuation bytes, and together they give the code
      point back. */
  lemma Utf8RoundTrip(cp: int)
    requires 0 <= cp < 0x11_0000
    ensures SequenceLength(Utf8(cp)[0]) == |Utf8(cp)|
    ensures forall i :: 1 <= i < |Utf8(cp)| ==> IsContinuation(Utf8(cp)[i])
    ensures CombineBytes(Utf8(cp)[0], Utf8(cp)[1..]) == cp
    ensures cp >= MinCodePoint(|Utf8(cp)|)
  {
  }

  /** The converse: a well-formed shortest-form sequence is the one `Utf8`
      writes, so each code point has exactly one accepted encoding. */
  lemma Utf8Unique(bs: seq<Byte>, cp: int)
    requires 1 <= |bs| && SequenceLength(bs[0]) == |bs|
    requires forall i :: 1 <= i < |bs| ==> IsContinuation(bs[i])
    requires CombineBytes(bs[0], bs[1..]) == cp && IsScalarValue(cp)
    requires cp >= MinCodePoint(|bs|)
    ensures bs == Utf8(cp)
  {
    if |bs| == 2 {
      Utf8UniqueTwo(bs[0], bs[1], cp);
      assert bs == [bs[0], bs[1]];
    } else if |bs| == 3 {
      Utf8UniqueThree(bs[0], bs[1], bs[2], cp);
      assert bs == [bs[0], bs[1], bs[2]];
    } else if |bs| == 4 {
      Utf8UniqueFour(bs[0], bs[1], bs[2], bs[3], cp);
      assert bs == [bs[0], bs[1], bs[2], bs[3]];
    }
  }

  lemma Utf8UniqueTwo(b0: Byte, b1: Byte, cp: int)
    requires 0xC0 <= b0 < 0xE0 && IsContinuation(b1)
    requires cp == (b0 - 0xC0) * 64 + (b1 - 0x80) && cp >= 0x80
    ensures 0 <= cp < 0x11_0000 && Utf8(cp) == [b0, b1]
  {
    SixBits(b0 - 0xC0, b1 - 0x80);
  }

  lemma Utf8UniqueThree(b0: Byte, b1: Byte, b2: Byte, cp: int)
    requires 0xE0 <= b0 < 0xF0 && IsContinuation(b1) && IsContinuation(b2)
    requires cp == ((b0 - 0xE0) * 64 + (b1 - 0x80)) * 64 + (b2 - 0x80) && cp >= 0x800
    ensures 0 <= cp < 0x11_0000 && Utf8(cp) == [b0, b1, b2]
  {
    var q: int := (b0 - 0xE0) * 64 + (b1 - 0x80);
    SixBits(b0 - 0xE0, b1 - 0x80);
    SixBits(q, b2 - 0x80);
  }

  lemma Utf8UniqueFour(b0: Byte, b1: Byte, b2: Byte, b3: Byte, cp: int)
    requires 0xF0 <= b0 < 0xF8 && IsContinuation(b1) && IsContinuation(b2) && IsContinuation(b3)
    requires cp == (((b0 - 0xF0) * 64 + (b1 - 0x80)) * 64 + (b2 - 0x80)) * 64 + (b3 - 0x80)
    requires 0x1_0000 <= cp < 0x11_0000
    ensures Utf8(cp) == [b0, b1, b2, b3]
  {
    var q: int := (b0 - 0xF0) * 64 + (b1 - 0x80);
    var q': int := q * 64 + (b2 - 0x80);
    SixBits(b0 - 0xF0, b1 - 0x80);
    SixBits(q, b2 - 0x80);
    SixBits(q', b3 - 0x80);
  }

  /** The overlong two-byte form of `<` is not decoded. */
  lemma OverlongRejected()
    ensures DecodeOne("%C0%BC") == None
  {
    assert ReadByte("%C0%BC") == Some((0xC0, "%BC"));
    assert ReadByte("%BC") == Some((0xBC, ""));
    var none: seq<Byte> := [];
    ReadContinuationsStep("%BC", 1, 0xBC, "", 0, none, "");
    assert [0xBC as Byte] + none == [0xBC];
  }

  /** Appending six bits to `q` and taking them off again. */
  lemma SixBits(q: int, r: int)
    requires 0 <= q && 0 <= r < 64
    ensures (q * 64 + r) / 64 == q && (q * 64 + r) % 64 == r
  {
  }

  /** The escapes of a well-formed UTF-8 sequence decode to its code point.
      Not inductive: the attribute only stops automatic induction, which makes
      this proof far more expensive for the solver. */
  lemma {:induction false} DecodeUtf8Escapes(bs: seq<Byte>, rest: string, cp: int)
    requires 1 <= |bs| && SequenceLength(bs[0]) == |bs|
    requires forall i :: 1 <= i < |bs| ==> IsContinuation(bs[i])
    requires CombineBytes(bs[0], bs[1..]) == cp && IsScalarValue(cp)
    requires cp >= MinCodePoint(|bs|)
    ensures DecodeOne(PercentBytes(bs) + rest) == Some((cp as char, rest))
  {
    var t := PercentBytes(bs) + rest;
    var after := PercentBytes(bs[1..]) + rest;
    assert t == PercentByte(bs[0]) + after;
    ReadPercentByte(bs[0], after);
    ReadPercentContinuations(bs[1..], rest);
  }

  /** An escaped character decodes back from its escapes. */
  lemma DecodeEscapedChar(c: char, rest: string)
    requires !IsUnescaped(c)
    ensures DecodeOne(EncodeChar(c) + rest) == Some((c, rest))
  {
    Utf8RoundTrip(c as int);
    DecodeUtf8Escapes(Utf8(c as int), rest, c as int);
  }

  /** Every character decodes back from its encoding. */
  lemma DecodeEncodedChar(c: char, rest: string)
    ensures DecodeOne(EncodeChar(c) + rest) == Some((c, rest))
  {
    if IsUnescaped(c) {
      assert (EncodeChar(c) + rest)[1..] == rest;
    } else {
      DecodeEscapedChar(c, rest);
    }
  }

  lemma PercentDecodeStep(t: string, c: char, rest: string)
    requires |t| > 0 && DecodeOne(t) == Some((c, rest))
    ensures PercentDecode(t) == match PercentDecode(rest) case None => None case Some(s) => Some([c] + s)
  {
  }

  /** Decoding undoes `encodeURI`. */
  lemma {:induction false} DecodeEncode(s: string)
    ensures PercentDecode(EncodeUri(s)) == Some(s)
    decreases |s|
  {
    if |s| > 0 {
      var c := s[0];
      var rest := EncodeUri(s[1..]);
      var t := EncodeChar(c) + rest;
      assert EncodeUri(s) == t;
      DecodeEncode(s[1..]);
      DecodeEncodedChar(c, rest);
      PercentDecodeStep(t, c, rest);
      assert [c] + s[1..] == s;
    }
  }
}
