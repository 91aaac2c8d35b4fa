/**
 * `encodeURI` of ECMAScript (section 15.1.3.3 of ECMA-262 5.1).
 *
 * A Dafny `char` is a Unicode scalar value, so a string here is what a
 * JavaScript string is once its surrogate pairs are combined. Characters in
 * the standard's unescaped set (uriReserved, uriUnescaped and "#") are copied;
 * every other character is written as the UTF-8 bytes of its code point, each
 * byte as "%" and two upper-case hexadecimal digits.
 *
 * The partner of the encoder is a percent-and-UTF-8 decoder; the round trip
 * Decode(EncodeURI(s)) == Some(s) shows the encoding loses nothing.
 */
module UriEncoding {

  datatype Option<T> = None | Some(value: T)

  // ---------------------------------------------------------------------------
  // Character classes of section 15.1.3
  // ---------------------------------------------------------------------------

  /** uriAlpha and DecimalDigit. */
  predicate AlphaNumeric(ch: char) {
    ('a' <= ch <= 'z') || ('A' <= ch <= 'Z') || ('0' <= ch <= '9')
  }

  /** uriReserved: ; / ? : @ & = + $ , */
  predicate Reserved(ch: char) {
    ch in {';', '/', '?', ':', '@', '&', '=', '+', '$', ','}
  }

  /** uriMark: - _ . ! ~ * ' ( ) */
  predicate Mark(ch: char) {
    ch in {'-', '_', '.', '!', '~', '*', '\'', '(', ')'}
  }

  /** The characters encodeURI leaves as they are: uriReserved, uriUnescaped and "#". */
  predicate Unescaped(ch: char) {
    AlphaNumeric(ch) || Mark(ch) || Reserved(ch) || ch == '#'
  }

  predicate AllUnescaped(s: string) {
    forall i | 0 <= i < |s| :: Unescaped(s[i])
  }

  /** What encodeURI may emit: an unescaped character or the "%" of an escape. */
  predicate Emitted(ch: char) {
    Unescaped(ch) || ch == '%'
  }

  predicate AllEmitted(s: string) {
    forall i | 0 <= i < |s| :: Emitted(s[i])
  }

  // ---------------------------------------------------------------------------
  // Hexadecimal digits and bytes
  // ---------------------------------------------------------------------------

  /** The upper-case hexadecimal digit of a value below 16. */
  function HexDigit(n: nat): (ch: char)
    requires n < 16
    ensures AlphaNumeric(ch)
    ensures HexValue(ch) == Some(n)
  {
    if n < 10 then ('0' as int + n) as char else ('A' as int + n - 10) as char
  }

  /** The value of a hexadecimal digit, either case. */
  function HexValue(ch: char): (r: Option<nat>)
    ensures r.Some? ==> r.value < 16
  {
    if '0' <= ch <= '9' then Some(ch as int - '0' as int)
    else if 'A' <= ch <= 'F' then Some(ch as int - 'A' as int + 10)
    else if 'a' <= ch <= 'f' then Some(ch as int - 'a' as int + 10)
    else None
  }

  predicate IsByte(b: int) { 0 <= b < 256 }

  /** One byte as "%XY". */
  function PercentByte(b: int): (r: string)
    requires IsByte(b)
    ensures |r| == 3 && r[0] == '%' && AllEmitted(r)
  {
    ['%', HexDigit(b / 16), HexDigit(b % 16)]
  }

  function PercentBytes(bs: seq<int>): (r: string)
    requires forall i | 0 <= i < |bs| :: IsByte(bs[i])
    ensures |r| == 3 * |bs| && AllEmitted(r)
  {
    if bs == [] then [] else PercentByte(bs[0]) + PercentBytes(bs[1..])
  }

  // ---------------------------------------------------------------------------
  // UTF-8
  // ---------------------------------------------------------------------------

  /** A Unicode scalar value: a code point that is not a surrogate. */
  predicate ScalarValue(v: int) {
    (0 <= v < 0xD800) || (0xE000 <= v <= 0x10FFFF)
  }

  /** The UTF-8 bytes of a scalar value (RFC 3629 section 3). */
  function Utf8(v: int): (bs: seq<int>)
    requires ScalarValue(v)
    ensures 1 <= |bs| <= 4
    ensures forall i | 0 <= i < |bs| :: IsByte(bs[i])
  {
    if v < 0x80 then [v]
    else if v < 0x800 then [0xC0 + v / 64, 0x80 + v % 64]
    else if v < 0x10000 then [0xE0 + v / 4096, 0x80 + (v / 64) % 64, 0x80 + v % 64]
    else [0xF0 + v / 262144, 0x80 + (v / 4096) % 64, 0x80 + (v / 64) % 64, 0x80 + v % 64]
  }

  // ---------------------------------------------------------------------------
  // The encoder
  // ---------------------------------------------------------------------------

  /** How encodeURI writes one character. */
  function EncodeChar(ch: char): string {
    if Unescaped(ch) then [ch] else PercentBytes(Utf8(ch as int))
  }

  /** A character is copied when unescaped and otherwise becomes one to four
      escapes; either way only unescaped characters and "%" come out. */
  lemma EncodeCharShape(ch: char)
    ensures 1 <= |EncodeChar(ch)| <= 12 && AllEmitted(EncodeChar(ch))
    ensures Unescaped(ch) ==> EncodeChar(ch) == [ch]
    ensures !Unescaped(ch) ==> EncodeChar(ch)[0] == '%' && |EncodeChar(ch)| % 3 == 0
  {
  }

  /** encodeURI(s): each character copied or escaped in turn. */
  function EncodeURI(s: string): string {
    if s == [] then [] else EncodeChar(s[0]) + EncodeURI(s[1..])
  }

  /** The output holds only unescaped characters and the "%" of escapes. */
  lemma {:induction false} EncodeEmitsOnly(s: string)
    ensures AllEmitted(EncodeURI(s))
  {
    if s != [] {
      EncodeEmitsOnly(s[1..]);
      EncodeCharShape(s[0]);
      var e, rest := EncodeChar(s[0]), EncodeURI(s[1..]);
      assert EncodeURI(s) == e + rest;
      forall i | 0 <= i < |e + rest| ensures Emitted((e + rest)[i]) {
        if i >= |e| {
          assert (e + rest)[i] == rest[i - |e|];
        }
      }
    }
  }

  /** Text made only of unescaped characters is left as it is. */
  lemma {:induction false} EncodeKeepsUnescaped(s: string)
    requires AllUnescaped(s)
    ensures EncodeURI(s) == s
  {
    if s != [] {
      EncodeKeepsUnescaped(s[1..]);
      EncodeCharShape(s[0]);
      assert [s[0]] + s[1..] == s;
    }
  }

  /** Each character becomes one to twelve characters. */
  lemma {:induction false} EncodeLength(s: string)
    ensures |s| <= |EncodeURI(s)| <= 12 * |s|
  {
    if s != [] {
      EncodeLength(s[1..]);
      EncodeCharShape(s[0]);
    }
  }

  lemma EmittedIsNotQuoteOrSpace(ch: char)
    requires Emitted(ch)
    ensures ch != '"' && ch != ' '
  {
  }

  /** Neither a double quote nor a space can appear in encodeURI's output. */
  lemma EncodedHasNoQuoteOrSpace(s: string)
    ensures '"' !in EncodeURI(s) && ' ' !in EncodeURI(s)
  {
    var r := EncodeURI(s);
    EncodeEmitsOnly(s);
    forall i | 0 <= i < |r| ensures r[i] != '"' && r[i] != ' ' {
      EmittedIsNotQuoteOrSpace(r[i]);
    }
  }

  // ---------------------------------------------------------------------------
  // The decoder
  // ---------------------------------------------------------------------------

  /** The byte written as "%XY" at position k of t, if there is one. */
  function ReadByte(t: string, k: nat): (r: Option<int>)
    ensures r.Some? ==> k + 3 <= |t| && IsByte(r.value)
  {
    if k + 3 <= |t| && t[k] == '%' then
      match (HexValue(t[k + 1]), HexValue(t[k + 2]))
      case (Some(hi), Some(lo)) => Some(16 * hi + lo)
      case _ => None
    else None
  }

  /** Reads n continuation bytes (10xxxxxx) from position k, folding their six
      payload bits each into acc. */
  function Continue(t: string, k: nat, n: nat, acc: int): (r: Option<int>)
    ensures r.Some? && n > 0 ==> k + 3 * n <= |t|
    decreases n
  {
    if n == 0 then Some(acc)
    else match ReadByte(t, k)
      case None => None
      case Some(b) =>
        if 0x80 <= b < 0xC0 then Continue(t, k + 3, n - 1, acc * 64 + (b - 0x80)) else None
  }

  /** The character whose lead byte carried `lead` and which has n continuation
      bytes, together with the number of characters of t it took. */
  function Sequel(t: string, n: nat, lead: int): (r: Option<(char, nat)>)
    requires 1 <= n
    ensures r.Some? ==> 0 < r.value.1 <= |t|
  {
    match Continue(t, 3, n, lead)
    case None => None
    case Some(v) => if ScalarValue(v) then Some((v as char, 3 * (n + 1))) else None
  }

  /** The first character of t and the length of its encoding. */
  function DecodeChar(t: string): (r: Option<(char, nat)>)
    requires t != []
    ensures r.Some? ==> 0 < r.value.1 <= |t|
  {
    if t[0] != '%' then Some((t[0], 1))
    else match ReadByte(t, 0)
      case None => None
      case Some(b0) =>
        if b0 < 0x80 then Some((b0 as char, 3))
        else if b0 < 0xC0 then None
        else if b0 < 0xE0 then Sequel(t, 1, b0 - 0xC0)
        else if b0 < 0xF0 then Sequel(t, 2, b0 - 0xE0)
        else if b0 < 0xF8 then Sequel(t, 3, b0 - 0xF0)
        else None
  }

  /** Undoes every escape of t; None when an escape is malformed. */
  function Decode(t: string): Option<string>
    decreases |t|
  {
    if t == [] then Some([])
    else match DecodeChar(t)
      case None => None
      case Some((ch, k)) =>
        match Decode(t[k..])
        case None => None
        case Some(rest) => Some([ch] + rest)
  }

  // ---------------------------------------------------------------------------
  // Round trip
  // ---------------------------------------------------------------------------

  lemma ReadPercentByte(b: int, rest: string)
    requires IsByte(b)
    ensures ReadByte(PercentByte(b) + rest, 0) == Some(b)
  {
    var t := PercentByte(b) + rest;
    assert t[0] == '%' && t[1] == HexDigit(b / 16) && t[2] == HexDigit(b % 16);
  }

  lemma ReadByteShift(x: string, y: string, k: nat)
    ensures ReadByte(x + y, |x| + k) == ReadByte(y, k)
  {
    var t := x + y;
    if k + 3 <= |y| {
      assert t[|x| + k] == y[k] && t[|x| + k + 1] == y[k + 1] && t[|x| + k + 2] == y[k + 2];
    }
  }

  /** The j-th escape of an escaped byte sequence reads back as its j-th byte. */
  lemma {:induction false} ReadEscapedBytes(bs: seq<int>, rest: string, j: nat)
    requires forall i | 0 <= i < |bs| :: IsByte(bs[i])
    requires j < |bs|
    ensures ReadByte(PercentBytes(bs) + rest, 3 * j) == Some(bs[j])
  {
    var head := PercentByte(bs[0]);
    var tail := PercentBytes(bs[1..]) + rest;
    assert PercentBytes(bs) + rest == head + tail;
    if j == 0 {
      ReadPercentByte(bs[0], tail);
    } else {
      ReadByteShift(head, tail, 3 * (j - 1));
      ReadEscapedBytes(bs[1..], rest, j - 1);
    }
  }

  lemma DivSplit(v: int)
    requires 0 <= v
    ensures v / 4096 == (v / 64) / 64
    ensures v / 262144 == (v / 4096) / 64
  {
    var q, r := v / 64, v % 64;
    var q2, r2 := q / 64, q % 64;
    assert v == 4096 * q2 + 64 * r2 + r;
    var q3, r3 := q2 / 64, q2 % 64;
    assert v == 262144 * q3 + 4096 * r3 + 64 * r2 + r;
  }

  /** The bytes of a code point that UTF-8 writes with n continuation bytes
      fold back into the code point. */
  lemma ContinueUtf8(t: string, v: int)
    requires ScalarValue(v) && 0x80 <= v
    requires forall j | 0 <= j < |Utf8(v)| :: ReadByte(t, 3 * j) == Some(Utf8(v)[j])
    ensures v < 0x800 ==> Continue(t, 3, 1, v / 64) == Some(v)
    ensures 0x800 <= v < 0x10000 ==> Continue(t, 3, 2, v / 4096) == Some(v)
    ensures 0x10000 <= v ==> Continue(t, 3, 3, v / 262144) == Some(v)
  {
    var bs := Utf8(v);
    DivSplit(v);
    if v < 0x800 {
      assert ReadByte(t, 3) == Some(bs[1]);
      assert Continue(t, 6, 0, v) == Some(v);
    } else if v < 0x10000 {
      assert ReadByte(t, 3) == Some(bs[1]) && ReadByte(t, 6) == Some(bs[2]);
      assert Continue(t, 9, 0, v) == Some(v);
      assert Continue(t, 6, 1, v / 64) == Some(v);
    } else {
      assert ReadByte(t, 3) == Some(bs[1]) && ReadByte(t, 6) == Some(bs[2]) && ReadByte(t, 9) == Some(bs[3]);
      assert Continue(t, 12, 0, v) == Some(v);
      assert Continue(t, 9, 1, v / 64) == Some(v);
      assert Continue(t, 6, 2, v / 4096) == Some(v);
    }
  }

  /** Decoding the escaped UTF-8 bytes of a scalar value gives the value
      back, whatever follows. */
  lemma DecodeUtf8Escapes(v: int, rest: string)
    requires ScalarValue(v)
    ensures DecodeChar(PercentBytes(Utf8(v)) + rest) == Some((v as char, 3 * |Utf8(v)|))
  {
    var bs := Utf8(v);
    var t := PercentBytes(bs) + rest;
    forall j | 0 <= j < |bs| ensures ReadByte(t, 3 * j) == Some(bs[j]) {
      ReadEscapedBytes(bs, rest, j);
    }
    assert t[0] == '%' && ReadByte(t, 0) == Some(bs[0]);
    if 0x80 <= v {
      ContinueUtf8(t, v);
    }
  }

  /** Decoding the escapes of a character that is not in the unescaped set
      gives the character back, whatever follows. */
  lemma DecodeEscapedChar(ch: char, rest: string)
    requires !Unescaped(ch)
    ensures DecodeChar(EncodeChar(ch) + rest) == Some((ch, |EncodeChar(ch)|))
  {
    DecodeUtf8Escapes(ch as int, rest);
  }

  /** encodeURI is undone by Decode: no two strings encode alike. */
  lemma {:induction false} DecodeEncode(s: string)
    ensures Decode(EncodeURI(s)) == Some(s)
  {
    if s != [] {
      var e, rest := EncodeChar(s[0]), EncodeURI(s[1..]);
      var t := e + rest;
      assert EncodeURI(s) == t;
      EncodeCharShape(s[0]);
      if Unescaped(s[0]) {
        assert t[0] == s[0] && s[0] != '%';
      } else {
        DecodeEscapedChar(s[0], rest);
      }
      var expected: Option<(char, nat)> := Some((s[0], |e|));
      assert DecodeChar(t) == expected;
      assert t[|e|..] == rest;
      DecodeEncode(s[1..]);
      assert [s[0]] + s[1..] == s;
    }
  }

  /** Different strings never share an encoding. */
  lemma EncodeInjective(s: string, s': string)
    requires EncodeURI(s) == EncodeURI(s')
    ensures s == s'
  {
    DecodeEncode(s);
    DecodeEncode(s');
  }
}
