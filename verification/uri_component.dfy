/** `encodeURIComponent`, which the admin console applies to an identifier
    before putting it in the `?id=` query, and its inverse
    `decodeURIComponent`. A character outside the unreserved set is written
    as the `%XX` escapes of its UTF-8 bytes, with upper-case hex digits. */
module UriComponent {
  import opened Results

  type Byte = b: int | 0 <= b < 256

  /** The characters `encodeURIComponent` leaves as they are: ASCII letters
      and digits and `- _ . ! ~ * ' ( )`. */
  predicate Unreserved(c: char) {
    ('a' <= c <= 'z') || ('A' <= c <= 'Z') || ('0' <= c <= '9')
    || c == '-' || c == '_' || c == '.' || c == '!' || c == '~' || c == '*'
    || c == '\'' || c == '(' || c == ')'
  }

  // ---------------------------------------------------------------------------
  // UTF-8

  predicate IsContinuation(b: int) {
    0x80 <= b < 0xC0
  }

  /** The UTF-8 encoding of one Unicode scalar value. */
  function Utf8(c: char): (bytes: seq<Byte>)
    ensures 1 <= |bytes| <= 4
    ensures |bytes| == 1 <==> (c as int) < 0x80
    ensures forall i :: 1 <= i < |bytes| ==> IsContinuation(bytes[i])
  {
    var v := c as int;
    if v < 0x80 then [v]
    else if v < 0x800 then [0xC0 + v / 64, 0x80 + v % 64]
    else if v < 0x1_0000 then [0xE0 + v / 4096, 0x80 + (v / 64) % 64, 0x80 + v % 64]
    else [0xF0 + v / 262144, 0x80 + (v / 4096) % 64, 0x80 + (v / 64) % 64, 0x80 + v % 64]
  }

  /** The number of bytes a sequence starting with `b` has, or 0 when `b`
      cannot start one. */
  function SequenceLength(b: Byte): nat {
    if b < 0x80 then 1
    else if 0xC2 <= b < 0xE0 then 2
    else if 0xE0 <= b < 0xF0 then 3
    else if 0xF0 <= b < 0xF5 then 4
    else 0
  }

  /** The scalar value a complete byte sequence encodes, if it is a
      shortest-form encoding of a scalar value. */
  function DecodeSequence(bytes: seq<Byte>): (r: Option<char>)
    requires 1 <= |bytes| <= 4
  {
    var n := |bytes|;
    if SequenceLength(bytes[0]) != n then None
    else if exists i :: 1 <= i < n && !IsContinuation(bytes[i]) then None
    else
      var v: int :=
        if n == 1 then bytes[0]
        else if n == 2 then (bytes[0] as int - 0xC0) * 64 + (bytes[1] as int - 0x80)
        else if n == 3 then (bytes[0] as int - 0xE0) * 4096 + (bytes[1] as int - 0x80) * 64 + (bytes[2] as int - 0x80)
        else (bytes[0] as int - 0xF0) * 262144 + (bytes[1] as int - 0x80) * 4096 + (bytes[2] as int - 0x80) * 64 + (bytes[3] as int - 0x80);
      if (n == 3 && v < 0x800) || (n == 4 && v < 0x1_0000) || v > 0x10_FFFF || (0xD800 <= v < 0xE000)
      then None
      else Some(v as char)
  }

  /** Decoding undoes encoding, one character at a time. */
  lemma Utf8RoundTrip(c: char)
    ensures SequenceLength(Utf8(c)[0]) == |Utf8(c)|
    ensures DecodeSequence(Utf8(c)) == Some(c)
  {
    var v := c as int;
    if v < 0x80 {
    } else if v < 0x800 {
      TwoByteRoundTrip(c);
    } else if v < 0x1_0000 {
      ThreeByteRoundTrip(c);
    } else {
      FourByteRoundTrip(c);
    }
  }

  lemma TwoByteRoundTrip(c: char)
    requires 0x80 <= c as int < 0x800
    ensures SequenceLength(Utf8(c)[0]) == 2 && DecodeSequence(Utf8(c)) == Some(c)
  {
    var v := c as int;
    assert Utf8(c) == [0xC0 + v / 64, 0x80 + v % 64];
    assert v == (v / 64) * 64 + v % 64;
    assert 2 <= v / 64 < 32;
  }

  lemma ThreeByteRoundTrip(c: char)
    requires 0x800 <= c as int < 0x1_0000
    ensures SequenceLength(Utf8(c)[0]) == 3 && DecodeSequence(Utf8(c)) == Some(c)
  {
    var v := c as int;
    assert Utf8(c) == [0xE0 + v / 4096, 0x80 + (v / 64) % 64, 0x80 + v % 64];
    assert v / 64 == (v / 4096) * 64 + (v / 64) % 64;
    assert v == (v / 64) * 64 + v % 64;
    assert v == (v / 4096) * 4096 + ((v / 64) % 64) * 64 + v % 64;
    assert 0 <= v / 4096 < 16;
  }

  lemma FourByteRoundTrip(c: char)
    requires 0x1_0000 <= c as int
    ensures SequenceLength(Utf8(c)[0]) == 4 && DecodeSequence(Utf8(c)) == Some(c)
  {
    var v := c as int;
    assert Utf8(c) == [0xF0 + v / 262144, 0x80 + (v / 4096) % 64, 0x80 + (v / 64) % 64, 0x80 + v % 64];
    assert v / 4096 == (v / 262144) * 64 + (v / 4096) % 64;
    assert v / 64 == (v / 4096) * 64 + (v / 64) % 64;
    assert v == (v / 64) * 64 + v % 64;
    assert v == (v / 262144) * 262144 + ((v / 4096) % 64) * 4096 + ((v / 64) % 64) * 64 + v % 64;
    assert 0 <= v / 262144 <= 4;
  }

  // ---------------------------------------------------------------------------
  // percent escapes

  function HexDigit(d: int): (c: char)
    requires 0 <= d < 16
  {
    if d < 10 then ('0' as int + d) as char else ('A' as int + d - 10) as char
  }

  /** The value of a hex digit in either case. */
  function HexValue(c: char): (r: Option<int>)
    ensures r.Some? ==> 0 <= r.value < 16
  {
    if '0' <= c <= '9' then Some(c as int - '0' as int)
    else if 'A' <= c <= 'F' then Some(c as int - 'A' as int + 10)
    else if 'a' <= c <= 'f' then Some(c as int - 'a' as int + 10)
    else None
  }

  lemma HexRoundTrip(d: int)
    requires 0 <= d < 16
    ensures HexValue(HexDigit(d)) == Some(d)
  {
  }

  /** `%XX` for one byte. */
  function Escape(b: Byte): (s: string)
    ensures |s| == 3 && s[0] == '%'
  {
    ['%', HexDigit(b / 16), HexDigit(b % 16)]
  }

  function EscapeAll(bytes: seq<Byte>): (s: string)
    ensures |s| == 3 * |bytes|
    decreases |bytes|
  {
    if |bytes| == 0 then "" else Escape(bytes[0]) + EscapeAll(bytes[1..])
  }

  /** The byte an escape at position `i` stands for, if there is a
      well-formed one there. */
  function EscapedByte(s: string, i: nat): (r: Option<Byte>)
  {
    if i + 3 <= |s| && s[i] == '%' && HexValue(s[i + 1]).Some? && HexValue(s[i + 2]).Some? then
      Some(HexValue(s[i + 1]).value * 16 + HexValue(s[i + 2]).value)
    else None
  }

  /** The `n` bytes escaped from position `i` on, if all are well formed. */
  function EscapedBytes(s: string, i: nat, n: nat): (r: Option<seq<Byte>>)
    ensures r.Some? ==> |r.value| == n && (n > 0 ==> i + 3 * n <= |s|)
    decreases n
  {
    if n == 0 then Some([])
    else
      match EscapedByte(s, i)
      case None => None
      case Some(b) =>
        match EscapedBytes(s, i + 3, n - 1)
        case None => None
        case Some(rest) => Some([b] + rest)
  }

  lemma {:induction false} EscapedBytesOfEscapeAll(bytes: seq<Byte>, rest: string)
    ensures EscapedBytes(EscapeAll(bytes) + rest, 0, |bytes|) == Some(bytes)
    decreases |bytes|
  {
    if |bytes| > 0 {
      var s := EscapeAll(bytes) + rest;
      var b := bytes[0];
      HexRoundTrip(b / 16);
      HexRoundTrip(b % 16);
      assert s[..3] == Escape(b);
      assert EscapedByte(s, 0) == Some(b);
      var tail := EscapeAll(bytes[1..]) + rest;
      assert s[3..] == tail;
      EscapedBytesOfEscapeAll(bytes[1..], rest);
      EscapedBytesShift(s, 3, |bytes| - 1);
      assert bytes == [b] + bytes[1..];
    }
  }

  /** Reading escapes from position `k` is reading them from the suffix. */
  lemma {:induction false} EscapedBytesShift(s: string, k: nat, n: nat)
    requires k <= |s|
    ensures EscapedBytes(s, k, n) == EscapedBytes(s[k..], 0, n)
    decreases n
  {
    if n > 0 {
      assert EscapedByte(s, k) == EscapedByte(s[k..], 0);
      if k + 3 <= |s| {
        EscapedBytesShift(s, k + 3, n - 1);
        EscapedBytesShift(s[k..], 3, n - 1);
        assert s[k..][3..] == s[k + 3..];
      }
    }
  }

  // ---------------------------------------------------------------------------
  // encode and decode

  /** `encodeURIComponent` of one character. */
  function EncodeChar(c: char): (s: string)
    ensures Unreserved(c) ==> s == [c]
    ensures !Unreserved(c) ==> s == EscapeAll(Utf8(c))
  {
    if Unreserved(c) then [c] else EscapeAll(Utf8(c))
  }

  /** `encodeURIComponent(s)`. */
  function Encode(s: string): (r: string)
    ensures forall i :: 0 <= i < |r| ==> Unreserved(r[i]) || r[i] == '%' || HexDigitChar(r[i])
    decreases |s|
  {
    if |s| == 0 then ""
    else
      var head := EncodeChar(s[0]);
      EncodeCharAlphabet(s[0]);
      var r := head + Encode(s[1..]);
      assert forall i :: 0 <= i < |head| ==> r[i] == head[i];
      assert forall i :: |head| <= i < |r| ==> r[i] == Encode(s[1..])[i - |head|];
      r
  }

  predicate HexDigitChar(c: char) {
    ('0' <= c <= '9') || ('A' <= c <= 'F')
  }

  lemma EncodeCharAlphabet(c: char)
    ensures forall i :: 0 <= i < |EncodeChar(c)| ==>
              Unreserved(EncodeChar(c)[i]) || EncodeChar(c)[i] == '%' || HexDigitChar(EncodeChar(c)[i])
  {
    if !Unreserved(c) {
      EscapeAllAlphabet(Utf8(c));
    }
  }

  lemma {:induction false} EscapeAllAlphabet(bytes: seq<Byte>)
    ensures forall i :: 0 <= i < |EscapeAll(bytes)| ==> EscapeAll(bytes)[i] == '%' || HexDigitChar(EscapeAll(bytes)[i])
    decreases |bytes|
  {
    if |bytes| > 0 {
      EscapeAllAlphabet(bytes[1..]);
      var e := Escape(bytes[0]);
      var s := EscapeAll(bytes);
      assert forall i :: 3 <= i < |s| ==> s[i] == EscapeAll(bytes[1..])[i - 3];
    }
  }

  /** `decodeURIComponent(s)`: `None` where the source would throw a
      `URIError` (a malformed escape or an invalid UTF-8 sequence). */
  function Decode(s: string): (r: Option<string>)
    decreases |s|
  {
    if |s| == 0 then Some("")
    else if s[0] != '%' then
      match Decode(s[1..])
      case None => None
      case Some(rest) => Some([s[0]] + rest)
    else
      match EscapedByte(s, 0)
      case None => None
      case Some(b0) =>
        var n := SequenceLength(b0);
        if n == 0 then None
        else
          match EscapedBytes(s, 0, n)
          case None => None
          case Some(bytes) =>
            match DecodeSequence(bytes)
            case None => None
            case Some(c) =>
              match Decode(s[3 * n..])
              case None => None
              case Some(rest) => Some([c] + rest)
  }

  /** Decoding the encoding of one character, followed by anything, yields
      that character followed by the decoding of the rest. */
  lemma DecodeEncodedChar(c: char, rest: string)
    ensures Decode(EncodeChar(c) + rest) ==
              match Decode(rest) case None => None case Some(r) => Some([c] + r)
  {
    var s := EncodeChar(c) + rest;
    if Unreserved(c) {
      assert s[1..] == rest;
    } else {
      var bytes := Utf8(c);
      Utf8RoundTrip(c);
      EscapedBytesOfEscapeAll(bytes, rest);
      HexRoundTrip(bytes[0] / 16);
      HexRoundTrip(bytes[0] % 16);
      assert s[..3] == Escape(bytes[0]);
      assert EscapedByte(s, 0) == Some(bytes[0]);
      assert s[3 * |bytes|..] == rest;
    }
  }

  /** Round trip: `decodeURIComponent(encodeURIComponent(s)) === s`. */
  lemma {:induction false} DecodeEncode(s: string)
    ensures Decode(Encode(s)) == Some(s)
    decreases |s|
  {
    if |s| > 0 {
      DecodeEncode(s[1..]);
      DecodeEncodedChar(s[0], Encode(s[1..]));
      assert [s[0]] + s[1..] == s;
    }
  }

  /** Text made of unreserved characters is left as it is, so numeric and
      UUID identifiers travel unchanged. */
  lemma {:induction false} EncodeUnreserved(s: string)
    requires forall i :: 0 <= i < |s| ==> Unreserved(s[i])
    ensures Encode(s) == s
    decreases |s|
  {
    if |s| > 0 {
      EncodeUnreserved(s[1..]);
      assert [s[0]] + s[1..] == s;
    }
  }
}
