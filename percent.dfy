/** urllib.parse.unquote with its defaults (UTF-8, errors="replace"): each
    maximal run of ASCII characters has its %XX escapes turned into bytes and
    is decoded as UTF-8, every ill-formed byte sequence becoming one U+FFFD;
    characters outside ASCII pass through unchanged. */
module Percent {
  import opened Values
  import opened Collections

  type Byte = x: int | 0 <= x < 256

  const Replacement: char := '\U{FFFD}'

  predicate IsAscii(c: char)
  {
    c as int < 0x80
  }

  predicate AllAscii(s: string)
  {
    forall k :: 0 <= k < |s| ==> IsAscii(s[k])
  }

  predicate IsHexDigit(c: char)
  {
    '0' <= c <= '9' || 'a' <= c <= 'f' || 'A' <= c <= 'F'
  }

  function HexValue(c: char): (v: nat)
    requires IsHexDigit(c)
    ensures v < 16
  {
    if '0' <= c <= '9' then c as int - '0' as int
    else if 'a' <= c <= 'f' then c as int - 'a' as int + 10
    else c as int - 'A' as int + 10
  }

  /** unquote_to_bytes on a run of ASCII characters: a '%' followed by two hex
      digits becomes the byte they spell; any other character, a lone '%'
      included, becomes its own code. */
  function UnquoteToBytes(s: string): (b: seq<Byte>)
    requires AllAscii(s)
    ensures |b| <= |s|
    ensures '%' !in s ==> |b| == |s| && forall k :: 0 <= k < |s| ==> b[k] == s[k] as int
  {
    if s == [] then []
    else if s[0] == '%' && |s| >= 3 && IsHexDigit(s[1]) && IsHexDigit(s[2]) then
      [16 * HexValue(s[1]) + HexValue(s[2])] + UnquoteToBytes(s[3..])
    else
      [s[0] as int] + UnquoteToBytes(s[1..])
  }

  predicate IsContinuation(b: Byte)
  {
    0x80 <= b <= 0xBF
  }

  /** The range allowed for the second byte of a sequence led by `b0`; it
      excludes overlong forms, surrogates and code points above U+10FFFF. */
  function SecondLow(b0: Byte): Byte
  {
    if b0 == 0xE0 then 0xA0 else if b0 == 0xF0 then 0x90 else 0x80
  }

  function SecondHigh(b0: Byte): Byte
  {
    if b0 == 0xED then 0x9F else if b0 == 0xF4 then 0x8F else 0xBF
  }

  /** The number of bytes a sequence led by `b0` takes when well formed;
      0 when `b0` cannot start one. */
  function SequenceLength(b0: Byte): nat
  {
    if b0 < 0x80 then 1
    else if 0xC2 <= b0 <= 0xDF then 2
    else if 0xE0 <= b0 <= 0xEF then 3
    else if 0xF0 <= b0 <= 0xF4 then 4
    else 0
  }

  /** How many leading bytes of `b` belong to a well-formed prefix of the
      sequence its first byte starts (its maximal subpart). */
  function ValidPrefix(b: seq<Byte>): (n: nat)
    requires b != []
    ensures 1 <= n <= |b|
    ensures n <= 4
  {
    var len := SequenceLength(b[0]);
    if len <= 1 then 1
    else if |b| < 2 || !(SecondLow(b[0]) <= b[1] <= SecondHigh(b[0])) then 1
    else if len == 2 then 2
    else if |b| < 3 || !IsContinuation(b[2]) then 2
    else if len == 3 then 3
    else if |b| < 4 || !IsContinuation(b[3]) then 3
    else 4
  }

  /** The scalar value of the well-formed sequence at the head of `b`. */
  function CodePoint(b: seq<Byte>): (c: char)
    requires b != [] && SequenceLength(b[0]) >= 1 && ValidPrefix(b) == SequenceLength(b[0])
  {
    var len := SequenceLength(b[0]);
    var b0: int := b[0];
    if len == 1 then b0 as char
    else if len == 2 then ((b0 - 0xC0) * 64 + (b[1] as int - 0x80)) as char
    else if len == 3 then
      ((b0 - 0xE0) * 4096 + (b[1] as int - 0x80) * 64 + (b[2] as int - 0x80)) as char
    else
      ((b0 - 0xF0) * 262144 + (b[1] as int - 0x80) * 4096 + (b[2] as int - 0x80) * 64
       + (b[3] as int - 0x80)) as char
  }

  /** bytes.decode("utf-8", "replace"). */
  function DecodeUtf8(b: seq<Byte>): (r: string)
    ensures |r| <= |b|
    decreases |b|
  {
    if b == [] then []
    else
      var n := ValidPrefix(b);
      if n == SequenceLength(b[0]) then [CodePoint(b)] + DecodeUtf8(b[n..])
      else [Replacement] + DecodeUtf8(b[n..])
  }

  // ---------------------------------------------------------------------
  // Reference encoders: percent-escaping every byte, and UTF-8 encoding

  /** The upper-case hex digit of `v`. */
  function HexDigit(v: nat): (c: char)
    requires v < 16
    ensures IsHexDigit(c) && HexValue(c) == v
  {
    if v < 10 then ('0' as int + v) as char else ('A' as int + v - 10) as char
  }

  /** Every byte written as '%' and its two hex digits. */
  function Escape(b: seq<Byte>): (s: string)
    ensures |s| == 3 * |b| && AllAscii(s)
  {
    if b == [] then []
    else ['%', HexDigit(b[0] / 16), HexDigit(b[0] % 16)] + Escape(b[1..])
  }

  /** Unescaping turns each `%XX` back into the byte it spells. */
  lemma {:induction false} UnquoteEscaped(b: seq<Byte>)
    ensures UnquoteToBytes(Escape(b)) == b
  {
    if b != [] {
      UnquoteEscapedByte(b[0], Escape(b[1..]));
      UnquoteEscaped(b[1..]);
      HeadTail(b);
    }
  }

  lemma UnquoteEscapedByte(x: Byte, rest: string)
    requires AllAscii(rest)
    ensures UnquoteToBytes(['%', HexDigit(x / 16), HexDigit(x % 16)] + rest) == [x] + UnquoteToBytes(rest)
  {
    var s := ['%', HexDigit(x / 16), HexDigit(x % 16)] + rest;
    assert s[3..] == rest;
  }

  /** The UTF-8 encoding of one scalar value. */
  function EncodeChar(c: char): (b: seq<Byte>)
    ensures 1 <= |b| <= 4
  {
    var v := c as int;
    if v < 0x80 then [v]
    else if v < 0x800 then [0xC0 + v / 64, 0x80 + v % 64]
    else if v < 0x10000 then [0xE0 + v / 4096, 0x80 + v % 4096 / 64, 0x80 + v % 4096 % 64]
    else
      [0xF0 + v / 262144, 0x80 + v % 262144 / 4096, 0x80 + v % 262144 % 4096 / 64,
       0x80 + v % 262144 % 4096 % 64]
  }

  function EncodeUtf8(s: string): seq<Byte>
  {
    if s == [] then [] else EncodeChar(s[0]) + EncodeUtf8(s[1..])
  }

  /** Decoding the UTF-8 encoding of a string gives the string back. */
  lemma {:induction false} DecodeEncoded(s: string)
    ensures DecodeUtf8(EncodeUtf8(s)) == s
  {
    if s != [] {
      DecodeEncoded(s[1..]);
      DecodeEncodedChar(s[0], EncodeUtf8(s[1..]));
      HeadTail(s);
    }
  }

  lemma DecodeEncodedChar(c: char, rest: seq<Byte>)
    ensures DecodeUtf8(EncodeChar(c) + rest) == [c] + DecodeUtf8(rest)
  {
    var v := c as int;
    var b := EncodeChar(c) + rest;
    var n := |EncodeChar(c)|;
    assert b[n..] == rest;
    if v < 0x80 {
      assert ValidPrefix(b) == 1 == SequenceLength(b[0]) && CodePoint(b) == c;
    } else if v < 0x800 {
      DecodeTwo(c, b);
    } else if v < 0x10000 {
      DecodeThree(c, b);
    } else {
      DecodeFour(c, b);
    }
  }

  lemma DecodeTwo(c: char, b: seq<Byte>)
    requires 0x80 <= c as int < 0x800 && |b| >= 2 && b[..2] == EncodeChar(c)
    ensures ValidPrefix(b) == 2 == SequenceLength(b[0]) && CodePoint(b) == c
  {
    assert b[0] == 0xC0 + c as int / 64 && b[1] == 0x80 + c as int % 64;
  }

  lemma DecodeThree(c: char, b: seq<Byte>)
    requires 0x800 <= c as int < 0x10000 && |b| >= 3 && b[..3] == EncodeChar(c)
    ensures ValidPrefix(b) == 3 == SequenceLength(b[0]) && CodePoint(b) == c
  {
    var v := c as int;
    var r := v % 4096;
    assert b[0] == 0xE0 + v / 4096 && b[1] == 0x80 + r / 64 && b[2] == 0x80 + r % 64;
    assert v == v / 4096 * 4096 + r && r == r / 64 * 64 + r % 64;
  }

  lemma DecodeFour(c: char, b: seq<Byte>)
    requires 0x10000 <= c as int && |b| >= 4 && b[..4] == EncodeChar(c)
    ensures ValidPrefix(b) == 4 == SequenceLength(b[0]) && CodePoint(b) == c
  {
    var v := c as int;
    var r1 := v % 262144;
    var r2 := r1 % 4096;
    assert b[0] == 0xF0 + v / 262144 && b[1] == 0x80 + r1 / 4096;
    assert b[2] == 0x80 + r2 / 64 && b[3] == 0x80 + r2 % 64;
    assert v == v / 262144 * 262144 + r1 && r1 == r1 / 4096 * 4096 + r2 && r2 == r2 / 64 * 64 + r2 % 64;
  }

  /** A byte that cannot start a sequence becomes one U+FFFD. */
  lemma StrayByteIsReplaced(b: seq<Byte>)
    requires b != [] && SequenceLength(b[0]) == 0
    ensures DecodeUtf8(b) == [Replacement] + DecodeUtf8(b[1..])
  {
  }

  /** Length of the leading run of ASCII characters. */
  function AsciiRun(s: string): (n: nat)
    ensures n <= |s| && AllAscii(s[..n])
    ensures n < |s| ==> !IsAscii(s[n])
  {
    if s != [] && IsAscii(s[0]) then 1 + AsciiRun(s[1..]) else 0
  }

  /** The decoding loop of unquote: ASCII runs are unescaped and decoded,
      other characters are copied. */
  function UnquoteRuns(s: string): (r: string)
    ensures |r| <= |s|
    decreases |s|
  {
    if s == [] then []
    else
      var n := AsciiRun(s);
      if n == 0 then [s[0]] + UnquoteRuns(s[1..])
      else DecodeUtf8(UnquoteToBytes(s[..n])) + UnquoteRuns(s[n..])
  }

  /** urllib.parse.unquote(s), which returns `s` itself when it holds no '%'. */
  function Unquote(s: string): (r: string)
    ensures |r| <= |s|
  {
    if '%' !in s then s else UnquoteRuns(s)
  }

  lemma {:induction false} DecodeAscii(b: seq<Byte>)
    requires forall k :: 0 <= k < |b| ==> b[k] < 0x80
    ensures |DecodeUtf8(b)| == |b|
    ensures forall k :: 0 <= k < |b| ==> DecodeUtf8(b)[k] as int == b[k]
    decreases |b|
  {
    if b != [] {
      DecodeAscii(b[1..]);
    }
  }

  lemma AsciiRunWithoutPercent(run: string)
    requires AllAscii(run) && '%' !in run
    ensures DecodeUtf8(UnquoteToBytes(run)) == run
  {
    var bytes := UnquoteToBytes(run);
    DecodeAscii(bytes);
  }

  /** One step of the decoding loop on a string without '%': a non-ASCII
      character is copied, an ASCII run comes out unchanged. */
  lemma UnquoteRunsStep(s: string, n: nat)
    requires s != [] && n == AsciiRun(s) && '%' !in s
    ensures n == 0 ==> UnquoteRuns(s) == [s[0]] + UnquoteRuns(s[1..])
    ensures n > 0 ==> UnquoteRuns(s) == s[..n] + UnquoteRuns(s[n..])
  {
    if n > 0 {
      AsciiRunWithoutPercent(s[..n]);
    }
  }

  /** The shortcut unquote takes for a string without '%' agrees with its
      general decoding loop: such a string decodes to itself. */
  lemma {:induction false} UnquoteWithoutPercent(s: string)
    requires '%' !in s
    ensures UnquoteRuns(s) == s
    decreases |s|
  {
    if s != [] {
      var n := AsciiRun(s);
      UnquoteRunsStep(s, n);
      if n == 0 {
        UnquoteWithoutPercent(s[1..]);
        HeadTail(s);
      } else {
        UnquoteWithoutPercent(s[n..]);
        SplitAt(s, n);
      }
    }
  }
}
