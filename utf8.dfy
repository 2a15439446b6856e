/** UTF-8 as used at the native boundary: .NET's `Encoding.UTF8.GetBytes` (Encode),
    Rust's strict `std::str::from_utf8` (Decode, failing with the length of the longest
    valid prefix, `valid_up_to`), and .NET's `Encoding.UTF8.GetString` (DecodeLossy). */
module Utf8 {
  import opened Wrappers

  type byte = x: int | 0 <= x < 256

  predicate IsScalar(n: int) {
    (0 <= n < 0xD800) || (0xE000 <= n < 0x11_0000)
  }

  /** The one to four bytes of one code point. */
  function EncodeChar(c: char): (bs: seq<byte>)
    ensures 1 <= |bs| <= 4
    ensures (c as int < 0x80) <==> |bs| == 1
  {
    var n := c as int;
    if n < 0x80 then [n]
    else if n < 0x800 then [0xC0 + n / 64, 0x80 + n % 64]
    else if n < 0x1_0000 then [0xE0 + n / 4096, 0x80 + (n / 64) % 64, 0x80 + n % 64]
    else [0xF0 + n / 262144, 0x80 + (n / 4096) % 64, 0x80 + (n / 64) % 64, 0x80 + n % 64]
  }

  function Encode(s: string): (bs: seq<byte>)
    ensures |bs| >= |s|
    ensures bs == [] <==> s == []
  {
    if s == [] then [] else EncodeChar(s[0]) + Encode(s[1..])
  }

  predicate InRange(b: byte, lo: int, hi: int) {
    lo <= b <= hi
  }

  /** Decodes one well-formed code point at the start of `bs` (Table 3-7 of the Unicode
      Standard: no overlong forms, no surrogates, nothing above U+10FFFF), giving the
      character and the number of bytes it took. */
  function DecodeOne(bs: seq<byte>): (r: Option<(char, nat)>)
    requires |bs| > 0
    ensures r.Some? ==> 1 <= r.value.1 <= |bs| && r.value.1 <= 4
  {
    var b0: int := bs[0];
    if b0 < 0x80 then Some((b0 as char, 1))
    else if 0xC2 <= b0 <= 0xDF then
      if |bs| >= 2 && InRange(bs[1], 0x80, 0xBF) then
        Some((((b0 - 0xC0) * 64 + (bs[1] as int - 0x80)) as char, 2))
      else None
    else if 0xE0 <= b0 <= 0xEF then
      var lo := if b0 == 0xE0 then 0xA0 else 0x80;
      var hi := if b0 == 0xED then 0x9F else 0xBF;
      if |bs| >= 3 && InRange(bs[1], lo, hi) && InRange(bs[2], 0x80, 0xBF) then
        Some((((b0 - 0xE0) * 4096 + (bs[1] as int - 0x80) * 64 + (bs[2] as int - 0x80)) as char, 3))
      else None
    else if 0xF0 <= b0 <= 0xF4 then
      var lo := if b0 == 0xF0 then 0x90 else 0x80;
      var hi := if b0 == 0xF4 then 0x8F else 0xBF;
      if |bs| >= 4 && InRange(bs[1], lo, hi) && InRange(bs[2], 0x80, 0xBF) && InRange(bs[3], 0x80, 0xBF) then
        Some((((b0 - 0xF0) * 262144 + (bs[1] as int - 0x80) * 4096 + (bs[2] as int - 0x80) * 64 + (bs[3] as int - 0x80)) as char, 4))
      else None
    else None
  }

  /** Strict decoding; a failure carries the index of the first byte of the first
      ill-formed sequence. */
  function Decode(bs: seq<byte>): (r: Result<string, nat>)
    ensures r.Failure? ==> r.error < |bs|
    ensures r.Success? ==> |r.value| <= |bs|
    ensures r == Success([]) <==> bs == []
    decreases |bs|
  {
    if bs == [] then Success([])
    else match DecodeOne(bs)
      case None => Failure(0)
      case Some((c, k)) =>
        match Decode(bs[k..])
        case Success(s) => Success([c] + s)
        case Failure(j) => Failure(j + k)
  }

  const ReplacementChar: char := '\U{FFFD}'

  /** Decoding that replaces each byte which does not start a well-formed sequence by
      U+FFFD and carries on. */
  function DecodeLossy(bs: seq<byte>): (s: string)
    ensures |s| <= |bs|
    decreases |bs|
  {
    if bs == [] then []
    else match DecodeOne(bs)
      case None => [ReplacementChar] + DecodeLossy(bs[1..])
      case Some((c, k)) => [c] + DecodeLossy(bs[k..])
  }

  lemma DecodeOneOfEncodeChar(c: char, rest: seq<byte>)
    ensures DecodeOne(EncodeChar(c) + rest) == Some((c, |EncodeChar(c)|))
  {
    var n := c as int;
    var bs := EncodeChar(c) + rest;
    if n < 0x80 {
    } else if n < 0x800 {
      DecodeTwo(c, bs);
    } else if n < 0x1_0000 {
      DecodeThree(c, bs);
    } else {
      DecodeFour(c, bs);
    }
  }

  lemma DecodeTwo(c: char, bs: seq<byte>)
    requires 0x80 <= c as int < 0x800
    requires |bs| >= 2 && bs[0] == 0xC0 + (c as int) / 64 && bs[1] == 0x80 + (c as int) % 64
    ensures DecodeOne(bs) == Some((c, 2))
  {
    var n := c as int;
    assert n == (n / 64) * 64 + n % 64;
    assert ((bs[0] as int - 0xC0) * 64 + (bs[1] as int - 0x80)) == n;
  }

  lemma DecodeThree(c: char, bs: seq<byte>)
    requires 0x800 <= c as int < 0x1_0000
    requires |bs| >= 3 && bs[0] == 0xE0 + (c as int) / 4096
    requires bs[1] == 0x80 + ((c as int) / 64) % 64 && bs[2] == 0x80 + (c as int) % 64
    ensures DecodeOne(bs) == Some((c, 3))
  {
    var n := c as int;
    var q := n / 64;
    assert n == q * 64 + n % 64;
    assert q == (q / 64) * 64 + q % 64;
    assert q / 64 == n / 4096;
    assert (bs[0] as int - 0xE0) * 4096 + (bs[1] as int - 0x80) * 64 + (bs[2] as int - 0x80) == n;
  }

  lemma DecodeFour(c: char, bs: seq<byte>)
    requires 0x1_0000 <= c as int
    requires |bs| >= 4 && bs[0] == 0xF0 + (c as int) / 262144 && bs[1] == 0x80 + ((c as int) / 4096) % 64
    requires bs[2] == 0x80 + ((c as int) / 64) % 64 && bs[3] == 0x80 + (c as int) % 64
    ensures DecodeOne(bs) == Some((c, 4))
  {
    var n := c as int;
    var q := n / 64;
    var p := q / 64;
    assert n == q * 64 + n % 64;
    assert q == p * 64 + q % 64;
    assert p == (p / 64) * 64 + p % 64;
    assert p == n / 4096;
    assert p / 64 == n / 262144;
    assert (bs[0] as int - 0xF0) * 262144 + (bs[1] as int - 0x80) * 4096 + (bs[2] as int - 0x80) * 64 + (bs[3] as int - 0x80) == n;
  }

  /** What .NET encodes, Rust's strict decoder gives back unchanged. */
  lemma {:induction false} DecodeEncode(s: string)
    ensures Decode(Encode(s)) == Success(s)
  {
    if s != [] {
      var e := EncodeChar(s[0]);
      DecodeOneOfEncodeChar(s[0], Encode(s[1..]));
      assert (e + Encode(s[1..]))[|e|..] == Encode(s[1..]);
      DecodeEncode(s[1..]);
      assert [s[0]] + s[1..] == s;
    }
  }

  /** On well-formed input the lossy decoder agrees with the strict one. */
  lemma {:induction false} DecodeLossyOfValid(bs: seq<byte>)
    requires Decode(bs).Success?
    ensures DecodeLossy(bs) == Decode(bs).value
    decreases |bs|
  {
    if bs != [] {
      var k := DecodeOne(bs).value.1;
      DecodeLossyOfValid(bs[k..]);
    }
  }

  lemma DecodeLossyEncode(s: string)
    ensures DecodeLossy(Encode(s)) == s
  {
    DecodeEncode(s);
    DecodeLossyOfValid(Encode(s));
  }
}
