/**
 * UTF-8 (RFC 3629) over Unicode scalar values: the encoder behind Python's
 * `str.encode("utf-8")` and the strict decoder behind `bytes.decode("utf-8")`,
 * which refuses overlong forms, surrogates and code points above U+10FFFF.
 */
module Utf8 {
  import opened Wrappers

  type byte = b: int | 0 <= b < 256

  predicate IsContinuation(b: byte)
  {
    0x80 <= b < 0xC0
  }

  function EncodeChar(c: char): (r: seq<byte>)
    ensures 1 <= |r| <= 4
  {
    var cp := c as int;
    if cp < 0x80 then
      [cp]
    else if cp < 0x800 then
      [0xC0 + cp / 64, 0x80 + cp % 64]
    else if cp < 0x10000 then
      [0xE0 + cp / 64 / 64, 0x80 + cp / 64 % 64, 0x80 + cp % 64]
    else
      [0xF0 + cp / 64 / 64 / 64, 0x80 + cp / 64 / 64 % 64, 0x80 + cp / 64 % 64, 0x80 + cp % 64]
  }

  function Encode(s: string): seq<byte>
  {
    if s == [] then [] else EncodeChar(s[0]) + Encode(s[1..])
  }

  /** The scalar value at the front of `b` and the number of bytes it takes, if `b` starts with a well-formed sequence. */
  function DecodeFirst(b: seq<byte>): (r: Option<(char, nat)>)
    requires b != []
    ensures r.Some? ==> 1 <= r.value.1 <= |b|
  {
    var b0: int := b[0];
    if b0 < 0x80 then
      Some((b0 as char, 1))
    else if 0xC2 <= b0 < 0xE0 then
      if |b| < 2 || !IsContinuation(b[1]) then None
      else
        var cp: int := (b0 - 0xC0) * 64 + (b[1] as int - 0x80);
        Some((cp as char, 2))
    else if 0xE0 <= b0 < 0xF0 then
      if |b| < 3 || !IsContinuation(b[1]) || !IsContinuation(b[2]) then None
      else
        var cp: int := (b0 - 0xE0) * 4096 + (b[1] as int - 0x80) * 64 + (b[2] as int - 0x80);
        if cp < 0x800 || (0xD800 <= cp < 0xE000) then None
        else Some((cp as char, 3))
    else if 0xF0 <= b0 < 0xF5 then
      if |b| < 4 || !IsContinuation(b[1]) || !IsContinuation(b[2]) || !IsContinuation(b[3]) then None
      else
        var cp: int := (b0 - 0xF0) * 262144 + (b[1] as int - 0x80) * 4096 + (b[2] as int - 0x80) * 64 + (b[3] as int - 0x80);
        if cp < 0x10000 || cp >= 0x110000 then None
        else Some((cp as char, 4))
    else
      None
  }

  function Decode(b: seq<byte>): Option<string>
    decreases |b|
  {
    if b == [] then Some([])
    else match DecodeFirst(b)
      case None => None
      case Some((c, n)) =>
        match Decode(b[n..])
        case None => None
        case Some(rest) => Some([c] + rest)
  }

  lemma DecodeFirstEncodeChar(c: char, rest: seq<byte>)
    ensures DecodeFirst(EncodeChar(c) + rest) == Some((c, |EncodeChar(c)|))
  {
    var cp := c as int;
    var b := EncodeChar(c) + rest;
    if cp < 0x80 {
    } else if cp < 0x800 {
      assert cp == cp / 64 * 64 + cp % 64;
    } else if cp < 0x10000 {
      var q := cp / 64;
      assert cp == q * 64 + cp % 64;
      assert q == q / 64 * 64 + q % 64;
    } else {
      var q := cp / 64;
      var q2 := q / 64;
      assert cp == q * 64 + cp % 64;
      assert q == q2 * 64 + q % 64;
      assert q2 == q2 / 64 * 64 + q2 % 64;
    }
  }

  /** Decoding an encoding gives the string back. */
  lemma {:induction false} DecodeEncode(s: string)
    ensures Decode(Encode(s)) == Some(s)
  {
    if s != [] {
      var e := EncodeChar(s[0]);
      assert Encode(s) == e + Encode(s[1..]);
      DecodeFirstEncodeChar(s[0], Encode(s[1..]));
      assert (e + Encode(s[1..]))[|e|..] == Encode(s[1..]);
      DecodeEncode(s[1..]);
      assert [s[0]] + s[1..] == s;
    }
  }

  lemma EncodeCharDecodeFirst(b: seq<byte>)
    requires b != [] && DecodeFirst(b).Some?
    ensures EncodeChar(DecodeFirst(b).value.0) == b[..DecodeFirst(b).value.1]
  {
    var b0: int := b[0];
    if b0 < 0x80 {
    } else if b0 < 0xE0 {
      EncodeTwo(b0, b[1]);
      assert b[..2] == [b[0], b[1]];
    } else if b0 < 0xF0 {
      EncodeThree(b0, b[1], b[2]);
      assert b[..3] == [b[0], b[1], b[2]];
    } else {
      EncodeFour(b0, b[1], b[2], b[3]);
      assert b[..4] == [b[0], b[1], b[2], b[3]];
    }
  }

  lemma EncodeTwo(b0: byte, b1: byte)
    requires 0xC2 <= b0 < 0xE0 && IsContinuation(b1)
    ensures EncodeChar(((b0 - 0xC0) * 64 + (b1 - 0x80)) as char) == [b0, b1]
  {
    SixBits(b0 - 0xC0, b1 - 0x80);
  }

  lemma EncodeThree(b0: byte, b1: byte, b2: byte)
    requires 0xE0 <= b0 < 0xF0 && IsContinuation(b1) && IsContinuation(b2)
    requires var cp := (b0 - 0xE0) * 4096 + (b1 - 0x80) * 64 + (b2 - 0x80);
      cp >= 0x800 && !(0xD800 <= cp < 0xE000)
    ensures EncodeChar(((b0 - 0xE0) * 4096 + (b1 - 0x80) * 64 + (b2 - 0x80)) as char) == [b0, b1, b2]
  {
    var q := (b0 - 0xE0) * 64 + (b1 - 0x80);
    SixBits(b0 - 0xE0, b1 - 0x80);
    SixBits(q, b2 - 0x80);
  }

  lemma EncodeFour(b0: byte, b1: byte, b2: byte, b3: byte)
    requires 0xF0 <= b0 < 0xF5 && IsContinuation(b1) && IsContinuation(b2) && IsContinuation(b3)
    requires var cp := (b0 - 0xF0) * 262144 + (b1 - 0x80) * 4096 + (b2 - 0x80) * 64 + (b3 - 0x80);
      0x10000 <= cp < 0x110000
    ensures EncodeChar(((b0 - 0xF0) * 262144 + (b1 - 0x80) * 4096 + (b2 - 0x80) * 64 + (b3 - 0x80)) as char)
         == [b0, b1, b2, b3]
  {
    var q2 := (b0 - 0xF0) * 64 + (b1 - 0x80);
    var q := q2 * 64 + (b2 - 0x80);
    SixBits(b0 - 0xF0, b1 - 0x80);
    SixBits(q2, b2 - 0x80);
    SixBits(q, b3 - 0x80);
  }

  /** Appending six bits below `q` and taking them off again. */
  lemma SixBits(q: int, d: int)
    requires q >= 0 && 0 <= d < 64
    ensures (q * 64 + d) / 64 == q && (q * 64 + d) % 64 == d
  {
  }

  /** Whatever decodes is the encoding of what it decodes to: strict UTF-8 has one spelling per string. */
  lemma {:induction false} EncodeDecode(b: seq<byte>)
    requires Decode(b).Some?
    ensures Encode(Decode(b).value) == b
    decreases |b|
  {
    if b != [] {
      var n := DecodeStep(b);
      calc {
        Encode(Decode(b).value);
        b[..n] + Encode(Decode(b[n..]).value);
        { EncodeDecode(b[n..]); }
        b[..n] + b[n..];
        { SplitAt(b, n); }
        b;
      }
    }
  }

  /** Re-encoding a decoded input gives back its first `n` bytes, then the re-encoding of the rest. */
  lemma DecodeStep(b: seq<byte>) returns (n: nat)
    requires b != [] && Decode(b).Some?
    ensures 1 <= n <= |b| && Decode(b[n..]).Some?
    ensures Encode(Decode(b).value) == b[..n] + Encode(Decode(b[n..]).value)
  {
    DecodeCons(b);
    var c: char;
    c, n := DecodeFirst(b).value.0, DecodeFirst(b).value.1;
    EncodeCharDecodeFirst(b);
    EncodeCons(c, Decode(b[n..]).value);
  }

  /** A non-empty input decodes as its first scalar value followed by the decoding of the rest. */
  lemma DecodeCons(b: seq<byte>)
    requires b != [] && Decode(b).Some?
    ensures DecodeFirst(b).Some?
    ensures Decode(b[DecodeFirst(b).value.1..]).Some?
    ensures Decode(b).value == [DecodeFirst(b).value.0] + Decode(b[DecodeFirst(b).value.1..]).value
  {
  }

  /** Cutting a sequence at n and putting it back together. */
  lemma SplitAt<T>(s: seq<T>, n: nat)
    requires n <= |s|
    ensures s[..n] + s[n..] == s
  {
  }

  lemma EncodeCons(c: char, rest: string)
    ensures Encode([c] + rest) == EncodeChar(c) + Encode(rest)
  {
    assert ([c] + rest)[1..] == rest;
  }
}
