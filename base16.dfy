/**
 * Base16 (section 8 of RFC 4648) as Python's `base64.b16encode` and
 * `base64.b16decode(s)` (with casefold off) implement it: upper-case digits
 * only, two per byte, high nibble first.
 */
module Base16 {
  import opened Wrappers
  import opened Utf8

  datatype Base16Error =
    | NonAscii        // str.encode("ascii") fails before any other check
    | NonBase16Digit  // a character outside 0-9A-F, lower case included
    | OddLength       // binascii.unhexlify refuses an odd number of digits

  /** The digits of the alphabet: 0-9 and upper-case A-F. */
  predicate IsDigit(c: char)
  {
    '0' <= c <= '9' || 'A' <= c <= 'F'
  }

  function Digit(v: nat): (c: char)
    requires v < 16
    ensures IsDigit(c)
  {
    if v < 10 then ('0' as int + v) as char else ('A' as int + v - 10) as char
  }

  function DigitValue(c: char): (v: nat)
    requires IsDigit(c)
    ensures v < 16 && Digit(v) == c
  {
    if '0' <= c <= '9' then c as int - '0' as int else c as int - 'A' as int + 10
  }

  function EncodeByte(b: byte): string
  {
    [Digit(b / 16), Digit(b % 16)]
  }

  function Encode(bytes: seq<byte>): (r: string)
    ensures |r| == 2 * |bytes|
    ensures forall i :: 0 <= i < |r| ==> IsDigit(r[i])
  {
    if bytes == [] then "" else EncodeByte(bytes[0]) + Encode(bytes[1..])
  }

  /** Pairs of digits to bytes; the caller has checked the digits and the length. */
  function DecodePairs(s: string): (r: seq<byte>)
    requires |s| % 2 == 0
    requires forall i :: 0 <= i < |s| ==> IsDigit(s[i])
    ensures |r| == |s| / 2
  {
    if s == [] then [] else [DigitValue(s[0]) * 16 + DigitValue(s[1])] + DecodePairs(s[2..])
  }

  function Decode(s: string): (r: Result<seq<byte>, Base16Error>)
    ensures r.Ok? <==> |s| % 2 == 0 && forall i :: 0 <= i < |s| ==> IsDigit(s[i])
  {
    if exists i :: 0 <= i < |s| && s[i] as int >= 128 then Err(NonAscii)
    else if exists i :: 0 <= i < |s| && !IsDigit(s[i]) then Err(NonBase16Digit)
    else if |s| % 2 == 1 then Err(OddLength)
    else Ok(DecodePairs(s))
  }

  lemma {:induction false} DecodeEncode(bytes: seq<byte>)
    ensures Decode(Encode(bytes)) == Ok(bytes)
  {
    var s := Encode(bytes);
    assert forall i :: 0 <= i < |s| ==> s[i] as int < 128 by {
      forall i | 0 <= i < |s| ensures s[i] as int < 128 {
        assert IsDigit(s[i]);
      }
    }
    DecodePairsEncode(bytes);
  }

  lemma {:induction false} DecodePairsEncode(bytes: seq<byte>)
    ensures DecodePairs(Encode(bytes)) == bytes
  {
    if bytes != [] {
      var b := bytes[0];
      var s := Encode(bytes);
      assert s[2..] == Encode(bytes[1..]);
      assert DigitValue(s[0]) == b / 16 && DigitValue(s[1]) == b % 16;
      DecodePairsEncode(bytes[1..]);
    }
  }

  /** A string that decodes is the encoding of its bytes: Base16 has one spelling per byte string. */
  lemma {:induction false} EncodeDecode(s: string)
    requires Decode(s).Ok?
    ensures Encode(Decode(s).value) == s
  {
    EncodeDecodePairs(s);
  }

  lemma {:induction false} EncodeDecodePairs(s: string)
    requires |s| % 2 == 0
    requires forall i :: 0 <= i < |s| ==> IsDigit(s[i])
    ensures Encode(DecodePairs(s)) == s
  {
    if s != [] {
      DigitsTail(s);
      var b := DecodePairsCons(s);
      calc {
        Encode(DecodePairs(s));
        EncodeByte(b) + Encode(DecodePairs(s[2..]));
        { EncodeDecodePairs(s[2..]); }
        [s[0], s[1]] + s[2..];
        { assert s == [s[0], s[1]] + s[2..]; }
        s;
      }
    }
  }

  lemma DigitsTail(s: string)
    requires |s| >= 2
    requires forall i :: 0 <= i < |s| ==> IsDigit(s[i])
    ensures forall i :: 0 <= i < |s[2..]| ==> IsDigit(s[2..][i])
  {
    forall i | 0 <= i < |s[2..]| ensures IsDigit(s[2..][i]) {
      assert s[2..][i] == s[i + 2];
    }
  }

  /** The first pair of digits decodes to the byte whose encoding they are; the rest decode on their own. */
  lemma DecodePairsCons(s: string) returns (b: byte)
    requires |s| >= 2 && |s| % 2 == 0
    requires forall i :: 0 <= i < |s| ==> IsDigit(s[i])
    ensures forall i :: 0 <= i < |s[2..]| ==> IsDigit(s[2..][i])
    ensures EncodeByte(b) == [s[0], s[1]]
    ensures Encode(DecodePairs(s)) == EncodeByte(b) + Encode(DecodePairs(s[2..]))
  {
    DigitsTail(s);
    var hi, lo := DigitValue(s[0]), DigitValue(s[1]);
    b := hi * 16 + lo;
    PairByte(hi, lo);
    var bs := DecodePairs(s);
    assert bs == [b] + DecodePairs(s[2..]);
    assert bs[1..] == DecodePairs(s[2..]);
  }

  /** The byte made of two digit values splits back into them. */
  lemma PairByte(hi: nat, lo: nat)
    requires hi < 16 && lo < 16
    ensures (hi * 16 + lo) / 16 == hi && (hi * 16 + lo) % 16 == lo
  {
  }
}
