/**
 * Base64 with the standard alphabet and `=` padding, as in section 4 of
 * RFC 4648: what `btoa` produces. The decoder is the strict one (length a
 * multiple of four, padding only in the last quantum, unused bits zero), so
 * that encoding and decoding are inverse in both directions.
 */
module Base64 {
  import opened Common

  /** The alphabet of RFC 4648, Table 1: A-Z, a-z, 0-9, '+', '/'. */
  predicate IsBase64Char(c: char) {
    'A' <= c <= 'Z' || 'a' <= c <= 'z' || '0' <= c <= '9' || c == '+' || c == '/'
  }

  function EncodeSextet(v: int): (c: char)
    requires 0 <= v < 64
    ensures IsBase64Char(c)
  {
    if v < 26 then ('A' as int + v) as char
    else if v < 52 then ('a' as int + (v - 26)) as char
    else if v < 62 then ('0' as int + (v - 52)) as char
    else if v == 62 then '+'
    else '/'
  }

  function DecodeSextet(c: char): (v: int)
    requires IsBase64Char(c)
    ensures 0 <= v < 64
    ensures EncodeSextet(v) == c
  {
    if 'A' <= c <= 'Z' then c as int - 'A' as int
    else if 'a' <= c <= 'z' then c as int - 'a' as int + 26
    else if '0' <= c <= '9' then c as int - '0' as int + 52
    else if c == '+' then 62
    else 63
  }

  lemma SextetRoundTrip(v: int)
    requires 0 <= v < 64
    ensures DecodeSextet(EncodeSextet(v)) == v
  {
  }

  /** Three bytes become four characters. */
  function EncodeQuantum(b0: byte, b1: byte, b2: byte): string {
    [EncodeSextet(b0 / 4), EncodeSextet(b0 % 4 * 16 + b1 / 16),
     EncodeSextet(b1 % 16 * 4 + b2 / 64), EncodeSextet(b2 % 64)]
  }

  /** The encoding of `bytes`, one four-character quantum per three bytes, the last one padded. */
  function Encode(bytes: seq<byte>): (s: string)
    ensures |s| == 4 * ((|bytes| + 2) / 3)
    decreases |bytes|
  {
    if |bytes| == 0 then ""
    else if |bytes| == 1 then
      [EncodeSextet(bytes[0] / 4), EncodeSextet(bytes[0] % 4 * 16), '=', '=']
    else if |bytes| == 2 then
      [EncodeSextet(bytes[0] / 4), EncodeSextet(bytes[0] % 4 * 16 + bytes[1] / 16),
       EncodeSextet(bytes[1] % 16 * 4), '=']
    else
      assert (|bytes| - 3 + 2) / 3 + 1 == (|bytes| + 2) / 3;
      EncodeQuantum(bytes[0], bytes[1], bytes[2]) + Encode(bytes[3..])
  }

  /** Four alphabet characters become three bytes. */
  function DecodeQuantum(s: string): (b: seq<byte>)
    requires |s| == 4 && forall k :: 0 <= k < 4 ==> IsBase64Char(s[k])
    ensures |b| == 3
  {
    var v0, v1, v2, v3 := DecodeSextet(s[0]), DecodeSextet(s[1]), DecodeSextet(s[2]), DecodeSextet(s[3]);
    [v0 * 4 + v1 / 16, v1 % 16 * 16 + v2 / 4, v2 % 4 * 64 + v3]
  }

  /** The last quantum, which may carry one or two `=` characters. */
  function DecodeLast(s: string): Option<seq<byte>>
    requires |s| == 4
  {
    if forall k :: 0 <= k < 4 ==> IsBase64Char(s[k]) then
      Some(DecodeQuantum(s))
    else if IsBase64Char(s[0]) && IsBase64Char(s[1]) && IsBase64Char(s[2]) && s[3] == '='
            && DecodeSextet(s[2]) % 4 == 0 then
      var v0, v1, v2 := DecodeSextet(s[0]), DecodeSextet(s[1]), DecodeSextet(s[2]);
      Some([v0 * 4 + v1 / 16, v1 % 16 * 16 + v2 / 4])
    else if IsBase64Char(s[0]) && IsBase64Char(s[1]) && s[2] == '=' && s[3] == '='
            && DecodeSextet(s[1]) % 16 == 0 then
      var v0, v1 := DecodeSextet(s[0]), DecodeSextet(s[1]);
      Some([v0 * 4 + v1 / 16])
    else
      None
  }

  /** Strict decoding; `None` for any string that is not the encoding of some bytes. */
  function Decode(s: string): Option<seq<byte>>
    decreases |s|
  {
    if |s| == 0 then Some([])
    else if |s| < 4 then None
    else if |s| == 4 then DecodeLast(s)
    else if forall k :: 0 <= k < 4 ==> IsBase64Char(s[k]) then
      match Decode(s[4..])
      case Some(rest) => Some(DecodeQuantum(s[..4]) + rest)
      case None => None
    else None
  }

  /** Decoding an encoding gives the bytes back. */
  lemma {:induction false} DecodeEncode(bytes: seq<byte>)
    ensures Decode(Encode(bytes)) == Some(bytes)
    decreases |bytes|
  {
    if |bytes| == 0 {
    } else if |bytes| < 3 {
      DecodeEncodePadded(bytes);
    } else {
      DecodeEncode(bytes[3..]);
      DecodeEncodeStep(bytes);
    }
  }

  /** One full quantum in front: if the rest round-trips, so does the whole. */
  lemma DecodeEncodeStep(bytes: seq<byte>)
    requires |bytes| >= 3 && Decode(Encode(bytes[3..])) == Some(bytes[3..])
    ensures Decode(Encode(bytes)) == Some(bytes)
  {
    var q, tail := EncodeQuantum(bytes[0], bytes[1], bytes[2]), bytes[3..];
    SplitFront(bytes);
    assert Encode(bytes) == q + Encode(tail);
    QuantumRoundTrip(bytes[0], bytes[1], bytes[2]);
    DecodeQuantumThen(q, Encode(tail), tail);
  }

  lemma SplitFront(bytes: seq<byte>)
    requires |bytes| >= 3
    ensures bytes == [bytes[0], bytes[1], bytes[2]] + bytes[3..]
  {
    assert bytes == bytes[..3] + bytes[3..];
    assert bytes[..3] == [bytes[0], bytes[1], bytes[2]];
  }

  /** A full quantum in front of a decodable string decodes to its three bytes in front. */
  lemma DecodeQuantumThen(q: string, t: string, rest: seq<byte>)
    requires |q| == 4 && forall k :: 0 <= k < 4 ==> IsBase64Char(q[k])
    requires Decode(t) == Some(rest)
    ensures Decode(q + t) == Some(DecodeQuantum(q) + rest)
  {
    var s := q + t;
    assert s[..4] == q && s[4..] == t;
    if t == [] {
      assert s == q;
      assert rest == [];
      assert DecodeQuantum(q) + rest == DecodeQuantum(q);
      assert Decode(s) == DecodeLast(q);
    } else {
      assert |s| > 4;
    }
  }

  /** The padded final quantum of one or two bytes decodes back. */
  lemma DecodeEncodePadded(bytes: seq<byte>)
    requires 1 <= |bytes| <= 2
    ensures Decode(Encode(bytes)) == Some(bytes)
  {
    if |bytes| == 1 {
      assert bytes == [bytes[0]];
      DecodeEncodeOne(bytes[0]);
    } else {
      assert bytes == [bytes[0], bytes[1]];
      DecodeEncodeTwo(bytes[0], bytes[1]);
    }
  }

  lemma DecodeEncodeOne(b0: byte)
    ensures Decode(Encode([b0])) == Some([b0])
  {
    var v0, v1 := b0 / 4, b0 % 4 * 16;
    var s := [EncodeSextet(v0), EncodeSextet(v1), '=', '='];
    assert Encode([b0]) == s;
    SextetRoundTrip(v0);
    SextetRoundTrip(v1);
    SplitDigit(b0 % 4, 0, 16);
    assert !IsBase64Char(s[2]) && !IsBase64Char(s[3]);
    assert DecodeSextet(s[1]) % 16 == 0;
    assert v0 * 4 + v1 / 16 == b0;
    assert DecodeLast(s) == Some([b0]);
  }

  lemma DecodeEncodeTwo(b0: byte, b1: byte)
    ensures Decode(Encode([b0, b1])) == Some([b0, b1])
  {
    var v0, v1, v2 := b0 / 4, b0 % 4 * 16 + b1 / 16, b1 % 16 * 4;
    var s := [EncodeSextet(v0), EncodeSextet(v1), EncodeSextet(v2), '='];
    assert Encode([b0, b1]) == s;
    SextetRoundTrip(v0);
    SextetRoundTrip(v1);
    SextetRoundTrip(v2);
    SplitDigit(b0 % 4, b1 / 16, 16);
    SplitDigit(b1 % 16, 0, 4);
    assert !IsBase64Char(s[3]);
    assert DecodeSextet(s[2]) % 4 == 0;
    assert v0 * 4 + v1 / 16 == b0;
    assert v1 % 16 * 16 + v2 / 4 == b1;
    assert DecodeLast(s) == Some([b0, b1]);
  }

  /** `(hi * d + lo) / d == hi` and `(hi * d + lo) % d == lo` for a digit `lo` in base `d`. */
  lemma SplitDigit(hi: int, lo: int, d: int)
    requires d in {4, 16, 64} && 0 <= hi && 0 <= lo < d
    ensures (hi * d + lo) / d == hi && (hi * d + lo) % d == lo
  {
  }

  lemma QuantumRoundTrip(b0: byte, b1: byte, b2: byte)
    ensures var q := EncodeQuantum(b0, b1, b2);
            (forall k :: 0 <= k < 4 ==> IsBase64Char(q[k])) && DecodeQuantum(q) == [b0, b1, b2]
  {
    var v0, v1, v2, v3 := b0 / 4, b0 % 4 * 16 + b1 / 16, b1 % 16 * 4 + b2 / 64, b2 % 64;
    SextetRoundTrip(v0);
    SextetRoundTrip(v1);
    SextetRoundTrip(v2);
    SextetRoundTrip(v3);
    SplitDigit(b0 % 4, b1 / 16, 16);
    SplitDigit(b1 % 16, b2 / 64, 4);
    assert v0 * 4 + v1 / 16 == b0;
    assert v1 % 16 * 16 + v2 / 4 == b1;
    assert v2 % 4 * 64 + v3 == b2;
  }

  lemma {:induction false} EncodeDecode(s: string, bytes: seq<byte>)
    requires Decode(s) == Some(bytes)
    ensures Encode(bytes) == s
    decreases |s|
  {
    if |s| == 0 {
    } else if |s| == 4 {
      LastQuantumCanonical(s, bytes);
    } else {
      var rest := Decode(s[4..]).value;
      var q := s[..4];
      assert forall k :: 0 <= k < 4 ==> IsBase64Char(q[k]);
      assert bytes == DecodeQuantum(q) + rest;
      EncodeDecode(s[4..], rest);
      QuantumCanonical(q);
      assert bytes[3..] == rest;
      assert s == q + s[4..];
    }
  }

  lemma QuantumCanonical(q: string)
    requires |q| == 4 && forall k :: 0 <= k < 4 ==> IsBase64Char(q[k])
    ensures var b := DecodeQuantum(q); EncodeQuantum(b[0], b[1], b[2]) == q
  {
    var v0, v1, v2, v3 := DecodeSextet(q[0]), DecodeSextet(q[1]), DecodeSextet(q[2]), DecodeSextet(q[3]);
    var b := DecodeQuantum(q);
    assert b[0] / 4 == v0 && b[0] % 4 * 16 + b[1] / 16 == v1;
    assert b[1] % 16 * 4 + b[2] / 64 == v2 && b[2] % 64 == v3;
  }

  lemma LastQuantumCanonical(s: string, bytes: seq<byte>)
    requires |s| == 4 && DecodeLast(s) == Some(bytes)
    ensures Encode(bytes) == s
  {
    if forall k :: 0 <= k < 4 ==> IsBase64Char(s[k]) {
      QuantumCanonical(s);
      assert Encode(bytes) == EncodeQuantum(bytes[0], bytes[1], bytes[2]) + Encode(bytes[3..]);
    } else if IsBase64Char(s[0]) && IsBase64Char(s[1]) && IsBase64Char(s[2]) && s[3] == '='
            && DecodeSextet(s[2]) % 4 == 0 {
      var v0, v1, v2 := DecodeSextet(s[0]), DecodeSextet(s[1]), DecodeSextet(s[2]);
      assert bytes[0] / 4 == v0 && bytes[0] % 4 * 16 + bytes[1] / 16 == v1;
      assert bytes[1] % 16 * 4 == v2;
    } else {
      var v0, v1 := DecodeSextet(s[0]), DecodeSextet(s[1]);
      assert bytes[0] / 4 == v0 && bytes[0] % 4 * 16 == v1;
    }
  }
}
