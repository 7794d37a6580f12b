/**
 * How the counting tool turns the `image` field of the counting service's
 * answer into an image source the page can display, and how it reads the
 * count out of the same answer.
 */
module ImageNormalizer {
  import opened Common
  import opened JsRuntime
  import Base64

  /** The prefix every wrapped image gets: a JPEG data URI in the sense of RFC 2397, section 3. */
  const JpegDataUriPrefix: string := "data:image/jpeg;base64,"

  /** The JPEG start-of-image marker (ITU-T T.81, Table B.1) written as lower-case hexadecimal. */
  const SoiHex: string := "ffd8"

  /**
   * The hexadecimal sniff: the trimmed value is longer than ten characters,
   * starts with lower-case `ffd8`, and consists of hexadecimal digits of
   * either case only.
   */
  predicate IsLikelyHexJpeg(value: string) {
    var v := Trim(value);
    |v| > 10 && StartsWith(v, SoiHex) && forall k :: 0 <= k < |v| ==> IsHexDigit(v[k])
  }

  /**
   * The bytes `hexToBase64` puts in its `Uint8Array`: one per complete pair
   * of characters, each the `parseInt(…, 16)` of the pair stored as an octet.
   */
  function HexBytes(clean: string): seq<byte> {
    seq(|clean| / 2, i requires 0 <= i < |clean| / 2 => PairByte(clean, i))
  }

  /** `parseInt(clean.slice(i * 2, i * 2 + 2), 16)` stored into a `Uint8Array`. */
  function PairByte(clean: string, i: nat): byte
    requires i < |clean| / 2
  {
    ToUint8(ParseInt16(Pair(clean, i)))
  }

  /** `clean.slice(i * 2, i * 2 + 2)` */
  function Pair(clean: string, i: nat): (p: string)
    requires i < |clean| / 2
    ensures p == [clean[2 * i], clean[2 * i + 1]]
  {
    clean[2 * i..2 * i + 2]
  }

  lemma PairByteOfDigits(clean: string, i: nat)
    requires i < |clean| / 2 && IsHexDigit(clean[2 * i]) && IsHexDigit(clean[2 * i + 1])
    ensures PairByte(clean, i) == PairValue(clean[2 * i], clean[2 * i + 1])
  {
    var p := Pair(clean, i);
    ParseHexPair(p);
    var n := ParseInt16(p);
    assert n == Some(PairValue(clean[2 * i], clean[2 * i + 1]) as int);
    ToUint8OfByte(n);
  }

  /** The numeric value of a pair of hexadecimal digits. */
  function PairValue(a: char, b: char): byte
    requires IsHexDigit(a) && IsHexDigit(b)
  {
    16 * HexDigitValue(a) + HexDigitValue(b)
  }

  /** One byte per two characters; over hexadecimal digits, byte `i` is the value of characters `2i` and `2i+1`. */
  lemma HexBytesOfDigits(clean: string)
    ensures |HexBytes(clean)| == |clean| / 2
    ensures (forall k :: 0 <= k < |clean| ==> IsHexDigit(clean[k])) ==>
              forall i :: 0 <= i < |clean| / 2 ==> HexBytes(clean)[i] == PairValue(clean[2 * i], clean[2 * i + 1])
  {
    if forall k :: 0 <= k < |clean| ==> IsHexDigit(clean[k]) {
      forall i | 0 <= i < |clean| / 2
        ensures HexBytes(clean)[i] == PairValue(clean[2 * i], clean[2 * i + 1])
      {
        PairByteOfDigits(clean, i);
      }
    }
  }

  /** A trailing odd character is ignored. */
  lemma OddNibbleDropped(clean: string, c: char)
    requires |clean| % 2 == 0
    ensures HexBytes(clean + [c]) == HexBytes(clean)
  {
    var s := clean + [c];
    assert |s| / 2 == |clean| / 2;
    forall i | 0 <= i < |clean| / 2
      ensures HexBytes(s)[i] == HexBytes(clean)[i]
    {
      assert Pair(s, i) == Pair(clean, i);
    }
  }

  /** A lower-case hexadecimal digit for a value below 16. */
  function HexLowerDigit(v: int): (c: char)
    requires 0 <= v < 16
    ensures IsHexDigit(c) && HexDigitValue(c) == v
  {
    if v < 10 then ('0' as int + v) as char else ('a' as int + (v - 10)) as char
  }

  /** Lower-case hexadecimal text of some bytes, two digits per byte: what a server sends in the hexadecimal form. */
  function HexLower(bytes: seq<byte>): (s: string)
    ensures |s| == 2 * |bytes|
  {
    seq(2 * |bytes|, k requires 0 <= k < 2 * |bytes| =>
      HexLowerDigit(if k % 2 == 0 then bytes[k / 2] / 16 else bytes[k / 2] % 16))
  }

  /** Decoding lower-case hexadecimal text as `hexToBase64` does yields the bytes it spells. */
  lemma HexRoundTrip(bytes: seq<byte>)
    ensures HexBytes(HexLower(bytes)) == bytes
  {
    var h := HexLower(bytes);
    assert |HexBytes(h)| == |bytes|;
    forall i | 0 <= i < |bytes|
      ensures HexBytes(h)[i] == bytes[i]
    {
      HexLowerPair(bytes, i);
    }
  }

  lemma HexLowerPair(bytes: seq<byte>, i: nat)
    requires i < |bytes|
    ensures PairByte(HexLower(bytes), i) == bytes[i]
  {
    var h := HexLower(bytes);
    var hi, lo := bytes[i] / 16, bytes[i] % 16;
    assert h[2 * i] == HexLowerDigit(hi);
    assert h[2 * i + 1] == HexLowerDigit(lo);
    PairByteOfDigits(h, i);
  }

  /** What the sniff accepts decodes to at least five bytes, the first two being the JPEG SOI marker 0xFF 0xD8. */
  lemma SniffedHexStartsWithSoi(value: string)
    requires IsLikelyHexJpeg(value)
    ensures var b := HexBytes(Trim(value)); |b| >= 5 && b[0] == 0xFF && b[1] == 0xD8
  {
    var v := Trim(value);
    assert v[..4] == "ffd8";
    assert v[0] == 'f' && v[1] == 'f' && v[2] == 'd' && v[3] == '8';
    HexBytesOfDigits(v);
  }

  /** Conversely, the lower-case hexadecimal text of six or more bytes that start with the SOI marker passes the sniff. */
  lemma HexOfJpegIsSniffed(bytes: seq<byte>)
    requires |bytes| >= 6 && bytes[0] == 0xFF && bytes[1] == 0xD8
    ensures IsLikelyHexJpeg(HexLower(bytes))
    ensures Trim(HexLower(bytes)) == HexLower(bytes) && HexLower(bytes)[0] == 'f'
  {
    var h := HexLower(bytes);
    assert h[0] == 'f' && h[1] == 'f' && h[2] == 'd' && h[3] == '8';
    assert h[..4] == SoiHex;
    TrimOfTrimmed(h);
  }

  /** The marker test is case-sensitive: upper-case `FFD8` is refused although the digit test accepts it. */
  lemma UpperCaseMarkerRefused(value: string)
    requires StartsWith(Trim(value), "FFD8")
    ensures !IsLikelyHexJpeg(value)
    ensures forall k :: 0 <= k < 4 ==> IsHexDigit(Trim(value)[k])
  {
    var v := Trim(value);
    assert v[..4] == "FFD8";
    assert v[0] == 'F';
  }

  /**
   * The first loop of `hexToBase64`: a `Uint8Array` of `clean.length / 2`
   * entries (the length truncated), entry `i` set from the `i`-th pair.
   */
  method DecodePairs(clean: string) returns (bytes: array<byte>)
    ensures fresh(bytes) && bytes[..] == HexBytes(clean)
  {
    bytes := new byte[|clean| / 2];
    for i := 0 to bytes.Length
      invariant bytes[..i] == HexBytes(clean)[..i]
    {
      bytes[i] := PairByte(clean, i);
    }
    assert bytes[..] == bytes[..bytes.Length];
  }

  /**
   * The second loop of `hexToBase64`: the binary string is built 0x8000
   * bytes at a time (`subarray` clamps the last chunk), and the result is
   * the same as converting all bytes at once.
   */
  method BinaryString(bytes: array<byte>) returns (binary: string)
    ensures binary == FromCharCode(bytes[..])
  {
    binary := "";
    var chunkSize := 0x8000;
    var i := 0;
    while i < bytes.Length
      invariant 0 <= i
      invariant binary == FromCharCode(bytes[..Min(i, bytes.Length)])
      decreases bytes.Length - i
    {
      var end := Min(i + chunkSize, bytes.Length);
      assert bytes[..end] == bytes[..i] + bytes[i..end];
      FromCharCodeAppend(bytes[..i], bytes[i..end]);
      binary := binary + FromCharCode(bytes[i..end]);
      i := i + chunkSize;
    }
    assert bytes[..Min(i, bytes.Length)] == bytes[..];
  }

  /**
   * `hexToBase64`: decode the pairs of the trimmed text into a `Uint8Array`,
   * turn it into a binary string chunk by chunk, and give that to `btoa`,
   * which cannot throw on it.
   */
  method HexToBase64(hex: string) returns (r: string)
    ensures r == Base64.Encode(HexBytes(Trim(hex)))
  {
    var clean := Trim(hex);
    var bytes := DecodePairs(clean);
    var binary := BinaryString(bytes);
    BtoaOfCharCodes(bytes[..]);
    r := Btoa(binary).value;
  }

  /**
   * The image source for a raw `image` string: data URIs and HTTP(S) URLs
   * pass unchanged, sniffed hexadecimal JPEG text is re-encoded as base64,
   * any other non-empty text is taken to be base64 already, and the empty
   * string stays empty. The result is empty or starts like a URI.
   */
  function ImageSource(raw: string): (r: string)
    ensures r == "" <==> raw == ""
    ensures r == "" || StartsWith(r, "data:") || StartsWith(r, "http://") || StartsWith(r, "https://")
  {
    if StartsWith(raw, "data:") then raw
    else if StartsWith(raw, "http://") || StartsWith(raw, "https://") then raw
    else if IsLikelyHexJpeg(raw) then JpegDataUriPrefix + Base64.Encode(HexBytes(Trim(raw)))
    else if raw != "" then JpegDataUriPrefix + raw
    else raw
  }

  /** Data URIs and absolute HTTP(S) URLs come back as they are, before any sniffing. */
  lemma PassThrough(raw: string)
    requires StartsWith(raw, "data:") || StartsWith(raw, "http://") || StartsWith(raw, "https://")
    ensures ImageSource(raw) == raw
  {
  }

  /** Everything else that is not empty is wrapped in a JPEG data URI: re-encoded when it is hexadecimal, verbatim otherwise. */
  lemma Wrapped(raw: string)
    requires raw != ""
    requires !StartsWith(raw, "data:") && !StartsWith(raw, "http://") && !StartsWith(raw, "https://")
    ensures IsLikelyHexJpeg(raw) ==> ImageSource(raw) == JpegDataUriPrefix + Base64.Encode(HexBytes(Trim(raw)))
    ensures !IsLikelyHexJpeg(raw) ==> ImageSource(raw) == JpegDataUriPrefix + raw
  {
  }

  /**
   * For the hexadecimal text of a JPEG (six or more bytes starting with the
   * SOI marker) the result is a JPEG data URI whose payload decodes back to
   * exactly those bytes.
   */
  lemma HexJpegRoundTrip(bytes: seq<byte>)
    requires |bytes| >= 6 && bytes[0] == 0xFF && bytes[1] == 0xD8
    ensures var src := ImageSource(HexLower(bytes));
            StartsWith(src, JpegDataUriPrefix)
            && Base64.Decode(src[|JpegDataUriPrefix|..]) == Some(bytes)
  {
    var h := HexLower(bytes);
    HexOfJpegIsSniffed(bytes);
    SniffedRoundTrip(h);
    HexRoundTrip(bytes);
  }

  /** Text that passes the sniff is neither a data URI nor an HTTP(S) URL, so it reaches the hex branch. */
  lemma SniffedNotUri(raw: string)
    requires IsLikelyHexJpeg(raw)
    ensures !StartsWith(raw, "data:") && !StartsWith(raw, "http://") && !StartsWith(raw, "https://")
  {
    var v := Trim(raw);
    assert v[0] == 'f' by { assert v[..4] == SoiHex; }
    FirstCharKept(raw);
    assert raw[0] != 'd' && raw[0] != 'h';
  }

  /**
   * For any text that passes the sniff (digits of either case after `ffd8`,
   * white space around it allowed) the result is a JPEG data URI whose
   * payload decodes to exactly the bytes `hexToBase64` decodes.
   */
  lemma SniffedRoundTrip(raw: string)
    requires IsLikelyHexJpeg(raw)
    ensures StartsWith(ImageSource(raw), JpegDataUriPrefix)
    ensures Base64.Decode(ImageSource(raw)[|JpegDataUriPrefix|..]) == Some(HexBytes(Trim(raw)))
  {
    SniffedNotUri(raw);
    Wrapped(raw);
    var payload := Base64.Encode(HexBytes(Trim(raw)));
    assert (JpegDataUriPrefix + payload)[|JpegDataUriPrefix|..] == payload;
    Base64.DecodeEncode(HexBytes(Trim(raw)));
  }

  /** `String(data.image ?? "")` for an `image` field that is a string or nullish. */
  function RawImage(image: Nullish<string>): string {
    Coalesce(image, "")
  }

  /**
   * `data.total_count ?? data.count ?? 0`: a present `total_count` wins even
   * when it is 0; otherwise a present `count`; otherwise 0.
   */
  function CountOf(totalCount: Nullish<int>, count: Nullish<int>): (n: int)
    ensures totalCount.Defined? ==> n == totalCount.value
    ensures !totalCount.Defined? && count.Defined? ==> n == count.value
    ensures !totalCount.Defined? && !count.Defined? ==> n == 0
  {
    Coalesce(OrElse(totalCount, count), 0)
  }
}
