/**
 * The few ECMAScript and browser built-ins the counting tool's encoding code
 * relies on, modelled on characters: `String.prototype.trim`, `parseInt` with
 * radix 16, the `ToUint8` conversion of a `Uint8Array` store,
 * `String.fromCharCode` and `btoa`.
 */
module JsRuntime {
  import opened Common
  import Base64

  /** The ECMAScript WhiteSpace and LineTerminator code points. */
  predicate IsWhitespace(c: char) {
    c == ' ' || c == '\t' || c == '\n' || c == '\r'
    || c as int == 0x0B || c as int == 0x0C || c as int == 0xA0 || c as int == 0x1680
    || 0x2000 <= c as int <= 0x200A
    || c as int == 0x2028 || c as int == 0x2029 || c as int == 0x202F
    || c as int == 0x205F || c as int == 0x3000 || c as int == 0xFEFF
  }

  /** Strips leading white space: the longest such prefix is dropped. */
  function TrimStart(s: string): (r: string)
    ensures |r| <= |s| && r == s[|s| - |r|..]
    ensures forall k :: 0 <= k < |s| - |r| ==> IsWhitespace(s[k])
    ensures r == [] || !IsWhitespace(r[0])
    decreases |s|
  {
    if |s| > 0 && IsWhitespace(s[0]) then TrimStart(s[1..]) else s
  }

  /** Strips trailing white space: the longest such suffix is dropped. */
  function TrimEnd(s: string): (r: string)
    ensures |r| <= |s| && r == s[..|r|]
    ensures forall k :: |r| <= k < |s| ==> IsWhitespace(s[k])
    ensures r == [] || !IsWhitespace(r[|r| - 1])
    decreases |s|
  {
    if |s| > 0 && IsWhitespace(s[|s| - 1]) then TrimEnd(s[..|s| - 1]) else s
  }

  /** `s.trim()` */
  function Trim(s: string): string {
    TrimEnd(TrimStart(s))
  }

  /** Trimming keeps a contiguous slice and removes only white space from both ends. */
  lemma TrimSlice(s: string)
    ensures exists i, j :: 0 <= i <= j <= |s| && Trim(s) == s[i..j]
                           && (forall k :: 0 <= k < i ==> IsWhitespace(s[k]))
                           && (forall k :: j <= k < |s| ==> IsWhitespace(s[k]))
  {
    var t := TrimStart(s);
    var u := TrimEnd(t);
    var i := |s| - |t|;
    var j := i + |u|;
    assert Trim(s) == s[i..j] by {
      assert t == s[i..];
      assert u == t[..|u|];
    }
    forall k | j <= k < |s|
      ensures IsWhitespace(s[k])
    {
      assert s[k] == t[k - i];
    }
  }

  /** What trimming leaves neither starts nor ends with white space. */
  lemma TrimEnds(s: string)
    ensures Trim(s) == [] || (!IsWhitespace(Trim(s)[0]) && !IsWhitespace(Trim(s)[|Trim(s)| - 1]))
  {
    var t := TrimStart(s);
    var u := TrimEnd(t);
    if u != [] {
      assert u[0] == t[0];
    }
  }

  /** Unless a string starts with white space, its trim starts with the same character. */
  lemma FirstCharKept(s: string)
    requires Trim(s) != []
    ensures IsWhitespace(s[0]) || s[0] == Trim(s)[0]
  {
    if !IsWhitespace(s[0]) {
      assert TrimStart(s) == s;
    }
  }

  /** A string with no white space at either end is its own trim. */
  lemma TrimOfTrimmed(s: string)
    requires s == [] || (!IsWhitespace(s[0]) && !IsWhitespace(s[|s| - 1]))
    ensures Trim(s) == s
  {
  }

  predicate IsHexDigit(c: char) {
    '0' <= c <= '9' || 'a' <= c <= 'f' || 'A' <= c <= 'F'
  }

  function HexDigitValue(c: char): (v: int)
    requires IsHexDigit(c)
    ensures 0 <= v < 16
  {
    if '0' <= c <= '9' then c as int - '0' as int
    else if 'a' <= c <= 'f' then c as int - 'a' as int + 10
    else c as int - 'A' as int + 10
  }

  /** The longest prefix of `s` made of hexadecimal digits. */
  function HexDigitPrefix(s: string): (z: string)
    ensures |z| <= |s| && z == s[..|z|]
    ensures forall k :: 0 <= k < |z| ==> IsHexDigit(z[k])
    ensures |z| == |s| || !IsHexDigit(s[|z|])
    decreases |s|
  {
    if |s| > 0 && IsHexDigit(s[0]) then [s[0]] + HexDigitPrefix(s[1..]) else []
  }

  /** The value of a string of hexadecimal digits, most significant first. */
  function HexNumeral(z: string): (n: nat)
    requires forall k :: 0 <= k < |z| ==> IsHexDigit(z[k])
    decreases |z|
  {
    if z == [] then 0 else 16 * HexNumeral(z[..|z| - 1]) + HexDigitValue(z[|z| - 1])
  }

  /**
   * `parseInt(s, 16)`: leading white space is skipped, one sign character is
   * taken, a `0x`/`0X` prefix is dropped, and the longest run of hexadecimal
   * digits that follows is read. `None` stands for `NaN` (no digit read).
   */
  function ParseInt16(s: string): Option<int>
    decreases |s|
  {
    if |s| > 0 && IsWhitespace(s[0]) then ParseInt16(s[1..]) else ParseSignedHex(s)
  }

  /** `parseInt(t, 16)` once the leading white space is gone. */
  function ParseSignedHex(t: string): Option<int> {
    var sign := if |t| > 0 && t[0] == '-' then -1 else 1;
    var u := if |t| > 0 && (t[0] == '-' || t[0] == '+') then t[1..] else t;
    var w := if |u| >= 2 && u[0] == '0' && (u[1] == 'x' || u[1] == 'X') then u[2..] else u;
    var z := HexDigitPrefix(w);
    if z == [] then None else Some(sign * HexNumeral(z))
  }

  /** Skipping white space one character at a time is the same as trimming the start first. */
  lemma {:induction false} ParseInt16SkipsTrimmed(s: string)
    ensures ParseInt16(s) == ParseSignedHex(TrimStart(s))
    decreases |s|
  {
    if |s| > 0 && IsWhitespace(s[0]) {
      ParseInt16SkipsTrimmed(s[1..]);
    }
  }

  /** Two hexadecimal digits parse to the byte they spell. */
  lemma ParseHexPair(s: string)
    requires |s| == 2 && IsHexDigit(s[0]) && IsHexDigit(s[1])
    ensures ParseInt16(s) == Some(16 * HexDigitValue(s[0]) + HexDigitValue(s[1]))
  {
    var a, b := s[0], s[1];
    assert s == [a, b];
    assert !IsWhitespace(a);
    assert s[1..] == [b] && [b][1..] == [];
    assert HexDigitPrefix([b]) == [b];
    assert HexDigitPrefix(s) == s;
    assert s[..1] == [a] && [a][..0] == [];
    assert HexNumeral([a]) == HexDigitValue(a);
    assert HexNumeral(s) == 16 * HexDigitValue(a) + HexDigitValue(b);
  }

  /** Storing a number into a `Uint8Array`: `NaN` becomes 0, everything else is taken modulo 256. */
  function ToUint8(n: Option<int>): byte {
    match n
    case None => 0
    case Some(v) => v % 256
  }

  /** A value that already fits in an octet is stored as it is. */
  lemma ToUint8OfByte(n: Option<int>)
    requires n.Some? && 0 <= n.value < 256
    ensures ToUint8(n) == n.value
  {
  }

  /** `String.fromCharCode(...bytes)`: one character per byte, with that code. */
  function FromCharCode(bytes: seq<byte>): string {
    seq(|bytes|, i requires 0 <= i < |bytes| => bytes[i] as char)
  }

  /** Converting two pieces and concatenating is converting the whole. */
  lemma FromCharCodeAppend(a: seq<byte>, b: seq<byte>)
    ensures FromCharCode(a + b) == FromCharCode(a) + FromCharCode(b)
  {
  }

  /**
   * `btoa(data)`: `None` for the `InvalidCharacterError` raised when a
   * character lies above U+00FF; otherwise the base64 encoding of the
   * characters read as bytes.
   */
  function Btoa(data: string): Option<string> {
    if forall i :: 0 <= i < |data| ==> data[i] as int < 256 then
      Some(Base64.Encode(seq(|data|, i requires 0 <= i < |data| => data[i] as int)))
    else
      None
  }

  /** A binary string made with `fromCharCode` never makes `btoa` throw. */
  lemma BtoaOfCharCodes(bytes: seq<byte>)
    ensures Btoa(FromCharCode(bytes)) == Some(Base64.Encode(bytes))
  {
    var data := FromCharCode(bytes);
    assert seq(|data|, i requires 0 <= i < |data| => data[i] as int) == bytes;
  }
}
