/**
 * MD5Util: the lowercase hexadecimal rendering of a byte array (toHex) and
 * its composition with an MD5 digest of a string's UTF-8 bytes (md5Hex).
 * The digest itself (RFC 1321) and the UTF-8 encoder are collaborators whose
 * internals are not modelled: they are the two function fields of Platform.
 */
module MD5Util {
  import opened Wrappers

  /** A Java `byte`: signed, two's complement, eight bits. */
  type JByte = b: int | -128 <= b < 128

  /** An MD5 digest: sixteen bytes (section 3.5 of RFC 1321). */
  type Digest = d: seq<JByte> | |d| == 16 witness [0, 0, 0, 0, 0, 0, 0, 0, 0, 0, 0, 0, 0, 0, 0, 0]

  /** The foreign calls md5Hex makes: `String.getBytes(UTF_8)` and `MessageDigest.digest`. */
  datatype Platform = Platform(utf8: string -> seq<JByte>, md5: seq<JByte> -> Digest)

  /** `b & 0xFF`: the byte read as an unsigned value. */
  function Unsigned(b: JByte): (u: nat)
    ensures u < 256 && (u - b) % 256 == 0
  {
    if b < 0 then b + 256 else b
  }

  /** The Java byte whose unsigned reading is u (the narrowing cast `(byte) u`). */
  function Signed(u: nat): (b: JByte)
    requires u < 256
    ensures Unsigned(b) == u
  {
    if u < 128 then u else u - 256
  }

  predicate IsLowerHexDigit(c: char) {
    '0' <= c <= '9' || 'a' <= c <= 'f'
  }

  predicate IsLowerHex(s: string) {
    forall k :: 0 <= k < |s| ==> IsLowerHexDigit(s[k])
  }

  /** The value of one lowercase hexadecimal digit. */
  function DigitValue(c: char): (n: nat)
    requires IsLowerHexDigit(c)
    ensures n < 16
  {
    if c <= '9' then c as int - '0' as int else c as int - 'a' as int + 10
  }

  /** The lowercase digit for a value below sixteen. */
  function HexDigit(n: nat): (c: char)
    requires n < 16
    ensures IsLowerHexDigit(c) && DigitValue(c) == n
  {
    "0123456789abcdef"[n]
  }

  /** `String.format("%02x", v)` for an unsigned byte value: two digits, zero padded, high nibble first. */
  function Format02x(v: nat): (s: string)
    requires v < 256
    ensures |s| == 2 && IsLowerHex(s)
    ensures DigitValue(s[0]) * 16 + DigitValue(s[1]) == v
  {
    [HexDigit(v / 16), HexDigit(v % 16)]
  }

  /** The string toHex builds: one Format02x pair per byte, in order. */
  function HexOf(bs: seq<JByte>): (s: string)
    ensures |s| == 2 * |bs|
    ensures IsLowerHex(s)
    ensures forall i :: 0 <= i < |bs| ==>
      s[2 * i] == HexDigit(Unsigned(bs[i]) / 16) && s[2 * i + 1] == HexDigit(Unsigned(bs[i]) % 16)
    decreases |bs|
  {
    if bs == [] then []
    else HexOf(bs[..|bs| - 1]) + Format02x(Unsigned(bs[|bs| - 1]))
  }

  /** The inverse of HexOf: decodes consecutive digit pairs, or None for text HexOf cannot produce. */
  function FromHex(s: string): (r: Option<seq<JByte>>)
    ensures r.Some? ==> 2 * |r.value| == |s|
    decreases |s|
  {
    if |s| == 0 then Some([])
    else if |s| == 1 then None
    else if !IsLowerHexDigit(s[|s| - 2]) || !IsLowerHexDigit(s[|s| - 1]) then None
    else match FromHex(s[..|s| - 2])
      case None => None
      case Some(init) => Some(init + [Signed(DigitValue(s[|s| - 2]) * 16 + DigitValue(s[|s| - 1]))])
  }

  /** The two digits Format02x writes for a byte read back as that byte. */
  lemma PairDecodes(b: JByte)
    ensures var pair := Format02x(Unsigned(b)); Signed(DigitValue(pair[0]) * 16 + DigitValue(pair[1])) == b
  {
  }

  /** Decoding the hex text of any byte sequence recovers that sequence. */
  lemma {:induction false} HexRoundTrip(bs: seq<JByte>)
    ensures FromHex(HexOf(bs)) == Some(bs)
    decreases |bs|
  {
    if bs != [] {
      var n := |bs|;
      var init := bs[..n - 1];
      var s := HexOf(bs);
      var pair := Format02x(Unsigned(bs[n - 1]));
      assert s == HexOf(init) + pair;
      assert s[..|s| - 2] == HexOf(init);
      assert s[|s| - 2] == pair[0] && s[|s| - 1] == pair[1];
      HexRoundTrip(init);
      PairDecodes(bs[n - 1]);
      assert init + [bs[n - 1]] == bs;
    }
  }

  /** Fixed two-digit width makes the encoding injective. */
  lemma HexOfInjective(a: seq<JByte>, b: seq<JByte>)
    ensures HexOf(a) == HexOf(b) ==> a == b
  {
  }

  /** toHex: append the two-digit rendering of each byte to a builder. */
  method ToHex(digestBytes: seq<JByte>) returns (hex: string)
    ensures hex == HexOf(digestBytes)
    ensures |hex| == 2 * |digestBytes| && IsLowerHex(hex)
  {
    hex := [];
    for i := 0 to |digestBytes|
      invariant hex == HexOf(digestBytes[..i])
    {
      assert digestBytes[..i + 1][..i] == digestBytes[..i];
      hex := hex + Format02x(Unsigned(digestBytes[i]));
    }
    assert digestBytes[..|digestBytes|] == digestBytes;
  }

  /** md5Hex: the hex text of the MD5 digest of the input's UTF-8 bytes. */
  function Md5Hex(p: Platform, input: string): (hex: string)
    ensures |hex| == 32 && IsLowerHex(hex)
    ensures FromHex(hex) == Some(p.md5(p.utf8(input)))
  {
    var digest := p.md5(p.utf8(input));
    HexRoundTrip(digest);
    HexOf(digest)
  }
}
