/** Lower-case hexadecimal rendering of byte arrays, used for the content digest
    and the extra field of every archive entry. */
module Hex {
  import opened JavaText

  /** One of `0-9a-f`. */
  predicate IsHexDigit(c: char)
  {
    '0' <= c <= '9' || 'a' <= c <= 'f'
  }

  /** Every character of `s` is a lower-case hexadecimal digit. */
  predicate IsHex(s: string)
  {
    forall i :: 0 <= i < |s| ==> IsHexDigit(s[i])
  }

  /** The lower-case digit for a value below 16. */
  function HexDigit(d: nat): (c: char)
    requires d < 16
    ensures IsHexDigit(c)
  {
    if d < 10 then ('0' as int + d) as char else ('a' as int + d - 10) as char
  }

  /** The value `%02x` formats for a byte: the formatter widens a negative byte
      to its unsigned value by adding 256, so every byte has exactly two digits. */
  function Unsigned(b: JByte): (u: nat)
    ensures u < 256
    ensures (u - b as int) % 256 == 0
  {
    if b < 0 then b as int + 256 else b as int
  }

  /** `"%02x".formatted(b)`. */
  function ByteHex(b: JByte): (h: string)
    ensures |h| == 2 && IsHex(h)
    ensures 16 * DigitValue(h[0]) + DigitValue(h[1]) == Unsigned(b)
  {
    var u := Unsigned(b);
    [HexDigit(u / 16), HexDigit(u % 16)]
  }

  /** The text `bytesToHex` builds: the bytes' two-digit renderings in order. */
  function ToHex(bs: seq<JByte>): (hex: string)
    ensures |hex| == 2 * |bs|
    ensures IsHex(hex)
  {
    if bs == [] then "" else ToHex(bs[..|bs| - 1]) + ByteHex(bs[|bs| - 1])
  }

  /** A hexadecimal rendering never holds the field separator `:`. */
  lemma HexHasNoColon(s: string)
    requires IsHex(s)
    ensures ':' !in s
  {
  }

  /** `bytesToHex` (PluginDiff.java:177-181): appends each byte's two digits to a
      `StringBuilder`. */
  method BytesToHex(bytes: seq<JByte>) returns (hex: string)
    ensures hex == ToHex(bytes)
  {
    hex := "";
    for i := 0 to |bytes|
      invariant hex == ToHex(bytes[..i])
    {
      assert bytes[..i + 1][..i] == bytes[..i];
      hex := hex + ByteHex(bytes[i]);
    }
    assert bytes[..|bytes|] == bytes;
  }

  // ---------------------------------------------------------------------------
  // The inverse rendering, which shows that no information is lost
  // ---------------------------------------------------------------------------

  function DigitValue(c: char): (d: nat)
    requires IsHexDigit(c)
    ensures d < 16 && HexDigit(d) == c
  {
    if '0' <= c <= '9' then c as int - '0' as int else c as int - 'a' as int + 10
  }

  /** The byte whose unsigned value is `u`. */
  function Signed(u: nat): JByte
    requires u < 256
  {
    if u >= 128 then (u - 256) as JByte else u as JByte
  }

  /** Reads two hexadecimal digits per byte. */
  function FromHex(s: string): seq<JByte>
    requires IsHex(s) && |s| % 2 == 0
  {
    if s == [] then []
    else
      var n := |s|;
      FromHex(s[..n - 2]) + [Signed(16 * DigitValue(s[n - 2]) + DigitValue(s[n - 1]))]
  }

  lemma ByteHexInverse(b: JByte)
    ensures Signed(16 * DigitValue(ByteHex(b)[0]) + DigitValue(ByteHex(b)[1])) == b
  {
    var u := Unsigned(b);
    assert DigitValue(HexDigit(u / 16)) == u / 16;
    assert DigitValue(HexDigit(u % 16)) == u % 16;
  }

  lemma FromHexSnoc(s: string, h: string)
    requires IsHex(s) && |s| % 2 == 0 && IsHex(h) && |h| == 2
    ensures IsHex(s + h)
    ensures FromHex(s + h) == FromHex(s) + [Signed(16 * DigitValue(h[0]) + DigitValue(h[1]))]
  {
    var t := s + h;
    assert t[..|t| - 2] == s;
    assert t[|t| - 2] == h[0] && t[|t| - 1] == h[1];
  }

  /** Decoding a rendering gives the bytes back: `bytesToHex` is injective. */
  lemma {:induction false} FromToHex(bs: seq<JByte>)
    ensures FromHex(ToHex(bs)) == bs
  {
    if bs != [] {
      var init, last := bs[..|bs| - 1], bs[|bs| - 1];
      FromToHex(init);
      LastSplit(bs);
      FromToHexStep(init, last);
    }
  }

  /** Decoding a rendering with one more byte at the end. */
  lemma FromToHexStep(init: seq<JByte>, last: JByte)
    requires FromHex(ToHex(init)) == init
    ensures FromHex(ToHex(init + [last])) == init + [last]
  {
    var bs := init + [last];
    assert bs[..|bs| - 1] == init && bs[|bs| - 1] == last;
    var s, h := ToHex(init), ByteHex(last);
    assert ToHex(bs) == s + h;
    FromHexSnoc(s, h);
    ByteHexInverse(last);
  }

  lemma LastSplit(bs: seq<JByte>)
    requires bs != []
    ensures bs == bs[..|bs| - 1] + [bs[|bs| - 1]]
  {
  }

  /** Two byte arrays have the same rendering exactly when they are equal. */
  lemma ToHexInjective(a: seq<JByte>, b: seq<JByte>)
    ensures ToHex(a) == ToHex(b) <==> a == b
  {
    if ToHex(a) == ToHex(b) {
      FromToHex(a);
      FromToHex(b);
    }
  }
}
