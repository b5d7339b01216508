/**
 * The colour notation `rgb_to_hex` produces: a `#` followed by two upper-case
 * hexadecimal digits for each of red, green and blue (the `#RRGGBB` form of
 * section 5.2 of CSS Color Module Level 4), with a decoder that inverts it.
 */
module HexColor {

  /** One 8-bit colour channel. */
  type Channel = x: int | 0 <= x < 256

  /** A pixel, or a cluster centre whose channels are already whole numbers. */
  datatype Rgb = Rgb(r: Channel, g: Channel, b: Channel)

  datatype Option<T> = None | Some(value: T)

  predicate IsUpperHexDigit(c: char) {
    '0' <= c <= '9' || 'A' <= c <= 'F'
  }

  /** The upper-case digit that Python's `X` format writes for a value below 16. */
  function HexDigit(d: nat): (c: char)
    requires d < 16
    ensures IsUpperHexDigit(c)
    ensures d < 10 <==> c <= '9'
  {
    if d < 10 then ('0' as int + d) as char else ('A' as int + d - 10) as char
  }

  /** The value of one upper-case hexadecimal digit. */
  function DigitValue(c: char): (d: nat)
    requires IsUpperHexDigit(c)
    ensures d < 16 && HexDigit(d) == c
  {
    if c <= '9' then c as int - '0' as int else c as int - 'A' as int + 10
  }

  lemma DigitValueOfHexDigit(d: nat)
    requires d < 16
    ensures DigitValue(HexDigit(d)) == d
  {
  }

  /** `format(n, "X")`: the base-16 digits of n, most significant first, no leading zeros. */
  function ToHex(n: nat): (s: string)
    ensures 1 <= |s|
    ensures forall i :: 0 <= i < |s| ==> IsUpperHexDigit(s[i])
  {
    if n < 16 then [HexDigit(n)] else ToHex(n / 16) + [HexDigit(n % 16)]
  }

  /** The number a string of upper-case hexadecimal digits denotes (0 for the empty string). */
  function ParseHex(s: string): nat
    requires forall i :: 0 <= i < |s| ==> IsUpperHexDigit(s[i])
  {
    if s == [] then 0 else 16 * ParseHex(s[..|s| - 1]) + DigitValue(s[|s| - 1])
  }

  /** `"{:02X}".format(n)`: ToHex(n), padded on the left with '0' to at least two characters. */
  function Format02X(n: nat): (s: string)
    ensures 2 <= |s|
    ensures forall i :: 0 <= i < |s| ==> IsUpperHexDigit(s[i])
  {
    var h := ToHex(n);
    if |h| < 2 then "0" + h else h
  }

  /** ToHex is base-16 notation: reading its digits back gives n. */
  lemma {:induction false} ParseToHex(n: nat)
    ensures ParseHex(ToHex(n)) == n
  {
    if n >= 16 {
      var s, d := ToHex(n / 16), HexDigit(n % 16);
      ParseToHex(n / 16);
      assert (s + [d])[..|s|] == s;
      DigitValueOfHexDigit(n % 16);
    } else {
      DigitValueOfHexDigit(n);
    }
  }

  /** ToHex uses at least three digits from 256 on. */
  lemma {:induction false} ToHexLong(n: nat)
    requires 256 <= n
    ensures 3 <= |ToHex(n)|
  {
    assert ToHex(n) == ToHex(n / 16) + [HexDigit(n % 16)];
    assert ToHex(n / 16) == ToHex(n / 16 / 16) + [HexDigit(n / 16 % 16)];
  }

  /** The padding is a leading zero, so the padded digits still denote n. */
  lemma Format02XValue(n: nat)
    ensures ParseHex(Format02X(n)) == n
  {
    ParseToHex(n);
    var h := ToHex(n);
    if |h| < 2 {
      var s := "0" + h;
      assert s[..1] == "0";
      assert ParseHex(s[..0]) == 0;
      assert ParseHex(h[..0]) == 0;
    }
  }

  /** `{:02X}` is exactly two characters wide just for 8-bit values. */
  lemma Format02XWidth(n: nat)
    ensures |Format02X(n)| == 2 <==> n < 256
  {
    if 256 <= n {
      ToHexLong(n);
    } else if 16 <= n {
      assert ToHex(n) == ToHex(n / 16) + [HexDigit(n % 16)];
    }
  }

  /** For an 8-bit value, `{:02X}` is its high digit followed by its low digit. */
  lemma Format02XByte(n: nat)
    requires n < 256
    ensures Format02X(n) == [HexDigit(n / 16), HexDigit(n % 16)]
  {
    if 16 <= n {
      assert ToHex(n) == ToHex(n / 16) + [HexDigit(n % 16)];
    }
  }

  /** `#` then six upper-case hexadecimal digits. */
  predicate IsHexColor(s: string) {
    |s| == 7 && s[0] == '#' && forall i :: 1 <= i < 7 ==> IsUpperHexDigit(s[i])
  }

  /**
   * `rgb_to_hex`: '#' followed by `{:02X}` of red, green and blue. The
   * channels are whole numbers, on which Python's `round` changes nothing.
   */
  function RgbToHex(c: Rgb): string {
    "#" + Format02X(c.r) + Format02X(c.g) + Format02X(c.b)
  }

  /**
   * rgb_to_hex writes seven characters: '#', then the high and the low
   * upper-case digit of red, of green and of blue, in that order.
   */
  lemma RgbToHexDigits(c: Rgb)
    ensures IsHexColor(RgbToHex(c))
    ensures RgbToHex(c) == ['#', HexDigit(c.r / 16), HexDigit(c.r % 16),
                                 HexDigit(c.g / 16), HexDigit(c.g % 16),
                                 HexDigit(c.b / 16), HexDigit(c.b % 16)]
  {
    Format02XByte(c.r);
    Format02XByte(c.g);
    Format02XByte(c.b);
  }

  /** The 8-bit value written by the two digits at s[i] and s[i + 1]. */
  function ByteAt(s: string, i: nat): Channel
    requires i + 1 < |s| && IsUpperHexDigit(s[i]) && IsUpperHexDigit(s[i + 1])
  {
    16 * DigitValue(s[i]) + DigitValue(s[i + 1])
  }

  /** Reads a `#RRGGBB` string back into its three channels; None for anything else. */
  function HexToRgb(s: string): Option<Rgb> {
    if IsHexColor(s) then Some(Rgb(ByteAt(s, 1), ByteAt(s, 3), ByteAt(s, 5))) else None
  }

  /** Decoding what rgb_to_hex wrote gives back the channels it was given. */
  lemma DecodeEncode(c: Rgb)
    ensures HexToRgb(RgbToHex(c)) == Some(c)
  {
    RgbToHexDigits(c);
    DigitValueOfHexDigit(c.r / 16);
    DigitValueOfHexDigit(c.r % 16);
    DigitValueOfHexDigit(c.g / 16);
    DigitValueOfHexDigit(c.g % 16);
    DigitValueOfHexDigit(c.b / 16);
    DigitValueOfHexDigit(c.b % 16);
  }

  /** The two digits of a byte are recovered from its value. */
  lemma ByteDigits(s: string, i: nat)
    requires i + 1 < |s| && IsUpperHexDigit(s[i]) && IsUpperHexDigit(s[i + 1])
    ensures HexDigit(ByteAt(s, i) / 16) == s[i] && HexDigit(ByteAt(s, i) % 16) == s[i + 1]
  {
    var hi, lo := DigitValue(s[i]), DigitValue(s[i + 1]);
    assert (16 * hi + lo) / 16 == hi && (16 * hi + lo) % 16 == lo;
  }

  /** Every `#RRGGBB` string is what rgb_to_hex writes for the channels it decodes to. */
  lemma EncodeDecode(s: string)
    ensures HexToRgb(s).Some? <==> IsHexColor(s)
    ensures HexToRgb(s).Some? ==> RgbToHex(HexToRgb(s).value) == s
  {
    if IsHexColor(s) {
      var t := RgbToHex(HexToRgb(s).value);
      RgbToHexDigits(HexToRgb(s).value);
      ByteDigits(s, 1);
      ByteDigits(s, 3);
      ByteDigits(s, 5);
      assert forall i :: 0 <= i < 7 ==> t[i] == s[i];
    }
  }

  /** rgb_to_hex is injective on [0,255]^3: different colours give different strings. */
  lemma RgbToHexInjective(a: Rgb, b: Rgb)
    ensures RgbToHex(a) == RgbToHex(b) <==> a == b
  {
    DecodeEncode(a);
    DecodeEncode(b);
  }
}
