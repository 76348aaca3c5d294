/** `hexToRgb`: turns a `#rrggbb` colour into the `"r, g, b"` triple the
    application writes into its `--color-*-rgb` style variables. */
module HexColor {
  import opened Wrappers
  import Text

  datatype Rgb = Rgb(r: nat, g: nat, b: nat)

  predicate InRange(c: Rgb) {
    c.r <= 255 && c.g <= 255 && c.b <= 255
  }

  /** What the source returns for anything it cannot parse. */
  const Black := "0, 0, 0"

  // ---------------------------------------------------------------------
  // Hex digits
  // ---------------------------------------------------------------------

  /** `[a-f\d]` under the `i` flag: `\d` is ASCII 0-9 only. */
  predicate IsHexDigit(c: char) {
    ('0' <= c <= '9') || ('a' <= c <= 'f') || ('A' <= c <= 'F')
  }

  function HexValue(c: char): (v: nat)
    requires IsHexDigit(c)
    ensures v < 16
  {
    if '0' <= c <= '9' then c as int - '0' as int
    else if 'a' <= c <= 'f' then c as int - 'a' as int + 10
    else c as int - 'A' as int + 10
  }

  /** The lower-case digit for `v`. */
  function HexChar(v: nat): (c: char)
    requires v < 16
    ensures IsHexDigit(c) && HexValue(c) == v
  {
    if v < 10 then ('0' as int + v) as char else ('a' as int + v - 10) as char
  }

  predicate AllHex(s: string) {
    forall i :: 0 <= i < |s| ==> IsHexDigit(s[i])
  }

  /** `parseInt(xy, 16)` on two hex digits. */
  function ByteAt(s: string, i: nat): (v: nat)
    requires i + 1 < |s| && IsHexDigit(s[i]) && IsHexDigit(s[i + 1])
    ensures v <= 255
  {
    16 * HexValue(s[i]) + HexValue(s[i + 1])
  }

  // ---------------------------------------------------------------------
  // Parsing
  // ---------------------------------------------------------------------

  /** The text the regular expression `^#?([a-f\d]{2})([a-f\d]{2})([a-f\d]{2})$`
      accepts, case-insensitively: six hex digits, optionally after one `#`. */
  predicate WellFormed(s: string) {
    (|s| == 6 && AllHex(s)) || (|s| == 7 && s[0] == '#' && AllHex(s[1..]))
  }

  /** The six digits after an optional `#`. */
  function Digits(s: string): string {
    if |s| > 0 && s[0] == '#' then s[1..] else s
  }

  /** The regular-expression match of `hexToRgb`, with its three captures
      read as base-16 bytes. */
  function Parse(s: string): (r: Option<Rgb>)
    ensures r.Some? <==> WellFormed(s)
    ensures r.Some? ==> InRange(r.value)
  {
    var d := Digits(s);
    if |d| == 6 && AllHex(d) then
      Some(Rgb(ByteAt(d, 0), ByteAt(d, 2), ByteAt(d, 4)))
    else
      None
  }

  // ---------------------------------------------------------------------
  // Decimal output
  // ---------------------------------------------------------------------

  predicate IsDigit(c: char) {
    '0' <= c <= '9'
  }

  /** `${n}` for a natural number. */
  function Decimal(n: nat): (s: string)
    ensures |s| >= 1
    ensures forall i :: 0 <= i < |s| ==> IsDigit(s[i])
  {
    if n < 10 then [('0' as int + n) as char]
    else Decimal(n / 10) + [('0' as int + n % 10) as char]
  }

  /** The value of a string of decimal digits. */
  function DecimalValue(s: string): nat
    requires forall i :: 0 <= i < |s| ==> IsDigit(s[i])
  {
    if |s| == 0 then 0
    else
      assert IsDigit(s[|s| - 1]);
      10 * DecimalValue(s[..|s| - 1]) + (s[|s| - 1] as int - '0' as int)
  }

  /** Decimal output is read back as the same number. */
  lemma {:induction false} DecimalRoundTrip(n: nat)
    ensures DecimalValue(Decimal(n)) == n
  {
    if n >= 10 {
      var s := Decimal(n);
      DecimalRoundTrip(n / 10);
      assert s[..|s| - 1] == Decimal(n / 10);
    }
  }

  function Format(c: Rgb): string {
    Decimal(c.r) + ", " + Decimal(c.g) + ", " + Decimal(c.b)
  }

  /** `hexToRgb(hex)`. */
  function HexToRgb(hex: string): (r: string)
    ensures !WellFormed(hex) ==> r == Black
    ensures WellFormed(hex) ==> r == Format(Parse(hex).value)
  {
    if hex == "" then Black
    else
      match Parse(hex)
      case Some(c) => Format(c)
      case None => Black
  }

  // ---------------------------------------------------------------------
  // Encoding and the round trip
  // ---------------------------------------------------------------------

  function Hex2(v: nat): string
    requires v <= 255
  {
    [HexChar(v / 16), HexChar(v % 16)]
  }

  /** `#rrggbb` in lower case. */
  function Encode(c: Rgb): (s: string)
    requires InRange(c)
    ensures WellFormed(s)
  {
    "#" + Hex2(c.r) + Hex2(c.g) + Hex2(c.b)
  }

  /** Parsing an encoded colour gives the colour back. */
  lemma ParseEncode(c: Rgb)
    requires InRange(c)
    ensures Parse(Encode(c)) == Some(c)
  {
    var d := Digits(Encode(c));
    assert d == Hex2(c.r) + Hex2(c.g) + Hex2(c.b);
    assert ByteAt(d, 0) == c.r;
    assert ByteAt(d, 2) == c.g;
    assert ByteAt(d, 4) == c.b;
  }

  /** Any r, g, b in 0..255 written as `#rrggbb` comes back as `"r, g, b"`. */
  lemma HexToRgbRoundTrip(c: Rgb)
    requires InRange(c)
    ensures HexToRgb(Encode(c)) == Decimal(c.r) + ", " + Decimal(c.g) + ", " + Decimal(c.b)
  {
    ParseEncode(c);
  }

  /** Upper- and lower-case digits parse alike. */
  lemma ParseIgnoresCase(s: string)
    ensures Parse(Text.Lower(s)) == Parse(s)
  {
    DigitsLower(s);
    var d := Digits(s);
    var l := Text.Lower(d);
    forall i | 0 <= i < |d|
      ensures IsHexDigit(l[i]) <==> IsHexDigit(d[i])
      ensures IsHexDigit(d[i]) ==> HexValue(l[i]) == HexValue(d[i])
    {
      CharIgnoresCase(d[i]);
    }
    if |d| == 6 && AllHex(d) {
      assert AllHex(l);
      assert ByteAt(l, 0) == ByteAt(d, 0);
      assert ByteAt(l, 2) == ByteAt(d, 2);
      assert ByteAt(l, 4) == ByteAt(d, 4);
    } else if |l| == 6 && AllHex(l) {
      assert AllHex(d);
    }
  }

  /** Lower-casing keeps hex digits hex with the same value, and keeps `#`. */
  lemma CharIgnoresCase(c: char)
    ensures IsHexDigit(Text.LowerChar(c)) <==> IsHexDigit(c)
    ensures IsHexDigit(c) ==> HexValue(Text.LowerChar(c)) == HexValue(c)
    ensures Text.LowerChar(c) == '#' <==> c == '#'
  {
  }

  /** Stripping the `#` and lower-casing can be done in either order. */
  lemma DigitsLower(s: string)
    ensures Digits(Text.Lower(s)) == Text.Lower(Digits(s))
  {
    if |s| > 0 {
      var l := Text.Lower(s);
      CharIgnoresCase(s[0]);
      if s[0] == '#' {
        assert |l[1..]| == |Text.Lower(s[1..])|;
        forall i | 0 <= i < |l[1..]|
          ensures l[1..][i] == Text.Lower(s[1..])[i]
        {
        }
      }
    }
  }
}
