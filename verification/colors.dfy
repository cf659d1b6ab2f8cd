/** `lightenColor` and `darkenColor`: a `#rrggbb` colour is read as a 24-bit
    number, each 8-bit channel is shifted by the same amount and clamped to
    [0, 255], and the result is written back as `#` and six hex digits. */
module Colors {
  import opened Arith

  predicate IsHexDigit(c: char) {
    '0' <= c <= '9' || 'a' <= c <= 'f' || 'A' <= c <= 'F'
  }

  predicate AllHex(s: string) {
    forall i :: 0 <= i < |s| ==> IsHexDigit(s[i])
  }

  function HexValue(c: char): (v: nat)
    requires IsHexDigit(c)
    ensures v < 16
  {
    if '0' <= c <= '9' then c as int - '0' as int
    else if 'a' <= c <= 'f' then c as int - 'a' as int + 10
    else c as int - 'A' as int + 10
  }

  /** The lower-case digit that `toString(16)` writes. */
  function HexChar(v: int): (c: char)
    requires 0 <= v < 16
    ensures IsHexDigit(c) && HexValue(c) == v
  {
    if v < 10 then ('0' as int + v) as char else ('a' as int + v - 10) as char
  }

  /** `parseInt(s, 16)` on a string of hex digits. */
  function ParseHex(s: string): nat
    requires AllHex(s)
  {
    if s == [] then 0 else ParseHex(s[..|s| - 1]) * 16 + HexValue(s[|s| - 1])
  }

  /** `n.toString(16)`. */
  function ToHex(n: nat): (s: string)
    ensures |s| >= 1 && AllHex(s)
  {
    if n < 16 then [HexChar(n)] else ToHex(n / 16) + [HexChar(n % 16)]
  }

  function Pow16(w: nat): (p: nat)
    ensures p >= 1
  {
    if w == 0 then 1 else 16 * Pow16(w - 1)
  }

  /** The last w hex digits of v, zero-padded. */
  function HexFixed(v: nat, w: nat): (s: string)
    ensures |s| == w && AllHex(s)
  {
    if w == 0 then [] else HexFixed(v / 16, w - 1) + [HexChar(v % 16)]
  }

  /** A colour as a colour input yields it: `#` and six hex digits. */
  predicate IsColor(s: string) {
    |s| == 7 && s[0] == '#' && AllHex(s[1..])
  }

  /** `parseInt(color.replace("#", ""), 16)`. */
  function ColorValue(color: string): nat
    requires IsColor(color)
  {
    ParseHex(color[1..])
  }

  function Red(color: string): nat requires IsColor(color) { ColorValue(color) / 0x10000 }
  function Green(color: string): nat requires IsColor(color) { ColorValue(color) / 0x100 % 0x100 }
  function Blue(color: string): nat requires IsColor(color) { ColorValue(color) % 0x100 }

  /** `R < 255 ? R < 1 ? 0 : R : 255` in `lightenColor`. */
  function LightenClamp(x: int): (r: int)
    ensures 0 <= r <= 255
    ensures 0 <= x <= 255 ==> r == x
    ensures x < 0 ==> r == 0
    ensures x > 255 ==> r == 255
  {
    if x < 255 then (if x < 1 then 0 else x) else 255
  }

  /** `R > 255 ? 255 : R < 0 ? 0 : R` in `darkenColor`. */
  function DarkenClamp(x: int): (r: int)
    ensures 0 <= r <= 255
    ensures 0 <= x <= 255 ==> r == x
    ensures x < 0 ==> r == 0
    ensures x > 255 ==> r == 255
  {
    if x > 255 then 255 else if x < 0 then 0 else x
  }

  /** `"#" + (0x1000000 + r * 0x10000 + g * 0x100 + b).toString(16).slice(1)`. */
  function Render(r: int, g: int, b: int): string
    requires 0 <= r < 256 && 0 <= g < 256 && 0 <= b < 256
  {
    "#" + ToHex(0x1000000 + r * 0x10000 + g * 0x100 + b)[1..]
  }

  /** `lightenColor(color, amount)` with `amt = Math.round(255 * amount)`
      given as the integer amt. */
  function Lighten(color: string, amt: int): string
    requires IsColor(color)
  {
    Render(LightenClamp(Red(color) + amt), LightenClamp(Green(color) + amt),
      LightenClamp(Blue(color) + amt))
  }

  /** `darkenColor(color, amount)` with the integer amt. */
  function Darken(color: string, amt: int): string
    requires IsColor(color)
  {
    Render(DarkenClamp(Red(color) - amt), DarkenClamp(Green(color) - amt),
      DarkenClamp(Blue(color) - amt))
  }

  // ---------------------------------------------------------------------
  // Proofs

  /** A number with w + 1 hex digits whose leading digit is 1 prints as "1"
      followed by its last w digits. */
  lemma {:induction false} ToHexLeadingOne(n: nat, w: nat)
    requires Pow16(w) <= n < 2 * Pow16(w)
    ensures ToHex(n) == "1" + HexFixed(n - Pow16(w), w)
  {
    if w > 0 {
      var p := Pow16(w - 1);
      var q, r := n / 16, n % 16;
      assert Pow16(w) == 16 * p && n == 16 * q + r;
      assert p <= q < 2 * p;
      ToHexLeadingOne(q, w - 1);
      var m := n - Pow16(w);
      DivModUnique(m, 16, q - p, r);
      assert ToHex(n) == ToHex(q) + [HexChar(r)];
      assert HexFixed(m, w) == HexFixed(q - p, w - 1) + [HexChar(r)];
    } else {
      assert n == 1 && HexChar(1) == '1';
    }
  }

  lemma {:induction false} ParseHexFixed(v: nat, w: nat)
    requires v < Pow16(w)
    ensures ParseHex(HexFixed(v, w)) == v
  {
    if w > 0 {
      var s := HexFixed(v, w);
      DivModUnique(v, 16, v / 16, v % 16);
      ParseHexFixed(v / 16, w - 1);
      assert s[..|s| - 1] == HexFixed(v / 16, w - 1);
    }
  }

  lemma Channels(r: int, g: int, b: int)
    requires 0 <= r < 256 && 0 <= g < 256 && 0 <= b < 256
    ensures var v := r * 0x10000 + g * 0x100 + b;
      v / 0x10000 == r && v / 0x100 % 0x100 == g && v % 0x100 == b
  {
    var v := r * 0x10000 + g * 0x100 + b;
    DivModUnique(v, 0x10000, r, g * 0x100 + b);
    DivModUnique(v, 0x100, r * 0x100 + g, b);
    DivModUnique(r * 0x100 + g, 0x100, r, g);
  }

  /** The rendering is a colour again, and its channels are the ones given. */
  lemma RenderRoundTrip(r: int, g: int, b: int)
    requires 0 <= r < 256 && 0 <= g < 256 && 0 <= b < 256
    ensures IsColor(Render(r, g, b))
    ensures Red(Render(r, g, b)) == r && Green(Render(r, g, b)) == g && Blue(Render(r, g, b)) == b
  {
    var v := r * 0x10000 + g * 0x100 + b;
    assert Pow16(6) == 0x1000000;
    ToHexLeadingOne(0x1000000 + v, 6);
    var s := Render(r, g, b);
    assert s[1..] == HexFixed(v, 6);
    ParseHexFixed(v, 6);
    Channels(r, g, b);
  }

  /** Lightening adds amt to every channel and clamps it to [0, 255]; the
      result is again a `#rrggbb` colour. */
  lemma LightenChannels(color: string, amt: int)
    requires IsColor(color)
    ensures IsColor(Lighten(color, amt))
    ensures Red(Lighten(color, amt)) == LightenClamp(Red(color) + amt)
    ensures Green(Lighten(color, amt)) == LightenClamp(Green(color) + amt)
    ensures Blue(Lighten(color, amt)) == LightenClamp(Blue(color) + amt)
  {
    RenderRoundTrip(LightenClamp(Red(color) + amt), LightenClamp(Green(color) + amt),
      LightenClamp(Blue(color) + amt));
  }

  /** Darkening subtracts amt from every channel and clamps it to [0, 255];
      the result is again a `#rrggbb` colour. */
  lemma DarkenChannels(color: string, amt: int)
    requires IsColor(color)
    ensures IsColor(Darken(color, amt))
    ensures Red(Darken(color, amt)) == DarkenClamp(Red(color) - amt)
    ensures Green(Darken(color, amt)) == DarkenClamp(Green(color) - amt)
    ensures Blue(Darken(color, amt)) == DarkenClamp(Blue(color) - amt)
  {
    RenderRoundTrip(DarkenClamp(Red(color) - amt), DarkenClamp(Green(color) - amt),
      DarkenClamp(Blue(color) - amt));
  }

  lemma {:induction false} ParseHexBound(s: string)
    requires AllHex(s)
    ensures ParseHex(s) < Pow16(|s|)
  {
    if s != [] {
      ParseHexBound(s[..|s| - 1]);
    }
  }

  /** The channels read from a colour are bytes that recombine into its
      24-bit value, so `>> 16` and `>> 8 & 0xFF` are the divisions above. */
  lemma ChannelsAreBytes(color: string)
    requires IsColor(color)
    ensures 0 <= Red(color) < 256 && 0 <= Green(color) < 256 && 0 <= Blue(color) < 256
    ensures Red(color) * 0x10000 + Green(color) * 0x100 + Blue(color) == ColorValue(color)
  {
    ParseHexBound(color[1..]);
    assert Pow16(6) == 0x1000000;
    var v := ColorValue(color);
    DivModUnique(v, 0x10000, v / 0x10000, v % 0x10000);
    DivModUnique(v % 0x10000, 0x100, v / 0x100 % 0x100, v % 0x100);
    DivModUnique(v, 0x100, v / 0x10000 * 0x100 + v % 0x10000 / 0x100, v % 0x100);
  }
}
