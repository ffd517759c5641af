/**
 * getContrastColor: the text colour drawn on a tag chip. The three byte
 * pairs of a `#rrggbb` colour are read with `parseInt(…, 16)` and weighed
 * 299/587/114; a weighted brightness above 128 (of 255) gets dark text.
 */
module Contrast {
  import opened Options

  const DarkText: string := "#1a1a24"
  const LightText: string := "#ffffff"

  predicate IsHexDigit(c: char) {
    '0' <= c <= '9' || 'a' <= c <= 'f' || 'A' <= c <= 'F'
  }

  function HexDigitValue(c: char): (v: nat)
    requires IsHexDigit(c)
    ensures v < 16
  {
    if '0' <= c <= '9' then c as int - '0' as int
    else if 'a' <= c <= 'f' then c as int - 'a' as int + 10
    else c as int - 'A' as int + 10
  }

  /** The longest prefix of s made of hex digits. */
  function HexRun(s: string): (run: string)
    ensures |run| <= |s| && run == s[..|run|]
    ensures forall i :: 0 <= i < |run| ==> IsHexDigit(run[i])
    ensures |run| < |s| ==> !IsHexDigit(s[|run|])
  {
    if s == [] || !IsHexDigit(s[0]) then [] else [s[0]] + HexRun(s[1..])
  }

  /** The value of a string of hex digits, most significant first. */
  function HexValue(ds: string): nat
    requires forall i :: 0 <= i < |ds| ==> IsHexDigit(ds[i])
  {
    if ds == [] then 0 else HexValue(ds[..|ds| - 1]) * 16 + HexDigitValue(ds[|ds| - 1])
  }

  /**
   * `parseInt(s, 16)`: the value of the leading hex digits, or NaN (None)
   * when s does not start with one.
   */
  function ParseHex(s: string): (v: Option<nat>)
    ensures v.None? <==> s == [] || !IsHexDigit(s[0])
  {
    var run := HexRun(s);
    if run == [] then None else Some(HexValue(run))
  }

  /** `s.slice(a, b)` for 0 <= a <= b: indices past the end are clamped. */
  function Slice(s: string, a: nat, b: nat): (t: string)
    requires a <= b
    ensures |t| <= b - a
  {
    var hi := if b <= |s| then b else |s|;
    var lo := if a <= hi then a else hi;
    s[lo..hi]
  }

  /** The weighted brightness, scaled by 1000. */
  function Weighted(r: int, g: int, b: int): int {
    r * 299 + g * 587 + b * 114
  }

  /**
   * getContrastColor. A NaN channel makes the comparison false, so a
   * colour that does not parse gets light text.
   */
  function ContrastColor(hexColor: string): (c: string)
    ensures c == DarkText || c == LightText
  {
    var r, g, b := ParseHex(Slice(hexColor, 1, 3)), ParseHex(Slice(hexColor, 3, 5)), ParseHex(Slice(hexColor, 5, 7));
    if r.Some? && g.Some? && b.Some? && Weighted(r.value, g.value, b.value) > 128000 then DarkText else LightText
  }

  function HexChar(v: nat): (c: char)
    requires v < 16
    ensures IsHexDigit(c) && HexDigitValue(c) == v
  {
    if v < 10 then ('0' as int + v) as char else ('a' as int + v - 10) as char
  }

  /** A byte as two lower-case hex digits. */
  function HexByte(v: nat): (s: string)
    requires v < 256
    ensures |s| == 2
  {
    [HexChar(v / 16), HexChar(v % 16)]
  }

  /** `#rrggbb` for three bytes. */
  function HexColor(r: nat, g: nat, b: nat): (s: string)
    requires r < 256 && g < 256 && b < 256
    ensures |s| == 7
  {
    "#" + HexByte(r) + HexByte(g) + HexByte(b)
  }

  /** Reading a byte's two hex digits back gives the byte. */
  lemma ParseHexByte(v: nat)
    requires v < 256
    ensures ParseHex(HexByte(v)) == Some(v)
  {
    var s := HexByte(v);
    assert s[2..] == [] && s[1..][1..] == [];
    assert HexRun(s[1..]) == [s[1]];
    assert HexRun(s) == s;
    assert s[..1] == [s[0]] && s[..1][..0] == [];
    assert HexValue(s[..1]) == HexDigitValue(s[0]) == v / 16;
    assert HexValue(s) == (v / 16) * 16 + v % 16;
  }

  /** The three slices of `#rrggbb` are its three bytes. */
  lemma ChannelsOfHexColor(r: nat, g: nat, b: nat)
    requires r < 256 && g < 256 && b < 256
    ensures var s := HexColor(r, g, b);
      Slice(s, 1, 3) == HexByte(r) && Slice(s, 3, 5) == HexByte(g) && Slice(s, 5, 7) == HexByte(b)
  {
    var s := HexColor(r, g, b);
    var hr, hg, hb := HexByte(r), HexByte(g), HexByte(b);
    assert s == "#" + hr + hg + hb;
    assert s[1..3] == hr by { assert s[1] == hr[0] && s[2] == hr[1]; }
    assert s[3..5] == hg by { assert s[3] == hg[0] && s[4] == hg[1]; }
    assert s[5..7] == hb by { assert s[5] == hb[0] && s[6] == hb[1]; }
  }

  /**
   * For a well-formed `#rrggbb` colour the three channels are read back
   * exactly, so the text is dark exactly when the weighted brightness is
   * above 128000 / 1000.
   */
  lemma ContrastOfWellFormed(r: nat, g: nat, b: nat)
    requires r < 256 && g < 256 && b < 256
    ensures ContrastColor(HexColor(r, g, b)) == DarkText <==> Weighted(r, g, b) > 128000
  {
    ChannelsOfHexColor(r, g, b);
    ParseHexByte(r);
    ParseHexByte(g);
    ParseHexByte(b);
  }

  /** Brightening any channel of a colour with dark text keeps the text dark. */
  lemma ContrastMonotonic(r: nat, g: nat, b: nat, r': nat, g': nat, b': nat)
    requires r <= r' < 256 && g <= g' < 256 && b <= b' < 256
    requires ContrastColor(HexColor(r, g, b)) == DarkText
    ensures ContrastColor(HexColor(r', g', b')) == DarkText
  {
    ContrastOfWellFormed(r, g, b);
    ContrastOfWellFormed(r', g', b');
  }

  /** A colour string too short to hold a first channel gets light text. */
  lemma ShortColorGetsLightText(hexColor: string)
    requires |hexColor| <= 1
    ensures ContrastColor(hexColor) == LightText
  {
    assert Slice(hexColor, 1, 3) == [];
  }

  /** The default colour of the "work" tag, a light blue, gets dark text. */
  lemma LightBlueGetsDarkText()
    ensures ContrastColor("#7dd3fc") == DarkText
  {
    assert HexByte(0x7d) == "7d" by { assert HexChar(7) == '7' && HexChar(13) == 'd'; }
    assert HexByte(0xd3) == "d3" by { assert HexChar(13) == 'd' && HexChar(3) == '3'; }
    assert HexByte(0xfc) == "fc" by { assert HexChar(15) == 'f' && HexChar(12) == 'c'; }
    assert HexColor(0x7d, 0xd3, 0xfc) == "#7dd3fc";
    ContrastOfWellFormed(0x7d, 0xd3, 0xfc);
  }

  /** Pure blue gets light text. */
  lemma PureBlueGetsLightText()
    ensures ContrastColor("#0000ff") == LightText
  {
    assert HexByte(0) == "00" by { assert HexChar(0) == '0'; }
    assert HexByte(0xff) == "ff" by { assert HexChar(15) == 'f'; }
    assert HexColor(0, 0, 0xff) == "#0000ff";
    ContrastOfWellFormed(0, 0, 0xff);
  }
}
