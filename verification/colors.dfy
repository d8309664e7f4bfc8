/** The colour helpers of the whiteboard (src/ExcalidrawClone.jsx):
    `hexToRgba`, which reads a hex colour into its channels, and
    `stringToColor`, which gives every tag a colour from a 32-bit string
    hash.

    Both work on a string's UTF-16 code units, which is what JavaScript's
    `length`, `split('')` and `charCodeAt` see, and both take the channels
    out of a number through the 32-bit shifts `>> 16`, `>> 8` and `& 255`.
    Numbers are integers here; `HashIsExact` shows that the hash stays
    within the range where a double holds an integer exactly. */
module Colors {
  import opened Common
  import opened Tags

  /** A UTF-16 code unit. */
  type Unit = u: int | 0 <= u < 0x1_0000

  const TwoTo32: int := 0x1_0000_0000
  const TwoTo31: int := 0x8000_0000

  /** The code units of a string: one per character of the basic plane,
      a surrogate pair for the others. */
  function Utf16(s: string): (r: seq<Unit>)
    ensures |r| >= |s|
    ensures (forall i :: 0 <= i < |s| ==> s[i] as int < 0x1_0000) ==> |r| == |s|
  {
    if |s| == 0 then []
    else
      var c := s[0] as int;
      if c < 0x1_0000 then [c as Unit] + Utf16(s[1..])
      else [0xD800 + (c - 0x1_0000) / 0x400, 0xDC00 + (c - 0x1_0000) % 0x400] + Utf16(s[1..])
  }

  /** Reading code units back into characters: a high surrogate followed
      by a low one is one character above U+FFFF; a lone surrogate reads
      as U+FFFD, the replacement character. */
  function FromUtf16(u: seq<Unit>): (s: string)
    ensures |s| <= |u|
    decreases |u|
  {
    if |u| == 0 then []
    else if |u| >= 2 && 0xD800 <= u[0] < 0xDC00 && 0xDC00 <= u[1] < 0xE000 then
      [(0x1_0000 + (u[0] as int - 0xD800) * 0x400 + (u[1] as int - 0xDC00)) as char] + FromUtf16(u[2..])
    else if 0xD800 <= u[0] < 0xE000 then ['\U{FFFD}'] + FromUtf16(u[1..])
    else [u[0] as char] + FromUtf16(u[1..])
  }

  /** The code units of a character above U+FFFF are a high surrogate then
      a low one, and they read back as the character. */
  lemma SurrogatePairReadsBack(c: int)
    requires 0x1_0000 <= c < 0x11_0000
    ensures var hi, lo := 0xD800 + (c - 0x1_0000) / 0x400, 0xDC00 + (c - 0x1_0000) % 0x400;
            && 0xD800 <= hi < 0xDC00 && 0xDC00 <= lo < 0xE000
            && 0x1_0000 + (hi - 0xD800) * 0x400 + (lo - 0xDC00) == c
  {
  }

  /** Encoding loses nothing: reading the code units of a string back
      gives the string. */
  lemma {:induction false} Utf16RoundTrip(s: string)
    ensures FromUtf16(Utf16(s)) == s
    decreases |s|
  {
    if |s| > 0 {
      var c := s[0] as int;
      var rest := Utf16(s[1..]);
      Utf16RoundTrip(s[1..]);
      if c < 0x1_0000 {
        var u := [c as Unit] + rest;
        assert u[1..] == rest;
      } else {
        SurrogatePairReadsBack(c);
        var u := [0xD800 + (c - 0x1_0000) / 0x400, 0xDC00 + (c - 0x1_0000) % 0x400] + rest;
        assert u[2..] == rest;
      }
      assert s == [s[0]] + s[1..];
    }
  }

  /** A colour as `rgba(r, g, b, alpha)` writes it. */
  datatype Rgba = Rgba(r: int, g: int, b: int, alpha: real)

  /** A colour as `rgb(r, g, b)` writes it. */
  datatype Rgb = Rgb(r: int, g: int, b: int)

  predicate IsByte(v: int) {
    0 <= v < 256
  }

  // ------------------------------------------------------- 32-bit integers

  /** `ToInt32` on an integer: the value modulo 2^32 read as a signed
      32-bit integer. */
  function ToInt32(x: int): (r: int)
    ensures -TwoTo31 <= r < TwoTo31
    ensures (r - x) % TwoTo32 == 0
  {
    var m := x % TwoTo32;
    if m < TwoTo31 then m else m - TwoTo32
  }

  /** `(n >> k) & 255` for `d == 2^k` with `k` one of 0, 8 and 16: the
      arithmetic shift of the 32-bit value, then its low byte. */
  function Channel(n: int, d: int): (v: int)
    requires d == 1 || d == 0x100 || d == 0x1_0000
    ensures IsByte(v)
  {
    (ToInt32(n) / d) % 256
  }

  /** The arithmetic shift and the mask pick the same byte as reading the
      number's low 32 bits as unsigned: the sign bits shifted in are masked
      away. */
  lemma ChannelIsUnsignedByte(n: int, d: int)
    requires d == 1 || d == 0x100 || d == 0x1_0000
    ensures Channel(n, d) == ((n % TwoTo32) / d) % 256
  {
    var m := n % TwoTo32;
    if m >= TwoTo31 {
      assert ToInt32(n) == m - TwoTo32;
      if d == 1 {
        assert (m - TwoTo32) % 256 == m % 256;
      } else if d == 0x100 {
        assert (m - TwoTo32) / 0x100 == m / 0x100 - 0x100_0000;
        assert (m / 0x100 - 0x100_0000) % 256 == (m / 0x100) % 256;
      } else {
        assert (m - TwoTo32) / 0x1_0000 == m / 0x1_0000 - 0x1_0000;
        assert (m / 0x1_0000 - 0x1_0000) % 256 == (m / 0x1_0000) % 256;
      }
    }
  }

  /** The three channels of a value below 2^24 are its three bytes. */
  lemma ChannelsOfBytes(n: int, r: int, g: int, b: int, alpha: real)
    requires IsByte(r) && IsByte(g) && IsByte(b) && n == r * 0x1_0000 + g * 0x100 + b
    ensures ChannelsOf(n, alpha) == Rgba(r, g, b, alpha)
  {
    assert 0 <= n < TwoTo31;
    assert ToInt32(n) == n;
    assert n / 0x1_0000 == r;
    assert n / 0x100 == r * 0x100 + g;
    assert (r * 0x100 + g) % 256 == g;
    assert n % 256 == b;
  }

  // --------------------------------------------------------------- parseInt

  /** The value of a hexadecimal digit, or -1 for any other code unit. */
  function HexDigit(u: Unit): (d: int)
    ensures -1 <= d < 16
    ensures d >= 0 <==> ('0' as int <= u <= '9' as int || 'a' as int <= u <= 'f' as int || 'A' as int <= u <= 'F' as int)
  {
    if '0' as int <= u <= '9' as int then u - '0' as int
    else if 'a' as int <= u <= 'f' as int then u - 'a' as int + 10
    else if 'A' as int <= u <= 'F' as int then u - 'A' as int + 10
    else -1
  }

  predicate IsHexDigit(u: Unit) {
    HexDigit(u) >= 0
  }

  /** The white space `parseInt` skips: that of `String.prototype.trim`. */
  predicate IsSpaceUnit(u: Unit) {
    (u < 0xD800 || 0xE000 <= u) && IsJsSpace(u as char)
  }

  /** What `parseInt` keeps after leading white space. */
  function SkipSpace(s: seq<Unit>): (r: seq<Unit>)
    ensures |r| <= |s| && r == s[|s| - |r|..]
    ensures forall i :: 0 <= i < |s| - |r| ==> IsSpaceUnit(s[i])
    ensures r != [] ==> !IsSpaceUnit(r[0])
  {
    if |s| > 0 && IsSpaceUnit(s[0]) then SkipSpace(s[1..]) else s
  }

  /** The longest run of hex digits at the start. */
  function DigitRun(s: seq<Unit>): (r: seq<Unit>)
    ensures |r| <= |s| && r == s[..|r|]
    ensures forall i :: 0 <= i < |r| ==> IsHexDigit(r[i])
    ensures |r| < |s| ==> !IsHexDigit(s[|r|])
  {
    if |s| > 0 && IsHexDigit(s[0]) then
      var r := DigitRun(s[1..]);
      assert [s[0]] + r == s[..|r| + 1];
      [s[0]] + r
    else []
  }

  function Pow16(n: nat): (p: nat)
    ensures p >= 1
  {
    if n == 0 then 1 else 16 * Pow16(n - 1)
  }

  /** The value of hex digits, most significant first. */
  function HexValue(ds: seq<Unit>): (v: nat)
    requires forall i :: 0 <= i < |ds| ==> IsHexDigit(ds[i])
    ensures v < Pow16(|ds|)
  {
    if |ds| == 0 then 0
    else
      var d := HexDigit(ds[|ds| - 1]);
      assert IsHexDigit(ds[|ds| - 1]);
      HexValue(ds[..|ds| - 1]) * 16 + d
  }

  /** `parseInt(s, 16)` (section 19.2.5 of ECMAScript 2023): leading white
      space is skipped, then one sign, then a `0x` or `0X` prefix; the value
      is that of the digits up to the first code unit that is not a hex
      digit, negated after a minus sign, and `None` (NaN) when there are no
      digits. */
  function ParseHex(s: seq<Unit>): (r: Option<int>)
  {
    var t := SkipSpace(s);
    var negative := |t| > 0 && t[0] == '-' as int;
    var unsigned := if |t| > 0 && (t[0] == '-' as int || t[0] == '+' as int) then t[1..] else t;
    var digits := if |unsigned| >= 2 && unsigned[0] == '0' as int && (unsigned[1] == 'x' as int || unsigned[1] == 'X' as int)
                  then unsigned[2..] else unsigned;
    var z := DigitRun(digits);
    if z == [] then None
    else
      var v: int := HexValue(z);
      Some(if negative then -v else v)
  }

  /** A string of hex digits alone is read as its value. */
  lemma ParseHexDigits(ds: seq<Unit>)
    requires |ds| > 0 && forall i :: 0 <= i < |ds| ==> IsHexDigit(ds[i])
    ensures ParseHex(ds) == Some(HexValue(ds))
  {
    assert IsHexDigit(ds[0]);
    assert !IsSpaceUnit(ds[0]);
    assert SkipSpace(ds) == ds;
    assert ds[0] != '-' as int && ds[0] != '+' as int;
    if |ds| >= 2 {
      assert IsHexDigit(ds[1]);
      assert ds[1] != 'x' as int && ds[1] != 'X' as int;
    }
    DigitRunAll(ds);
  }

  lemma {:induction false} DigitRunAll(ds: seq<Unit>)
    requires forall i :: 0 <= i < |ds| ==> IsHexDigit(ds[i])
    ensures DigitRun(ds) == ds
  {
    if |ds| > 0 {
      DigitRunAll(ds[1..]);
    }
  }

  // -------------------------------------------------------------- hexToRgba

  const HashSign: Unit := '#' as int

  /** `hex.replace('#', '')`: the first `#` is removed, any later one kept. */
  function DropFirstHash(s: seq<Unit>): (r: seq<Unit>)
    ensures HashSign in s ==> |r| == |s| - 1
    ensures HashSign !in s ==> r == s
  {
    var i := IndexOf(s, HashSign);
    if i < 0 then s else s[..i] + s[i + 1..]
  }

  /** A three-unit colour with every unit doubled (`#abc` is `#aabbcc`);
      any other length is kept. */
  function ExpandShort(s: seq<Unit>): (r: seq<Unit>)
    ensures |s| == 3 ==> |r| == 6 && forall i :: 0 <= i < 6 ==> r[i] == s[i / 2]
    ensures |s| != 3 ==> r == s
  {
    if |s| == 3 then [s[0], s[0], s[1], s[1], s[2], s[2]] else s
  }

  /** `hexToRgba`: the channels of the colour's number; an unreadable colour
      (NaN) has every channel 0. */
  function HexToRgba(hex: seq<Unit>, alpha: real): (c: Rgba)
    ensures IsByte(c.r) && IsByte(c.g) && IsByte(c.b) && c.alpha == alpha
  {
    ChannelsOf(ColourNumber(hex), alpha)
  }

  /** The number `hexToRgba` takes the channels from: NaN counts as 0,
      which is what the shifts make of it. */
  function ColourNumber(hex: seq<Unit>): int
  {
    match ParseHex(ExpandShort(DropFirstHash(hex)))
    case None => 0
    case Some(v) => v
  }

  function ChannelsOf(n: int, alpha: real): (c: Rgba)
    ensures IsByte(c.r) && IsByte(c.g) && IsByte(c.b) && c.alpha == alpha
  {
    Rgba(Channel(n, 0x1_0000), Channel(n, 0x100), Channel(n, 1), alpha)
  }

  /** The lower-case hex digit of a value below 16. */
  function HexChar(d: int): (u: Unit)
    requires 0 <= d < 16
    ensures IsHexDigit(u) && HexDigit(u) == d
  {
    if d < 10 then '0' as int + d else 'a' as int + d - 10
  }

  /** `#rrggbb`, the form every colour of the palette is written in. */
  function ToHex(c: Rgb): (s: seq<Unit>)
    requires IsByte(c.r) && IsByte(c.g) && IsByte(c.b)
    ensures |s| == 7 && s[0] == HashSign
    ensures forall i :: 1 <= i < 7 ==> IsHexDigit(s[i])
  {
    [HashSign, HexChar(c.r / 16), HexChar(c.r % 16), HexChar(c.g / 16), HexChar(c.g % 16),
     HexChar(c.b / 16), HexChar(c.b % 16)]
  }

  /** Six digits are read as three bytes. */
  lemma SixDigitsValue(c: Rgb)
    requires IsByte(c.r) && IsByte(c.g) && IsByte(c.b)
    ensures HexValue(ToHex(c)[1..]) == c.r * 0x1_0000 + c.g * 0x100 + c.b
  {
    var ds := ToHex(c)[1..];
    assert ds[..1][..0] == [];
    assert ds[..2][..1] == ds[..1];
    assert ds[..3][..2] == ds[..2];
    assert ds[..4][..3] == ds[..3];
    assert ds[..5][..4] == ds[..4];
    assert ds[..6][..5] == ds[..5];
    assert ds[..6] == ds;
    assert HexValue(ds[..1]) == c.r / 16;
    assert HexValue(ds[..2]) == c.r;
    assert HexValue(ds[..3]) == c.r * 16 + c.g / 16;
    assert HexValue(ds[..4]) == c.r * 0x100 + c.g;
    assert HexValue(ds[..5]) == c.r * 0x1000 + c.g * 16 + c.b / 16;
  }

  /** A `#` and six hex digits are read as the number the digits write. */
  lemma ReadHashSix(s: seq<Unit>)
    requires |s| == 7 && s[0] == HashSign
    requires forall i :: 1 <= i < 7 ==> IsHexDigit(s[i])
    ensures ColourNumber(s) == HexValue(s[1..])
  {
    DropLeadingHash(s);
    var ds := s[1..];
    assert ExpandShort(ds) == ds;
    ParseHexDigits(ds);
  }

  lemma DropLeadingHash(s: seq<Unit>)
    requires |s| > 0 && s[0] == HashSign
    ensures DropFirstHash(s) == s[1..]
  {
    var i := IndexOf(s, HashSign);
    assert i == 0;
    assert s[..i] + s[i + 1..] == s[1..];
  }

  /** Reading back a colour written as `#rrggbb` gives its channels. */
  lemma HexRoundTrip(c: Rgb, alpha: real)
    requires IsByte(c.r) && IsByte(c.g) && IsByte(c.b)
    ensures HexToRgba(ToHex(c), alpha) == Rgba(c.r, c.g, c.b, alpha)
  {
    ReadHex(c);
    ReadsAsBytes(ToHex(c), c.r * 0x1_0000 + c.g * 0x100 + c.b, c.r, c.g, c.b, alpha);
  }

  /** `#rrggbb` is read as the number of its three bytes. */
  lemma ReadHex(c: Rgb)
    requires IsByte(c.r) && IsByte(c.g) && IsByte(c.b)
    ensures ColourNumber(ToHex(c)) == c.r * 0x1_0000 + c.g * 0x100 + c.b
  {
    ReadHashSix(ToHex(c));
    SixDigitsValue(c);
  }

  /** A colour whose number is three bytes reads as those bytes. */
  lemma ReadsAsBytes(s: seq<Unit>, n: int, r: int, g: int, b: int, alpha: real)
    requires IsByte(r) && IsByte(g) && IsByte(b)
    requires ColourNumber(s) == n && n == r * 0x1_0000 + g * 0x100 + b
    ensures HexToRgba(s, alpha) == Rgba(r, g, b, alpha)
  {
    ChannelsOfBytes(n, r, g, b, alpha);
  }

  /** The short form reads as its doubled long form. */
  lemma ShortHexExpands(a: Unit, b: Unit, c: Unit, alpha: real)
    ensures HexToRgba([HashSign, a, b, c], alpha) == HexToRgba([HashSign, a, a, b, b, c, c], alpha)
  {
    DropLeadingHash([HashSign, a, b, c]);
    DropLeadingHash([HashSign, a, a, b, b, c, c]);
  }

  /** A colour whose first unit can start no number (a colour name, an
      `rgb(...)` string) is read as NaN, and every channel is 0. */
  lemma UnreadableIsBlack(s: seq<Unit>, alpha: real)
    requires |s| > 0 && s[0] != HashSign && !IsSpaceUnit(s[0]) && !IsHexDigit(s[0])
    requires s[0] != '-' as int && s[0] != '+' as int
    ensures HexToRgba(s, alpha) == Rgba(0, 0, 0, alpha)
  {
    UnreadableNumber(s);
    ChannelsOfZero(alpha);
  }

  lemma ChannelsOfZero(alpha: real)
    ensures ChannelsOf(0, alpha) == Rgba(0, 0, 0, alpha)
  {
    assert ToInt32(0) == 0;
  }

  lemma UnreadableNumber(s: seq<Unit>)
    requires |s| > 0 && s[0] != HashSign && !IsSpaceUnit(s[0]) && !IsHexDigit(s[0])
    requires s[0] != '-' as int && s[0] != '+' as int
    ensures ColourNumber(s) == 0
  {
    FirstUnitKept(s);
    NoLeadingDigitIsNaN(ExpandShort(DropFirstHash(s)));
  }

  /** Removing a later `#` and doubling the units keep the first unit. */
  lemma FirstUnitKept(s: seq<Unit>)
    requires |s| > 0 && s[0] != HashSign
    ensures var t := ExpandShort(DropFirstHash(s)); |t| > 0 && t[0] == s[0]
  {
    var i := IndexOf(s, HashSign);
    if i >= 0 {
      assert i > 0;
      assert DropFirstHash(s)[0] == s[..i][0];
    }
  }

  /** `parseInt` of a string that starts with no digit, space or sign is NaN. */
  lemma NoLeadingDigitIsNaN(t: seq<Unit>)
    requires |t| > 0 && !IsSpaceUnit(t[0]) && !IsHexDigit(t[0])
    requires t[0] != '-' as int && t[0] != '+' as int
    ensures ParseHex(t) == None
  {
    assert SkipSpace(t) == t;
    assert t[0] != '0' as int;
    assert DigitRun(t) == [];
  }

  // ---------------------------------------------------------- stringToColor

  /** The value of `hash` after the loop of `stringToColor`: each step adds
      the code unit to `(hash << 5) - hash`. The shift works on the 32-bit
      value of `hash`, the subtraction and the addition on the number. */
  function StringHash(s: seq<Unit>): int
  {
    if |s| == 0 then 0
    else
      var h := StringHash(s[..|s| - 1]);
      s[|s| - 1] + (ToInt32(ToInt32(h) * 32) - h)
  }

  /** `stringToColor`: the three low bytes of the hash, each brought into
      0..255 by `(v + 256) % 256`. */
  function StringToColor(s: seq<Unit>): (c: Rgb)
    ensures IsByte(c.r) && IsByte(c.g) && IsByte(c.b)
  {
    var h := StringHash(s);
    Rgb((Channel(h, 0x1_0000) + 256) % 256, (Channel(h, 0x100) + 256) % 256, (Channel(h, 1) + 256) % 256)
  }

  /** The familiar polynomial string hash `h * 31 + unit`, taken modulo 2^32. */
  function PolyHash(s: seq<Unit>): (h: int)
    ensures 0 <= h < TwoTo32
  {
    if |s| == 0 then 0 else (PolyHash(s[..|s| - 1]) * 31 + s[|s| - 1]) % TwoTo32
  }

  /** Adding a multiple of 2^32 does not change the value modulo 2^32. */
  lemma ModShift(a: int, b: int)
    requires (a - b) % TwoTo32 == 0
    ensures a % TwoTo32 == b % TwoTo32
  {
    var k := (a - b) / TwoTo32;
    assert a == b + k * TwoTo32;
  }

  /** One loop step agrees with the polynomial hash modulo 2^32. */
  lemma HashStepModulo(h: int, p: int, u: Unit)
    requires h % TwoTo32 == p
    ensures (u + (ToInt32(ToInt32(h) * 32) - h)) % TwoTo32 == (p * 31 + u) % TwoTo32
  {
    var t := ToInt32(h);
    var w := ToInt32(t * 32);
    var kt := (t - h) / TwoTo32;
    assert t == h + kt * TwoTo32;
    var kw := (w - t * 32) / TwoTo32;
    assert w == t * 32 + kw * TwoTo32;
    var kp := h / TwoTo32;
    assert h == p + kp * TwoTo32;
    assert u + (w - h) == p * 31 + u + (kw + 32 * kt + 31 * kp) * TwoTo32;
    ModShift(u + (w - h), p * 31 + u);
  }

  /** The loop's hash is, modulo 2^32, the polynomial hash. */
  lemma {:induction false} HashIsPolyHash(s: seq<Unit>)
    ensures StringHash(s) % TwoTo32 == PolyHash(s)
  {
    if |s| > 0 {
      HashIsPolyHash(s[..|s| - 1]);
      HashStepModulo(StringHash(s[..|s| - 1]), PolyHash(s[..|s| - 1]), s[|s| - 1]);
    }
  }

  /** Each step moves the hash by less than 2^31 + 2^16. */
  lemma {:induction false} HashMagnitude(s: seq<Unit>)
    ensures -|s| * (TwoTo31 + 0x1_0000) <= StringHash(s) <= |s| * (TwoTo31 + 0x1_0000)
  {
    if |s| > 0 {
      HashMagnitude(s[..|s| - 1]);
    }
  }

  /** For strings of fewer than four million code units the hash stays
      below 2^53, where doubles hold every integer exactly, so the integer
      model computes what the double arithmetic computes. */
  lemma HashIsExact(s: seq<Unit>)
    requires |s| < 4_000_000
    ensures -0x20_0000_0000_0000 < StringHash(s) < 0x20_0000_0000_0000
  {
    HashMagnitude(s);
  }

  /** The colour of a string is the three low bytes of its polynomial hash. */
  lemma StringToColorIsPolyHashBytes(s: seq<Unit>)
    ensures var p := PolyHash(s);
            StringToColor(s) == Rgb(p / 0x1_0000 % 256, p / 0x100 % 256, p % 256)
  {
    var h := StringHash(s);
    HashIsPolyHash(s);
    ChannelIsUnsignedByte(h, 0x1_0000);
    ChannelIsUnsignedByte(h, 0x100);
    ChannelIsUnsignedByte(h, 1);
    ByteWraps(Channel(h, 0x1_0000));
    ByteWraps(Channel(h, 0x100));
    ByteWraps(Channel(h, 1));
  }

  /** `(v + 256) % 256` leaves a byte as it is. */
  lemma ByteWraps(v: int)
    requires IsByte(v)
    ensures (v + 256) % 256 == v
  {
  }

  // -------------------------------------------------- tag labels on canvas

  /** The decimal digits of a natural number. */
  function Decimal(n: nat): (s: seq<Unit>)
    ensures |s| > 0
  {
    if n < 10 then ['0' as int + n] else Decimal(n / 10) + ['0' as int + n % 10]
  }

  /** `rgb(${r}, ${g}, ${b})`, the string `stringToColor` returns. */
  function RgbString(c: Rgb): (s: seq<Unit>)
    requires IsByte(c.r) && IsByte(c.g) && IsByte(c.b)
    ensures |s| > 3 && s[0] == 'r' as int
  {
    Utf16("rgb(") + Decimal(c.r) + Utf16(", ") + Decimal(c.g) + Utf16(", ") + Decimal(c.b) + Utf16(")")
  }

  /** The fill of a tag label drawn on a pin, as written: the `rgb(...)`
      string of the tag's colour handed to `hexToRgba` with alpha 0.8. */
  function TagFillAsWritten(tag: string): (c: Rgba)
    ensures c.alpha == 0.8
  {
    HexToRgba(RgbString(StringToColor(Utf16(tag))), 0.8)
  }

  /** As written, `hexToRgba` cannot read an `rgb(...)` string, so every
      tag label on the canvas is black, whatever colour the tag panel shows
      for it. */
  lemma TagFillAsWrittenIsBlack(tag: string)
    ensures TagFillAsWritten(tag) == Rgba(0, 0, 0, 0.8)
  {
    var s := RgbString(StringToColor(Utf16(tag)));
    assert !IsSpaceUnit(s[0]);
    UnreadableIsBlack(s, 0.8);
  }

  /** The intended fill: the tag's colour written as `#rrggbb`, the form
      `hexToRgba` reads, with alpha 0.8. */
  function TagFill(tag: string): (c: Rgba)
  {
    HexToRgba(ToHex(StringToColor(Utf16(tag))), 0.8)
  }

  /** The intended fill shows the tag panel's colour of the tag. */
  lemma TagFillIsTagColour(tag: string)
    ensures var c := StringToColor(Utf16(tag));
            TagFill(tag) == Rgba(c.r, c.g, c.b, 0.8)
  {
    HexRoundTrip(StringToColor(Utf16(tag)), 0.8);
  }
}
