/** The colour helpers of the dashboard: `hex_to_rgb`, which parses "#RRGGBB",
    and `get_sleep_color`, which maps hours slept onto a three-stop gradient
    and formats the result back as "#RRGGBB". */
module Colors {
  import opened Wrappers

  /** Three channels; `int(..., 16)` can also give a negative channel. */
  datatype RGB = RGB(r: int, g: int, b: int)

  /** The ValueError `int(field, 16)` raises on a field that is not a number. */
  datatype ParseError = InvalidLiteral

  // ---------- hex_to_rgb ----------

  /** `s.lstrip("#")`: drops every leading '#'. */
  function LStripHash(s: string): (r: string)
    ensures |r| <= |s| && r == s[|s| - |r|..]
    ensures r == [] || r[0] != '#'
    ensures forall i :: 0 <= i < |s| - |r| ==> s[i] == '#'
  {
    if s != [] && s[0] == '#' then LStripHash(s[1..]) else s
  }

  /** `s[i:i+2]`: Python slices clamp to the string, so a short string gives a
      short or empty field. */
  function Field(s: string, i: nat): (f: string)
    ensures |f| <= 2
    ensures i + 2 <= |s| ==> f == s[i..i + 2]
  {
    if i >= |s| then [] else if i + 2 >= |s| then s[i..] else s[i..i + 2]
  }

  function HexValue(c: char): Option<nat> {
    if '0' <= c <= '9' then Some(c as int - '0' as int)
    else if 'a' <= c <= 'f' then Some(c as int - 'a' as int + 10)
    else if 'A' <= c <= 'F' then Some(c as int - 'A' as int + 10)
    else None
  }

  /** The ASCII characters for which `str.isspace()` holds; `int()` ignores
      them around the number. */
  predicate IsSpace(c: char) {
    c == ' ' || 9 <= c as int <= 13 || 28 <= c as int <= 31
  }

  /** `int(f, 16)` on a field of at most two characters: one or two hex
      digits, a sign and one digit, or one digit next to white space. */
  function ParseField(f: string): (r: Result<int, ParseError>)
    requires |f| <= 2
    ensures r.Ok? ==> -15 <= r.value <= 255
    ensures r.Ok? ==> exists k :: 0 <= k < |f| && HexValue(f[k]).Some?
    ensures f == [] ==> r.Err?
  {
    if |f| == 1 then
      (if HexValue(f[0]).Some? then Ok(HexValue(f[0]).value) else Err(InvalidLiteral))
    else if |f| == 2 then
      var hi, lo := HexValue(f[0]), HexValue(f[1]);
      if hi.Some? && lo.Some? then Ok(16 * hi.value + lo.value)
      else if lo.Some? && f[0] == '+' then Ok(lo.value)
      else if lo.Some? && f[0] == '-' then Ok(-(lo.value as int))
      else if lo.Some? && IsSpace(f[0]) then Ok(lo.value)
      else if hi.Some? && IsSpace(f[1]) then Ok(hi.value)
      else Err(InvalidLiteral)
    else Err(InvalidLiteral)
  }

  /** `hex_to_rgb(hx)`: the fields at offsets 0, 2 and 4 after the leading
      '#'s; characters after the sixth are ignored. Fewer than five
      characters leave the third field empty, and `int("", 16)` fails. */
  function HexToRgb(hx: string): (r: Result<RGB, ParseError>)
    ensures |LStripHash(hx)| <= 4 ==> r.Err?
    ensures r.Ok? ==> -15 <= r.value.r <= 255 && -15 <= r.value.g <= 255 && -15 <= r.value.b <= 255
  {
    var s := LStripHash(hx);
    var r :- ParseField(Field(s, 0));
    var g :- ParseField(Field(s, 2));
    var b :- ParseField(Field(s, 4));
    Ok(RGB(r, g, b))
  }

  // ---------- "#{:02X}{:02X}{:02X}".format(...) ----------

  predicate IsUpperHexDigit(c: char) {
    '0' <= c <= '9' || 'A' <= c <= 'F'
  }

  function HexDigit(n: nat): (c: char)
    requires n < 16
    ensures IsUpperHexDigit(c) && HexValue(c) == Some(n)
  {
    if n < 10 then ('0' as int + n) as char else ('A' as int + n - 10) as char
  }

  /** Upper-case hexadecimal digits of `n`, most significant first. */
  function UpperHex(n: nat): (s: string)
    ensures |s| >= 1
    ensures forall i :: 0 <= i < |s| ==> IsUpperHexDigit(s[i])
    ensures n < 16 ==> s == [HexDigit(n)]
    ensures 16 <= n < 256 ==> s == [HexDigit(n / 16), HexDigit(n % 16)]
  {
    if n < 16 then [HexDigit(n)] else UpperHex(n / 16) + [HexDigit(n % 16)]
  }

  /** `"{:02X}".format(n)`: at least two characters, zero-padded after the
      sign. */
  function Hex02(n: int): (s: string)
    ensures |s| >= 2
    ensures -15 <= n <= 255 ==> |s| == 2
    ensures n >= 0 ==> forall k :: 0 <= k < |s| ==> IsUpperHexDigit(s[k])
    ensures n < 0 ==> s[0] == '-'
  {
    if n < 0 then "-" + UpperHex(-n)
    else if n < 16 then "0" + UpperHex(n)
    else UpperHex(n)
  }

  /** `"#{:02X}{:02X}{:02X}".format(r, g, b)`. */
  function ToHexString(c: RGB): (s: string)
    ensures |s| >= 7 && s[0] == '#'
    ensures -15 <= c.r <= 255 && -15 <= c.g <= 255 && -15 <= c.b <= 255 ==> |s| == 7
  {
    "#" + Hex02(c.r) + Hex02(c.g) + Hex02(c.b)
  }

  /** A channel formats to exactly two characters that parse back to it. */
  lemma Hex02RoundTrip(n: int)
    requires -15 <= n <= 255
    ensures |Hex02(n)| == 2 && Hex02(n)[0] != '#'
    ensures ParseField(Hex02(n)) == Ok(n)
  {
    if n < 0 {
      assert Hex02(n) == ['-', HexDigit(-n)];
    } else if n < 16 {
      assert Hex02(n) == ['0', HexDigit(n)];
    } else {
      assert Hex02(n) == [HexDigit(n / 16), HexDigit(n % 16)];
    }
  }

  predicate InChannelRange(c: RGB) {
    0 <= c.r <= 255 && 0 <= c.g <= 255 && 0 <= c.b <= 255
  }

  /** Round trip: `hex_to_rgb` of the formatted colour gives back its channels
      (also for the small negative channels `int(..., 16)` can produce). */
  lemma {:induction false} HexRoundTrip(c: RGB)
    requires -15 <= c.r <= 255 && -15 <= c.g <= 255 && -15 <= c.b <= 255
    ensures HexToRgb(ToHexString(c)) == Ok(c)
  {
    Hex02RoundTrip(c.r);
    Hex02RoundTrip(c.g);
    Hex02RoundTrip(c.b);
    var body := Hex02(c.r) + Hex02(c.g) + Hex02(c.b);
    assert ToHexString(c) == "#" + body;
    assert body[0..2] == Hex02(c.r) && body[2..4] == Hex02(c.g) && body[4..6] == Hex02(c.b);
    ParsesAs(body, c);
    assert ("#" + body)[1..] == body;
    assert LStripHash("#" + body) == LStripHash(body);
  }

  /** An in-range colour formats as '#' and six upper-case hex digits. */
  lemma FormatShape(c: RGB)
    requires InChannelRange(c)
    ensures |ToHexString(c)| == 7 && ToHexString(c)[0] == '#'
    ensures forall i :: 1 <= i < 7 ==> IsUpperHexDigit(ToHexString(c)[i])
  {
    Hex02RoundTrip(c.r);
    Hex02RoundTrip(c.g);
    Hex02RoundTrip(c.b);
  }

  // ---------- get_sleep_color ----------

  /** The colour of a day without hours. */
  const NO_DATA := "#DDDDDD"

  /** The gradient stops, written in the source as the strings below. */
  const STOP1_HEX := "1cdce8"
  const STOP2_HEX := "bb77ed"
  const STOP3_HEX := "f34a62"
  const STOP1 := RGB(0x1C, 0xDC, 0xE8)
  const STOP2 := RGB(0xBB, 0x77, 0xED)
  const STOP3 := RGB(0xF3, 0x4A, 0x62)

  lemma ParsesAs(hex: string, c: RGB)
    requires |hex| == 6 && hex[0] != '#'
    requires ParseField(hex[0..2]) == Ok(c.r)
    requires ParseField(hex[2..4]) == Ok(c.g)
    requires ParseField(hex[4..6]) == Ok(c.b)
    ensures HexToRgb(hex) == Ok(c)
  {
    assert LStripHash(hex) == hex;
  }

  /** `map(hex_to_rgb, ("1cdce8", "bb77ed", "f34a62"))` gives the three stops. */
  lemma StopsParse()
    ensures HexToRgb(STOP1_HEX) == Ok(STOP1)
    ensures HexToRgb(STOP2_HEX) == Ok(STOP2)
    ensures HexToRgb(STOP3_HEX) == Ok(STOP3)
  {
    assert HexValue('1') == Some(1) && HexValue('c') == Some(12);
    assert HexValue('d') == Some(13) && HexValue('e') == Some(14) && HexValue('8') == Some(8);
    assert HexValue('b') == Some(11) && HexValue('7') == Some(7);
    assert HexValue('f') == Some(15) && HexValue('3') == Some(3) && HexValue('4') == Some(4);
    assert HexValue('a') == Some(10) && HexValue('6') == Some(6) && HexValue('2') == Some(2);
    ParsesAs(STOP1_HEX, STOP1);
    ParsesAs(STOP2_HEX, STOP2);
    ParsesAs(STOP3_HEX, STOP3);
  }

  function Min(a: real, b: real): real { if a <= b then a else b }
  function Max(a: real, b: real): real { if a >= b then a else b }

  /** `int(x)` on a float truncates toward zero. */
  function Trunc(x: real): (n: int)
    ensures x >= 0.0 ==> 0 <= n && n as real <= x < n as real + 1.0
    ensures x < 0.0 ==> n <= 0 && n as real - 1.0 < x <= n as real
  {
    if x >= 0.0 then x.Floor else -((-x).Floor)
  }

  /** `max(2, min(11, hours))`. */
  function Clamp(hours: real): (h: real)
    ensures 2.0 <= h <= 11.0
    ensures 2.0 <= hours <= 11.0 ==> h == hours
    ensures hours <= 2.0 ==> h == 2.0
    ensures hours >= 11.0 ==> h == 11.0
  {
    Max(2.0, Min(11.0, hours))
  }

  /** `int((1 - u) * a + u * b)` for one channel: for 0 <= u <= 1 it lies
      between the two channels. */
  function Mix(a: int, b: int, u: real): (m: int)
    ensures 0 <= a && 0 <= b && 0.0 <= u <= 1.0 ==> ChannelBetween(m, a, b)
  {
    var x := (1.0 - u) * (a as real) + u * (b as real);
    assert 0 <= a && 0 <= b && 0.0 <= u <= 1.0 ==> ChannelBetween(Trunc(x), a, b) by {
      if 0 <= a && 0 <= b && 0.0 <= u <= 1.0 {
        MixBetween(a, b, u);
        if a <= b {
          TruncBetween(x, a, b);
        } else {
          TruncBetween(x, b, a);
        }
      }
    }
    Trunc(x)
  }

  /** The blend of two non-negative channels lies between them. */
  lemma MixBetween(a: int, b: int, u: real)
    requires 0 <= a && 0 <= b && 0.0 <= u <= 1.0
    ensures var x := (1.0 - u) * (a as real) + u * (b as real);
      (a <= b ==> a as real <= x <= b as real) && (b <= a ==> b as real <= x <= a as real)
  {
    var d := (b - a) as real;
    assert (1.0 - u) * (a as real) + u * (b as real) == a as real + u * d;
    if a <= b {
      NonNegProduct(u, d);
      NonNegProduct(1.0 - u, d);
    } else {
      NonNegProduct(u, -d);
      NonNegProduct(1.0 - u, -d);
    }
  }

  lemma NonNegProduct(x: real, y: real)
    requires 0.0 <= x && 0.0 <= y
    ensures 0.0 <= x * y
  {
  }

  /** The blend of two colours at u in [0, 1] lies channel by channel between
      them (the list comprehensions of the two segments). */
  function Blend(c1: RGB, c2: RGB, u: real): (c: RGB)
    ensures InChannelRange(c1) && InChannelRange(c2) && 0.0 <= u <= 1.0 ==> Between(c, c1, c2)
  {
    RGB(Mix(c1.r, c2.r, u), Mix(c1.g, c2.g, u), Mix(c1.b, c2.b, u))
  }

  /** Truncating a non-negative value keeps it between the same integers. */
  lemma TruncBetween(x: real, lo: int, hi: int)
    requires 0 <= lo && lo as real <= x <= hi as real
    ensures lo <= Trunc(x) <= hi
  {
  }

  predicate ChannelBetween(x: int, a: int, b: int) {
    (a <= x <= b) || (b <= x <= a)
  }

  /** Every channel of `c` lies between those of `lo` and `hi`. */
  predicate Between(c: RGB, lo: RGB, hi: RGB) {
    ChannelBetween(c.r, lo.r, hi.r) && ChannelBetween(c.g, lo.g, hi.g) && ChannelBetween(c.b, lo.b, hi.b)
  }

  /** The gradient colour of (non-None) hours: below t = 0.5, that is below
      6.5 hours, between the first two stops; from there on between the last
      two. */
  function SleepRgb(hours: real): (c: RGB)
    ensures Clamp(hours) < 6.5 ==> Between(c, STOP1, STOP2)
    ensures Clamp(hours) >= 6.5 ==> Between(c, STOP2, STOP3)
    ensures InChannelRange(c)
  {
    var h := Clamp(hours);
    var t := (h - 2.0) / 9.0;
    if t < 0.5 then
      var t2 := t * 2.0;
      Blend(STOP1, STOP2, t2)
    else
      var t2 := (t - 0.5) * 2.0;
      Blend(STOP2, STOP3, t2)
  }

  /** `get_sleep_color(hours)`: the fixed gray for None, else the gradient
      colour as '#' and six upper-case hex digits, which `hex_to_rgb` reads
      back as the gradient channels. */
  function GetSleepColor(hours: Option<real>): (s: string)
    ensures hours.None? ==> s == NO_DATA
    ensures |s| == 7 && s[0] == '#'
    ensures forall i :: 1 <= i < 7 ==> IsUpperHexDigit(s[i])
    ensures hours.Some? ==> HexToRgb(s) == Ok(SleepRgb(hours.value))
  {
    match hours
    case None => NO_DATA
    case Some(h) =>
      var c := SleepRgb(h);
      FormatShape(c);
      HexRoundTrip(c);
      ToHexString(c)
  }

  /** Hours at or below 2 all get the colour of 2, hours at or above 11 the
      colour of 11. */
  lemma ClampedEnds(hours: real)
    ensures hours <= 2.0 ==> GetSleepColor(Some(hours)) == GetSleepColor(Some(2.0))
    ensures hours >= 11.0 ==> GetSleepColor(Some(hours)) == GetSleepColor(Some(11.0))
  {
  }

  /** The gradient passes through the three stops: 2 hours gives the first,
      6.5 hours (t = 0.5, the second segment with t2 = 0) the second and 11
      hours the third. */
  lemma GradientStops()
    ensures GetSleepColor(Some(2.0)) == "#1CDCE8"
    ensures GetSleepColor(Some(6.5)) == "#BB77ED"
    ensures GetSleepColor(Some(11.0)) == "#F34A62"
  {
    FirstStop();
    MiddleStop();
    LastStop();
  }

  lemma FirstStop()
    ensures GetSleepColor(Some(2.0)) == "#1CDCE8"
  {
    assert SleepRgb(2.0) == STOP1;
    FormatsAs(STOP1, "#1CDCE8");
  }

  lemma MiddleStop()
    ensures GetSleepColor(Some(6.5)) == "#BB77ED"
  {
    assert SleepRgb(6.5) == STOP2;
    FormatsAs(STOP2, "#BB77ED");
  }

  lemma LastStop()
    ensures GetSleepColor(Some(11.0)) == "#F34A62"
  {
    assert SleepRgb(11.0) == STOP3;
    FormatsAs(STOP3, "#F34A62");
  }

  /** A colour whose channels are all at least 16 formats as the digits of
      each channel in turn. */
  lemma FormatsAs(c: RGB, s: string)
    requires 16 <= c.r < 256 && 16 <= c.g < 256 && 16 <= c.b < 256
    requires |s| == 7 && s[0] == '#'
    requires s[1] == HexDigit(c.r / 16) && s[2] == HexDigit(c.r % 16)
    requires s[3] == HexDigit(c.g / 16) && s[4] == HexDigit(c.g % 16)
    requires s[5] == HexDigit(c.b / 16) && s[6] == HexDigit(c.b % 16)
    ensures ToHexString(c) == s
  {
  }

  /** The no-data gray parses as (0xDD, 0xDD, 0xDD). */
  lemma NoDataParses()
    ensures HexToRgb(NO_DATA) == Ok(RGB(0xDD, 0xDD, 0xDD))
  {
    var s := NO_DATA[1..];
    assert LStripHash(NO_DATA) == LStripHash(s) == s;
    assert HexValue('D') == Some(13);
    assert s[0..2] == s[2..4] == s[4..6] == "DD";
    ParsesAs(s, RGB(0xDD, 0xDD, 0xDD));
  }

  /** No sleep colour is the no-data gray: every green channel of the
      gradient lies in 0x4A..0xDC, and the gray's green is 0xDD. */
  lemma SleepColorIsNotNoData(h: real)
    ensures GetSleepColor(Some(h)) != NO_DATA
  {
    NoDataParses();
    SleepGreenBelowGray(h);
  }

  /** The green channel of the gradient never exceeds 0xDC. */
  lemma SleepGreenBelowGray(h: real)
    ensures SleepRgb(h).g <= 0xDC
  {
  }
}
