/**
 * The sexagesimal formatter of the Moon-position server (format_ra_dec in
 * main.py) and the text frame it feeds to every connection.
 *
 * Python floats are modelled as mathematical reals. `int(x)` truncates
 * toward zero (Trunc), `x % 1` is the floored fractional part (Frac), and
 * `:02` is DecimalText.ZeroPad2.
 */
module MoonFormat {
  import opened Wrappers
  import opened DecimalText

  // ---------------------------------------------------------------------------
  // Real-number primitives used by the formatter
  // ---------------------------------------------------------------------------

  /** Python's `x % 1` on a float: what is left after removing the largest integer not above `x`. */
  function Frac(x: real): (f: real)
    ensures 0.0 <= f < 1.0
    ensures (x - f).Floor as real == x - f
  {
    x - x.Floor as real
  }

  /** Python's `int(x)` on a float: truncation toward zero. */
  function Trunc(x: real): (n: int)
    ensures 0.0 <= x ==> n as real <= x < n as real + 1.0
    ensures x < 0.0 ==> n as real - 1.0 < x <= n as real
  {
    if x >= 0.0 then x.Floor else -((-x).Floor)
  }

  /** Python's `abs(x)` on a float. */
  function Abs(x: real): (a: real)
    ensures 0.0 <= a && (a == x || a == -x)
  {
    if x >= 0.0 then x else -x
  }

  /** Adding an integer shifts the floor by that integer. */
  lemma FloorShift(x: real, k: int)
    ensures (x + k as real).Floor == x.Floor + k
  {
  }

  // ---------------------------------------------------------------------------
  // Sexagesimal fields
  // ---------------------------------------------------------------------------

  /** Whole units (hours or degrees), minutes and seconds, as the formatter computes them. */
  datatype Sexagesimal = Sexagesimal(units: int, minutes: int, seconds: int)

  /**
   * The three fields that main.py:32 (and, on `abs(dec)`, main.py:33)
   * computes: `int(x)`, `int((x % 1) * 60)` and `int(((x * 60) % 1) * 60)`.
   */
  function ToSexagesimal(x: real): (f: Sexagesimal)
    ensures 0 <= f.minutes < 60 && 0 <= f.seconds < 60
    ensures 0.0 <= x ==> f.units == x.Floor
    ensures (f.units < 0) == (x <= -1.0)
    ensures -10 < f.units < 100 <==> -10.0 < x < 100.0
  {
    Sexagesimal(Trunc(x), Trunc(Frac(x) * 60.0), Trunc(Frac(x * 60.0) * 60.0))
  }

  /** The number of whole seconds the three fields stand for. */
  function TotalSeconds(f: Sexagesimal): int {
    f.units * 3600 + f.minutes * 60 + f.seconds
  }

  /**
   * For a non-negative value the fields are the value truncated to whole
   * seconds: the minutes and seconds are taken from different fractional
   * parts, yet they agree with each other and nothing is ever rounded up.
   */
  lemma TruncatesToWholeSeconds(x: real)
    requires 0.0 <= x
    ensures TotalSeconds(ToSexagesimal(x)) == (x * 3600.0).Floor
  {
    var h := x.Floor;
    var fr := Frac(x);
    var m := (fr * 60.0).Floor;
    assert x * 60.0 == fr * 60.0 + (60 * h) as real;
    FloorShift(fr * 60.0, 60 * h);
    assert Frac(x * 60.0) * 60.0 == fr * 3600.0 + (-60 * m) as real;
    FloorShift(fr * 3600.0, -60 * m);
    assert x * 3600.0 == fr * 3600.0 + (3600 * h) as real;
    FloorShift(fr * 3600.0, 3600 * h);
  }

  /** The value the three fields denote, in units. */
  function Value(f: Sexagesimal): real {
    TotalSeconds(f) as real / 3600.0
  }

  /** The fields never overstate a non-negative value, and understate it by less than one second. */
  lemma NeverRoundsUp(x: real)
    requires 0.0 <= x
    ensures Value(ToSexagesimal(x)) <= x < Value(ToSexagesimal(x)) + 1.0 / 3600.0
  {
    TruncatesToWholeSeconds(x);
  }

  /** Fields that each fit in two decimal digits. */
  predicate FieldsFit(f: Sexagesimal) {
    && 0 <= f.units < 100
    && 0 <= f.minutes < 100
    && 0 <= f.seconds < 100
  }

  lemma InRangeFieldsFit(x: real)
    requires 0.0 <= x < 100.0
    ensures FieldsFit(ToSexagesimal(x))
  {
  }

  // ---------------------------------------------------------------------------
  // Right ascension: HH:MM:SS
  // ---------------------------------------------------------------------------

  /** The right-ascension f-string of main.py:32 applied to already computed fields. */
  function RenderRa(f: Sexagesimal): string {
    ZeroPad2(f.units) + ":" + ZeroPad2(f.minutes) + ":" + ZeroPad2(f.seconds)
  }

  /** `ra_str` of format_ra_dec. */
  function FormatRa(ra: real): (s: string)
    ensures (|s| == 8) == (-10.0 < ra < 100.0)
    ensures -10.0 < ra < 100.0 ==> s[2] == ':' && s[5] == ':'
  {
    RenderRa(ToSexagesimal(ra))
  }

  /** The text shape `DD:DD:DD`. */
  predicate IsRaFrame(s: string) {
    && |s| == 8
    && AllDigits(s[0..2]) && s[2] == ':'
    && AllDigits(s[3..5]) && s[5] == ':'
    && AllDigits(s[6..8])
  }

  /** Reads a `DD:DD:DD` right ascension back into its fields. */
  function ParseRa(s: string): (r: Option<Sexagesimal>)
    ensures r.Some? <==> IsRaFrame(s)
    ensures r.Some? ==> FieldsFit(r.value)
  {
    if IsRaFrame(s) then
      ZeroPad2OfTwoDigits(s[0..2]);
      ZeroPad2OfTwoDigits(s[3..5]);
      ZeroPad2OfTwoDigits(s[6..8]);
      Some(Sexagesimal(ParseDigits(s[0..2]), ParseDigits(s[3..5]), ParseDigits(s[6..8])))
    else
      None
  }

  /** Rendering fields that fit gives a `DD:DD:DD` text that reads back as the same fields. */
  lemma ParseRenderRa(f: Sexagesimal)
    requires FieldsFit(f)
    ensures IsRaFrame(RenderRa(f))
    ensures ParseRa(RenderRa(f)) == Some(f)
  {
    var a, b, c := ZeroPad2(f.units), ZeroPad2(f.minutes), ZeroPad2(f.seconds);
    TwoDigitField(f.units);
    TwoDigitField(f.minutes);
    TwoDigitField(f.seconds);
    var s := RenderRa(f);
    assert s[0..2] == a && s[3..5] == b && s[6..8] == c;
  }

  /** Every `DD:DD:DD` text is the rendering of the fields it reads as. */
  lemma RenderParseRa(s: string)
    requires IsRaFrame(s)
    ensures RenderRa(ParseRa(s).value) == s
  {
    ZeroPad2OfTwoDigits(s[0..2]);
    ZeroPad2OfTwoDigits(s[3..5]);
    ZeroPad2OfTwoDigits(s[6..8]);
    assert s == s[0..2] + ":" + s[3..5] + ":" + s[6..8];
  }

  /**
   * A right ascension in [0, 100), and so every one in [0, 24), renders as
   * `DD:DD:DD` (colons at indices 2 and 5, digits elsewhere) and reads back
   * as exactly the truncated fields.
   */
  lemma FormatRaRoundTrip(ra: real)
    requires 0.0 <= ra < 100.0
    ensures IsRaFrame(FormatRa(ra))
    ensures ParseRa(FormatRa(ra)) == Some(ToSexagesimal(ra))
    ensures ParseRa(FormatRa(ra)).value.units == ra.Floor
  {
    ParseRenderRa(ToSexagesimal(ra));
  }

  /** 1.999999 hours is truncated to 01:59:59 and not rounded to 02:00:00. */
  lemma TruncationExample()
    ensures FormatRa(1.999999) == "01:59:59"
  {
    var f := ToSexagesimal(1.999999);
    assert Frac(1.999999) == 0.999999;
    assert Frac(1.999999 * 60.0) == 0.99994;
    assert f == Sexagesimal(1, 59, 59);
    assert ZeroPad2(59) == Digits(59) == Digits(5) + [DigitChar(9)];
  }

  // ---------------------------------------------------------------------------
  // Declination: ±DD° MM' SS"
  // ---------------------------------------------------------------------------

  /** A sign and three fields, as a declination text carries them. */
  datatype DecReading = DecReading(negative: bool, magnitude: Sexagesimal)

  /** The declination f-string of main.py:33 applied to a sign and already computed fields. */
  function RenderDec(d: DecReading): string {
    [if d.negative then '-' else '+']
      + ZeroPad2(d.magnitude.units) + "\U{00B0} "
      + ZeroPad2(d.magnitude.minutes) + "' "
      + ZeroPad2(d.magnitude.seconds) + "\""
  }

  /**
   * `dec_str` of format_ra_dec: the sign comes from `dec >= 0` and the
   * fields from `abs(dec)`.
   */
  function FormatDec(dec: real): (s: string)
    ensures |s| >= 1
    ensures (s[0] == '+') == (dec >= 0.0)
    ensures (s[0] == '-') == (dec < 0.0)
    ensures (|s| == 12) == (-100.0 < dec < 100.0)
  {
    RenderDec(DecReading(!(dec >= 0.0), ToSexagesimal(Abs(dec))))
  }

  /** The text shape `±DD° DD' DD"`. */
  predicate IsDecFrame(s: string) {
    && |s| == 12
    && (s[0] == '+' || s[0] == '-')
    && AllDigits(s[1..3]) && s[3..5] == "\U{00B0} "
    && AllDigits(s[5..7]) && s[7..9] == "' "
    && AllDigits(s[9..11]) && s[11] == '"'
  }

  /** Reads a `±DD° DD' DD"` declination back into its sign and fields. */
  function ParseDec(s: string): (r: Option<DecReading>)
    ensures r.Some? <==> IsDecFrame(s)
    ensures r.Some? ==> FieldsFit(r.value.magnitude) && r.value.negative == (s[0] == '-')
  {
    if IsDecFrame(s) then
      ZeroPad2OfTwoDigits(s[1..3]);
      ZeroPad2OfTwoDigits(s[5..7]);
      ZeroPad2OfTwoDigits(s[9..11]);
      Some(DecReading(s[0] == '-',
        Sexagesimal(ParseDigits(s[1..3]), ParseDigits(s[5..7]), ParseDigits(s[9..11]))))
    else
      None
  }

  /** Rendering a sign and fields that fit gives a declination text that reads back as the same. */
  lemma ParseRenderDec(d: DecReading)
    requires FieldsFit(d.magnitude)
    ensures IsDecFrame(RenderDec(d))
    ensures ParseDec(RenderDec(d)) == Some(d)
  {
    var f := d.magnitude;
    var a, b, c := ZeroPad2(f.units), ZeroPad2(f.minutes), ZeroPad2(f.seconds);
    TwoDigitField(f.units);
    TwoDigitField(f.minutes);
    TwoDigitField(f.seconds);
    var s := RenderDec(d);
    assert s[1..3] == a && s[3..5] == "\U{00B0} ";
    assert s[5..7] == b && s[7..9] == "' ";
    assert s[9..11] == c;
  }

  /** Every declination text is the rendering of the sign and fields it reads as. */
  lemma RenderParseDec(s: string)
    requires IsDecFrame(s)
    ensures RenderDec(ParseDec(s).value) == s
  {
    ZeroPad2OfTwoDigits(s[1..3]);
    ZeroPad2OfTwoDigits(s[5..7]);
    ZeroPad2OfTwoDigits(s[9..11]);
    assert s == [s[0]] + s[1..3] + s[3..5] + s[5..7] + s[7..9] + s[9..11] + [s[11]];
  }

  /**
   * A declination in (-100, 100), and so every one in [-90, 90], renders as
   * `±DD° DD' DD"` and reads back as its sign and the truncated fields of
   * its absolute value.
   */
  lemma FormatDecRoundTrip(dec: real)
    requires -100.0 < dec < 100.0
    ensures IsDecFrame(FormatDec(dec))
    ensures ParseDec(FormatDec(dec)) == Some(DecReading(dec < 0.0, ToSexagesimal(Abs(dec))))
  {
    ParseRenderDec(DecReading(dec < 0.0, ToSexagesimal(Abs(dec))));
  }

  /**
   * The fields depend on `abs(dec)` only: a positive declination and its
   * negation render alike except for the sign character.
   */
  lemma DecMirror(dec: real)
    requires dec > 0.0
    ensures FormatDec(dec)[0] == '+' && FormatDec(-dec)[0] == '-'
    ensures |FormatDec(dec)| == |FormatDec(-dec)|
    ensures FormatDec(-dec)[1..] == FormatDec(dec)[1..]
  {
    assert Abs(-dec) == Abs(dec);
  }

  /** A tiny negative declination keeps its sign although every field is zero; zero renders with `+`. */
  lemma SignExamples()
    ensures FormatDec(-0.0001) == "-00\U{00B0} 00' 00\""
    ensures FormatDec(0.0) == "+00\U{00B0} 00' 00\""
  {
    assert ToSexagesimal(Abs(-0.0001)) == Sexagesimal(0, 0, 0);
    assert ToSexagesimal(Abs(0.0)) == Sexagesimal(0, 0, 0);
  }

  // ---------------------------------------------------------------------------
  // format_ra_dec and the message frame
  // ---------------------------------------------------------------------------

  /** format_ra_dec: the pair (`ra_str`, `dec_str`). */
  function FormatRaDec(ra: real, dec: real): (r: (string, string))
    ensures 0.0 <= ra < 24.0 ==> IsRaFrame(r.0)
    ensures -90.0 <= dec <= 90.0 ==> IsDecFrame(r.1)
  {
    RaFrameInRange(ra);
    DecFrameInRange(dec);
    (FormatRa(ra), FormatDec(dec))
  }

  lemma RaFrameInRange(ra: real)
    ensures 0.0 <= ra < 24.0 ==> IsRaFrame(FormatRa(ra))
  {
    if 0.0 <= ra < 24.0 {
      FormatRaRoundTrip(ra);
    }
  }

  lemma DecFrameInRange(dec: real)
    ensures -90.0 <= dec <= 90.0 ==> IsDecFrame(FormatDec(dec))
  {
    if -90.0 <= dec <= 90.0 {
      FormatDecRoundTrip(dec);
    }
  }

  /** The text frame of main.py:42, `RA: <ra_str>, DEC: <dec_str>`. */
  function Message(raStr: string, decStr: string): (m: string)
    ensures |m| == |raStr| + |decStr| + 11
    ensures m[..4] == "RA: " && m[4..4 + |raStr|] == raStr
    ensures m[4 + |raStr|..11 + |raStr|] == ", DEC: " && m[11 + |raStr|..] == decStr
  {
    "RA: " + raStr + ", DEC: " + decStr
  }

  /** The frame one tick of a connection's loop sends for a computed position (main.py:40-42). */
  function MoonMessage(ra: real, dec: real): (m: string)
    ensures 0.0 <= ra < 24.0 && -90.0 <= dec <= 90.0 ==> IsWireFrame(m)
  {
    var strs := FormatRaDec(ra, dec);
    Message(strs.0, strs.1)
  }

  /**
   * The wire frame `^RA: \d{2}:\d{2}:\d{2}, DEC: [+-]\d{2}° \d{2}' \d{2}"$`:
   * 31 characters with both coordinate texts at fixed positions.
   */
  predicate IsWireFrame(m: string) {
    && |m| == 31
    && m[..4] == "RA: " && IsRaFrame(m[4..12])
    && m[12..19] == ", DEC: " && IsDecFrame(m[19..])
  }

  /** Both coordinates read from one frame. */
  datatype Reading = Reading(ra: Sexagesimal, dec: DecReading)

  /** Reads a wire frame back into its right-ascension and declination fields. */
  function ParseMessage(m: string): (r: Option<Reading>)
    ensures r.Some? <==> IsWireFrame(m)
    ensures r.Some? ==> FieldsFit(r.value.ra) && FieldsFit(r.value.dec.magnitude)
  {
    if IsWireFrame(m) then
      Some(Reading(ParseRa(m[4..12]).value, ParseDec(m[19..]).value))
    else
      None
  }

  /** The frame that carries a reading. */
  function RenderMessage(r: Reading): string {
    Message(RenderRa(r.ra), RenderDec(r.dec))
  }

  /**
   * For a position in range (0 <= ra < 24, -90 <= dec <= 90) the frame is
   * 31 characters, holds `ra_str` at indices 4..12 and `dec_str` at 19..31,
   * matches the wire pattern, and reads back as the truncated fields and
   * the sign of the declination.
   */
  lemma MessageRoundTrip(ra: real, dec: real)
    requires 0.0 <= ra < 24.0 && -90.0 <= dec <= 90.0
    ensures |MoonMessage(ra, dec)| == 31
    ensures MoonMessage(ra, dec)[4..12] == FormatRa(ra)
    ensures MoonMessage(ra, dec)[19..] == FormatDec(dec)
    ensures IsWireFrame(MoonMessage(ra, dec))
    ensures ParseMessage(MoonMessage(ra, dec))
      == Some(Reading(ToSexagesimal(ra), DecReading(dec < 0.0, ToSexagesimal(Abs(dec)))))
  {
    FormatRaRoundTrip(ra);
    FormatDecRoundTrip(dec);
  }

  /** Every wire frame is the rendering of the reading parsed from it. */
  lemma RenderParseMessage(m: string)
    requires IsWireFrame(m)
    ensures RenderMessage(ParseMessage(m).value) == m
  {
    RenderParseRa(m[4..12]);
    RenderParseDec(m[19..]);
    assert m == m[..4] + m[4..12] + m[12..19] + m[19..];
  }

  /** Rendering a reading whose fields fit gives a wire frame that reads back as the same reading. */
  lemma ParseRenderMessage(r: Reading)
    requires FieldsFit(r.ra) && FieldsFit(r.dec.magnitude)
    ensures IsWireFrame(RenderMessage(r))
    ensures ParseMessage(RenderMessage(r)) == Some(r)
  {
    ParseRenderRa(r.ra);
    ParseRenderDec(r.dec);
  }

  /** The example frame of the wire format reads as 14h 32m 07s and -3° 21' 45". */
  lemma WireFrameExample()
    ensures ParseMessage("RA: 14:32:07, DEC: -03\U{00B0} 21' 45\"")
      == Some(Reading(Sexagesimal(14, 32, 7), DecReading(true, Sexagesimal(3, 21, 45))))
  {
    var r := Reading(Sexagesimal(14, 32, 7), DecReading(true, Sexagesimal(3, 21, 45)));
    ExampleRa();
    ExampleDec();
    assert RenderMessage(r) == "RA: 14:32:07, DEC: -03\U{00B0} 21' 45\"";
    ParseRenderMessage(r);
  }

  lemma ExampleRa()
    ensures RenderRa(Sexagesimal(14, 32, 7)) == "14:32:07"
  {
    assert ZeroPad2(14) == Digits(1) + [DigitChar(4)] == "14";
    assert ZeroPad2(32) == Digits(3) + [DigitChar(2)] == "32";
  }

  lemma ExampleDec()
    ensures RenderDec(DecReading(true, Sexagesimal(3, 21, 45))) == "-03\U{00B0} 21' 45\""
  {
    assert ZeroPad2(21) == Digits(2) + [DigitChar(1)] == "21";
    assert ZeroPad2(45) == Digits(4) + [DigitChar(5)] == "45";
  }
}
