/**
 * The two converters of utils/time.ts between a subtitle timestamp
 * (`HH:MM:SS`, with an optional fraction after `.` or `,`) and a number of
 * seconds, and what they promise about each other.
 */
module Time {
  import opened Wrappers
  import opened JsNumber
  import opened JsString

  /** The three whole numbers `formatTime` prints: hours, minutes and seconds. */
  datatype Fields = Fields(hours: int, minutes: int, secondsPart: int)

  /**
   * How `formatTime` splits a number of seconds: hours with `Math.floor` of
   * a division, minutes and seconds with `Math.floor` of JavaScript's `%`.
   */
  function Decompose(seconds: real): (f: Fields)
    ensures 0.0 <= seconds ==> 0 <= f.hours && 0 <= f.minutes < 60 && 0 <= f.secondsPart < 60
    ensures seconds < 0.0 ==> f.hours < 0
  {
    Fields(Floor(seconds / 3600.0), Floor(Remainder(seconds, 3600.0) / 60.0), Floor(Remainder(seconds, 60.0)))
  }

  /**
   * For a non-negative input the fields are those of its whole part, by
   * integer division: the fraction of a second is dropped, never rounded.
   */
  lemma DecomposeTruncates(seconds: real)
    requires 0.0 <= seconds
    ensures var n := Floor(seconds);
      Decompose(seconds) == Fields(n / 3600, n % 3600 / 60, n % 60)
  {
    var n := Floor(seconds);
    var q, r := n / 3600, n % 3600;
    assert n == 3600 * q + r;
    FloorIs(seconds / 3600.0, q);
    assert Remainder(seconds, 3600.0) == seconds - 3600.0 * q as real;
    FloorIs(Remainder(seconds, 3600.0) / 60.0, r / 60);
    var q60 := n / 60;
    assert n == 60 * q60 + n % 60;
    FloorIs(seconds / 60.0, q60);
    assert Remainder(seconds, 60.0) == seconds - 60.0 * q60 as real;
    FloorIs(Remainder(seconds, 60.0), n % 60);
  }

  /** Putting the fields back together gives the whole part of the input. */
  lemma DecomposeRecombines(seconds: real)
    requires 0.0 <= seconds
    ensures var f := Decompose(seconds);
      f.hours * 3600 + f.minutes * 60 + f.secondsPart == Floor(seconds)
  {
    DecomposeTruncates(seconds);
    var n := Floor(seconds);
    var q, r := n / 3600, n % 3600;
    var a, b := r / 60, r % 60;
    assert n == 60 * (60 * q + a) + b;
    DivModUnique(n, 60, 60 * q + a, b);
  }

  /** Division with a non-negative remainder below the divisor has exactly one answer. */
  lemma DivModUnique(n: int, d: int, k: int, b: int)
    requires 0 < d && n == d * k + b && 0 <= b < d
    ensures n / d == k && n % d == b
  {
    var x := k - n / d;
    assert d * x == n % d - b;
  }

  /** Hours, minutes under 60 and seconds under 60 are the fields of exactly one whole number of seconds. */
  lemma DecomposeOfFields(h: nat, m: nat, s: nat)
    requires m < 60 && s < 60
    ensures Decompose((h * 3600 + m * 60 + s) as real) == Fields(h, m, s)
  {
    var n := h * 3600 + m * 60 + s;
    FloorIs(n as real, n);
    DecomposeTruncates(n as real);
    DivideFields(h, m, s);
  }

  lemma DivideFields(h: nat, m: nat, s: nat)
    requires m < 60 && s < 60
    ensures var n := h * 3600 + m * 60 + s;
      n / 3600 == h && n % 3600 / 60 == m && n % 60 == s
  {
  }

  /** One field of the output: `v.toString().padStart(2, '0')`. */
  function Field(v: int): (r: string)
    ensures 2 <= |r|
  {
    PadStart(IntToString(v), 2, '0')
  }

  /** A field is all digits exactly when its value is not negative; otherwise the minus sign shows. */
  lemma FieldDigits(v: int)
    ensures 0 <= v <==> AllDigits(Field(v))
  {
    var digits := IntToString(v);
    var r := Field(v);
    PadStartShape(digits, 2, '0');
    IntToStringSign(v);
    assert r == r[..|r| - |digits|] + digits;
    if v < 0 {
      assert r[|r| - |digits|] == '-';
    }
  }

  /**
   * Padding only adds leading zeros: a value under ten gets one, any other
   * keeps all its digits, and the digits still read as the value.
   */
  lemma FieldPadding(v: nat)
    ensures v < 10 ==> Field(v) == ['0', DigitChar(v)]
    ensures 10 <= v ==> Field(v) == NatToString(v)
    ensures |Field(v)| == if v < 10 then 2 else |NatToString(v)|
    ensures 100 <= v ==> 3 <= |Field(v)|
    ensures AllDigits(Field(v)) && ParseNat(Field(v)) == v
  {
    var digits := NatToString(v);
    assert Field(v) == PadStart(digits, 2, '0');
    ParseNatToString(v);
    NatToStringLength(v, 1);
    if v < 10 {
      assert digits == [DigitChar(v)];
      assert PadStart(digits, 2, '0') == PadStart(['0'] + digits, 2, '0') == ['0'] + digits;
      ParseNatLeadingZeros(['0'], digits);
    } else {
      NatToStringLength(v, 2);
    }
  }

  /** The template string: the three fields joined with `:`. */
  function Render(f: Fields): (r: string)
    ensures 8 <= |r|
  {
    Field(f.hours) + ":" + Field(f.minutes) + ":" + Field(f.secondsPart)
  }

  /** `formatTime`: the decomposed input, rendered. */
  function FormatTime(seconds: real): (r: string)
    ensures 8 <= |r|
  {
    Render(Decompose(seconds))
  }

  /**
   * A formatted non-negative time holds exactly two `:`, and splitting it on
   * them gives back the three padded, all-digit fields of its decomposition.
   */
  lemma FormatTimeShape(seconds: real)
    requires 0.0 <= seconds
    ensures multiset(FormatTime(seconds))[':'] == 2
    ensures var f := Decompose(seconds);
      Split(FormatTime(seconds), ':') == [Field(f.hours), Field(f.minutes), Field(f.secondsPart)]
    ensures var f := Decompose(seconds);
      AllDigits(Field(f.hours)) && AllDigits(Field(f.minutes)) && AllDigits(Field(f.secondsPart))
  {
    var f := Decompose(seconds);
    FieldDigits(f.hours);
    FieldDigits(f.minutes);
    FieldDigits(f.secondsPart);
    DigitFieldsJoined(Field(f.hours), Field(f.minutes), Field(f.secondsPart));
  }

  /** Three digit strings joined with `:` hold two colons and split back into themselves. */
  lemma DigitFieldsJoined(h: string, m: string, s: string)
    requires AllDigits(h) && AllDigits(m) && AllDigits(s)
    ensures multiset(h + ":" + m + ":" + s)[':'] == 2
    ensures Split(h + ":" + m + ":" + s, ':') == [h, m, s]
  {
    NoColonInDigits(h);
    NoColonInDigits(m);
    NoColonInDigits(s);
    SplitThree(h, m, s);
    ColonsBetween(h, m, s);
  }

  lemma ColonsBetween(h: string, m: string, s: string)
    requires ':' !in h && ':' !in m && ':' !in s
    ensures multiset(h + ":" + m + ":" + s)[':'] == 2
  {
    assert multiset(h + ":" + m + ":" + s) == multiset(h) + multiset(":") + multiset(m) + multiset(":") + multiset(s);
    assert multiset(h)[':'] == 0 && multiset(m)[':'] == 0 && multiset(s)[':'] == 0;
  }

  lemma JoinThree(a: string, b: string, c: string, sep: char)
    ensures Join([a, b, c], sep) == a + [sep] + b + [sep] + c
  {
    var parts := [a, b, c];
    assert parts[1..] == [b, c];
    assert [b, c][1..] == [c];
    assert Join([b, c], sep) == b + [sep] + c;
    assert a + [sep] + (b + [sep] + c) == a + [sep] + b + [sep] + c;
  }

  lemma NoColonInDigits(s: string)
    requires AllDigits(s)
    ensures ':' !in s && multiset(s)[':'] == 0
  {
  }

  /** The fraction of a second never shows: a non-negative time formats as its whole part does. */
  lemma FormatTimeTruncates(seconds: real)
    requires 0.0 <= seconds
    ensures FormatTime(seconds) == FormatTime(Floor(seconds) as real)
  {
    DecomposeTruncates(seconds);
    DecomposeTruncates(Floor(seconds) as real);
    FloorIs(Floor(seconds) as real, Floor(seconds));
  }

  /** A negative input is not guarded against: the hours come out negative and the text starts with a minus sign. */
  lemma FormatTimeNegative(seconds: real)
    requires seconds < 0.0
    ensures FormatTime(seconds)[0] == '-'
  {
    var h := Decompose(seconds).hours;
    IntToStringSign(h);
    NegativeFieldUnpadded(h);
  }

  /** The string of a negative value is already two characters long, so padding leaves it alone. */
  lemma NegativeFieldUnpadded(v: int)
    requires v < 0
    ensures Field(v) == IntToString(v) && |Field(v)| == 1 + |NatToString(-v)|
  {
  }

  /**
   * Truncation needs a non-negative input: with JavaScript's `%` keeping the
   * sign of the dividend, -3599.5 formats as `-1:-60:-60` while its floor,
   * -3600, formats as `-1:00:00`.
   */
  lemma NegativeTruncationDiffers()
    ensures Floor(-3599.5) == -3600
    ensures Decompose(-3599.5) == Fields(-1, -60, -60)
    ensures Decompose(-3600.0) == Fields(-1, 0, 0)
    ensures FormatTime(-3599.5) != FormatTime(Floor(-3599.5) as real)
  {
    FloorIs(-3599.5, -3600);
    FloorIs(-3599.5 / 3600.0, -1);
    FloorIs(3599.5 / 3600.0, 0);
    FloorIs(-3599.5 / 60.0, -60);
    FloorIs(3599.5 / 60.0, 59);
    FloorIs(-59.5, -60);
    FloorIs(-3600.0 / 3600.0, -1);
    FloorIs(3600.0 / 3600.0, 1);
    FloorIs(0.0, 0);
    FloorIs(3600.0 / 60.0, 60);
    FloorIs(-3600.0 / 60.0, -60);
    NegativeFieldUnpadded(-1);
    NegativeFieldUnpadded(-60);
    NatToStringLength(60, 1);
    RenderLengths(Fields(-1, -60, -60), Fields(-1, 0, 0));
  }

  lemma RenderLengths(f: Fields, g: Fields)
    requires |Field(f.hours)| + |Field(f.minutes)| + |Field(f.secondsPart)|
      != |Field(g.hours)| + |Field(g.minutes)| + |Field(g.secondsPart)|
    ensures Render(f) != Render(g)
  {
  }

  /**
   * `toSeconds`: the first `,` becomes `.`, the string is split on `:`, the
   * first three parts are read with `parseFloat` and weighted by 3600, 60 and 1.
   * `None` stands for the results the model does not give a number to: fewer
   * than three parts (`NaN` in the source) or a part that is not a plain
   * unsigned decimal.
   */
  function ToSeconds(timeString: string): (r: Option<real>)
    ensures r.Some? ==> 0.0 <= r.value
  {
    var parts := Split(ReplaceFirst(timeString, ',', '.'), ':');
    if |parts| < 3 then None else Weigh(ParseDecimal(parts[0]), ParseDecimal(parts[1]), ParseDecimal(parts[2]))
  }

  /** `h * 3600 + m * 60 + s` on the three values read, when all three are numbers. */
  function Weigh(h: Option<real>, m: Option<real>, s: Option<real>): (r: Option<real>)
    ensures r.Some? <==> h.Some? && m.Some? && s.Some?
    ensures r.Some? && 0.0 <= h.value && 0.0 <= m.value && 0.0 <= s.value ==> 0.0 <= r.value
  {
    if h.Some? && m.Some? && s.Some? then Some(h.value * 3600.0 + m.value * 60.0 + s.value) else None
  }

  /**
   * A timestamp made of three colon-free, comma-free fields joined with `:`,
   * each a decimal, reads as hours times 3600 plus minutes times 60 plus seconds.
   */
  lemma ToSecondsOfFields(t: string, h: string, m: string, s: string, hv: real, mv: real, sv: real, total: real)
    requires t == h + ":" + m + ":" + s
    requires ':' !in h && ':' !in m && ':' !in s
    requires ',' !in h && ',' !in m && ',' !in s
    requires ParseDecimal(h) == Some(hv) && ParseDecimal(m) == Some(mv) && ParseDecimal(s) == Some(sv)
    requires total == hv * 3600.0 + mv * 60.0 + sv
    ensures ToSeconds(t) == Some(total)
  {
    JoinedFields(h, m, s);
    ToSecondsOfParts(t, h, m, s, hv, mv, sv, total);
  }

  /**
   * A timestamp of digit fields whose seconds carry a decimal fraction after
   * `.` reads as hours times 3600 plus minutes times 60 plus the seconds and
   * their fraction. The whole seconds may be left out, as in `00:00:.5`.
   */
  lemma ToSecondsOfDecimal(t: string, h: string, m: string, w: string, f: string,
                           hv: real, mv: real, sv: real, total: real)
    requires t == h + ":" + m + ":" + (w + "." + f)
    requires AllDigits(h) && AllDigits(m) && AllDigits(w) && AllDigits(f) && h != [] && m != [] && (w != [] || f != [])
    requires hv == ParseNat(h) as real && mv == ParseNat(m) as real && sv == ParseNat(w) as real + Fraction(f)
    requires total == hv * 3600.0 + mv * 60.0 + sv
    ensures ToSeconds(t) == Some(total)
  {
    DigitFieldReads(h, hv);
    DigitFieldReads(m, mv);
    DecimalFieldReads(w, f, sv);
    ToSecondsOfFields(t, h, m, w + "." + f, hv, mv, sv, total);
  }

  /** A field of digits holds neither `:` nor `,`, and reads as its value. */
  lemma DigitFieldReads(d: string, v: real)
    requires AllDigits(d) && d != [] && v == ParseNat(d) as real
    ensures ':' !in d && ',' !in d
    ensures ParseDecimal(d) == Some(v)
  {
    ParseDecimalOfDigits(d);
    NoColonInDigits(d);
    NoCommaInDigits(d);
  }

  /** Seconds with a fraction hold neither `:` nor `,`, and read as the whole seconds plus the fraction. */
  lemma DecimalFieldReads(w: string, f: string, v: real)
    requires AllDigits(w) && AllDigits(f) && (w != [] || f != []) && v == ParseNat(w) as real + Fraction(f)
    ensures ':' !in w + "." + f && ',' !in w + "." + f
    ensures ParseDecimal(w + "." + f) == Some(v)
  {
    NoColonInDigits(w);
    NoColonInDigits(f);
    NoCommaInDigits(w);
    NoCommaInDigits(f);
    DecimalReads(w, f, v);
  }

  /** Joining colon- and comma-free fields with `:` leaves nothing to replace and splits back. */
  lemma JoinedFields(h: string, m: string, s: string)
    requires ':' !in h && ':' !in m && ':' !in s
    requires ',' !in h && ',' !in m && ',' !in s
    ensures ReplaceFirst(h + ":" + m + ":" + s, ',', '.') == h + ":" + m + ":" + s
    ensures Split(h + ":" + m + ":" + s, ':') == [h, m, s]
  {
    var t := h + ":" + m + ":" + s;
    assert ',' !in t;
    ReplaceFirstAbsent(t, ',', '.');
    SplitThree(h, m, s);
  }

  lemma ToSecondsOfParts(t: string, h: string, m: string, s: string, hv: real, mv: real, sv: real, total: real)
    requires ReplaceFirst(t, ',', '.') == t && Split(t, ':') == [h, m, s]
    requires ParseDecimal(h) == Some(hv) && ParseDecimal(m) == Some(mv) && ParseDecimal(s) == Some(sv)
    requires hv * 3600.0 + mv * 60.0 + sv == total
    ensures ToSeconds(t) == Some(total)
  {
    assert ToSeconds(t).Some? && ToSeconds(t).value == total;
  }

  lemma SplitThree(h: string, m: string, s: string)
    requires ':' !in h && ':' !in m && ':' !in s
    ensures Split(h + ":" + m + ":" + s, ':') == [h, m, s]
  {
    JoinThree(h, m, s, ':');
    SplitJoin([h, m, s], ':');
  }

  /** With no `:` at all, or only one, there are fewer than three fields and no number. */
  lemma ToSecondsNeedsThreeFields(timeString: string)
    requires multiset(timeString)[':'] < 2
    ensures ToSeconds(timeString) == None
  {
    var t := ReplaceFirst(timeString, ',', '.');
    ReplaceFirstKeeps(timeString, ',', '.', ':');
    SplitCount(t, ':');
  }

  /**
   * The SubRip decimal comma: when the only `,` is the decimal marker, it
   * reads exactly as a `.` would.
   */
  lemma CommaAsDecimalPoint(before: string, after: string)
    requires ',' !in before && ',' !in after
    ensures ToSeconds(before + "," + after) == ToSeconds(before + "." + after)
  {
    var c, d := before + "," + after, before + "." + after;
    assert ReplaceFirst(d, ',', '.') == d by {
      assert ',' !in d;
      ReplaceFirstAbsent(d, ',', '.');
    }
    assert ReplaceFirst(c, ',', '.') == d by {
      ReplaceFirstAt(before, after, ',', '.');
    }
    SameReplaced(c, d);
  }

  /** `toSeconds` sees its input only after the decimal comma is replaced. */
  lemma SameReplaced(c: string, d: string)
    requires ReplaceFirst(c, ',', '.') == ReplaceFirst(d, ',', '.')
    ensures ToSeconds(c) == ToSeconds(d)
  {
  }

  /** Reading back a formatted non-negative time gives its whole number of seconds. */
  lemma ToSecondsOfFormatTime(seconds: real)
    requires 0.0 <= seconds
    ensures ToSeconds(FormatTime(seconds)) == Some(Floor(seconds) as real)
  {
    DecomposeRecombines(seconds);
    ToSecondsOfRender(Decompose(seconds), Floor(seconds));
  }

  /** Rendered non-negative fields read back as their weighted sum. */
  lemma ToSecondsOfRender(f: Fields, n: int)
    requires 0 <= f.hours && 0 <= f.minutes && 0 <= f.secondsPart
    requires f.hours * 3600 + f.minutes * 60 + f.secondsPart == n
    ensures ToSeconds(Render(f)) == Some(n as real)
  {
    RenderSplits(f);
    WeighAsReal(f.hours, f.minutes, f.secondsPart, n);
    var total := n as real;
    ToSecondsOfParts(Render(f), Field(f.hours), Field(f.minutes), Field(f.secondsPart),
      f.hours as real, f.minutes as real, f.secondsPart as real, total);
  }

  lemma WeighAsReal(h: int, m: int, s: int, n: int)
    requires h * 3600 + m * 60 + s == n
    ensures h as real * 3600.0 + m as real * 60.0 + s as real == n as real
  {
  }

  /** A rendering has no `,` to replace, splits back into its three fields, and each reads as its value. */
  lemma RenderSplits(f: Fields)
    requires 0 <= f.hours && 0 <= f.minutes && 0 <= f.secondsPart
    ensures ReplaceFirst(Render(f), ',', '.') == Render(f)
    ensures Split(Render(f), ':') == [Field(f.hours), Field(f.minutes), Field(f.secondsPart)]
    ensures ParseDecimal(Field(f.hours)) == Some(f.hours as real)
    ensures ParseDecimal(Field(f.minutes)) == Some(f.minutes as real)
    ensures ParseDecimal(Field(f.secondsPart)) == Some(f.secondsPart as real)
  {
    var h, m, s := Field(f.hours), Field(f.minutes), Field(f.secondsPart);
    FieldReadsBack(f.hours);
    FieldReadsBack(f.minutes);
    FieldReadsBack(f.secondsPart);
    assert ',' !in Render(f);
    ReplaceFirstAbsent(Render(f), ',', '.');
    SplitThree(h, m, s);
  }

  /** A padded field is free of `:` and `,`, and `parseFloat` reads it as the value padded. */
  lemma FieldReadsBack(v: nat)
    ensures ':' !in Field(v) && ',' !in Field(v)
    ensures ParseDecimal(Field(v)) == Some(v as real)
  {
    FieldDigits(v);
    NoColonInDigits(Field(v));
    NoCommaInDigits(Field(v));
    FieldPadding(v);
    ParseDecimalOfDigits(Field(v));
  }

  lemma NoCommaInDigits(s: string)
    requires AllDigits(s)
    ensures ',' !in s
  {
  }

  /** The round trip: every whole number of seconds survives formatting and reading back, however many hours. */
  lemma RoundTrip(n: nat)
    ensures ToSeconds(FormatTime(n as real)) == Some(n as real)
  {
    ToSecondsOfFormatTime(n as real);
    FloorIs(n as real, n);
  }

  /**
   * The other round trip: a timestamp written the way `formatTime` writes
   * one (minutes and seconds under 60) reads as its number of seconds, and
   * formatting that number gives back the same timestamp.
   */
  lemma FormatTimeOfToSeconds(h: nat, m: nat, s: nat)
    requires m < 60 && s < 60
    ensures var t := Render(Fields(h, m, s));
      ToSeconds(t).Some? && ToSeconds(t).value == (h * 3600 + m * 60 + s) as real
      && FormatTime(ToSeconds(t).value) == t
  {
    var n := h * 3600 + m * 60 + s;
    ToSecondsOfRender(Fields(h, m, s), n);
    FormatTimeOfFields(n as real, h, m, s);
  }

  /** Examples of `formatTime`, among them a fraction dropped and an hour field of three digits. */
  lemma FormatTimeExamples()
    ensures FormatTime(0.0) == "00:00:00"
    ensures FormatTime(3661.0) == "01:01:01"
    ensures FormatTime(59.9) == "00:00:59"
    ensures FormatTime(360000.0) == "100:00:00"
  {
    FormatTimeZero();
    FormatTimeHourMinuteSecond();
    FormatTimeDropsFraction();
    FormatTimeHundredHours();
  }

  /** Whole seconds given as hours, minutes and seconds format as those three fields. */
  lemma FormatTimeOfFields(x: real, h: nat, m: nat, s: nat)
    requires m < 60 && s < 60 && x == (h * 3600 + m * 60 + s) as real
    ensures FormatTime(x) == Render(Fields(h, m, s))
  {
    DecomposeOfFields(h, m, s);
  }

  lemma FormatTimeZero()
    ensures FormatTime(0.0) == "00:00:00"
  {
    FormatTimeOfFields(0.0, 0, 0, 0);
    FieldPadding(0);
  }

  lemma FormatTimeHourMinuteSecond()
    ensures FormatTime(3661.0) == "01:01:01"
  {
    FormatTimeOfFields(3661.0, 1, 1, 1);
    FieldPadding(1);
  }

  lemma FormatTimeDropsFraction()
    ensures FormatTime(59.9) == "00:00:59"
  {
    FormatTimeTruncates(59.9);
    FloorIs(59.9, 59);
    FormatTimeOfFields(59.0, 0, 0, 59);
    FieldPadding(0);
    FieldPadding(59);
    assert NatToString(59) == "59";
  }

  lemma FormatTimeHundredHours()
    ensures FormatTime(360000.0) == "100:00:00"
  {
    FormatTimeOfFields(360000.0, 100, 0, 0);
    FieldPadding(0);
    FieldPadding(100);
    assert NatToString(100) == "100";
  }

  /** Examples of `toSeconds`, with a fraction after `.` and after `,`, and one with no whole seconds. */
  lemma ToSecondsExamples()
    ensures ToSeconds("00:00:00") == Some(0.0)
    ensures ToSeconds("01:00:00") == Some(3600.0)
    ensures ToSeconds("00:01:30.250") == Some(90.25)
    ensures ToSeconds("01:02:03,500") == ToSeconds("01:02:03.500") == Some(3723.5)
    ensures ToSeconds("00:00:.5") == Some(0.5)
  {
    ToSecondsZero();
    ToSecondsOneHour();
    ToSecondsMillis();
    ToSecondsDecimalComma();
    ToSecondsBareFraction();
  }

  lemma ToSecondsBareFraction()
    ensures ToSeconds("00:00:.5") == Some(0.5)
  {
    ToSecondsOfDecimal("00:00:.5", "00", "00", "", "5", 0.0, 0.0, 0.5, 0.5);
  }

  lemma ToSecondsZero()
    ensures ToSeconds("00:00:00") == Some(0.0)
  {
    ToSecondsOfFields("00:00:00", "00", "00", "00", 0.0, 0.0, 0.0, 0.0);
  }

  lemma ToSecondsOneHour()
    ensures ToSeconds("01:00:00") == Some(3600.0)
  {
    ToSecondsOfFields("01:00:00", "01", "00", "00", 1.0, 0.0, 0.0, 3600.0);
  }

  lemma ToSecondsMillis()
    ensures ToSeconds("00:01:30.250") == Some(90.25)
  {
    ToSecondsOfDecimal("00:01:30.250", "00", "01", "30", "250", 0.0, 1.0, 30.25, 90.25);
  }

  lemma ToSecondsDecimalComma()
    ensures ToSeconds("01:02:03,500") == ToSeconds("01:02:03.500") == Some(3723.5)
  {
    CommaSpelling("01:02:03,500", "01:02:03.500", "01:02:03", "500");
    ToSecondsDecimalPoint();
  }

  /** `CommaAsDecimalPoint` for two timestamps given whole. */
  lemma CommaSpelling(c: string, d: string, before: string, after: string)
    requires ',' !in before && ',' !in after
    requires c == before + "," + after && d == before + "." + after
    ensures ToSeconds(c) == ToSeconds(d)
  {
    CommaAsDecimalPoint(before, after);
  }

  lemma ToSecondsDecimalPoint()
    ensures ToSeconds("01:02:03.500") == Some(3723.5)
  {
    ToSecondsOfDecimal("01:02:03.500", "01", "02", "03", "500", 1.0, 2.0, 3.5, 3723.5);
  }
}
