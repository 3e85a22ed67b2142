/** The text of a point in time: how the database renders a stored timestamp, how the application writes an
    aware one, and which texts either can produce. */
module Timestamp {
  import opened Wrappers
  import opened Calendar
  import opened Decimal
  import Json
  import Text

  // ---------------------------------------------------------------- the column

  /** A timestamp column holds the instants from Julian day 0 up to, and not including, the year 294277. */
  const LAST_YEAR: int := 294276

  const FIRST: Civil := Civil(-4713, 11, 24, 0, 0, 0, 0)
  const END: Civil := Civil(LAST_YEAR + 1, 1, 1, 0, 0, 0, 0)

  predicate InColumn(i: int)
  {
    InstantOf(FIRST) <= i < InstantOf(END)
  }

  /** A column counts microseconds from the start of 2000, from the first Julian day on, in 64 bits. */
  lemma ColumnExactly(i: int)
    ensures var n := i - InstantOf(Civil(2000, 1, 1, 0, 0, 0, 0));
            InColumn(i) <==> -211_813_488_000_000_000 <= n < 9_223_371_331_200_000_000
    ensures 9_223_371_331_200_000_000 + YearLength(LAST_YEAR + 1) * 86_400_000_000 > 0x8000_0000_0000_0000
  {
    MonthStarts(2000);
    MonthStarts(-4713);
    MonthStarts(LAST_YEAR + 1);
  }

  // ---------------------------------------------------------------- the database's rendering

  /** `to_char` without an era: a year BC is shown like the year AD of the same number. */
  function ShownYear(y: int): nat
  {
    if y <= 0 then 1 - y else y
  }

  /** At least four digits. */
  function YearWidth(y: nat): (w: nat)
    ensures w >= 4
  {
    if y < 10000 then 4 else 1 + YearWidth(y / 10)
  }

  function Assembled(y: string, mo: string, d: string, h: string, mi: string, s: string, fraction: string): string
  {
    y + ("-" + mo + "-" + d + "T" + h + ":" + mi + ":" + s) + fraction + "+00:00"
  }

  /** `YYYY-MM-DD"T"HH24:MI:SS`, microseconds unless they are zero, and the offset of UTC. */
  function Rendered(i: int): string
  {
    var c := CivilOf(i);
    var y := ShownYear(c.year);
    var fraction := if (c.second * 1000000 + c.micro) % 1000000 == 0 then "" else "." + Digits(c.micro, 6);
    Assembled(Digits(y, YearWidth(y)), Digits(c.month, 2), Digits(c.day, 2), Digits(c.hour, 2), Digits(c.minute, 2),
              Digits(c.second, 2), fraction)
  }

  // ---------------------------------------------------------------- the texts

  function Number(s: string): nat
  {
    Json.DigitsValue(s)
  }

  /** Positions of a text whose year has `n` characters and whose fraction has `f`. */
  predicate Laid(s: string, n: nat, f: nat)
  {
    && |s| == n + 21 + f && s[n] == '-' && s[n + 3] == '-' && s[n + 6] == 'T' && s[n + 9] == ':' && s[n + 12] == ':'
    && s[n + 15 + f..] == "+00:00" && (f > 0 ==> s[n + 15] == '.')
    && Json.Digits(s[..n]) && Json.Digits(s[n + 1..n + 3]) && Json.Digits(s[n + 4..n + 6])
    && Json.Digits(s[n + 7..n + 9]) && Json.Digits(s[n + 10..n + 12]) && Json.Digits(s[n + 13..n + 15])
    && (f > 0 ==> Json.Digits(s[n + 16..n + 15 + f]))
  }

  /** A date of either era: besides the dates AD, the leap days BC. */
  predicate DateShown(y: nat, m: nat, d: nat)
  {
    && 1 <= y && 1 <= m <= 12 && 1 <= d
    && ((y <= LAST_YEAR && d <= DaysInMonth(y, m)) || (y <= 4713 && m == 2 && d == 29 && Leap(1 - y)))
  }

  predicate YearDigits(s: string)
  {
    |s| >= 4 && (|s| > 4 ==> s[0] != '0')
  }

  function FractionLength(s: string): nat
  {
    if '.' in s then 7 else 0
  }

  /** What a text must look like to be some stored timestamp's. */
  predicate TimestampText(s: string)
  {
    var f := FractionLength(s);
    && |s| >= 25 + f
    && var n := |s| - 21 - f;
    && Laid(s, n, f) && YearDigits(s[..n])
    && DateShown(Number(s[..n]), Number(s[n + 1..n + 3]), Number(s[n + 4..n + 6]))
    && Number(s[n + 7..n + 9]) < 24 && Number(s[n + 10..n + 12]) < 60 && Number(s[n + 13..n + 15]) < 60
    && (f > 0 ==> Number(s[n + 16..n + 22]) > 0)
  }

  // ---------------------------------------------------------------- digits

  lemma {:induction false} NumberOfDigits(n: nat, width: nat)
    requires n < Pow10(width)
    ensures Json.Digits(Digits(n, width)) && Number(Digits(n, width)) == n
    decreases width
  {
    if width > 0 {
      NumberOfDigits(n / 10, width - 1);
      var d := Digits(n, width);
      assert d[..width - 1] == Digits(n / 10, width - 1);
    }
  }

  lemma {:induction false} DigitsOfNumber(s: string)
    requires Json.Digits(s)
    ensures Number(s) < Pow10(|s|) && Digits(Number(s), |s|) == s
    decreases |s|
  {
    if s != [] {
      var init, last := s[..|s| - 1], s[|s| - 1];
      DigitsOfNumber(init);
      assert s == init + [last];
      var v := last as int - '0' as int;
      assert Number(s) == Number(init) * 10 + v;
      assert Number(s) / 10 == Number(init) && Number(s) % 10 == v;
    }
  }

  lemma Powers()
    ensures Pow10(1) == 10 && Pow10(2) == 100 && Pow10(3) == 1000 && Pow10(4) == 10000 && Pow10(6) == 1000000
  {
    assert Pow10(5) == 100000;
  }

  lemma {:induction false} LeadingDigit(n: nat, width: nat)
    requires n < Pow10(width) && width > 0
    ensures Digits(n, width)[0] == '0' <==> n < Pow10(width - 1)
    decreases width
  {
    if width > 1 {
      LeadingDigit(n / 10, width - 1);
      assert Digits(n, width)[0] == Digits(n / 10, width - 1)[0];
      assert Pow10(width - 1) == 10 * Pow10(width - 2);
    }
  }

  lemma {:induction false} YearWidthFits(y: nat)
    ensures y < Pow10(YearWidth(y)) && (YearWidth(y) > 4 ==> Pow10(YearWidth(y) - 1) <= y)
  {
    Powers();
    if y >= 10000 {
      YearWidthFits(y / 10);
      var w := YearWidth(y / 10);
      assert Pow10(w + 1) == 10 * Pow10(w);
      if w > 4 { assert Pow10(w) == 10 * Pow10(w - 1); }
    }
  }

  lemma {:induction false} Powers10Grow(a: nat, b: nat)
    requires a <= b
    ensures Pow10(a) <= Pow10(b)
  {
    if a < b { Powers10Grow(a, b - 1); }
  }

  /** A year text is that of its number. */
  lemma YearTextExactly(s: string)
    requires Json.Digits(s)
    ensures YearDigits(s) <==> Digits(Number(s), YearWidth(Number(s))) == s
  {
    DigitsOfNumber(s);
    var y := Number(s);
    var w := YearWidth(y);
    YearWidthFits(y);
    if YearDigits(s) {
      Powers();
      LeadingDigit(y, |s|);
      if w < |s| { Powers10Grow(w, |s| - 1); }
      if |s| < w { Powers10Grow(|s|, w - 1); }
    }
    if Digits(y, w) == s && w > 4 { LeadingDigit(y, w); }
  }

  // ---------------------------------------------------------------- parts of a text

  ghost predicate Parts(s: string, y: string, mo: string, d: string, h: string, mi: string, se: string, fr: string)
  {
    && |s| == |y| + 21 + |fr| && |mo| == 2 && |d| == 2 && |h| == 2 && |mi| == 2 && |se| == 2
    && var n := |y|;
    && s[..n] == y && s[n] == '-' && s[n + 1..n + 3] == mo && s[n + 3] == '-' && s[n + 4..n + 6] == d
    && s[n + 6] == 'T' && s[n + 7..n + 9] == h && s[n + 9] == ':' && s[n + 10..n + 12] == mi && s[n + 12] == ':'
    && s[n + 13..n + 15] == se && s[n + 15..n + 15 + |fr|] == fr && s[n + 15 + |fr|..] == "+00:00"
  }

  lemma MiddleParts(t: string, mo: string, d: string, h: string, mi: string, se: string)
    requires |mo| == 2 && |d| == 2 && |h| == 2 && |mi| == 2 && |se| == 2
    requires t == "-" + mo + "-" + d + "T" + h + ":" + mi + ":" + se
    ensures |t| == 15 && t[0] == '-' && t[1..3] == mo && t[3] == '-' && t[4..6] == d && t[6] == 'T'
    ensures t[7..9] == h && t[9] == ':' && t[10..12] == mi && t[12] == ':' && t[13..15] == se
  {
  }

  lemma MiddleOf(t: string)
    requires |t| == 15 && t[0] == '-' && t[3] == '-' && t[6] == 'T' && t[9] == ':' && t[12] == ':'
    ensures t == "-" + t[1..3] + "-" + t[4..6] + "T" + t[7..9] + ":" + t[10..12] + ":" + t[13..15]
  {
  }

  lemma FourParts(y: string, t: string, fr: string, z: string)
    ensures var s := y + t + fr + z;
            && |s| == |y| + |t| + |fr| + |z| && s[..|y|] == y && s[|y|..|y| + |t|] == t
            && s[|y| + |t|..|y| + |t| + |fr|] == fr && s[|y| + |t| + |fr|..] == z
  {
  }

  lemma AssembledParts(y: string, mo: string, d: string, h: string, mi: string, se: string, fr: string)
    requires |mo| == 2 && |d| == 2 && |h| == 2 && |mi| == 2 && |se| == 2
    ensures Parts(Assembled(y, mo, d, h, mi, se, fr), y, mo, d, h, mi, se, fr)
  {
    var t := "-" + mo + "-" + d + "T" + h + ":" + mi + ":" + se;
    MiddleParts(t, mo, d, h, mi, se);
    FourParts(y, t, fr, "+00:00");
    MiddleSlices(Assembled(y, mo, d, h, mi, se, fr), |y|, t);
  }

  lemma MiddleSlices(s: string, n: nat, t: string)
    requires n + 15 <= |s| && |t| == 15 && s[n..n + 15] == t
    ensures s[n] == t[0] && s[n + 3] == t[3] && s[n + 6] == t[6] && s[n + 9] == t[9] && s[n + 12] == t[12]
    ensures s[n + 1..n + 3] == t[1..3] && s[n + 4..n + 6] == t[4..6] && s[n + 7..n + 9] == t[7..9]
    ensures s[n + 10..n + 12] == t[10..12] && s[n + 13..n + 15] == t[13..15]
  {
    assert forall k | 0 <= k < 15 :: s[n + k] == t[k] by {
      forall k | 0 <= k < 15 ensures s[n + k] == t[k] { assert s[n..n + 15][k] == s[n + k]; }
    }
    assert s[n] == s[n + 0];
  }

  lemma PartsAssembled(s: string, n: nat, f: nat)
    requires Laid(s, n, f)
    ensures s == Assembled(s[..n], s[n + 1..n + 3], s[n + 4..n + 6], s[n + 7..n + 9], s[n + 10..n + 12],
                           s[n + 13..n + 15], s[n + 15..n + 15 + f])
  {
    hide Json.Digits;
    var t := s[n..n + 15];
    MiddleSlices(s, n, t);
    MiddleOf(t);
    FourSlices(s, n, n + 15, n + 15 + f);
  }

  lemma FourSlices(s: string, a: nat, b: nat, c: nat)
    requires a <= b <= c <= |s|
    ensures s == s[..a] + s[a..b] + s[b..c] + s[c..]
  {
  }

  /** Characters that only a fraction could bring in. */
  predicate Foreign(x: char)
  {
    !('0' <= x <= '9') && x != '-' && x != 'T' && x != ':' && x != '+'
  }

  lemma NotADigit(x: char, s: string)
    requires Foreign(x) && Json.Digits(s)
    ensures x !in s
  {
  }

  lemma InEither(x: char, a: string, b: string)
    ensures x in a + b <==> x in a || x in b
  {
  }

  lemma NotInMiddle(x: char, mo: string, d: string, h: string, mi: string, se: string)
    requires Foreign(x) && x !in mo && x !in d && x !in h && x !in mi && x !in se
    ensures x !in "-" + mo + "-" + d + "T" + h + ":" + mi + ":" + se
  {
  }

  lemma ForeignAssembled(x: char, y: string, mo: string, d: string, h: string, mi: string, se: string, fr: string)
    requires Foreign(x)
    requires Json.Digits(y) && Json.Digits(mo) && Json.Digits(d) && Json.Digits(h) && Json.Digits(mi) && Json.Digits(se)
    ensures x in Assembled(y, mo, d, h, mi, se, fr) <==> x in fr
  {
    NotADigit(x, y);
    NotADigit(x, mo);
    NotADigit(x, d);
    NotADigit(x, h);
    NotADigit(x, mi);
    NotADigit(x, se);
    var t := "-" + mo + "-" + d + "T" + h + ":" + mi + ":" + se;
    NotInMiddle(x, mo, d, h, mi, se);
    InEither(x, y, t);
    InEither(x, y + t, fr);
    InEither(x, y + t + fr, "+00:00");
  }

  // ---------------------------------------------------------------- the range of the column

  lemma YearsInColumn(c: Civil)
    requires Valid(c)
    ensures InColumn(InstantOf(c)) ==> -4713 <= c.year <= LAST_YEAR
    ensures -4712 <= c.year <= LAST_YEAR ==> InColumn(InstantOf(c))
  {
    hide DaysBeforeMonth, DaysInMonth, DaysBeforeYear;
    DayInYear(c.year, c.month, c.day);
    FirstAndEnd();
    if c.year < -4713 { LaterYear(c.year + 1, -4713); }
    if c.year > LAST_YEAR { LaterYear(LAST_YEAR + 1, c.year); }
    if -4712 <= c.year { LaterYear(-4712, c.year); }
    if c.year <= LAST_YEAR { LaterYear(c.year + 1, LAST_YEAR + 1); }
  }

  lemma FirstAndEnd()
    ensures DaysBeforeYear(-4713) <= DayOf(-4713, 11, 24) < DaysBeforeYear(-4712)
    ensures DayOf(LAST_YEAR + 1, 1, 1) == DaysBeforeYear(LAST_YEAR + 1)
  {
    DayInYear(-4713, 11, 24);
  }

  // ---------------------------------------------------------------- rendered texts

  /** The two eras show the same dates but for the leap days of the earlier one. */
  lemma ShownDate(y: int, m: int, d: int)
    requires ValidDate(y, m, d) && -4713 <= y <= LAST_YEAR
    ensures DateShown(ShownYear(y), m, d)
  {
  }

  function FractionOf(micro: nat): string
  {
    if micro == 0 then "" else "." + Digits(micro, 6)
  }

  lemma RenderedIs(i: int)
    ensures var c := CivilOf(i);
            var y := ShownYear(c.year);
            Rendered(i) == Assembled(Digits(y, YearWidth(y)), Digits(c.month, 2), Digits(c.day, 2), Digits(c.hour, 2),
                                     Digits(c.minute, 2), Digits(c.second, 2), FractionOf(c.micro))
  {
    hide Assembled, Digits, CivilOf;
    var c := CivilOf(i);
    assert (c.second * 1000000 + c.micro) % 1000000 == c.micro;
  }

  lemma FractionParts(micro: nat)
    requires micro < 1000000
    ensures var fr := FractionOf(micro);
            && ('.' in fr <==> micro > 0) && |fr| == (if micro > 0 then 7 else 0)
            && (micro > 0 ==> fr[0] == '.' && Json.Digits(fr[1..]) && Number(fr[1..]) == micro)
  {
    Powers();
    NumberOfDigits(micro, 6);
    if micro > 0 { assert FractionOf(micro)[1..] == Digits(micro, 6); }
  }

  lemma TwoDigits(n: nat)
    requires n < 100
    ensures |Digits(n, 2)| == 2 && Json.Digits(Digits(n, 2)) && Number(Digits(n, 2)) == n
  {
    Powers();
    NumberOfDigits(n, 2);
  }

  /** The text of the fields of a date and time. */
  lemma FieldsText(y: nat, c: Civil)
    requires Valid(c) && DateShown(y, c.month, c.day)
    ensures TimestampText(Assembled(Digits(y, YearWidth(y)), Digits(c.month, 2), Digits(c.day, 2), Digits(c.hour, 2),
                                    Digits(c.minute, 2), Digits(c.second, 2), FractionOf(c.micro)))
  {
    hide Digits, DateShown, Assembled, FractionOf, Number;
    var yt := Digits(y, YearWidth(y));
    var mo, d, h, mi, se, fr := Digits(c.month, 2), Digits(c.day, 2), Digits(c.hour, 2), Digits(c.minute, 2),
                                Digits(c.second, 2), FractionOf(c.micro);
    YearText(y);
    TwoDigits(c.month);
    TwoDigits(c.day);
    TwoDigits(c.hour);
    TwoDigits(c.minute);
    TwoDigits(c.second);
    FractionParts(c.micro);
    var s := Assembled(yt, mo, d, h, mi, se, fr);
    AssembledParts(yt, mo, d, h, mi, se, fr);
    ForeignAssembled('.', yt, mo, d, h, mi, se, fr);
    PartsText(s, yt, mo, d, h, mi, se, fr);
  }

  lemma YearText(y: nat)
    ensures var t := Digits(y, YearWidth(y)); Json.Digits(t) && Number(t) == y && YearDigits(t)
  {
    YearWidthFits(y);
    NumberOfDigits(y, YearWidth(y));
    YearTextExactly(Digits(y, YearWidth(y)));
  }

  /** Parts that are right make a right text. */
  lemma PartsText(s: string, y: string, mo: string, d: string, h: string, mi: string, se: string, fr: string)
    requires Parts(s, y, mo, d, h, mi, se, fr) && ('.' in s <==> fr != "") && (fr != "" ==> |fr| == 7 && fr[0] == '.')
    requires Json.Digits(y) && Json.Digits(mo) && Json.Digits(d) && Json.Digits(h) && Json.Digits(mi) && Json.Digits(se)
    requires fr != "" ==> Json.Digits(fr[1..]) && Number(fr[1..]) > 0
    requires YearDigits(y) && DateShown(Number(y), Number(mo), Number(d))
    requires Number(h) < 24 && Number(mi) < 60 && Number(se) < 60
    ensures TimestampText(s)
  {
    hide DateShown, Number, Json.Digits;
    var n := |y|;
    if fr != "" {
      assert s[n + 16..n + 22] == fr[1..] by { assert s[n + 15..n + 22] == fr; }
      assert s[n + 15] == s[n + 15..n + 22][0];
    }
  }

  lemma RenderedText(i: int)
    requires InColumn(i)
    ensures TimestampText(Rendered(i))
  {
    hide InColumn, TimestampText, Rendered, DateShown, CivilOf;
    var c := CivilOf(i);
    YearsInColumn(c);
    ShownDate(c.year, c.month, c.day);
    RenderedIs(i);
    FieldsText(ShownYear(c.year), c);
  }

  // ---------------------------------------------------------------- read back

  /** The date and time a text shows, AD where it is a date of that era. */
  function Read(s: string): Civil
    requires TimestampText(s)
  {
    var f := FractionLength(s);
    var n := |s| - 21 - f;
    var y, m, d := Number(s[..n]), Number(s[n + 1..n + 3]), Number(s[n + 4..n + 6]);
    var micro := if f > 0 then Number(s[n + 16..n + 22]) else 0;
    Civil(if y <= LAST_YEAR && d <= DaysInMonth(y, m) then y else 1 - y, m, d,
          Number(s[n + 7..n + 9]), Number(s[n + 10..n + 12]), Number(s[n + 13..n + 15]), micro)
  }

  lemma ReadYear(y: nat, m: nat, d: nat)
    requires DateShown(y, m, d)
    ensures var z := if y <= LAST_YEAR && d <= DaysInMonth(y, m) then y else 1 - y;
            ShownYear(z) == y && -4712 <= z <= LAST_YEAR && ValidDate(z, m, d)
  {
  }

  lemma MicroFits(s: string, n: nat)
    requires Laid(s, n, 7)
    ensures Number(s[n + 16..n + 22]) < 1000000
  {
    Powers();
    DigitsOfNumber(s[n + 16..n + 22]);
  }

  lemma ReadFields(s: string)
    requires TimestampText(s)
    ensures var f, c := FractionLength(s), Read(s);
            var n := |s| - 21 - f;
            && n >= 4 && f in {0, 7} && Laid(s, n, f) && YearDigits(s[..n]) && Valid(c)
            && ShownYear(c.year) == Number(s[..n]) && -4712 <= c.year <= LAST_YEAR
            && c.month == Number(s[n + 1..n + 3]) && c.day == Number(s[n + 4..n + 6])
            && c.hour == Number(s[n + 7..n + 9]) && c.minute == Number(s[n + 10..n + 12])
            && c.second == Number(s[n + 13..n + 15])
            && (if f > 0 then c.micro == Number(s[n + 16..n + 22]) > 0 else c.micro == 0)
  {
    hide Laid, Number, Leap;
    var f := FractionLength(s);
    var n := |s| - 21 - f;
    if f > 0 { MicroFits(s, n); }
    ReadYear(Number(s[..n]), Number(s[n + 1..n + 3]), Number(s[n + 4..n + 6]));
  }

  lemma FractionRead(s: string, n: nat, f: nat, micro: nat)
    requires Laid(s, n, f) && f in {0, 7}
    requires if f > 0 then micro == Number(s[n + 16..n + 22]) > 0 else micro == 0
    ensures s[n + 15..n + 15 + f] == FractionOf(micro)
  {
    if f > 0 {
      DigitsOfNumber(s[n + 16..n + 22]);
      assert s[n + 15..n + 22] == "." + s[n + 16..n + 22];
    }
  }

  lemma DigitsRead(s: string, n: nat, f: nat)
    requires Laid(s, n, f)
    ensures Json.Digits(s[..n])
    ensures s[n + 1..n + 3] == Digits(Number(s[n + 1..n + 3]), 2)
    ensures s[n + 4..n + 6] == Digits(Number(s[n + 4..n + 6]), 2)
    ensures s[n + 7..n + 9] == Digits(Number(s[n + 7..n + 9]), 2)
    ensures s[n + 10..n + 12] == Digits(Number(s[n + 10..n + 12]), 2)
    ensures s[n + 13..n + 15] == Digits(Number(s[n + 13..n + 15]), 2)
  {
    hide Number, Digits;
    DigitsOfNumber(s[n + 1..n + 3]);
    DigitsOfNumber(s[n + 4..n + 6]);
    DigitsOfNumber(s[n + 7..n + 9]);
    DigitsOfNumber(s[n + 10..n + 12]);
    DigitsOfNumber(s[n + 13..n + 15]);
  }

  lemma ReadRendered(s: string)
    requires TimestampText(s)
    ensures InColumn(InstantOf(Read(s))) && Rendered(InstantOf(Read(s))) == s
  {
    hide InColumn, TimestampText, Read, Rendered, CivilOf, InstantOf, Assembled, FractionOf, Number, Digits, Laid;
    hide Valid, ShownYear, YearDigits, FractionLength, YearWidth;
    var f, c := FractionLength(s), Read(s);
    var n := |s| - 21 - f;
    ReadFields(s);
    YearsInColumn(c);
    CivilUnique(c);
    RenderedIs(InstantOf(c));
    PartsAssembled(s, n, f);
    DigitsRead(s, n, f);
    YearTextExactly(s[..n]);
    FractionRead(s, n, f, c.micro);
  }

  /** The instant to store for a text. */
  function InstantFor(s: string): int
  {
    if TimestampText(s) then InstantOf(Read(s)) else 0
  }

  /** A text is the rendering of some storable instant exactly when it looks like one. */
  lemma RenderedExactly(s: string)
    ensures TimestampText(s) <==> exists i :: InColumn(i) && Rendered(i) == s
  {
    hide InColumn, TimestampText, Rendered;
    if TimestampText(s) { ReadRendered(s); }
    if i :| InColumn(i) && Rendered(i) == s { RenderedText(i); }
  }

  /** Such a text is trimmed and holds nothing a column could not. */
  lemma TimestampNormalized(s: string)
    requires TimestampText(s)
    ensures Text.Normalized(s)
  {
    hide DateShown, Number;
    var f := FractionLength(s);
    var n := |s| - 21 - f;
    PartsAssembled(s, n, f);
    var fr := s[n + 15..n + 15 + f];
    ForeignAssembled(Text.NUL, s[..n], s[n + 1..n + 3], s[n + 4..n + 6], s[n + 7..n + 9], s[n + 10..n + 12],
                     s[n + 13..n + 15], fr);
    if f > 0 {
      assert fr == "." + s[n + 16..n + 15 + f];
      NotADigit(Text.NUL, s[n + 16..n + 15 + f]);
    }
    assert s[0] == s[..n][0];
    assert s[|s| - 1] == s[n + 15 + f..][5];
  }

  // ---------------------------------------------------------------- the application's writing

  datatype Overflow = Overflow

  /** An aware date and time: the fields shown where it was made, and the offset from UTC in microseconds. */
  datatype Aware = Aware(local: Civil, offset: int)

  predicate Representable(c: Civil)
  {
    Valid(c) && 1 <= c.year <= 9999
  }

  /** The instant, as a timestamp column stores it. */
  function AwareInstant(a: Aware): int
  {
    InstantOf(a.local) - a.offset
  }

  /** `astimezone(UTC)`: raises when the year leaves the range. */
  function ToUtc(a: Aware): (r: Result<Civil, Overflow>)
    ensures r.Ok? ==> Representable(r.value) && InstantOf(r.value) == AwareInstant(a)
  {
    var c := CivilOf(AwareInstant(a));
    if 1 <= c.year <= 9999 then Ok(c) else Err(Overflow)
  }

  /** `isoformat()` of an aware time at offset zero. */
  function IsoFormat(c: Civil): string
    requires Representable(c)
  {
    var date := Digits(c.year, 4) + "-" + Digits(c.month, 2) + "-" + Digits(c.day, 2);
    var time := Digits(c.hour, 2) + ":" + Digits(c.minute, 2) + ":" + Digits(c.second, 2);
    date + "T" + (if c.micro != 0 then time + "." + Digits(c.micro, 6) else time) + "+00:00"
  }

  lemma IsoAssembled(y: string, mo: string, d: string, h: string, mi: string, se: string, fr: string)
    ensures (y + "-" + mo + "-" + d) + "T" + ((h + ":" + mi + ":" + se) + fr) + "+00:00"
            == Assembled(y, mo, d, h, mi, se, fr)
  {
  }

  /** What the application writes is what the database renders, whatever the offset. */
  lemma IsoIsRendered(a: Aware)
    requires ToUtc(a).Ok?
    ensures var s := IsoFormat(ToUtc(a).value);
            InColumn(AwareInstant(a)) && s == Rendered(AwareInstant(a)) && TimestampText(s)
  {
    hide InColumn, TimestampText, Rendered, CivilOf, InstantOf, Assembled, Digits;
    var c := ToUtc(a).value;
    YearsInColumn(c);
    CivilUnique(c);
    RenderedIs(AwareInstant(a));
    RenderedText(AwareInstant(a));
    IsoAssembled(Digits(c.year, 4), Digits(c.month, 2), Digits(c.day, 2), Digits(c.hour, 2), Digits(c.minute, 2),
                 Digits(c.second, 2), FractionOf(c.micro));
    var time := Digits(c.hour, 2) + ":" + Digits(c.minute, 2) + ":" + Digits(c.second, 2);
    assert (if c.micro != 0 then time + "." + Digits(c.micro, 6) else time) == time + FractionOf(c.micro);
  }

  /** The conversion fails exactly for instants outside the years 1 to 9999 of UTC. */
  lemma ToUtcExactly(a: Aware)
    ensures ToUtc(a).Ok? <==> YearStart(1) <= AwareInstant(a) < YearStart(10000)
  {
    hide YearStart, InstantOf, CivilOf;
    var c := CivilOf(AwareInstant(a));
    YearBound(c, 1);
    YearBound(c, 10000);
  }
}
