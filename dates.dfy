/**
 * `checkDate` of validator/utils.js. The pattern is a union of eleven
 * alternatives, each anchored at both ends, of the form year `-` month `-`
 * day: three for the months of 31 days, of 30 days and February up to the
 * 28th, and eight that admit February 29th for the years of particular digit
 * shapes. It is transcribed literally below and proved to accept exactly the
 * dates of the Gregorian calendar from 1800 to 9999 written `YYYY-M-D`, the
 * month and the day with one or two digits.
 */
module Dates {
  import opened Text
  import opened Regex

  // ---- character classes of the pattern ------------------------------------

  predicate EightNine(c: char) { c == '8' || c == '9' }                       // [8-9], [89]
  predicate TwoToNine(c: char) { '2' <= c <= '9' }                            // [2-9]
  predicate Month31Digit(c: char) { c == '1' || c == '3' || c == '5' || c == '7' || c == '8' }  // [13578]
  predicate Month30Digit(c: char) { c == '4' || c == '6' || c == '9' }        // [469]
  predicate ZeroOne(c: char) { c == '0' || c == '1' }                         // [01]
  predicate OneTwo(c: char) { c == '1' || c == '2' }                          // [12]
  predicate NonZeroDigit(c: char) { '1' <= c <= '9' }                         // [1-9]
  predicate ZeroToEight(c: char) { '0' <= c <= '8' }                          // [0-8]
  predicate EvenNonZero(c: char) { c == '2' || c == '4' || c == '6' || c == '8' }  // [2468]
  predicate ZeroFourEight(c: char) { c == '0' || c == '4' || c == '8' }       // [048]
  predicate FourEight(c: char) { c == '4' || c == '8' }                       // [48]
  predicate TwoSix(c: char) { c == '2' || c == '6' }                          // [26]
  predicate OddFromThree(c: char) { c == '3' || c == '5' || c == '7' || c == '9' }  // [3579]
  predicate OddDigit(c: char) { c == '1' || OddFromThree(c) }                 // [13579]

  // ---- the pattern ---------------------------------------------------------

  /** `(1[8-9]\d{2})|([2-9]\d{3})` */
  const YearPattern: Re :=
    Alt(Cat(Char('1'), Cat(Class(EightNine), Exactly(Digit, 2))), Cat(Class(TwoToNine), Exactly(Digit, 3)))

  /** `10|12|0?[13578]` */
  const Month31Pattern: Re := Alt(Str("10"), Alt(Str("12"), Cat(Opt(Char('0')), Class(Month31Digit))))
  /** `11|0?[469]` */
  const Month30Pattern: Re := Alt(Str("11"), Cat(Opt(Char('0')), Class(Month30Digit)))
  /** `0?2` */
  const FebPattern: Re := Cat(Opt(Char('0')), Char('2'))

  /** `0?[1-9]`, shared by the three day patterns */
  const LowDay: Re := Cat(Opt(Char('0')), Class(NonZeroDigit))
  /** `3[01]|[12][0-9]|0?[1-9]` */
  const Day31Pattern: Re := Alt(Cat(Char('3'), Class(ZeroOne)), Alt(Cat(Class(OneTwo), Digit), LowDay))
  /** `30|[12][0-9]|0?[1-9]` */
  const Day30Pattern: Re := Alt(Str("30"), Alt(Cat(Class(OneTwo), Digit), LowDay))
  /** `2[0-8]|1[0-9]|0?[1-9]` */
  const Day28Pattern: Re := Alt(Cat(Char('2'), Class(ZeroToEight)), Alt(Cat(Char('1'), Digit), LowDay))
  /** `29` */
  const Day29Pattern: Re := Str("29")

  /** Four one-character classes in a row. */
  function Quad(a: Re, b: Re, c: Re, d: Re): Re { Cat(a, Cat(b, Cat(c, d))) }

  // The eight year shapes of the February 29th alternatives.
  const Leap1: Re := Quad(Class(EvenNonZero), Class(ZeroFourEight), Char('0'), Char('0'))    // [2468][048]00
  const Leap2: Re := Quad(Class(OddFromThree), Class(TwoSix), Char('0'), Char('0'))          // [3579][26]00
  const Leap3: Re := Quad(Char('1'), Class(EightNine), Char('0'), Class(FourEight))          // [1][89][0][48]
  const Leap4: Re := Quad(Class(TwoToNine), Digit, Char('0'), Class(FourEight))              // [2-9][0-9][0][48]
  const Leap5: Re := Quad(Char('1'), Class(EightNine), Class(EvenNonZero), Class(ZeroFourEight))  // [1][89][2468][048]
  const Leap6: Re := Quad(Class(TwoToNine), Digit, Class(EvenNonZero), Class(ZeroFourEight))      // [2-9][0-9][2468][048]
  const Leap7: Re := Quad(Char('1'), Class(EightNine), Class(OddDigit), Class(TwoSix))       // [1][89][13579][26]
  const Leap8: Re := Quad(Class(TwoToNine), Digit, Class(OddDigit), Class(TwoSix))           // [2-9][0-9][13579][26]

  /** The year, month and day patterns of one alternative. */
  datatype Shape = Shape(year: Re, month: Re, day: Re)

  /** `^Y(-)M(-)D$` */
  function YMD(sh: Shape): Re { Cat(sh.year, Cat(Char('-'), Cat(sh.month, Cat(Char('-'), sh.day)))) }

  /** The eleven alternatives, in the order of the source. */
  const Shapes: seq<Shape> := [
    Shape(YearPattern, Month31Pattern, Day31Pattern),
    Shape(YearPattern, Month30Pattern, Day30Pattern),
    Shape(YearPattern, FebPattern, Day28Pattern),
    Shape(Leap1, FebPattern, Day29Pattern),
    Shape(Leap2, FebPattern, Day29Pattern),
    Shape(Leap3, FebPattern, Day29Pattern),
    Shape(Leap4, FebPattern, Day29Pattern),
    Shape(Leap5, FebPattern, Day29Pattern),
    Shape(Leap6, FebPattern, Day29Pattern),
    Shape(Leap7, FebPattern, Day29Pattern),
    Shape(Leap8, FebPattern, Day29Pattern)
  ]

  /** One `^Y(-)M(-)D$` alternative per shape. */
  function AlternativesOf(shapes: seq<Shape>): (rs: seq<Re>)
    ensures |rs| == |shapes| && forall i :: 0 <= i < |shapes| ==> rs[i] == YMD(shapes[i])
  {
    if shapes == [] then [] else [YMD(shapes[0])] + AlternativesOf(shapes[1..])
  }

  const Alternatives: seq<Re> := AlternativesOf(Shapes)

  const DatePattern: Re := Union(Alternatives)

  /** `checkDate`: `dateValue.match(pattern) != null`. */
  function CheckDate(dateValue: string): bool { Matches(DatePattern, dateValue) }

  // ---- the calendar --------------------------------------------------------

  predicate IsLeapYear(y: int) { y % 4 == 0 && (y % 100 != 0 || y % 400 == 0) }

  function DaysInMonth(y: int, m: int): int {
    if m in {1, 3, 5, 7, 8, 10, 12} then 31
    else if m in {4, 6, 9, 11} then 30
    else if IsLeapYear(y) then 29
    else 28
  }

  /** Four digits, 1800 or later. */
  predicate YearField(y: string) { |y| == 4 && AllDigits(y) && Decimal(y) >= 1800 }
  /** One or two digits, 1 to 12 ("01" and "1" alike). */
  predicate MonthField(m: string) { 1 <= |m| <= 2 && AllDigits(m) && 1 <= Decimal(m) <= 12 }
  /** One or two digits, 1 or more. */
  predicate DayField(d: string) { 1 <= |d| <= 2 && AllDigits(d) && Decimal(d) >= 1 }

  /** A calendar date `Y-M-D` of the years 1800-9999. */
  predicate ValidDate(s: string) {
    var f := Split(s, '-');
    |f| == 3 && YearField(f[0]) && MonthField(f[1]) && DayField(f[2])
    && Decimal(f[2]) <= DaysInMonth(Decimal(f[0]), Decimal(f[1]))
  }

  // ---- one and two digit fields ----------------------------------------------

  lemma SmallDecimal(t: string)
    requires 1 <= |t| <= 2 && AllDigits(t)
    ensures |t| == 1 ==> Decimal(t) == DigitValue(t[0])
    ensures |t| == 2 ==> Decimal(t) == 10 * DigitValue(t[0]) + DigitValue(t[1])
  {
    if |t| == 1 { assert t[..0] == []; } else { DecimalOfTwo(t); }
  }

  /** Two characters with the digit values of `hi` and `lo` form that word. */
  lemma TwoChars(t: string, w: string)
    requires |t| == 2 && |w| == 2 && t[0] == w[0] && t[1] == w[1]
    ensures t == w
  {
  }

  lemma Month31Accepts(m: string)
    ensures Matches(Month31Pattern, m) <==> MonthField(m) && Decimal(m) in {1, 3, 5, 7, 8, 10, 12}
  {
    StrMatches("10", m);
    StrMatches("12", m);
    CatOptPair('0', Class(Month31Digit), m);
    if 1 <= |m| <= 2 && AllDigits(m) {
      SmallDecimal(m);
      if |m| == 2 && Decimal(m) == 10 { TwoChars(m, "10"); }
      if |m| == 2 && Decimal(m) == 12 { TwoChars(m, "12"); }
    }
  }

  lemma Month30Accepts(m: string)
    ensures Matches(Month30Pattern, m) <==> MonthField(m) && Decimal(m) in {4, 6, 9, 11}
  {
    StrMatches("11", m);
    CatOptPair('0', Class(Month30Digit), m);
    if 1 <= |m| <= 2 && AllDigits(m) {
      SmallDecimal(m);
      if |m| == 2 && Decimal(m) == 11 { TwoChars(m, "11"); }
    }
  }

  lemma FebAccepts(m: string)
    ensures Matches(FebPattern, m) <==> MonthField(m) && Decimal(m) == 2
  {
    CatOptPair('0', Char('2'), m);
    if 1 <= |m| <= 2 && AllDigits(m) { SmallDecimal(m); }
  }

  lemma LowDayAccepts(d: string)
    ensures Matches(LowDay, d) <==> DayField(d) && Decimal(d) <= 9
  {
    CatOptPair('0', Class(NonZeroDigit), d);
    if 1 <= |d| <= 2 && AllDigits(d) { SmallDecimal(d); }
  }

  /** `[12][0-9]` */
  lemma TeensTwentiesAccepts(d: string)
    ensures Matches(Cat(Class(OneTwo), Digit), d) <==> DayField(d) && 10 <= Decimal(d) <= 29
  {
    CatPair(Class(OneTwo), Digit, d);
    if 1 <= |d| <= 2 && AllDigits(d) { SmallDecimal(d); }
  }

  lemma Day31Accepts(d: string)
    ensures Matches(Day31Pattern, d) <==> DayField(d) && Decimal(d) <= 31
  {
    CatPair(Char('3'), Class(ZeroOne), d);
    TeensTwentiesAccepts(d);
    LowDayAccepts(d);
    if 1 <= |d| <= 2 && AllDigits(d) { SmallDecimal(d); }
  }

  lemma Day30Accepts(d: string)
    ensures Matches(Day30Pattern, d) <==> DayField(d) && Decimal(d) <= 30
  {
    StrMatches("30", d);
    TeensTwentiesAccepts(d);
    LowDayAccepts(d);
    if 1 <= |d| <= 2 && AllDigits(d) {
      SmallDecimal(d);
      if |d| == 2 && Decimal(d) == 30 { TwoChars(d, "30"); }
    }
  }

  lemma Day28Accepts(d: string)
    ensures Matches(Day28Pattern, d) <==> DayField(d) && Decimal(d) <= 28
  {
    CatPair(Char('2'), Class(ZeroToEight), d);
    CatPair(Char('1'), Digit, d);
    LowDayAccepts(d);
    if 1 <= |d| <= 2 && AllDigits(d) { SmallDecimal(d); }
  }

  lemma Day29Accepts(d: string)
    ensures Matches(Day29Pattern, d) <==> DayField(d) && Decimal(d) == 29
  {
    StrMatches("29", d);
    if 1 <= |d| <= 2 && AllDigits(d) {
      SmallDecimal(d);
      if |d| == 2 && Decimal(d) == 29 { TwoChars(d, "29"); }
    }
  }

  // ---- years -----------------------------------------------------------------

  lemma YearAccepts(y: string)
    ensures Matches(YearPattern, y) <==> YearField(y)
  {
    NineteenthOn(y);
    TwentiethOn(y);
    if |y| == 4 && AllDigits(y) { DecimalOfFour(y); }
  }

  /** `1[8-9]\d{2}` */
  lemma NineteenthOn(y: string)
    ensures Matches(Cat(Char('1'), Cat(Class(EightNine), Exactly(Digit, 2))), y)
        <==> |y| == 4 && y[0] == '1' && EightNine(y[1]) && IsDigit(y[2]) && IsDigit(y[3])
  {
    CatClass(Char('1'), Cat(Class(EightNine), Exactly(Digit, 2)), y);
    if |y| >= 1 {
      var t := y[1..];
      CatClass(Class(EightNine), Exactly(Digit, 2), t);
      if |t| >= 1 {
        RepeatClass(Digit, 2, Finite(2), t[1..]);
      }
    }
  }

  /** `[2-9]\d{3}` */
  lemma TwentiethOn(y: string)
    ensures Matches(Cat(Class(TwoToNine), Exactly(Digit, 3)), y)
        <==> |y| == 4 && TwoToNine(y[0]) && IsDigit(y[1]) && IsDigit(y[2]) && IsDigit(y[3])
  {
    CatClass(Class(TwoToNine), Exactly(Digit, 3), y);
    if |y| >= 1 {
      RepeatClass(Digit, 3, Finite(3), y[1..]);
    }
  }

  lemma QuadAccepts(a: Re, b: Re, c: Re, d: Re, y: string)
    requires a.Class? && b.Class? && c.Class? && d.Class?
    ensures Matches(Quad(a, b, c, d), y)
        <==> |y| == 4 && a.member(y[0]) && b.member(y[1]) && c.member(y[2]) && d.member(y[3])
  {
    CatClass(a, Cat(b, Cat(c, d)), y);
    if |y| >= 1 {
      CatClass(b, Cat(c, d), y[1..]);
      if |y| >= 2 { CatPair(c, d, y[1..][1..]); }
    }
  }

  /** The eight shapes. */
  predicate LeapShape(y: string) {
    Matches(Leap1, y) || Matches(Leap2, y) || Matches(Leap3, y) || Matches(Leap4, y)
    || Matches(Leap5, y) || Matches(Leap6, y) || Matches(Leap7, y) || Matches(Leap8, y)
  }

  /** The digit conditions the eight shapes state, for digits `a b c d`. */
  predicate LeapDigits(a: int, b: int, c: int, d: int) {
    (c == 0 && d == 0 && CenturyDigits(a, b)) || (LateCentury(a, b) && QuadDigits(c, d))
  }

  /** The first two digits of a leap centennial year: `[2468][048]` or `[3579][26]`. */
  predicate CenturyDigits(a: int, b: int) {
    (a in {2, 4, 6, 8} && b in {0, 4, 8}) || (a in {3, 5, 7, 9} && b in {2, 6})
  }

  /** The first two digits of a year from 1800 on: `1[89]` or `[2-9]\d`. */
  predicate LateCentury(a: int, b: int) {
    a >= 2 || (a == 1 && b >= 8)
  }

  /** The last two digits of a multiple of four other than `00`. */
  predicate QuadDigits(c: int, d: int) {
    (c == 0 && d in {4, 8}) || (c in {2, 4, 6, 8} && d in {0, 4, 8}) || (c in {1, 3, 5, 7, 9} && d in {2, 6})
  }

  lemma LeapShapeDigits(y: string)
    ensures LeapShape(y)
        <==> |y| == 4 && AllDigits(y)
             && LeapDigits(DigitValue(y[0]), DigitValue(y[1]), DigitValue(y[2]), DigitValue(y[3]))
  {
    CenturyShapes(y);
    ZeroTensShapes(y);
    EvenTensShapes(y);
    OddTensShapes(y);
  }

  /** `[2468][048]00` and `[3579][26]00`. */
  lemma CenturyShapes(y: string)
    ensures Matches(Leap1, y) || Matches(Leap2, y)
        <==> |y| == 4 && AllDigits(y) && y[2] == '0' && y[3] == '0'
             && CenturyDigits(DigitValue(y[0]), DigitValue(y[1]))
  {
    QuadAccepts(Class(EvenNonZero), Class(ZeroFourEight), Char('0'), Char('0'), y);
    QuadAccepts(Class(OddFromThree), Class(TwoSix), Char('0'), Char('0'), y);
  }

  /** `[1][89][0][48]` and `[2-9][0-9][0][48]`. */
  lemma ZeroTensShapes(y: string)
    ensures Matches(Leap3, y) || Matches(Leap4, y)
        <==> |y| == 4 && AllDigits(y) && LateCentury(DigitValue(y[0]), DigitValue(y[1]))
             && y[2] == '0' && FourEight(y[3])
  {
    QuadAccepts(Char('1'), Class(EightNine), Char('0'), Class(FourEight), y);
    QuadAccepts(Class(TwoToNine), Digit, Char('0'), Class(FourEight), y);
  }

  /** `[1][89][2468][048]` and `[2-9][0-9][2468][048]`. */
  lemma EvenTensShapes(y: string)
    ensures Matches(Leap5, y) || Matches(Leap6, y)
        <==> |y| == 4 && AllDigits(y) && LateCentury(DigitValue(y[0]), DigitValue(y[1]))
             && EvenNonZero(y[2]) && ZeroFourEight(y[3])
  {
    QuadAccepts(Char('1'), Class(EightNine), Class(EvenNonZero), Class(ZeroFourEight), y);
    QuadAccepts(Class(TwoToNine), Digit, Class(EvenNonZero), Class(ZeroFourEight), y);
  }

  /** `[1][89][13579][26]` and `[2-9][0-9][13579][26]`. */
  lemma OddTensShapes(y: string)
    ensures Matches(Leap7, y) || Matches(Leap8, y)
        <==> |y| == 4 && AllDigits(y) && LateCentury(DigitValue(y[0]), DigitValue(y[1]))
             && OddDigit(y[2]) && TwoSix(y[3])
  {
    QuadAccepts(Char('1'), Class(EightNine), Class(OddDigit), Class(TwoSix), y);
    QuadAccepts(Class(TwoToNine), Digit, Class(OddDigit), Class(TwoSix), y);
  }

  /** The last two digits decide divisibility by 4 and 100; with them zero, the first two decide 400. */
  lemma LeapByParts(h: int, r: int)
    requires 0 <= r < 100 && h >= 0
    ensures IsLeapYear(100 * h + r) <==> if r == 0 then h % 4 == 0 else r % 4 == 0
  {
    HundredsMod(h, r);
    if r == 0 { CenturyMod(h); }
  }

  lemma HundredsMod(h: int, r: int)
    requires 0 <= r < 100 && h >= 0
    ensures (100 * h + r) % 100 == r && (100 * h + r) % 4 == r % 4
  {
    Mod100(h, r);
    Mod4(25 * h, r);
  }

  lemma Mod100(h: int, r: int)
    requires 0 <= r < 100 && h >= 0
    ensures (100 * h + r) % 100 == r
  {
  }

  lemma Mod4(q: int, r: int)
    requires q >= 0 && r >= 0
    ensures (4 * q + r) % 4 == r % 4
  {
  }

  lemma CenturyMod(h: int)
    requires h >= 0
    ensures (100 * h) % 400 == 0 <==> h % 4 == 0
  {
    var q, m := h / 4, h % 4;
    assert 100 * h == 400 * q + 100 * m;
  }

  lemma LeapDigitsMeaning(a: int, b: int, c: int, d: int)
    requires 0 <= a <= 9 && 0 <= b <= 9 && 0 <= c <= 9 && 0 <= d <= 9
    ensures LeapDigits(a, b, c, d)
        <==> 1000 * a + 100 * b + 10 * c + d >= 1800 && IsLeapYear(1000 * a + 100 * b + 10 * c + d)
  {
    LeapByParts(10 * a + b, 10 * c + d);
    CenturyDigitsMeaning(a, b);
    QuadDigitsMeaning(c, d);
  }

  lemma CenturyDigitsMeaning(a: int, b: int)
    requires 0 <= a <= 9 && 0 <= b <= 9
    ensures LateCentury(a, b) <==> 10 * a + b >= 18
    ensures CenturyDigits(a, b) <==> 10 * a + b >= 18 && (10 * a + b) % 4 == 0
  {
    assert a == 0 || a == 1 || a == 2 || a == 3 || a == 4 || a == 5 || a == 6 || a == 7 || a == 8 || a == 9;
  }

  lemma QuadDigitsMeaning(c: int, d: int)
    requires 0 <= c <= 9 && 0 <= d <= 9
    ensures QuadDigits(c, d) <==> 10 * c + d != 0 && (10 * c + d) % 4 == 0
  {
    assert c == 0 || c == 1 || c == 2 || c == 3 || c == 4 || c == 5 || c == 6 || c == 7 || c == 8 || c == 9;
  }

  lemma LeapShapeAccepts(y: string)
    ensures LeapShape(y) <==> YearField(y) && IsLeapYear(Decimal(y))
  {
    LeapShapeDigits(y);
    if |y| == 4 && AllDigits(y) {
      DecimalOfFour(y);
      LeapDigitsMeaning(DigitValue(y[0]), DigitValue(y[1]), DigitValue(y[2]), DigitValue(y[3]));
    }
  }

  // ---- year-month-day ----------------------------------------------------------

  /** `Y-M-D` with digit-only fields: the three fields of the split on `-`. */
  lemma YMDAccepts(sh: Shape, s: string)
    requires ShapeDigits(sh)
    ensures Matches(YMD(sh), s)
        <==> var f := Split(s, '-'); |f| == 3 && ShapeMatches(sh, f[0], f[1], f[2])
  {
    WithinDigits(sh.year, '-');
    CatSeparator(sh.year, '-', Cat(sh.month, Cat(Char('-'), sh.day)), s);
    if '-' in s {
      var k := IndexOf(s, '-');
      var head, t := s[..k], s[k + 1..];
      MDAccepts(sh.month, sh.day, t);
      SplitAt(s, '-');
      ConsParts(head, Split(t, '-'));
    }
  }

  /** The parts after a first part are shifted by one. */
  lemma ConsParts(head: string, g: seq<string>)
    ensures |[head] + g| == |g| + 1 && ([head] + g)[0] == head
    ensures forall i :: 0 <= i < |g| ==> ([head] + g)[i + 1] == g[i]
  {
  }

  lemma MDAccepts(m: Re, d: Re, t: string)
    requires Within(m, IsDigit) && Within(d, IsDigit)
    ensures Matches(Cat(m, Cat(Char('-'), d)), t)
        <==> var g := Split(t, '-'); |g| == 2 && Matches(m, g[0]) && Matches(d, g[1])
  {
    WithinDigits(m, '-');
    if '-' in t {
      var k := IndexOf(t, '-');
      Reassemble(t, k);
      MDAfter(m, d, t[..k], t[k + 1..]);
    } else {
      CatSeparator(m, '-', d, t);
    }
  }

  /** With the first separator made explicit, the two fields are the two sides of it. */
  lemma MDAfter(m: Re, d: Re, head: string, u: string)
    requires Within(m, Other('-')) && Within(d, IsDigit) && '-' !in head
    ensures Matches(Cat(m, Cat(Char('-'), d)), head + ['-'] + u)
        <==> var g := Split(head + ['-'] + u, '-'); |g| == 2 && Matches(m, g[0]) && Matches(d, g[1])
  {
    CatSeparatorAfter(m, '-', d, head, u);
    SplitAfter(head, '-', u);
    if Matches(d, u) {
      MatchesWithin(d, IsDigit, u);
      assert '-' !in u;
    }
  }

  // ---- the whole pattern ---------------------------------------------------------

  predicate ShapeMatches(sh: Shape, y: string, m: string, d: string) {
    Matches(sh.year, y) && Matches(sh.month, m) && Matches(sh.day, d)
  }

  ghost predicate ShapeDigits(sh: Shape) {
    Within(sh.year, IsDigit) && Within(sh.month, IsDigit) && Within(sh.day, IsDigit)
  }

  lemma ShapesDigits()
    ensures forall i :: 0 <= i < |Shapes| ==> ShapeDigits(Shapes[i])
  {
    DatePatternDigits();
    LeapShapeDigitsOnly();
  }

  /** The pattern accepts a word whose three `-`-fields match the fields of some alternative. */
  lemma DatePatternFields(s: string)
    ensures CheckDate(s)
        <==> var f := Split(s, '-'); |f| == 3 && exists i :: 0 <= i < |Shapes| && ShapeMatches(Shapes[i], f[0], f[1], f[2])
  {
    UnionMatches(Alternatives, s);
    assert CheckDate(s) <==> exists i :: 0 <= i < |Alternatives| && Matches(Alternatives[i], s);
    ShapesDigits();
    var f := Split(s, '-');
    forall i | 0 <= i < |Shapes|
      ensures Matches(Alternatives[i], s) <==> |f| == 3 && ShapeMatches(Shapes[i], f[0], f[1], f[2])
    {
      YMDAccepts(Shapes[i], s);
    }
  }

  /** The eleven alternatives, read field by field. */
  predicate DateAlternatives(y: string, m: string, d: string) {
    (Matches(YearPattern, y) && Matches(Month31Pattern, m) && Matches(Day31Pattern, d))
    || (Matches(YearPattern, y) && Matches(Month30Pattern, m) && Matches(Day30Pattern, d))
    || (Matches(YearPattern, y) && Matches(FebPattern, m) && Matches(Day28Pattern, d))
    || (LeapShape(y) && Matches(FebPattern, m) && Matches(Day29Pattern, d))
  }

  lemma ShapesCases(y: string, m: string, d: string)
    ensures (exists i :: 0 <= i < |Shapes| && ShapeMatches(Shapes[i], y, m, d)) <==> DateAlternatives(y, m, d)
  {
    if exists i :: 0 <= i < |Shapes| && ShapeMatches(Shapes[i], y, m, d) {
      var i :| 0 <= i < |Shapes| && ShapeMatches(Shapes[i], y, m, d);
      ShapeIsAlternative(i, y, m, d);
    }
    if DateAlternatives(y, m, d) {
      AlternativeIsShape(y, m, d);
    }
  }

  lemma ShapeIsAlternative(i: int, y: string, m: string, d: string)
    requires 0 <= i < |Shapes| && ShapeMatches(Shapes[i], y, m, d)
    ensures DateAlternatives(y, m, d)
  {
    assert i == 0 || i == 1 || i == 2 || 3 <= i;
  }

  lemma AlternativeIsShape(y: string, m: string, d: string)
    requires DateAlternatives(y, m, d)
    ensures exists i :: 0 <= i < |Shapes| && ShapeMatches(Shapes[i], y, m, d)
  {
    if Matches(YearPattern, y) && Matches(Month31Pattern, m) && Matches(Day31Pattern, d) {
      assert ShapeMatches(Shapes[0], y, m, d);
    } else if Matches(YearPattern, y) && Matches(Month30Pattern, m) && Matches(Day30Pattern, d) {
      assert ShapeMatches(Shapes[1], y, m, d);
    } else if Matches(YearPattern, y) && Matches(FebPattern, m) && Matches(Day28Pattern, d) {
      assert ShapeMatches(Shapes[2], y, m, d);
    } else if Matches(Leap1, y) { assert ShapeMatches(Shapes[3], y, m, d);
    } else if Matches(Leap2, y) { assert ShapeMatches(Shapes[4], y, m, d);
    } else if Matches(Leap3, y) { assert ShapeMatches(Shapes[5], y, m, d);
    } else if Matches(Leap4, y) { assert ShapeMatches(Shapes[6], y, m, d);
    } else if Matches(Leap5, y) { assert ShapeMatches(Shapes[7], y, m, d);
    } else if Matches(Leap6, y) { assert ShapeMatches(Shapes[8], y, m, d);
    } else if Matches(Leap7, y) { assert ShapeMatches(Shapes[9], y, m, d);
    } else { assert ShapeMatches(Shapes[10], y, m, d); }
  }

  lemma DateAlternativesMeaning(y: string, m: string, d: string)
    ensures DateAlternatives(y, m, d)
        <==> YearField(y) && MonthField(m) && DayField(d) && Decimal(d) <= DaysInMonth(Decimal(y), Decimal(m))
  {
    YearAccepts(y);
    LeapShapeAccepts(y);
    Month31Accepts(m);
    Month30Accepts(m);
    FebAccepts(m);
    Day31Accepts(d);
    Day30Accepts(d);
    Day28Accepts(d);
    Day29Accepts(d);
  }

  /** `checkDate` accepts exactly the calendar dates of the years 1800-9999. */
  lemma CheckDateAccepts(s: string)
    ensures CheckDate(s) <==> ValidDate(s)
  {
    DatePatternFields(s);
    var f := Split(s, '-');
    if |f| == 3 {
      ShapesCases(f[0], f[1], f[2]);
      DateAlternativesMeaning(f[0], f[1], f[2]);
    }
  }

  /** A date written from its three fields is valid as the calendar says. */
  lemma ValidDateOf(y: string, m: string, d: string)
    requires YearField(y) && MonthField(m) && DayField(d)
    ensures CheckDate(y + "-" + m + "-" + d) <==> Decimal(d) <= DaysInMonth(Decimal(y), Decimal(m))
  {
    var s := y + "-" + m + "-" + d;
    ThreeFields(y, m, d);
    CheckDateAccepts(s);
    assert CheckDate(s) <==> ValidDate(s);
  }

  /** February 29th passes only in leap years. */
  lemma CheckDateLeapDay(y: string, m: string)
    requires YearField(y) && MonthField(m) && Decimal(m) == 2
    ensures CheckDate(y + "-" + m + "-29") <==> IsLeapYear(Decimal(y))
  {
    DecimalOfTwo("29");
    assert y + "-" + m + "-29" == y + "-" + m + "-" + "29";
    ValidDateOf(y, m, "29");
  }

  /** February 30th never passes. */
  lemma CheckDateFebruaryThirtieth(y: string, m: string)
    requires YearField(y) && MonthField(m) && Decimal(m) == 2
    ensures !CheckDate(y + "-" + m + "-30")
  {
    DecimalOfTwo("30");
    assert y + "-" + m + "-30" == y + "-" + m + "-" + "30";
    ValidDateOf(y, m, "30");
  }

  /** The 31st of a 30-day month never passes. */
  lemma CheckDateShortMonth(y: string, m: string)
    requires YearField(y) && MonthField(m) && Decimal(m) in {4, 6, 9, 11}
    ensures !CheckDate(y + "-" + m + "-31")
  {
    DecimalOfTwo("31");
    assert y + "-" + m + "-31" == y + "-" + m + "-" + "31";
    ValidDateOf(y, m, "31");
  }

  lemma ThreeFields(y: string, m: string, d: string)
    requires AllDigits(y) && AllDigits(m) && AllDigits(d)
    ensures Split(y + "-" + m + "-" + d, '-') == [y, m, d]
  {
    assert '-' !in y && '-' !in m && '-' !in d;
    assert y + "-" + m + "-" + d == y + ['-'] + (m + ['-'] + d);
    SplitAfter(y, '-', m + ['-'] + d);
    SplitAfter(m, '-', d);
  }

  /** Every class of the date pattern holds digits only. */
  lemma DatePatternDigits()
    ensures Within(YearPattern, IsDigit)
    ensures Within(Month31Pattern, IsDigit) && Within(Month30Pattern, IsDigit) && Within(FebPattern, IsDigit)
    ensures Within(Day31Pattern, IsDigit) && Within(Day30Pattern, IsDigit) && Within(Day28Pattern, IsDigit)
    ensures Within(Day29Pattern, IsDigit)
  {
    YearDigitsOnly();
    MonthDigitsOnly();
    DayDigitsOnly();
  }

  lemma YearDigitsOnly()
    ensures Within(YearPattern, IsDigit)
  {
    CharDigit('1');
    ClassDigits(EightNine); ClassDigits(TwoToNine); ClassDigits(IsDigit);
    assert Within(Cat(Class(EightNine), Exactly(Digit, 2)), IsDigit);
    assert Within(Cat(Char('1'), Cat(Class(EightNine), Exactly(Digit, 2))), IsDigit);
    assert Within(Cat(Class(TwoToNine), Exactly(Digit, 3)), IsDigit);
  }

  lemma MonthDigitsOnly()
    ensures Within(Month31Pattern, IsDigit) && Within(Month30Pattern, IsDigit) && Within(FebPattern, IsDigit)
  {
    CharDigit('0'); CharDigit('2');
    ClassDigits(Month31Digit); ClassDigits(Month30Digit);
    StrDigits("10"); StrDigits("11"); StrDigits("12");
    assert Within(Opt(Char('0')), IsDigit);
    assert Within(Alt(Str("12"), Cat(Opt(Char('0')), Class(Month31Digit))), IsDigit);
  }

  lemma DayDigitsOnly()
    ensures Within(Day31Pattern, IsDigit) && Within(Day30Pattern, IsDigit) && Within(Day28Pattern, IsDigit)
    ensures Within(Day29Pattern, IsDigit)
  {
    CharDigit('0'); CharDigit('1'); CharDigit('2'); CharDigit('3');
    ClassDigits(ZeroOne); ClassDigits(OneTwo); ClassDigits(NonZeroDigit); ClassDigits(ZeroToEight); ClassDigits(IsDigit);
    StrDigits("29"); StrDigits("30");
    assert Within(LowDay, IsDigit) by { assert Within(Opt(Char('0')), IsDigit); }
    assert Within(Alt(Cat(Class(OneTwo), Digit), LowDay), IsDigit);
    assert Within(Alt(Cat(Char('1'), Digit), LowDay), IsDigit);
  }

  lemma LeapShapeDigitsOnly()
    ensures Within(Leap1, IsDigit) && Within(Leap2, IsDigit) && Within(Leap3, IsDigit) && Within(Leap4, IsDigit)
    ensures Within(Leap5, IsDigit) && Within(Leap6, IsDigit) && Within(Leap7, IsDigit) && Within(Leap8, IsDigit)
  {
    CharDigit('0'); CharDigit('1');
    ClassDigits(EvenNonZero); ClassDigits(ZeroFourEight); ClassDigits(OddFromThree); ClassDigits(TwoSix);
    ClassDigits(EightNine); ClassDigits(FourEight); ClassDigits(TwoToNine); ClassDigits(IsDigit);
    ClassDigits(OddDigit);
  }

  lemma ClassDigits(q: char -> bool)
    requires forall c :: q(c) ==> IsDigit(c)
    ensures Within(Class(q), IsDigit)
  {
  }

  lemma CharDigit(c: char)
    requires IsDigit(c)
    ensures Within(Char(c), IsDigit)
  {
  }

  lemma {:induction false} StrDigits(w: string)
    requires AllDigits(w)
    ensures Within(Str(w), IsDigit)
  {
    if w != [] {
      CharDigit(w[0]);
      StrDigits(w[1..]);
    }
  }
}
