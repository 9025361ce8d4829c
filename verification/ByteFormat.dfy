/**
  Byte counts as text. Python divides the integer by a power of two, which rounds it to a
  double, and prints that double with two decimals; both roundings are half-to-even and
  both are modelled. Magnitudes are in hundredths of a byte.
 */
module ByteFormat {
  import opened Wrappers
  import opened Text
  import opened Numbers

  datatype Unit = Unit(prefix: string, k: nat)

  const KI: nat := 1024
  const MI: nat := 1048576
  const GI: nat := 1073741824
  const TI: nat := 1099511627776
  const PI: nat := 1125899906842624

  /** The table that is searched, largest unit first. */
  const UNITS: seq<Unit> := [Unit("Pi", PI), Unit("Ti", TI), Unit("Gi", GI), Unit("Mi", MI), Unit("ki", KI)]

  /** The double written 0.9 is this numerator over `TWO_53`. */
  const NINE_TENTHS: nat := 8106479329266893
  const TWO_53: nat := 9007199254740992
  const TWO_52: nat := 4503599627370496
  const TWO_60: nat := 1152921504606846976

  /** `a / b` rounded to the nearest integer, ties to even. */
  function HalfEven(a: nat, b: nat): nat
    requires b > 0
  {
    var whole, twice := a / b, 2 * (a % b);
    if twice < b || (twice == b && whole % 2 == 0) then whole else whole + 1
  }

  /** The distance between neighbouring doubles around `n`, for the naturals. */
  function Spacing(n: nat): (g: nat)
    ensures g > 0
  {
    if n < TWO_53 then 1 else 2 * Spacing(n / 2)
  }

  /** The double nearest to `n`. */
  function ToDouble(n: nat): nat {
    HalfEven(n, Spacing(n)) * Spacing(n)
  }

  /** `n / PI` is too large for a double: Python raises OverflowError. */
  predicate Overflows(n: nat) {
    ToDouble(n) >= Pow2(1074)
  }

  /** Position of the first unit, from `i` on, that `n` reaches. */
  function Chosen(n: nat, i: nat): (j: nat)
    requires i <= |UNITS|
    ensures i <= j <= |UNITS|
    decreases |UNITS| - i
  {
    if i == |UNITS| || n * TWO_53 >= NINE_TENTHS * UNITS[i].k then i else Chosen(n, i + 1)
  }

  function TwoDigits(x: nat): string
    requires x < 100
  {
    ['0' + (x / 10) as char, '0' + (x % 10) as char]
  }

  /** `f"{hundredths / 100:.2f} {prefix}B"` */
  function Scaled(hundredths: nat, prefix: string): string {
    Dec(hundredths / 100) + "." + TwoDigits(hundredths % 100) + " " + prefix + "B"
  }

  function Hundredths(n: nat, k: nat): nat
    requires k > 0
  {
    HalfEven(100 * ToDouble(n), k)
  }

  /** `format_bytes`; `None` is the OverflowError. */
  function Format(n: nat): Option<string> {
    var i := Chosen(n, 0);
    if i == |UNITS| then Some(Dec(n) + " B")
    else if Overflows(n) && i == 0 then None
    else Some(Scaled(Hundredths(n, UNITS[i].k), UNITS[i].prefix))
  }

  method FormatBytes(n: nat) returns (text: Option<string>)
    ensures text == Format(n)
  {
    for i := 0 to |UNITS|
      invariant Chosen(n, 0) == Chosen(n, i)
    {
      var Unit(prefix, k) := UNITS[i];
      if n * TWO_53 >= NINE_TENTHS * k {
        if i == 0 && Overflows(n) {
          return None;
        }
        return Some(Scaled(Hundredths(n, k), prefix));
      }
    }
    return Some(Dec(n) + " B");
  }

  // ---- What the text says ----

  function FactorOf(prefix: string, i: nat): Option<nat>
    requires i <= |UNITS|
    decreases |UNITS| - i
  {
    if i == |UNITS| then None
    else if UNITS[i].prefix == prefix then Some(UNITS[i].k)
    else FactorOf(prefix, i + 1)
  }

  /** Reads a printed size back, in hundredths of a byte. */
  function Read(s: string): Option<nat> {
    var i := Find(s, '.');
    if i < |s| then ReadScaled(s[..i], s[i + 1..])
    else if EndsWith(s, " B") && AllDigits(s[..|s| - 2]) then Some(100 * ParseDec(s[..|s| - 2]))
    else None
  }

  /** What is before and after the point. */
  function ReadScaled(whole: string, rest: string): Option<nat> {
    if |rest| != 6 || !AllDigits(whole) || !AllDigits(rest[..2]) || rest[2] != ' ' || rest[5] != 'B' then None
    else
      var hundredths: nat := 100 * ParseDec(whole) + ParseDec(rest[..2]);
      match FactorOf(rest[3..5], 0)
      case None => None
      case Some(k) => Some(hundredths * k)
  }

  /** What `Format` shows for `n`, in hundredths of a byte. */
  function Shown(n: nat): nat {
    var i := Chosen(n, 0);
    if i == |UNITS| then 100 * n else Hundredths(n, UNITS[i].k) * UNITS[i].k
  }

  lemma TwoDigitsRead(x: nat)
    requires x < 100
    ensures |TwoDigits(x)| == 2 && AllDigits(TwoDigits(x)) && ParseDec(TwoDigits(x)) == x
  {
    var two := TwoDigits(x);
    var tens := two[..1];
    assert tens[..0] == "" && DigitValue(tens[0]) == x / 10 && DigitValue(two[1]) == x % 10;
    assert ParseDec(tens) == x / 10;
  }

  lemma RestReads(whole: string, rest: string, cents: nat)
    requires AllDigits(whole) && cents < 100 && |rest| == 6
    requires rest[..2] == TwoDigits(cents) && rest[2] == ' ' && rest[5] == 'B'
    ensures ReadScaled(whole, rest) ==
            match FactorOf(rest[3..5], 0)
            case None => None
            case Some(k) => Some((100 * ParseDec(whole) + cents) * k)
  {
    TwoDigitsRead(cents);
    hide ParseDec, FactorOf, TwoDigits;
  }

  lemma ScaledReads(h: nat, i: nat)
    requires i < |UNITS|
    ensures Read(Scaled(h, UNITS[i].prefix)) == Some(h * UNITS[i].k)
  {
    var whole, prefix := Dec(h / 100), UNITS[i].prefix;
    var s := Scaled(h, prefix);
    var rest := TwoDigits(h % 100) + " " + prefix + "B";
    assert s == whole + ['.'] + rest;
    assert '.' !in whole;
    FindFirst(whole, '.', rest);
    DecRoundTrip(h / 100);
    assert FactorOf(prefix, 0) == Some(UNITS[i].k);
    hide Scaled, Dec, ParseDec, FactorOf, Find;
    assert rest[..2] == TwoDigits(h % 100) && rest[3..5] == prefix;
    RestReads(whole, rest, h % 100);
    assert s[..|whole|] == whole && s[|whole| + 1..] == rest;
  }

  lemma PlainReads(n: nat)
    ensures Read(Dec(n) + " B") == Some(100 * n)
  {
    var s := Dec(n) + " B";
    assert '.' !in s;
    assert s[..|s| - 2] == Dec(n);
    assert s[|s| - 2..] == " B";
    DecRoundTrip(n);
  }

  /** The text determines the magnitude: printing and reading back gives `Shown`. */
  lemma ReadsAsShown(n: nat)
    requires Format(n).Some?
    ensures Read(Format(n).value) == Some(Shown(n))
  {
    var i := Chosen(n, 0);
    if i == |UNITS| {
      PlainReads(n);
    } else {
      ScaledReads(Hundredths(n, UNITS[i].k), i);
    }
  }

  // ---- Rounding ----

  /** The rounding error is at most half. */
  lemma HalfEvenNear(a: nat, b: nat)
    requires b > 0
    ensures 2 * a - b <= 2 * (HalfEven(a, b) * b) <= 2 * a + b
  {
    assert a == a / b * b + a % b;
    assert (a / b + 1) * b == a / b * b + b;
  }

  lemma QuotientBelow(q: nat, r: nat, b: nat, c: nat)
    requires r < b
    ensures q * b + r <= c * b ==> q < c || (q == c && r == 0)
    ensures q * b + r >= c * b ==> q >= c
  {
    if q < c {
      Times(q + 1, c, b);
    }
    if q > c {
      Times(c + 1, q, b);
    }
  }

  /** Rounding never passes a multiple. */
  lemma HalfEvenBelow(a: nat, b: nat, c: nat)
    requires b > 0
    ensures a <= c * b ==> HalfEven(a, b) <= c
    ensures a >= c * b ==> HalfEven(a, b) >= c
  {
    assert a == a / b * b + a % b;
    QuotientBelow(a / b, a % b, b, c);
  }

  /** Between two neighbours the even one is taken. */
  lemma TiesToEven(a: nat, b: nat, c: nat)
    requires b > 0 && 2 * a == (2 * c + 1) * b
    ensures HalfEven(a, b) == if c % 2 == 0 then c else c + 1
  {
    assert a == a / b * b + a % b;
    TieQuotient(a, b, a / b, a % b, c);
  }

  lemma TieQuotient(a: nat, b: nat, q: nat, r: nat, c: nat)
    requires a == q * b + r && r < b && 2 * a == (2 * c + 1) * b
    ensures q == c && 2 * r == b
  {
    assert (2 * c + 1) * b == c * (2 * b) + b;
    assert 2 * a == q * (2 * b) + 2 * r;
    QuotientsUnique(q, 2 * r, c, b, 2 * b);
  }

  lemma HalfEvenMonotone(a: nat, b: nat, n: nat)
    requires n > 0 && a <= b
    ensures HalfEven(a, n) <= HalfEven(b, n)
  {
    QuotientsMonotone(a / n, a % n, b / n, b % n, n);
  }

  /** Beyond 2^53 a natural has its 53 leading bits above the spacing. */
  lemma {:induction false} SpacingFits(n: nat)
    ensures n < TWO_53 * Spacing(n)
    ensures n < TWO_53 || TWO_52 * Spacing(n) <= n
  {
    if n >= TWO_53 {
      SpacingFits(n / 2);
    }
  }

  lemma {:induction false} SpacingGrows(n: nat, m: nat)
    requires n <= m
    ensures Spacing(n) == Spacing(m) || 2 * Spacing(n) <= Spacing(m)
  {
    if n >= TWO_53 {
      SpacingGrows(n / 2, m / 2);
    } else if m >= TWO_53 {
      assert Spacing(m) == 2 * Spacing(m / 2);
    }
  }

  lemma SmallSpacing(n: nat, m: nat)
    requires n <= m && Spacing(n) != Spacing(m)
    ensures m >= TWO_53
  {
  }

  lemma DoubleBelow(n: nat)
    ensures ToDouble(n) <= TWO_53 * Spacing(n)
  {
    var g := Spacing(n);
    SpacingFits(n);
    hide HalfEven, Spacing;
    HalfEvenBelow(n, g, TWO_53);
    Times(HalfEven(n, g), TWO_53, g);
  }

  lemma DoubleAbove(n: nat)
    requires n >= TWO_53
    ensures TWO_52 * Spacing(n) <= ToDouble(n)
  {
    var g := Spacing(n);
    SpacingFits(n);
    hide HalfEven, Spacing;
    HalfEvenBelow(n, g, TWO_52);
    Times(TWO_52, HalfEven(n, g), g);
  }

  lemma DoublesAreMonotone(n: nat, m: nat)
    requires n <= m
    ensures ToDouble(n) <= ToDouble(m)
  {
    hide ToDouble, Spacing;
    SpacingGrows(n, m);
    if Spacing(n) == Spacing(m) {
      SameSpacing(n, m);
    } else {
      SmallSpacing(n, m);
      DoubleBelow(n);
      DoubleAbove(m);
    }
  }

  lemma SameSpacing(n: nat, m: nat)
    requires n <= m && Spacing(n) == Spacing(m)
    ensures ToDouble(n) <= ToDouble(m)
  {
    var g := Spacing(n);
    HalfEvenMonotone(n, m, g);
    hide HalfEven, Spacing;
    Times(HalfEven(n, g), HalfEven(m, g), g);
  }

  lemma SmallIsExact(n: nat)
    requires n <= TWO_53
    ensures ToDouble(n) == n
  {
  }

  // ---- UNITS ----

  /** The factor at position `i`, and 0 for a plain count of bytes. */
  function Factor(i: nat): nat {
    if i < |UNITS| then UNITS[i].k else 0
  }

  /** Against the units the double 0.9 decides like nine tenths. */
  lemma ThresholdIsNineTenths(n: nat, i: nat)
    requires i < |UNITS|
    ensures n * TWO_53 >= NINE_TENTHS * UNITS[i].k <==> 10 * n >= 9 * UNITS[i].k
  {
  }

  lemma ChosenFits(n: nat)
    ensures var i := Chosen(n, 0);
            (i < |UNITS| ==> 10 * n >= 9 * UNITS[i].k) && (i > 0 ==> 10 * n < 9 * UNITS[i - 1].k)
  {
    forall i | 0 <= i < |UNITS|
      ensures n * TWO_53 >= NINE_TENTHS * UNITS[i].k <==> 10 * n >= 9 * UNITS[i].k
    {
      ThresholdIsNineTenths(n, i);
    }
  }

  lemma ChosenMonotone(n: nat, m: nat)
    requires n <= m
    ensures Chosen(m, 0) <= Chosen(n, 0)
  {
  }

  lemma HundredthsMonotone(n: nat, m: nat, k: nat)
    requires k > 0 && n <= m
    ensures Hundredths(n, k) <= Hundredths(m, k)
  {
    DoublesAreMonotone(n, m);
    HalfEvenMonotone(100 * ToDouble(n), 100 * ToDouble(m), k);
  }

  /** In every unit the printed number is at least 0.90, and below the largest unit at most 921.60. */
  lemma UnitBounds(n: nat)
    ensures var i := Chosen(n, 0);
            && (i < |UNITS| ==> Hundredths(n, UNITS[i].k) >= 90)
            && (0 < i < |UNITS| ==> Hundredths(n, UNITS[i].k) <= 92160)
  {
    var i := Chosen(n, 0);
    ChosenFits(n);
    if i < |UNITS| {
      var k := UNITS[i].k;
      SmallIsExact(if n <= TWO_53 then n else TWO_53);
      if n > TWO_53 {
        DoublesAreMonotone(TWO_53, n);
      }
      hide Chosen, ToDouble, HalfEven;
      HalfEvenBelow(100 * ToDouble(n), k, 90);
      HalfEvenBelow(100 * ToDouble(n), k, 92160);
    }
  }

  lemma ShownMonotone(n: nat, m: nat)
    requires n <= m
    ensures Shown(n) <= Shown(m)
  {
    var i, j := Chosen(n, 0), Chosen(m, 0);
    ChosenMonotone(n, m);
    ChosenFits(n);
    UnitBounds(n);
    UnitBounds(m);
    hide Chosen, Hundredths;
    if i == j < |UNITS| {
      HundredthsMonotone(n, m, UNITS[i].k);
      Times(Hundredths(n, UNITS[i].k), Hundredths(m, UNITS[i].k), UNITS[i].k);
    }
    if j < i {
      Times(90, Hundredths(m, UNITS[j].k), UNITS[j].k);
      if i < |UNITS| {
        Times(Hundredths(n, UNITS[i].k), 92160, UNITS[i].k);
      }
    }
  }

  predicate InOrder(a: Option<nat>, b: Option<nat>) {
    a.Some? && b.Some? && a.value <= b.value
  }

  /** Sizes print in order, also across a change of unit, and a printable size has only printable sizes below it. */
  lemma PrintedInOrder(n: nat, m: nat)
    requires n <= m && Format(m).Some?
    ensures Format(n).Some?
    ensures InOrder(Read(Format(n).value), Read(Format(m).value))
  {
    ChosenMonotone(n, m);
    DoublesAreMonotone(n, m);
    ShownMonotone(n, m);
    assert Format(n).Some?;
    ReadsAsShown(n);
    ReadsAsShown(m);
  }

  function Distance(a: int, b: int): nat {
    if a < b then b - a else a - b
  }

  /**
    What is printed is off by at most half a hundredth of its unit, and above 2^53 by half
    the spacing of doubles on top. A hundredth of a byte is the measure here.
   */
  lemma Accuracy(n: nat)
    requires Format(n).Some?
    ensures Read(Format(n).value).Some?
    ensures var extra := if n <= TWO_53 then 0 else 100 * Spacing(n);
            2 * Distance(Read(Format(n).value).value, 100 * n) <= Factor(Chosen(n, 0)) + extra
  {
    ReadsAsShown(n);
    var i := Chosen(n, 0);
    if n <= TWO_53 {
      SmallIsExact(n);
    }
    HalfEvenNear(n, Spacing(n));
    hide Format, Read, Chosen, Spacing, HalfEven;
    if i < |UNITS| {
      HalfEvenNear(100 * ToDouble(n), UNITS[i].k);
    }
  }

  // ---- Width ----

  /** The first size whose text is longer than ten characters, a little below 2^60. */
  const FIRST_WIDE: nat := 1125894277343089729

  lemma DoublesAtFirstWide()
    ensures ToDouble(FIRST_WIDE - 1) == 1125894277343089664
    ensures ToDouble(FIRST_WIDE) == 1125894277343089792
    ensures ToDouble(TWO_60) == TWO_60
  {
    SpacingOfRange(FIRST_WIDE - 1, 7);
    SpacingOfRange(FIRST_WIDE, 7);
    SpacingOfRange(TWO_60, 8);
    hide Spacing;
  }

  lemma AtFirstWide()
    ensures Hundredths(FIRST_WIDE - 1, PI) == 99999
    ensures Hundredths(FIRST_WIDE, PI) == 100000
    ensures Hundredths(TWO_60, PI) == 102400
  {
    DoublesAtFirstWide();
    hide ToDouble;
  }

  lemma {:induction false} SpacingOfRange(n: nat, e: nat)
    requires e > 0 && TWO_52 * Pow2(e) <= n < TWO_53 * Pow2(e)
    ensures Spacing(n) == Pow2(e)
  {
    if e > 1 {
      SpacingOfRange(n / 2, e - 1);
    }
  }

  lemma {:induction false} Pow2Beyond60(e: nat)
    requires e >= 80
    ensures Pow2(e) > TWO_60
  {
    if e > 80 {
      Pow2Beyond60(e - 1);
    } else {
      var ten := e / 8;
      Pow2Ten(ten);
      hide Pow2;
      Pow2Add(ten, ten);
      Pow2Add(2 * ten, 2 * ten);
      Pow2Add(4 * ten, 4 * ten);
    }
  }

  lemma PrintableTo60(n: nat)
    requires n <= TWO_60
    ensures Format(n).Some?
  {
    Pow2Beyond60(1074);
    DoublesAreMonotone(n, TWO_60);
    DoublesAtFirstWide();
    hide Pow2, ToDouble;
    assert !Overflows(n);
  }

  lemma ScaledWidth(h: nat, i: nat)
    requires i < |UNITS|
    ensures |Scaled(h, UNITS[i].prefix)| <= 10 <==> h < 100000
    ensures |Scaled(h, UNITS[i].prefix)| <= 11 <==> h < 1000000
  {
    DecLength(h / 100, 1000, 3);
    DecLength(h / 100, 10000, 4);
  }

  /**
    The text has at most ten characters exactly below `FIRST_WIDE`. The documented bound is
    2^60, but from `FIRST_WIDE` up to there it always has eleven.
   */
  lemma WidthExactly(n: nat)
    requires Format(n).Some?
    ensures |Format(n).value| <= 10 <==> n < FIRST_WIDE
    ensures FIRST_WIDE <= n <= TWO_60 ==> |Format(n).value| == 11
  {
    var i := Chosen(n, 0);
    UnitBounds(n);
    ChosenFits(n);
    AtFirstWide();
    if i == |UNITS| {
      DecLength(n, 1000, 3);
    } else {
      ScaledWidth(Hundredths(n, UNITS[i].k), i);
      if n < FIRST_WIDE {
        HundredthsMonotone(n, FIRST_WIDE - 1, PI);
      } else {
        HundredthsMonotone(FIRST_WIDE, n, PI);
      }
      if n <= TWO_60 {
        HundredthsMonotone(n, TWO_60, PI);
      }
    }
  }

  /** A size is too large exactly when its quotient by the largest unit, as a double, is. */
  lemma OverflowsExactly(n: nat)
    ensures Format(n).None? <==> ToDouble(n) >= Pow2(1024) * PI
  {
    Pow2Add(1024, 50);
    PiIsPow2();
    hide Pow2, ToDouble;
    Pow2Beyond60(1074);
    if Overflows(n) && n <= TWO_53 {
      SmallIsExact(n);
    }
  }

  lemma PiIsPow2()
    ensures Pow2(50) == PI
  {
    hide Pow2;
    FiftyIsPi(10);
  }

  lemma FiftyIsPi(ten: nat)
    requires ten == 10
    ensures Pow2(5 * ten) == PI
  {
    Pow2Ten(ten);
    hide Pow2;
    Pow2Add(ten, ten);
    Pow2Add(2 * ten, 2 * ten);
    Pow2Add(4 * ten, ten);
  }

  /** The nearest number of hundredths is unique. */
  lemma NearestIs(a: nat, b: nat, c: nat)
    requires b > 0 && 2 * a - b < 2 * (c * b) < 2 * a + b
    ensures HalfEven(a, b) == c
  {
    HalfEvenNear(a, b);
    hide HalfEven;
    NearestUnique(HalfEven(a, b), c, a, b);
  }

  lemma NearestUnique(h: nat, c: nat, a: nat, b: nat)
    requires b > 0
    requires 2 * a - b <= 2 * (h * b) <= 2 * a + b
    requires 2 * a - b < 2 * (c * b) < 2 * a + b
    ensures h == c
  {
    if h < c {
      Times(h + 1, c, b);
    }
    if h > c {
      Times(c + 1, h, b);
    }
  }

  /** Up to 2^53 a size prints the hundredths nearest to it, in the unit it reaches nine tenths of. */
  lemma PrintsNearest(n: nat, i: nat, hundredths: nat)
    requires i < |UNITS| && n <= TWO_53
    requires 10 * n >= 9 * UNITS[i].k && (i > 0 ==> 10 * n < 9 * UNITS[i - 1].k)
    requires HalfEven(100 * n, UNITS[i].k) == hundredths
    ensures Format(n) == Some(Scaled(hundredths, UNITS[i].prefix))
  {
    ChosenIs(n, i);
    SmallIsExact(n);
    PrintableTo60(n);
    hide Chosen, ToDouble, HalfEven, Overflows;
  }

  lemma ChosenIs(n: nat, i: nat)
    requires i < |UNITS|
    requires 10 * n >= 9 * UNITS[i].k && (i > 0 ==> 10 * n < 9 * UNITS[i - 1].k)
    ensures Chosen(n, 0) == i
  {
    ChosenFits(n);
  }

  lemma DecShort()
    ensures Dec(1) == "1" && Dec(11) == "11"
  {
    assert Dec(11) == Dec(1) + "1";
  }

  lemma ScaledTexts()
    ensures Scaled(121, "ki") == "1.21 kiB" && Scaled(1177, "Mi") == "11.77 MiB" && Scaled(115, "Gi") == "1.15 GiB"
    ensures Scaled(112, "Ti") == "1.12 TiB" && Scaled(110, "Pi") == "1.10 PiB"
    ensures Scaled(112, "ki") == "1.12 kiB" && Scaled(138, "ki") == "1.38 kiB"
  {
    DecShort();
    hide Dec;
  }

  /** The documented examples, and two ties. */
  lemma DocumentedSizes()
    ensures Format(1) == Some("1 B")
    ensures Format(1234) == Some("1.21 kiB")
    ensures Format(12345678) == Some("11.77 MiB")
    ensures Format(1234567890) == Some("1.15 GiB")
    ensures Format(1234567890000) == Some("1.12 TiB")
    ensures Format(1234567890000000) == Some("1.10 PiB")
    ensures Format(1152) == Some("1.12 kiB") && Format(1408) == Some("1.38 kiB")
  {
    OneByte();
    ScaledTexts();
    hide Format, HalfEven, Scaled;
    NearestIs(123400, KI, 121);
    PrintsNearest(1234, 4, 121);
    NearestIs(1234567800, MI, 1177);
    PrintsNearest(12345678, 3, 1177);
    NearestIs(123456789000, GI, 115);
    PrintsNearest(1234567890, 2, 115);
    NearestIs(123456789000000, TI, 112);
    PrintsNearest(1234567890000, 1, 112);
    NearestIs(123456789000000000, PI, 110);
    PrintsNearest(1234567890000000, 0, 110);
    TiesToEven(115200, KI, 112);
    PrintsNearest(1152, 4, 112);
    TiesToEven(140800, KI, 137);
    PrintsNearest(1408, 4, 138);
  }

  lemma OneByte()
    ensures Format(1) == Some("1 B")
  {
    DecShort();
    ChosenFits(1);
    assert Chosen(1, 0) == |UNITS|;
    hide Dec, Chosen;
    assert Format(1) == Some(Dec(1) + " B") && "1" + " B" == "1 B";
  }
}
