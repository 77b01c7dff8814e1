/** Go's `Time.Format` for the one layout the program uses, "2006-01-02T03-04-05":
    a year of at least four digits, then month, day, HOUR ON THE 12-HOUR CLOCK, minute
    and second, each zero-padded to two digits. The layout has no AM/PM element, so
    the half of the day is lost. */
module TimeFormat {

  /** A wall-clock time as the message's Date header gives it, in the header's own
      zone. */
  datatype Time = Time(year: int, month: nat, day: nat, hour: nat, minute: nat, second: nat)

  /** The ranges Go's `time.Time` guarantees for its fields. */
  predicate Valid(t: Time)
  {
    1 <= t.month <= 12 && 1 <= t.day <= 31 && t.hour < 24 && t.minute < 60 && t.second < 60
  }

  predicate IsDigit(c: char)
  {
    '0' <= c <= '9'
  }

  predicate AllDigits(s: string)
  {
    forall k :: 0 <= k < |s| ==> IsDigit(s[k])
  }

  function DigitChar(d: nat): (c: char)
    requires d < 10
    ensures IsDigit(c) && c as int - '0' as int == d
  {
    ('0' as int + d) as char
  }

  /** The number a string of decimal digits denotes. */
  function Value(s: string): nat
    requires AllDigits(s)
  {
    if s == [] then 0 else 10 * Value(s[..|s| - 1]) + (s[|s| - 1] as int - '0' as int)
  }

  /** The decimal digits of `n`, without leading zeros. */
  function Decimal(n: nat): (s: string)
    ensures 1 <= |s| && AllDigits(s)
    ensures n < 10 ==> |s| == 1
    ensures n < 100 ==> |s| <= 2
    ensures n > 0 ==> s[0] != '0'
  {
    if n < 10 then [DigitChar(n)] else Decimal(n / 10) + [DigitChar(n % 10)]
  }

  lemma {:induction false} ValueOfDecimal(n: nat)
    ensures Value(Decimal(n)) == n
  {
    if n >= 10 {
      ValueOfDecimal(n / 10);
      var s := Decimal(n);
      assert s[..|s| - 1] == Decimal(n / 10);
    }
  }

  function Zeros(k: nat): (s: string)
    ensures |s| == k
    ensures forall i :: 0 <= i < k ==> s[i] == '0'
  {
    if k == 0 then "" else "0" + Zeros(k - 1)
  }

  /** Leading zeros do not change the value of a digit string. */
  lemma {:induction false} ValueSkipsZeros(k: nat, s: string)
    requires AllDigits(s)
    ensures AllDigits(Zeros(k) + s) && Value(Zeros(k) + s) == Value(s)
  {
    if k > 0 {
      var x := Zeros(k - 1) + s;
      ValueSkipsZeros(k - 1, s);
      ValueSkipsZero(x);
      assert Zeros(k) == "0" + Zeros(k - 1);
      assert Zeros(k) + s == "0" + x;
    } else {
      assert Zeros(k) + s == s;
    }
  }

  lemma {:induction false} ValueSkipsZero(s: string)
    requires AllDigits(s)
    ensures AllDigits("0" + s) && Value("0" + s) == Value(s)
    decreases |s|
  {
    var t := "0" + s;
    if s != [] {
      assert t[..|t| - 1] == "0" + s[..|s| - 1];
      ValueSkipsZero(s[..|s| - 1]);
    }
  }

  /** Go's `appendInt(b, n, width)` for a non-negative `n`: the decimal digits of `n`,
      zero-padded on the left to at least `width` characters. */
  function Pad(n: nat, width: nat): (s: string)
    ensures AllDigits(s) && Value(s) == n
    ensures |s| == if |Decimal(n)| < width then width else |Decimal(n)|
  {
    var digits := Decimal(n);
    var zeros := if |digits| < width then width - |digits| else 0;
    ValueOfDecimal(n);
    ValueSkipsZeros(zeros, digits);
    Zeros(zeros) + digits
  }

  /** The "03" element: the hour on a 12-hour clock, where 0 and 12 both read 12. */
  function Hour12(hour: nat): (h: nat)
    ensures 1 <= h <= 12
    ensures h % 12 == hour % 12
  {
    if hour % 12 == 0 then 12 else hour % 12
  }

  /** The "2006" element: a negative year gets a minus sign before its padded digits. */
  function YearText(year: int): string
  {
    if year < 0 then "-" + Pad(-year, 4) else Pad(year, 4)
  }

  /** One two-digit element of the layout with the literal character before it. */
  function Field(lead: char, n: nat): string
  {
    [lead] + Pad(n, 2)
  }

  /** Everything after the year: "-01-02T03-04-05". */
  function ClockText(t: Time): string
  {
    Field('-', t.month) + Field('-', t.day) + Field('T', Hour12(t.hour))
      + Field('-', t.minute) + Field('-', t.second)
  }

  /** `t.Format("2006-01-02T03-04-05")`. */
  function Format(t: Time): string
  {
    YearText(t.year) + ClockText(t)
  }

  /** Two times that read the same on a 12-hour clock face: equal except that the
      hours may differ by twelve. */
  predicate SameReading(t: Time, u: Time)
  {
    t.year == u.year && t.month == u.month && t.day == u.day
      && t.hour % 12 == u.hour % 12 && t.minute == u.minute && t.second == u.second
  }

  lemma Peel(x: string, y: string, x': string, y': string)
    requires x + y == x' + y' && |x| == |x'|
    ensures x == x' && y == y'
  {
    assert x == (x + y)[..|x|] && x' == (x' + y')[..|x|];
    assert y == (x + y)[|x|..] && y' == (x' + y')[|x|..];
  }

  lemma PeelEnd(x: string, y: string, x': string, y': string)
    requires x + y == x' + y' && |y| == |y'|
    ensures x == x' && y == y'
  {
    Peel(x, y, x', y');
  }

  lemma FieldLength(lead: char, n: nat)
    requires n < 100
    ensures |Field(lead, n)| == 3
  {
  }

  lemma {:induction false} FieldInjective(lead: char, n: nat, m: nat)
    requires Field(lead, n) == Field(lead, m)
    ensures n == m
  {
    Peel([lead], Pad(n, 2), [lead], Pad(m, 2));
  }

  lemma {:induction false} ClockTextLength(t: Time)
    requires Valid(t)
    ensures |ClockText(t)| == 15
  {
    FieldLength('-', t.month);
    FieldLength('-', t.day);
    FieldLength('T', Hour12(t.hour));
    FieldLength('-', t.minute);
    FieldLength('-', t.second);
  }

  /** The text after the year determines month, day, minute, second and the hour
      modulo twelve, and nothing more. */
  lemma {:induction false} ClockTextInjective(t: Time, u: Time)
    requires Valid(t) && Valid(u)
    requires ClockText(t) == ClockText(u)
    ensures t.month == u.month && t.day == u.day && t.hour % 12 == u.hour % 12
    ensures t.minute == u.minute && t.second == u.second
  {
    FieldLength('-', t.month); FieldLength('-', u.month);
    FieldLength('-', t.day); FieldLength('-', u.day);
    FieldLength('T', Hour12(t.hour)); FieldLength('T', Hour12(u.hour));
    FieldLength('-', t.minute); FieldLength('-', u.minute);
    FieldLength('-', t.second); FieldLength('-', u.second);
    var a1, b1 := Field('-', t.month), Field('-', u.month);
    var a2, b2 := a1 + Field('-', t.day), b1 + Field('-', u.day);
    var a3, b3 := a2 + Field('T', Hour12(t.hour)), b2 + Field('T', Hour12(u.hour));
    var a4, b4 := a3 + Field('-', t.minute), b3 + Field('-', u.minute);
    PeelEnd(a4, Field('-', t.second), b4, Field('-', u.second));
    PeelEnd(a3, Field('-', t.minute), b3, Field('-', u.minute));
    PeelEnd(a2, Field('T', Hour12(t.hour)), b2, Field('T', Hour12(u.hour)));
    PeelEnd(a1, Field('-', t.day), b1, Field('-', u.day));
    FieldInjective('-', t.month, u.month);
    FieldInjective('-', t.day, u.day);
    FieldInjective('T', Hour12(t.hour), Hour12(u.hour));
    FieldInjective('-', t.minute, u.minute);
    FieldInjective('-', t.second, u.second);
  }

  lemma {:induction false} YearTextInjective(y: int, z: int)
    requires YearText(y) == YearText(z)
    ensures y == z
  {
    var p := Pad(if y < 0 then -y else y, 4);
    var q := Pad(if z < 0 then -z else z, 4);
    assert IsDigit(p[0]) && IsDigit(q[0]);
    if y < 0 && z < 0 {
      Peel("-", p, "-", q);
    }
  }

  /** The formatted text identifies a valid time exactly up to its 12-hour reading:
      two valid times give the same text if and only if they read the same on a
      12-hour clock face. */
  lemma {:induction false} FormatCollidesExactlyOnSameReading(t: Time, u: Time)
    requires Valid(t) && Valid(u)
    ensures Format(t) == Format(u) <==> SameReading(t, u)
  {
    if Format(t) == Format(u) {
      ClockTextLength(t);
      ClockTextLength(u);
      PeelEnd(YearText(t.year), ClockText(t), YearText(u.year), ClockText(u));
      YearTextInjective(t.year, u.year);
      ClockTextInjective(t, u);
    }
    if SameReading(t, u) {
      assert Hour12(t.hour) == Hour12(u.hour);
    }
  }

  lemma DigitsHaveNoSlash(s: string)
    requires AllDigits(s)
    ensures '/' !in s
  {
  }

  /** No formatted time contains a slash, so it is always a single path element. */
  lemma NoSlash(t: Time)
    ensures '/' !in Format(t)
  {
    DigitsHaveNoSlash(Pad(if t.year < 0 then -t.year else t.year, 4));
    DigitsHaveNoSlash(Pad(t.month, 2));
    DigitsHaveNoSlash(Pad(t.day, 2));
    DigitsHaveNoSlash(Pad(Hour12(t.hour), 2));
    DigitsHaveNoSlash(Pad(t.minute, 2));
    DigitsHaveNoSlash(Pad(t.second, 2));
  }
}
