/** `formatTime` of the player page (static/js/radio.js): a number of
    seconds rendered as `M:SS`, or `H:M:SS` from one hour on.  JavaScript's
    operators are written out: `%` keeps the sign of the dividend, and
    `Math.floor(a / b)` rounds down. */
module Radio {
  import opened Common

  /** A JavaScript number as `formatTime` receives it: NaN, or a whole
      number of seconds. */
  datatype Seconds = NaN | Whole(n: int)

  /** JavaScript's `a % b` for a positive divisor. */
  function JsRem(a: int, b: int): (r: int)
    requires b > 0
    ensures a >= 0 ==> r == a % b
    ensures a < 0 ==> -b < r <= 0
    ensures (a - r) % b == 0
  {
    if a >= 0 then
      MultipleRem(a / b, b);
      assert a - a % b == (a / b) * b;
      a % b
    else
      var q, m := (-a) / b, (-a) % b;
      assert -a == q * b + m;
      MultipleRem(-q, b);
      assert a + m == (-q) * b;
      -m
  }

  /** A multiple of a positive divisor leaves no remainder. */
  lemma MultipleRem(q: int, b: int)
    requires b > 0
    ensures (q * b) % b == 0
  {
    var k, r := (q * b) / b, (q * b) % b;
    assert q * b == k * b + r;
    assert r == (q - k) * b;
    MultipleBound(q - k, b);
  }

  /** A non-zero multiple is at least the divisor away from zero. */
  lemma MultipleBound(d: int, b: int)
    requires b > 0
    ensures d >= 1 ==> d * b >= b
    ensures d <= -1 ==> d * b <= -b
  {
    assert d * b - b == (d - 1) * b;
    assert d * b + b == (d + 1) * b;
  }

  /** `Math.floor(a / b)` for a positive divisor; Dafny's `/` already
      rounds down when the divisor is positive. */
  function FloorDiv(a: int, b: int): (q: int)
    requires b > 0
    ensures b * q <= a < b * q + b
  {
    a / b
  }

  predicate IsDigit(c: char) {
    '0' <= c <= '9'
  }

  predicate AllDigits(s: string) {
    |s| >= 1 && forall i :: 0 <= i < |s| ==> IsDigit(s[i])
  }

  function DigitChar(d: nat): (c: char)
    requires d < 10
    ensures IsDigit(c)
  {
    ('0' as int + d) as char
  }

  /** `n.toString()` for a non-negative integer. */
  function Digits(n: nat): (s: string)
    ensures AllDigits(s)
    ensures |s| == 1 <==> n < 10
  {
    if n < 10 then [DigitChar(n)] else Digits(n / 10) + [DigitChar(n % 10)]
  }

  /** `n.toString()` for any integer. */
  function IntToString(n: int): string {
    if n < 0 then "-" + Digits(-n) else Digits(n)
  }

  /** `s.padStart(2, '0')`. */
  function PadStart2(s: string): (p: string)
    ensures |p| == if |s| < 2 then 2 else |s|
    ensures EndsWith(p, s)
    ensures p[..|p| - |s|] == "00"[..|p| - |s|]
  {
    if |s| == 0 then "00" else if |s| == 1 then "0" + s else s
  }

  /** The three fields `formatTime` computes. */
  datatype Clock = Clock(hours: int, mins: int, secs: int)

  function Fields(n: int): Clock {
    Clock(FloorDiv(n, 3600), FloorDiv(JsRem(n, 3600), 60), JsRem(n, 60))
  }

  /** `formatTime(seconds)`. */
  function FormatTime(x: Seconds): string {
    match x
    case NaN => "0:00"
    case Whole(n) => FormatClock(Fields(n))
  }

  /** The string `formatTime` assembles from its three fields. */
  function FormatClock(c: Clock): string {
    var secsFormatted := PadStart2(IntToString(c.secs));
    if c.hours > 0 then IntToString(c.hours) + ":" + IntToString(c.mins) + ":" + secsFormatted
    else IntToString(c.mins) + ":" + secsFormatted
  }

  /** For a non-negative count the fields are the hours, minutes and
      seconds of that count. */
  lemma FieldsDecompose(n: nat)
    ensures var c := Fields(n);
      && c.hours >= 0 && 0 <= c.mins < 60 && 0 <= c.secs < 60
      && c.hours * 3600 + c.mins * 60 + c.secs == n
      && (c.hours > 0 <==> n >= 3600)
  {
    var h := n / 3600;
    var r := n % 3600;
    var m := r / 60;
    var s := r % 60;
    assert n == 3600 * h + r;
    assert r == 60 * m + s;
    assert n == 60 * (60 * h + m) + s;
    assert n % 60 == s;
  }

  // ---------------------------------------------------------------------------
  // Reading a clock string back

  /** The value of a decimal digit string. */
  function DigitsValue(s: string): nat
    requires forall i :: 0 <= i < |s| ==> IsDigit(s[i])
  {
    if s == [] then 0
    else
      assert IsDigit(s[|s| - 1]);
      DigitsValue(s[..|s| - 1]) * 10 + (s[|s| - 1] as int - '0' as int)
  }

  /** The ':'-separated fields of a string. */
  function SplitColons(s: string): (parts: seq<string>)
    ensures |parts| >= 1
    decreases |s|
  {
    var k := FirstIndexOf(s, ':');
    if k == |s| then [s] else [s[..k]] + SplitColons(s[k + 1..])
  }

  /** The number of seconds a `M:SS` or `H:M:SS` string denotes. */
  function ParseClock(s: string): Option<nat> {
    ClockValue(SplitColons(s))
  }

  /** The number of seconds two or three ':'-separated fields denote. */
  function ClockValue(parts: seq<string>): Option<nat> {
    if (|parts| == 2 || |parts| == 3) && forall k :: 0 <= k < |parts| ==> AllDigits(parts[k]) then
      if |parts| == 2 then Some(DigitsValue(parts[0]) * 60 + DigitsValue(parts[1]))
      else Some(DigitsValue(parts[0]) * 3600 + DigitsValue(parts[1]) * 60 + DigitsValue(parts[2]))
    else None
  }

  lemma {:induction false} DigitsRoundTrip(n: nat)
    ensures DigitsValue(Digits(n)) == n
  {
    if n >= 10 {
      var s := Digits(n);
      assert s[..|s| - 1] == Digits(n / 10);
      DigitsRoundTrip(n / 10);
    }
  }

  /** The seconds field: always two digits, with the value it pads. */
  lemma SecondsField(x: nat)
    requires x < 60
    ensures var p := PadStart2(Digits(x));
      |p| == 2 && AllDigits(p) && DigitsValue(p) == x
  {
    var p := PadStart2(Digits(x));
    DigitsRoundTrip(x);
    if x < 10 {
      assert p == "0" + Digits(x);
      assert p[..1] == "0";
    } else {
      assert Digits(x) == Digits(x / 10) + [DigitChar(x % 10)];
    }
  }

  lemma SplitColonsNone(s: string)
    requires AllDigits(s)
    ensures SplitColons(s) == [s]
  {
  }

  lemma SplitColonsCons(a: string, b: string)
    requires AllDigits(a)
    ensures SplitColons(a + ":" + b) == [a] + SplitColons(b)
  {
    var s := a + ":" + b;
    assert s[|a|] == ':';
    assert FirstIndexOf(s, ':') == |a| by {
      var k := FirstIndexOf(s, ':');
      assert forall j :: 0 <= j < |a| ==> s[j] == a[j];
    }
    assert s[..|a|] == a && s[|a| + 1..] == b;
  }

  /** For a non-negative count every field prints without a sign. */
  lemma FormatTimeOfCount(n: nat)
    ensures var c := Fields(n);
      FormatTime(Whole(n)) ==
        if n >= 3600 then Digits(c.hours) + ":" + Digits(c.mins) + ":" + PadStart2(Digits(c.secs))
        else Digits(c.mins) + ":" + PadStart2(Digits(c.secs))
  {
    FieldsDecompose(n);
    FormatClockDigits(Fields(n));
  }

  lemma ParseTwoFields(ms: string, ss: string, m: nat, x: nat)
    requires AllDigits(ms) && AllDigits(ss)
    requires DigitsValue(ms) == m && DigitsValue(ss) == x
    ensures SplitColons(ms + ":" + ss) == [ms, ss]
    ensures ParseClock(ms + ":" + ss) == Some(m * 60 + x)
  {
    SplitColonsNone(ss);
    SplitColonsCons(ms, ss);
    ClockValueOfTwo(ms, ss, m, x);
  }

  /** Two digit fields denote minutes and seconds. */
  lemma ClockValueOfTwo(ms: string, ss: string, m: nat, x: nat)
    requires AllDigits(ms) && AllDigits(ss)
    requires DigitsValue(ms) == m && DigitsValue(ss) == x
    ensures ClockValue([ms, ss]) == Some(m * 60 + x)
  {
    var parts := [ms, ss];
    assert parts[0] == ms && parts[1] == ss;
  }

  /** Three digit fields denote hours, minutes and seconds. */
  lemma ClockValueOfThree(hs: string, ms: string, ss: string, h: nat, m: nat, x: nat)
    requires AllDigits(hs) && AllDigits(ms) && AllDigits(ss)
    requires DigitsValue(hs) == h && DigitsValue(ms) == m && DigitsValue(ss) == x
    ensures ClockValue([hs, ms, ss]) == Some(h * 3600 + m * 60 + x)
  {
    var parts := [hs, ms, ss];
    assert parts[0] == hs && parts[1] == ms && parts[2] == ss;
  }

  lemma ParseThreeFields(hs: string, ms: string, ss: string, h: nat, m: nat, x: nat)
    requires AllDigits(hs) && AllDigits(ms) && AllDigits(ss)
    requires DigitsValue(hs) == h && DigitsValue(ms) == m && DigitsValue(ss) == x
    ensures SplitColons(hs + ":" + ms + ":" + ss) == [hs, ms, ss]
    ensures ParseClock(hs + ":" + ms + ":" + ss) == Some(h * 3600 + m * 60 + x)
  {
    Regroup(hs, ms, ss);
    SplitColonsNone(ss);
    SplitColonsCons(ms, ss);
    SplitColonsCons(hs, ms + ":" + ss);
    ClockValueOfThree(hs, ms, ss, h, m, x);
  }

  lemma Regroup(a: string, b: string, c: string)
    ensures a + ":" + b + ":" + c == a + ":" + (b + ":" + c)
  {
  }

  /** A `M:SS` string built from a minutes and a seconds field. */
  lemma ShortClockString(m: nat, x: nat)
    requires x < 60
    ensures var t := Digits(m) + ":" + PadStart2(Digits(x));
      && |SplitColons(t)| == 2 && |SplitColons(t)[1]| == 2
      && ParseClock(t) == Some(m * 60 + x)
  {
    DigitsRoundTrip(m);
    SecondsField(x);
    ParseTwoFields(Digits(m), PadStart2(Digits(x)), m, x);
  }

  /** A `H:M:SS` string built from three fields. */
  lemma LongClockString(h: nat, m: nat, x: nat)
    requires x < 60
    ensures var t := Digits(h) + ":" + Digits(m) + ":" + PadStart2(Digits(x));
      && |SplitColons(t)| == 3 && |SplitColons(t)[2]| == 2
      && ParseClock(t) == Some(h * 3600 + m * 60 + x)
  {
    DigitsRoundTrip(h);
    DigitsRoundTrip(m);
    SecondsField(x);
    ParseThreeFields(Digits(h), Digits(m), PadStart2(Digits(x)), h, m, x);
  }

  /** The string `formatTime` assembles from fields without a sign. */
  lemma FormatClockDigits(c: Clock)
    requires c.hours >= 0 && c.mins >= 0 && c.secs >= 0
    ensures FormatClock(c) ==
      if c.hours > 0 then Digits(c.hours) + ":" + Digits(c.mins) + ":" + PadStart2(Digits(c.secs))
      else Digits(c.mins) + ":" + PadStart2(Digits(c.secs))
  {
    assert IntToString(c.hours) == Digits(c.hours);
    assert IntToString(c.mins) == Digits(c.mins);
    assert IntToString(c.secs) == Digits(c.secs);
  }

  /** From one hour on, the fields can be read back from the string they
      make, and the seconds field has two digits. */
  lemma LongClockRoundTrip(h: nat, m: nat, x: nat)
    requires h > 0 && x < 60
    ensures var t := FormatClock(Clock(h, m, x));
      && |SplitColons(t)| == 3 && |SplitColons(t)[2]| == 2
      && ParseClock(t) == Some(h * 3600 + m * 60 + x)
  {
    FormatClockDigits(Clock(h, m, x));
    LongClockString(h, m, x);
  }

  /** Below one hour, likewise with two fields. */
  lemma ShortClockRoundTrip(m: nat, x: nat)
    requires x < 60
    ensures var t := FormatClock(Clock(0, m, x));
      && |SplitColons(t)| == 2 && |SplitColons(t)[1]| == 2
      && ParseClock(t) == Some(m * 60 + x)
  {
    FormatClockDigits(Clock(0, m, x));
    ShortClockString(m, x);
  }

  /** A count split into unsigned fields, hours present exactly from one
      hour on, is read back from the string those fields make. */
  lemma CountRoundTrip(n: nat, h: nat, m: nat, x: nat)
    requires x < 60 && h * 3600 + m * 60 + x == n && (h > 0 <==> n >= 3600)
    ensures var parts := SplitColons(FormatClock(Clock(h, m, x)));
      && (n >= 3600 ==> |parts| == 3 && |parts[2]| == 2)
      && (n < 3600 ==> |parts| == 2 && |parts[1]| == 2)
      && ParseClock(FormatClock(Clock(h, m, x))) == Some(n)
  {
    if h > 0 {
      assert n >= 3600;
      LongClockRoundTrip(h, m, x);
    } else {
      assert n < 3600 && Clock(h, m, x) == Clock(0, m, x);
      ShortClockRoundTrip(m, x);
    }
  }

  /** `formatTime` on a non-negative count can be read back: it has three
      fields from one hour on and two below, its seconds field has exactly
      two digits, and the fields denote the count. */
  lemma FormatTimeRoundTrip(n: nat)
    ensures var parts := SplitColons(FormatTime(Whole(n)));
      && (n >= 3600 ==> |parts| == 3 && |parts[2]| == 2)
      && (n < 3600 ==> |parts| == 2 && |parts[1]| == 2)
      && ParseClock(FormatTime(Whole(n))) == Some(n)
  {
    FieldsDecompose(n);
    var c := Fields(n);
    assert FormatTime(Whole(n)) == FormatClock(Clock(c.hours, c.mins, c.secs));
    CountRoundTrip(n, c.hours, c.mins, c.secs);
  }

  /** From one hour on, minutes are not padded: 3665 renders as `1:1:05`. */
  lemma FormatTimeHours()
    ensures FormatTime(Whole(3665)) == "1:1:05"
  {
    FormatTimeOfCount(3665);
    assert Fields(3665) == Clock(1, 1, 5);
    assert Digits(1) == "1" && Digits(5) == "5";
  }

  /** NaN renders as `0:00`, and below one hour there is no hours field. */
  lemma FormatTimeShort()
    ensures FormatTime(NaN) == "0:00"
    ensures FormatTime(Whole(59)) == "0:59"
    ensures FormatTime(Whole(600)) == "10:00"
  {
    FormatTimeOfCount(59);
    assert Fields(59) == Clock(0, 0, 59);
    assert Digits(0) == "0";
    assert Digits(59) == "59" by { assert Digits(5) == "5"; }
    FormatTimeOfCount(600);
    assert Fields(600) == Clock(0, 10, 0);
    assert Digits(10) == "10" by { assert Digits(1) == "1"; }
  }

  /** A negative count (never a playback position) keeps JavaScript's
      signs: `%` follows the dividend and `Math.floor` rounds down. */
  lemma FormatTimeNegative()
    ensures FormatTime(Whole(-30)) == "-1:-30"
  {
    assert Fields(-30) == Clock(-1, -1, -30);
    assert Digits(1) == "1";
    assert Digits(30) == "30" by { assert Digits(3) == "3"; }
    assert IntToString(-30) == "-30";
  }
}
