/**
 * The countdown display of the typing-practice component: `formatTime`
 * turns a number of seconds into `MM:SS` using `Math.floor`, JavaScript's
 * `%`, `Number.prototype.toString` and `String.prototype.padStart`.
 * `ParseClock` reads such a string back and is the partner the round-trip
 * lemmas are stated against.
 */
module TimeFormat {
  import opened Options

  predicate IsDigit(c: char) {
    '0' <= c <= '9'
  }

  predicate AllDigits(s: string) {
    forall i :: 0 <= i < |s| ==> IsDigit(s[i])
  }

  function DigitChar(d: nat): (c: char)
    requires d < 10
    ensures IsDigit(c) && c as int == '0' as int + d
  {
    ('0' as int + d) as char
  }

  function DigitValue(c: char): (d: nat)
    requires IsDigit(c)
    ensures d < 10 && DigitChar(d) == c
  {
    c as int - '0' as int
  }

  /** The number a string of decimal digits denotes (most significant digit first). */
  function DigitsValue(s: string): nat
    requires AllDigits(s)
  {
    if s == [] then 0 else DigitsValue(s[..|s| - 1]) * 10 + DigitValue(s[|s| - 1])
  }

  /** `n.toString()` for a non-negative integer: shortest decimal form, no leading zeros. */
  function NatToString(n: nat): (r: string)
    ensures |r| >= 1 && AllDigits(r)
    ensures DigitsValue(r) == n
    ensures r[0] == '0' ==> n == 0
    ensures n < 10 <==> |r| == 1
    ensures n < 100 ==> |r| <= 2
  {
    if n < 10 then [DigitChar(n)]
    else
      var r := NatToString(n / 10) + [DigitChar(n % 10)];
      assert r[..|r| - 1] == NatToString(n / 10);
      r
  }

  /** `i.toString()` for any integer: a minus sign in front of the magnitude when negative. */
  function IntToString(i: int): (r: string)
    ensures i >= 0 ==> r == NatToString(i)
    ensures i < 0 ==> |r| >= 2 && r[0] == '-' && r[1..] == NatToString(-i)
  {
    if i < 0 then "-" + NatToString(-i) else NatToString(i)
  }

  /** `s.padStart(width, fill)` for a one-character fill string. */
  function PadStart(s: string, width: nat, fill: char): (r: string)
    ensures |r| == if |s| >= width then |s| else width
    ensures r[|r| - |s|..] == s
    ensures forall i :: 0 <= i < |r| - |s| ==> r[i] == fill
  {
    if |s| >= width then s else seq(width - |s|, _ => fill) + s
  }

  /** `Math.floor(seconds / 60)`: the whole minutes, rounded toward negative infinity. */
  function FloorMinutes(seconds: int): (q: int)
    ensures q * 60 <= seconds < q * 60 + 60
  {
    seconds / 60
  }

  /** JavaScript's `seconds % 60`: the remainder of division truncated toward zero, with the sign of the dividend. */
  function JsRemainder60(seconds: int): (r: int)
    ensures -60 < r < 60
    ensures r != 0 ==> (r < 0 <==> seconds < 0)
    ensures (seconds - r) % 60 == 0
  {
    if seconds >= 0 then seconds % 60 else -((-seconds) % 60)
  }

  /** `formatTime(seconds)`: minutes and seconds, each padded to two characters, joined by `:`. */
  function FormatTime(seconds: int): (r: string)
    ensures 0 <= seconds < 6000 ==>
      && |r| == 5 && r[2] == ':'
      && IsDigit(r[0]) && IsDigit(r[1]) && IsDigit(r[3]) && IsDigit(r[4])
      && Field(r[3], r[4]) < 60
      && Field(r[0], r[1]) * 60 + Field(r[3], r[4]) == seconds
  {
    var r := PadStart(IntToString(FloorMinutes(seconds)), 2, '0') + ":"
      + PadStart(IntToString(JsRemainder60(seconds)), 2, '0');
    if 0 <= seconds < 6000 then FormatTimeShape(seconds, r); r else r
  }

  /** Below 100 minutes the display is five characters, and its two fields denote the minutes and the seconds. */
  lemma FormatTimeShape(seconds: int, r: string)
    requires 0 <= seconds < 6000
    requires r == PadStart(IntToString(FloorMinutes(seconds)), 2, '0') + ":"
      + PadStart(IntToString(JsRemainder60(seconds)), 2, '0')
    ensures |r| == 5 && r[2] == ':'
    ensures IsDigit(r[0]) && IsDigit(r[1]) && IsDigit(r[3]) && IsDigit(r[4])
    ensures Field(r[3], r[4]) < 60
    ensures Field(r[0], r[1]) * 60 + Field(r[3], r[4]) == seconds
  {
    var mins := FloorMinutes(seconds);
    var secs := JsRemainder60(seconds);
    MinutesAndSeconds(seconds);
    var a := PadStart(IntToString(mins), 2, '0');
    var b := PadStart(IntToString(secs), 2, '0');
    PaddedField(mins, a);
    PaddedField(secs, b);
    JoinedFields(a, b, r);
  }

  /** Two two-character fields joined by `:` keep their characters at positions 0-1 and 3-4. */
  lemma JoinedFields(a: string, b: string, r: string)
    requires |a| == 2 && |b| == 2 && r == a + ":" + b
    ensures |r| == 5 && r[0] == a[0] && r[1] == a[1] && r[2] == ':' && r[3] == b[0] && r[4] == b[1]
  {
  }

  /** For a non-negative count, the two fields are the quotient and remainder of division by 60. */
  lemma MinutesAndSeconds(seconds: int)
    requires seconds >= 0
    ensures FloorMinutes(seconds) >= 0
    ensures 0 <= JsRemainder60(seconds) < 60
    ensures FloorMinutes(seconds) * 60 + JsRemainder60(seconds) == seconds
    ensures seconds < 6000 ==> FloorMinutes(seconds) < 100
  {
  }

  /** A number below 100, padded to two characters, is a two-digit field denoting that number. */
  lemma PaddedField(n: int, a: string)
    requires 0 <= n < 100
    requires a == PadStart(IntToString(n), 2, '0')
    ensures |a| == 2 && IsDigit(a[0]) && IsDigit(a[1]) && Field(a[0], a[1]) == n
  {
    assert IntToString(n) == NatToString(n);
    TwoDigitField(n);
    DigitRoundTrip(n / 10);
    DigitRoundTrip(n % 10);
  }

  lemma DigitRoundTrip(d: nat)
    requires d < 10
    ensures DigitValue(DigitChar(d)) == d
  {
  }

  /** The value of a two-digit field. */
  function Field(hi: char, lo: char): nat
    requires IsDigit(hi) && IsDigit(lo)
  {
    DigitValue(hi) * 10 + DigitValue(lo)
  }

  /** Below 100, padding the decimal form to two characters gives the tens digit then the units digit. */
  lemma TwoDigitField(n: nat)
    requires n < 100
    ensures PadStart(NatToString(n), 2, '0') == [DigitChar(n / 10), DigitChar(n % 10)]
  {
    if n >= 10 {
      assert NatToString(n) == NatToString(n / 10) + [DigitChar(n % 10)];
    }
  }

  /** Position of the first `:` in `t`, if any. */
  function IndexOfColon(t: string): (r: Option<nat>)
    ensures r.Some? ==> r.value < |t| && t[r.value] == ':' && ':' !in t[..r.value]
    ensures r.None? ==> ':' !in t
  {
    if t == [] then None
    else if t[0] == ':' then Some(0)
    else
      match IndexOfColon(t[1..])
      case None => None
      case Some(i) => assert t[..i + 1] == [t[0]] + t[1..][..i]; Some(i + 1)
  }

  /**
   * Reads back a clock string: one or more minute digits, `:`, exactly two
   * second digits denoting less than 60.
   */
  function ParseClock(t: string): (r: Option<nat>)
    ensures r.Some? ==> |t| >= 4
  {
    match IndexOfColon(t)
    case None => None
    case Some(i) =>
      var m := t[..i];
      var sec := t[i + 1..];
      if m != [] && AllDigits(m) && |sec| == 2 && AllDigits(sec) && DigitsValue(sec) < 60
      then Some(DigitsValue(m) * 60 + DigitsValue(sec))
      else None
  }

  /** Leading zeros do not change the value of a digit string. */
  lemma {:induction false} DigitsValueLeadingZeros(z: string, d: string)
    requires forall i :: 0 <= i < |z| ==> z[i] == '0'
    requires AllDigits(d)
    ensures AllDigits(z + d) && DigitsValue(z + d) == DigitsValue(d)
    decreases |z| + |d|
  {
    if d == [] {
      assert z + d == z;
      if z != [] {
        DigitsValueLeadingZeros(z[..|z| - 1], []);
        assert z[..|z| - 1] + [] == z[..|z| - 1];
      }
    } else {
      assert (z + d)[..|z + d| - 1] == z + d[..|d| - 1];
      DigitsValueLeadingZeros(z, d[..|d| - 1]);
    }
  }

  /** Minutes padded to at least two digits read back as the minutes. */
  lemma PaddedValue(n: nat)
    ensures AllDigits(PadStart(NatToString(n), 2, '0'))
    ensures DigitsValue(PadStart(NatToString(n), 2, '0')) == n
  {
    var s := NatToString(n);
    var p := PadStart(s, 2, '0');
    assert p == p[..|p| - |s|] + s;
    DigitsValueLeadingZeros(p[..|p| - |s|], s);
  }

  /** In a digit string followed by `:`, the first colon is the one after the digits. */
  lemma {:induction false} ColonAfterDigits(a: string, b: string)
    requires AllDigits(a)
    ensures IndexOfColon(a + ":" + b) == Some(|a|)
  {
    if a != [] {
      assert (a + ":" + b)[1..] == a[1..] + ":" + b;
      ColonAfterDigits(a[1..], b);
    }
  }

  /** A digit field, `:` and a two-digit field below 60 read back as minutes and seconds. */
  lemma ParseJoined(a: string, b: string, mins: nat, secs: nat)
    requires a != [] && AllDigits(a) && DigitsValue(a) == mins
    requires |b| == 2 && AllDigits(b) && DigitsValue(b) == secs < 60
    ensures ParseClock(a + ":" + b) == Some(mins * 60 + secs)
  {
    var t := a + ":" + b;
    ColonAfterDigits(a, b);
    assert t[..|a|] == a;
    assert t[|a| + 1..] == b;
  }

  /** Round trip: for every non-negative number of seconds, the clock string reads back as that number. */
  lemma ParseFormatRoundTrip(seconds: nat)
    ensures ParseClock(FormatTime(seconds)) == Some(seconds)
  {
    var mins := FloorMinutes(seconds);
    var secs := JsRemainder60(seconds);
    MinutesAndSeconds(seconds);
    var a := PadStart(NatToString(mins), 2, '0');
    var b := PadStart(NatToString(secs), 2, '0');
    assert IntToString(mins) == NatToString(mins);
    assert IntToString(secs) == NatToString(secs);
    var t := a + ":" + b;
    assert FormatTime(seconds) == t;
    PaddedValue(mins);
    PaddedValue(secs);
    TwoDigitField(secs);
    ParseJoined(a, b, mins, secs);
  }

  /** Distinct non-negative second counts are displayed differently. */
  lemma FormatTimeInjective(a: nat, b: nat)
    ensures FormatTime(a) == FormatTime(b) ==> a == b
  {
    ParseFormatRoundTrip(a);
    ParseFormatRoundTrip(b);
  }

  /** A negative count shows JavaScript's truncating `%` and floor division: -1 is displayed as `-1:-1`. */
  lemma FormatTimeMinusOne()
    ensures FormatTime(-1) == "-1:-1"
  {
    assert FloorMinutes(-1) == -1;
    assert JsRemainder60(-1) == -1;
    assert NatToString(1) == "1";
  }
}
