/** The video player's `formatTime`: a playback position in seconds shown as
    minutes, a colon, and the seconds padded to two digits. `ParseClock`
    reads such a string back, and the lemmas show that for a non-negative
    time the shown minutes and seconds are the whole seconds split at 60. */
module TimeFormat {
  import opened Common

  /** A JavaScript number: `NaN` and the infinities are not finite. */
  datatype Time = NonFinite | Finite(t: real)

  // ------------------------------------------------------------- digits

  predicate IsDigit(c: char)
  {
    '0' <= c <= '9'
  }

  predicate AllDigits(s: string)
  {
    forall i :: 0 <= i < |s| ==> IsDigit(s[i])
  }

  function Digit(d: nat): (c: char)
    requires d < 10
    ensures IsDigit(c)
  {
    ('0' as int + d) as char
  }

  function DigitValue(c: char): (d: nat)
    requires IsDigit(c)
    ensures d < 10
  {
    c as int - '0' as int
  }

  /** The decimal numeral of `n`, without leading zeros. */
  function ShowNat(n: nat): (r: string)
    ensures |r| >= 1 && AllDigits(r)
    ensures n < 10 <==> |r| == 1
    decreases n
  {
    if n < 10 then [Digit(n)] else ShowNat(n / 10) + [Digit(n % 10)]
  }

  /** `Number.prototype.toString` of an integral value. */
  function ShowInt(n: int): string
  {
    if n < 0 then "-" + ShowNat(-n) else ShowNat(n)
  }

  /** The value of a decimal numeral; leading zeros are allowed. */
  function ParseNat(s: string): nat
    requires AllDigits(s)
    decreases |s|
  {
    if s == [] then 0 else ParseNat(s[..|s| - 1]) * 10 + DigitValue(s[|s| - 1])
  }

  lemma {:induction false} ParseShowNat(n: nat)
    ensures ParseNat(ShowNat(n)) == n
    decreases n
  {
    var s := ShowNat(n);
    if n < 10 {
      assert s[..|s| - 1] == [];
    } else {
      assert s[..|s| - 1] == ShowNat(n / 10);
      ParseShowNat(n / 10);
    }
  }

  /** `padStart(2, '0')`. */
  function PadStart2(s: string): (r: string)
    ensures |s| >= 2 ==> r == s
    ensures |s| < 2 ==> |r| == 2 && r[2 - |s|..] == s
  {
    if |s| >= 2 then s else if |s| == 1 then ['0'] + s else "00"
  }

  // ------------------------------------------------------------- the format

  /** `Math.trunc`: towards zero. */
  function Trunc(x: real): int
  {
    if x >= 0.0 then x.Floor else -((-x).Floor)
  }

  /** JavaScript's `%` on numbers: the remainder takes the sign of the dividend. */
  function JsRem(a: real, b: real): real
    requires b != 0.0
  {
    a - b * (Trunc(a / b) as real)
  }

  /** `formatTime`. A non-finite time is "0:00"; otherwise the minutes are
      `floor(t / 60)` and the seconds `floor(t % 60)`, each printed as an
      integer, the seconds padded to two characters. A non-negative time
      reads back as its whole seconds split at 60. */
  function FormatTime(time: Time): (r: string)
    ensures time.NonFinite? ==> r == "0:00"
    ensures time.Finite? && time.t >= 0.0 ==>
      r == ShowNat(time.t.Floor / 60) + ":" + PadStart2(ShowNat(time.t.Floor % 60))
    ensures time.Finite? && time.t >= 0.0 ==> ParseClock(r) == Some((time.t.Floor / 60, time.t.Floor % 60))
  {
    match time
    case NonFinite => "0:00"
    case Finite(t) =>
      var minutes := (t / 60.0).Floor;
      var seconds := JsRem(t, 60.0).Floor;
      var r := ShowInt(minutes) + ":" + PadStart2(ShowInt(seconds));
      if t >= 0.0 then
        ClockFields(t);
        ParseShowClock(minutes, seconds);
        r
      else r
  }

  // ------------------------------------------------------------- reading it back

  /** The position of the first ':' in `s`, or `|s|` when there is none. */
  function IndexOfColon(s: string): (k: nat)
    ensures k <= |s|
    ensures k < |s| ==> s[k] == ':'
    ensures forall i :: 0 <= i < k ==> s[i] != ':'
    decreases |s|
  {
    if s == [] then 0
    else if s[0] == ':' then 0
    else
      var k := IndexOfColon(s[1..]);
      assert forall i :: 1 <= i < |s| ==> s[i] == s[1..][i - 1];
      1 + k
  }

  /** Reads "m:ss": digits, a colon, then exactly two digits. */
  function ParseClock(s: string): (r: Option<(nat, nat)>)
  {
    var k := IndexOfColon(s);
    if k == |s| then None
    else
      var m := s[..k];
      var sec := s[k + 1..];
      if m == [] || |sec| != 2 || !AllDigits(m) || !AllDigits(sec) then None
      else Some((ParseNat(m), ParseNat(sec)))
  }

  // ------------------------------------------------------------- properties

  /** For a non-negative time, `floor(t / 60)` and `floor(t % 60)` are the
      whole seconds split at 60: the seconds are below 60, and minutes times
      60 plus seconds is `floor(t)`. */
  lemma {:induction false} ClockFields(t: real)
    requires t >= 0.0
    ensures (t / 60.0).Floor == t.Floor / 60
    ensures JsRem(t, 60.0).Floor == t.Floor % 60
    ensures 0 <= JsRem(t, 60.0).Floor < 60
    ensures (t / 60.0).Floor * 60 + JsRem(t, 60.0).Floor == t.Floor
  {
    var n := t.Floor;
    var q := n / 60;
    assert n as real <= t < n as real + 1.0;
    assert q * 60 <= n < q * 60 + 60;
    assert (q as real) <= t / 60.0 < (q as real) + 1.0;
    assert (t / 60.0).Floor == q;
    assert Trunc(t / 60.0) == q;
    var rem := t - 60.0 * (q as real);
    assert (n - q * 60) as real <= rem < (n - q * 60) as real + 1.0;
    assert rem.Floor == n - q * 60;
  }

  /** The first colon of "m:sec" is the one after `m` when `m` holds only digits. */
  lemma {:induction false} SplitAtColon(m: string, sec: string)
    requires AllDigits(m)
    ensures IndexOfColon(m + ":" + sec) == |m|
    ensures (m + ":" + sec)[..|m|] == m && (m + ":" + sec)[|m| + 1..] == sec
  {
    var s := m + ":" + sec;
    assert forall i :: 0 <= i < |m| ==> s[i] == m[i];
    assert s[|m|] == ':';
  }

  /** Seconds below 60, padded to two digits, read back as themselves. */
  lemma {:induction false} ParsePadded(seconds: nat)
    requires seconds < 60
    ensures |PadStart2(ShowNat(seconds))| == 2 && AllDigits(PadStart2(ShowNat(seconds)))
    ensures ParseNat(PadStart2(ShowNat(seconds))) == seconds
  {
    var sec := PadStart2(ShowNat(seconds));
    ParseShowNat(seconds);
    if seconds < 10 {
      assert sec == ['0', Digit(seconds)];
      assert sec[..1] == ['0'];
      assert sec[..1][..0] == [];
      assert ParseNat(sec[..1]) == 0;
    }
  }

  /** The string built from non-negative minutes and seconds below 60 reads
      back as those two numbers. */
  lemma {:induction false} ParseShowClock(minutes: int, seconds: int)
    requires minutes >= 0 && 0 <= seconds < 60
    ensures ParseClock(ShowInt(minutes) + ":" + PadStart2(ShowInt(seconds))) == Some((minutes, seconds))
  {
    var m := ShowNat(minutes);
    var sec := PadStart2(ShowNat(seconds));
    SplitAtColon(m, sec);
    ParsePadded(seconds);
    ParseShowNat(minutes);
  }

  /** The display depends on the whole seconds only, and on all of them:
      two non-negative times show the same string exactly when they agree
      on `floor(t)`. */
  lemma {:induction false} SameDisplayIffSameSecond(a: real, b: real)
    requires a >= 0.0 && b >= 0.0
    ensures FormatTime(Finite(a)) == FormatTime(Finite(b)) <==> a.Floor == b.Floor
  {
    var fa := FormatTime(Finite(a));
    var fb := FormatTime(Finite(b));
    if fa == fb {
      assert ParseClock(fa) == ParseClock(fb);
      assert a.Floor == a.Floor / 60 * 60 + a.Floor % 60;
      assert b.Floor == b.Floor / 60 * 60 + b.Floor % 60;
    }
  }

  lemma FloorIs(t: real, n: int)
    requires n as real <= t < n as real + 1.0
    ensures t.Floor == n
  {
  }

  /** Sixty-five and a bit seconds show as one minute and five seconds. */
  lemma ExampleMinuteFive()
    ensures FormatTime(Finite(65.7)) == "1:05"
  {
    FloorIs(65.7, 65);
    assert 65 / 60 == 1 && 65 % 60 == 5;
    assert ShowNat(1) == "1" && ShowNat(5) == "5";
    assert PadStart2("5") == "05";
    assert FormatTime(Finite(65.7)) == ShowNat(1) + ":" + PadStart2(ShowNat(5));
  }

  /** Ten whole minutes show a two-digit minute field and "00". */
  lemma ExampleTenMinutes()
    ensures FormatTime(Finite(600.0)) == "10:00"
  {
    FloorIs(600.0, 600);
    assert 600 / 60 == 10 && 600 % 60 == 0;
    var mins := ShowNat(10);
    assert mins == ShowNat(1) + [Digit(0)];
    assert ShowNat(1) == "1" && Digit(0) == '0';
    var secs := PadStart2(ShowNat(0));
    assert ShowNat(0) == "0";
    assert secs == "00";
    assert FormatTime(Finite(600.0)) == mins + ":" + secs;
  }
}
