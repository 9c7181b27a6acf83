/** `Convert`: frame numbers and timestamps at a fractional frame rate, and the `hh:mm:ss.frac`
    text form of a timestamp.

    A `timedelta` is its whole number of microseconds (an `int`), a `Fraction` frame rate is an
    exact `real`, and the `Decimal` and `float` values in between are exact reals as well. */
module Convert {
  import opened Results
  import opened PyStr

  /** The exceptions the conversions raise. */
  datatype ConvertError =
    | IndexError        // a missing field, or `split('.')[1]` of a float without a '.'
    | InvalidOperation  // `Decimal()` of a malformed number
    | DivisionByZero    // `Decimal` division by a zero frame rate

  function Abs(x: real): (r: real)
    ensures r >= 0.0 && (r == x || r == -x)
  {
    if x < 0.0 then -x else x
  }

  /** `math.ceil` (and `Decimal.__ceil__`). */
  function Ceil(x: real): (r: int)
    ensures r as real - 1.0 < x <= r as real
  {
    -((-x).Floor)
  }

  /** `Decimal.__round__(3)`: to three decimals, a tie going to the even last digit. */
  function Round3(x: real): (r: real)
    ensures Abs(r - x) <= 0.0005
  {
    RoundHalfEven(x * 1000.0) as real / 1000.0
  }

  // ---------------------------------------------------------------------------
  // timedelta_to_frame
  // ---------------------------------------------------------------------------

  /** `int(Decimal(time.total_seconds()).__round__(3) * 1000)`: the time in whole
      milliseconds, a tie going to the even one. */
  function Milliseconds(us: int): (r: int)
    ensures Abs(r as real - us as real / 1000.0) <= 0.5
  {
    RoundHalfEven(us as real / 1000.0)
  }

  /** `ms * fps / 1000`: the exact frame position of the time. */
  function FrameValue(us: int, fps: real): real {
    Milliseconds(us) as real * fps / 1000.0
  }

  /** `timedelta_to_frame(time, fps, exclude_boundary, allow_rounding)`. */
  function TimedeltaToFrame(us: int, fps: real, excludeBoundary: bool, allowRounding: bool): int
    decreases excludeBoundary
  {
    if excludeBoundary then TimedeltaToFrame(us - 1000, fps, false, false)
    else
      var frame := FrameValue(us, fps);
      if allowRounding && Abs(Round3(frame) - Ceil(frame) as real) < 0.03 then Ceil(frame)
      else Trunc(frame)
  }

  /** Excluding the boundary is the unrounded conversion of the time one millisecond earlier. */
  lemma ExcludeBoundaryIsEarlier(us: int, fps: real, allowRounding: bool)
    ensures TimedeltaToFrame(us, fps, true, allowRounding) == Trunc(FrameValue(us - 1000, fps))
  {
  }

  /** The result is the truncation of the frame position or the next integer; the next integer
      only with rounding allowed and a position at most 0.0305 below it, and always when a
      position is less than 0.0295 below it. */
  lemma FrameRounding(us: int, fps: real, allowRounding: bool)
    ensures var x, t := TimedeltaToFrame(us, fps, false, allowRounding), Trunc(FrameValue(us, fps));
      x == t || x == t + 1
    ensures var x, f := TimedeltaToFrame(us, fps, false, allowRounding), FrameValue(us, fps);
      x != Trunc(f) ==> allowRounding && 0.0 < f && x == Ceil(f) && x as real - f <= 0.0305
    ensures var f := FrameValue(us, fps);
      allowRounding && Ceil(f) as real - f < 0.0295 ==> TimedeltaToFrame(us, fps, false, allowRounding) == Ceil(f)
    ensures !allowRounding ==> TimedeltaToFrame(us, fps, false, allowRounding) == Trunc(FrameValue(us, fps))
  {
    var f := FrameValue(us, fps);
    var c := Ceil(f);
    if f >= 0.0 {
      assert c == Trunc(f) || c == Trunc(f) + 1;
    } else {
      assert c == Trunc(f);
    }
    if allowRounding && c as real - f < 0.0295 {
      assert Abs(Round3(f) - c as real) < 0.03;
    }
  }

  /** A time on a whole millisecond converts without any rounding of the time. */
  lemma WholeMilliseconds(ms: int, fps: real)
    ensures Milliseconds(1000 * ms) == ms
    ensures TimedeltaToFrame(1000 * ms, fps, false, false) == Trunc(ms as real * fps / 1000.0)
  {
    assert (1000 * ms) as real / 1000.0 == ms as real;
    RoundWhole(ms);
    assert FrameValue(1000 * ms, fps) == ms as real * fps / 1000.0;
  }

  /** At the exact start of frame `k` (at most one frame per millisecond), the time converts to
      `k`, and to `k - 1` when the boundary is excluded. */
  lemma FrameBoundary(ms: int, fps: real, k: int, allowRounding: bool)
    requires 0.0 < fps <= 1000.0 && k >= 1
    requires ms as real * fps / 1000.0 == k as real
    ensures TimedeltaToFrame(1000 * ms, fps, false, allowRounding) == k
    ensures TimedeltaToFrame(1000 * ms, fps, true, allowRounding) == k - 1
  {
    WholeMilliseconds(ms, fps);
    FrameAtWhole(1000 * ms, fps, k, allowRounding);
    BoundaryExcluded(ms, fps, k, allowRounding);
  }

  lemma BoundaryExcluded(ms: int, fps: real, k: int, allowRounding: bool)
    requires 0.0 < fps <= 1000.0 && k >= 1
    requires ms as real * fps / 1000.0 == k as real
    ensures TimedeltaToFrame(1000 * ms, fps, true, allowRounding) == k - 1
  {
    assert 1000 * ms - 1000 == 1000 * (ms - 1);
    WholeMilliseconds(ms - 1, fps);
    PreviousFrame(ms, fps, k);
  }

  /** A time whose frame position is a whole number converts to that number. */
  lemma FrameAtWhole(us: int, fps: real, k: int, allowRounding: bool)
    requires FrameValue(us, fps) == k as real
    ensures TimedeltaToFrame(us, fps, false, allowRounding) == k
  {
    TruncWhole(k);
    RoundWhole(k * 1000);
    assert k as real * 1000.0 == (k * 1000) as real;
  }

  lemma PreviousFrame(ms: int, fps: real, k: int)
    requires 0.0 < fps <= 1000.0 && k >= 1
    requires ms as real * fps / 1000.0 == k as real
    ensures Trunc((ms - 1) as real * fps / 1000.0) == k - 1
  {
    var f := (ms - 1) as real * fps / 1000.0;
    assert f == k as real - fps / 1000.0;
    assert (k - 1) as real <= f < k as real;
  }

  // ---------------------------------------------------------------------------
  // frame_to_timedelta and frame_to_ms
  // ---------------------------------------------------------------------------

  /** `round(td.total_seconds(), 2)` back into a `timedelta`: whole centiseconds, a tie going
      to the even one. */
  function Centiseconds(us: int): (r: int)
    ensures r % 10000 == 0 && Abs(r as real - us as real) <= 5000.0
  {
    RoundHalfEven(us as real / 10000.0) * 10000
  }

  /** `frame_to_timedelta(f, fps, compensate, rounding)`. */
  function FrameToTimedelta(f: int, fps: real, compensate: bool, rounding: bool): (r: Result<int, ConvertError>)
    ensures r.Ok? && rounding ==> r.value % 10000 == 0
    decreases compensate
  {
    if compensate then
      var a :- FrameToTimedelta(f, fps, false, false);
      var b :- FrameToTimedelta(f + 1, fps, false, false);
      var result := RoundHalfEven((a + b) as real / 2.0);
      Ok(if rounding then Centiseconds(result) else result)
    else if f <= 0 then Ok(0)
    else if fps == 0.0 then Err(DivisionByZero)
    else
      var result := RoundHalfEven(f as real / fps * 1000000.0);
      Ok(if rounding then Centiseconds(result) else result)
  }

  /** The microsecond nearest to `f / fps` seconds. */
  function ExactMicros(f: int, fps: real): real
    requires fps != 0.0
  {
    f as real / fps * 1000000.0
  }

  /** The conversion fails exactly when a positive frame meets a zero frame rate. */
  lemma FrameToTimedeltaFails(f: int, fps: real, compensate: bool, rounding: bool)
    ensures FrameToTimedelta(f, fps, compensate, rounding).Err? <==> fps == 0.0 && (f > 0 || (compensate && f + 1 > 0))
    ensures FrameToTimedelta(f, fps, compensate, rounding).Err? ==> FrameToTimedelta(f, fps, compensate, rounding).error == DivisionByZero
  {
  }

  /** Without compensation: zero for a frame that is not positive, otherwise the microsecond
      nearest to `f / fps` seconds, then the centisecond nearest to that when rounding. */
  lemma FrameToTimedeltaValue(f: int, fps: real, rounding: bool)
    ensures f <= 0 ==> FrameToTimedelta(f, fps, false, rounding) == Ok(0)
    ensures f > 0 && fps != 0.0 ==>
      var r := FrameToTimedelta(f, fps, false, false);
      r.Ok? && Abs(r.value as real - ExactMicros(f, fps)) <= 0.5
    ensures f > 0 && fps != 0.0 ==>
      var r := FrameToTimedelta(f, fps, false, true);
      r.Ok? && r.value == Centiseconds(FrameToTimedelta(f, fps, false, false).value)
  {
  }

  /** With compensation, the midpoint of the unrounded timestamps of `f` and `f + 1`: twice
      the result is their sum to within a microsecond, and it lies between them. */
  lemma CompensatedIsMidpoint(f: int, fps: real)
    requires fps != 0.0
    ensures var a, b, c := FrameToTimedelta(f, fps, false, false), FrameToTimedelta(f + 1, fps, false, false),
                           FrameToTimedelta(f, fps, true, false);
      a.Ok? && b.Ok? && c.Ok? && -1 <= 2 * c.value - (a.value + b.value) <= 1
    ensures var a, b, c := FrameToTimedelta(f, fps, false, false), FrameToTimedelta(f + 1, fps, false, false),
                           FrameToTimedelta(f, fps, true, false);
      a.value <= b.value ==> a.value <= c.value <= b.value
    ensures FrameToTimedelta(f, fps, true, true).Ok? &&
      FrameToTimedelta(f, fps, true, true).value == Centiseconds(FrameToTimedelta(f, fps, true, false).value)
  {
    var a, b := FrameToTimedelta(f, fps, false, false).value, FrameToTimedelta(f + 1, fps, false, false).value;
    var c := RoundHalfEven((a + b) as real / 2.0);
    if a <= b {
      RoundMonotone(a as real, (a + b) as real / 2.0);
      RoundMonotone((a + b) as real / 2.0, b as real);
      RoundWhole(a);
      RoundWhole(b);
    }
  }

  lemma RoundMonotone(x: real, y: real)
    requires x <= y
    ensures RoundHalfEven(x) <= RoundHalfEven(y)
  {
  }

  lemma DivMonotone(a: real, b: real, c: real)
    requires a <= b && c > 0.0
    ensures a / c <= b / c
  {
    assert b / c - a / c == (b - a) / c;
    assert (b - a) / c * c == b - a;
  }

  /** With a positive frame rate, later frames have later timestamps. */
  lemma FrameToTimedeltaMonotone(f: int, g: int, fps: real, rounding: bool)
    requires 0.0 < fps && f <= g
    ensures FrameToTimedelta(f, fps, false, rounding).value <= FrameToTimedelta(g, fps, false, rounding).value
  {
    var a, b := UnroundedMonotone(f, g, fps);
    if rounding {
      CentisecondsMonotone(a, b);
    }
  }

  /** The unrounded timestamps of `f <= g` are in order, and rounding is applied to them. */
  lemma UnroundedMonotone(f: int, g: int, fps: real) returns (a: int, b: int)
    requires 0.0 < fps && f <= g
    ensures a <= b
    ensures FrameToTimedelta(f, fps, false, false) == Ok(a) && FrameToTimedelta(f, fps, false, true) == Ok(Centiseconds(a))
    ensures FrameToTimedelta(g, fps, false, false) == Ok(b) && FrameToTimedelta(g, fps, false, true) == Ok(Centiseconds(b))
  {
    a, b := FrameToTimedelta(f, fps, false, false).value, FrameToTimedelta(g, fps, false, false).value;
    if f > 0 {
      DivMonotone(f as real, g as real, fps);
      RoundMonotone(ExactMicros(f, fps), ExactMicros(g, fps));
    } else {
      RoundWhole(0);
      if g > 0 {
        assert 0.0 <= ExactMicros(g, fps);
        RoundMonotone(0.0, ExactMicros(g, fps));
      }
    }
  }

  lemma CentisecondsMonotone(a: int, b: int)
    requires a <= b
    ensures Centiseconds(a) <= Centiseconds(b)
  {
    DivMonotone(a as real, b as real, 10000.0);
    RoundMonotone(a as real / 10000.0, b as real / 10000.0);
  }

  /** `frame_to_ms(f, fps, compensate)`: the milliseconds of the rounded timestamp. */
  function FrameToMs(f: int, fps: real, compensate: bool): Result<real, ConvertError> {
    var td :- FrameToTimedelta(f, fps, compensate, true);
    Ok(td as real / 1000.0)
  }

  /** The milliseconds are those of `frame_to_timedelta` with the same arguments, and always a
      multiple of ten. */
  lemma FrameToMsValue(f: int, fps: real, compensate: bool)
    ensures FrameToMs(f, fps, compensate).Ok? <==> FrameToTimedelta(f, fps, compensate, true).Ok?
    ensures FrameToMs(f, fps, compensate).Ok? ==>
      FrameToMs(f, fps, compensate).value * 1000.0 == FrameToTimedelta(f, fps, compensate, true).value as real
    ensures FrameToMs(f, fps, compensate).Ok? ==>
      var ms := FrameToMs(f, fps, compensate).value;
      ms == ((ms / 10.0).Floor * 10) as real
  {
    var td := FrameToTimedelta(f, fps, compensate, true);
    if td.Ok? {
      WholeCentiseconds(td.value);
    }
  }

  /** A whole number of centiseconds is a whole number of tens of milliseconds. */
  lemma WholeCentiseconds(us: int)
    requires us % 10000 == 0
    ensures (us as real / 1000.0) * 1000.0 == us as real
    ensures var ms := us as real / 1000.0; ms == ((ms / 10.0).Floor * 10) as real
  {
    var k := us / 10000;
    assert us == k * 10000;
    assert us as real / 1000.0 == (k * 10) as real;
    assert (k * 10) as real / 10.0 == k as real;
  }

  /** With rounding allowed and at most 50 frames per second, a frame's unrounded timestamp
      converts back to the frame. */
  lemma FrameTimestampRoundTrip(f: int, fps: real)
    requires f >= 0 && 0.0 < fps <= 50.0
    ensures TimedeltaToFrame(FrameToTimedelta(f, fps, false, false).value, fps, false, true) == f
  {
    if f == 0 {
      assert FrameToTimedelta(f, fps, false, false).value == 0;
      FrameAtWhole(0, fps, 0, true);
    } else {
      FramePositionNear(f, fps);
      FrameNear(FrameValue(FrameToTimedelta(f, fps, false, false).value, fps), f);
    }
  }

  /** The frame position of a positive frame's timestamp is within 0.026 of the frame. */
  lemma FramePositionNear(f: int, fps: real)
    requires f > 0 && 0.0 < fps <= 50.0
    ensures Abs(FrameValue(FrameToTimedelta(f, fps, false, false).value, fps) - f as real) <= 0.026
  {
    MillisecondsNear(f, fps);
    PositionFromMilliseconds(FrameToTimedelta(f, fps, false, false).value, f, fps);
  }

  lemma PositionFromMilliseconds(us: int, f: int, fps: real)
    requires 0.0 < fps <= 50.0 && Abs(Milliseconds(us) as real - 1000.0 * f as real / fps) <= 0.5005
    ensures Abs(FrameValue(us, fps) - f as real) <= 0.026
  {
    PositionAlgebra(Milliseconds(us) as real, f as real, fps);
  }

  lemma PositionAlgebra(ms: real, f: real, fps: real)
    requires 0.0 < fps <= 50.0 && Abs(ms - 1000.0 * f / fps) <= 0.5005
    ensures Abs(ms * fps / 1000.0 - f) <= 0.026
  {
    var d := ms - 1000.0 * f / fps;
    assert ms * fps / 1000.0 - f == d * fps / 1000.0 by {
      assert (1000.0 * f / fps) * fps == 1000.0 * f;
    }
    FrameDistance(d, fps);
  }

  /** The whole milliseconds of a frame's timestamp are within 0.5005 of its exact position. */
  lemma MillisecondsNear(f: int, fps: real)
    requires f > 0 && fps > 0.0
    ensures Abs(Milliseconds(FrameToTimedelta(f, fps, false, false).value) as real - 1000.0 * f as real / fps) <= 0.5005
  {
    var us := FrameToTimedelta(f, fps, false, false).value;
    assert Abs(us as real - ExactMicros(f, fps)) <= 0.5;
    assert ExactMicros(f, fps) / 1000.0 == 1000.0 * f as real / fps;
  }

  lemma FrameDistance(d: real, fps: real)
    requires Abs(d) <= 0.5005 && 0.0 < fps <= 50.0
    ensures Abs(d * fps / 1000.0) <= 0.5005 * 50.0 / 1000.0
  {
    if d >= 0.0 {
      assert d * fps <= 0.5005 * fps <= 0.5005 * 50.0;
    } else {
      assert -d * fps <= 0.5005 * fps <= 0.5005 * 50.0;
    }
  }

  /** A frame position within 0.026 of a positive frame number rounds to that number. */
  lemma FrameNear(x: real, f: int)
    requires f >= 1 && Abs(x - f as real) <= 0.026
    ensures (if Abs(Round3(x) - Ceil(x) as real) < 0.03 then Ceil(x) else Trunc(x)) == f
  {
    if x < f as real {
      assert Ceil(x) == f;
    } else if x == f as real {
      assert Ceil(x) == f;
    } else {
      assert Ceil(x) == f + 1 && Trunc(x) == f;
    }
  }

  /** With the default centisecond rounding the first frame at 24000/1001 fps does not come
      back: its timestamp 0.04 s lies 0.041 frames before it. */
  lemma DefaultRoundingLosesFrame()
    ensures FrameToTimedelta(1, 24000.0 / 1001.0, false, true) == Ok(40000)
    ensures TimedeltaToFrame(40000, 24000.0 / 1001.0, false, true) == 0
  {
    var fps := 24000.0 / 1001.0;
    assert ExactMicros(1, fps) == 1001000000.0 / 24000.0;
    assert RoundHalfEven(1001000000.0 / 24000.0) == 41708;
    assert RoundHalfEven(41708.0 / 10000.0) == 4;
    assert Milliseconds(40000) == 40 by {
      RoundWhole(40);
    }
    var x := 40.0 * fps / 1000.0;
    assert x == 960.0 / 1001.0;
    assert Ceil(x) == 1 && Trunc(x) == 0;
    assert RoundHalfEven(x * 1000.0) == 959;
  }

  // ---------------------------------------------------------------------------
  // format_timedelta
  // ---------------------------------------------------------------------------

  /** The number of decimals of the `Decimal` pattern `"." + "0" * (precision - 1) + "1"`:
      a precision below one still gives one. */
  function Places(precision: int): (r: nat)
    ensures r >= 1 && (precision >= 1 ==> r == precision)
  {
    if precision >= 1 then precision else 1
  }

  /** `dec.quantize(pattern, rounding=ROUND_HALF_DOWN)` as a count of `10^-places` seconds. */
  function Quantized(us: int, places: nat): int {
    RoundHalfDown(Scaled(us, places))
  }

  /** The exact time as a count of `10^-places` seconds. */
  function Scaled(us: int, places: nat): real {
    us as real / 1000000.0 * Pow10(places)
  }

  /** `f"{n:02d}"`. */
  function Pad2(n: int): string {
    if n >= 0 then ZeroPad(n, 2) else IntToStr(n)
  }

  /** Hours, minutes and seconds of `trunc(rounded)`, with `//` and `%` as Python has them. */
  function Clock(q: int, places: nat): (int, int, int) {
    var s := Trunc(q as real / Pow10Nat(places) as real);
    var m := s / 60;
    (m / 60, m % 60, s % 60)
  }

  function ClockText(q: int, places: nat): string {
    var hms := Clock(q, places);
    Pad2(hms.0) + ":" + Pad2(hms.1) + ":" + Pad2(hms.2)
  }

  /** `s` without its trailing zeros. */
  function TrimZeros(s: string): (r: string)
    ensures |r| <= |s| && s == r + Zeros(|s| - |r|)
    ensures |r| > 0 ==> r[|r| - 1] != '0'
    decreases |s|
  {
    if |s| > 0 && s[|s| - 1] == '0' then
      var r := TrimZeros(s[..|s| - 1]);
      assert s == s[..|s| - 1] + ['0'];
      assert Zeros(|s| - |r|) == Zeros(|s| - 1 - |r|) + ['0'];
      r
    else
      assert s == s + Zeros(0);
      s
  }

  /** Whether `repr` of `a / 10^places` (for `a`, the absolute value) uses scientific
      notation: below 1e-4 but not zero, or from 1e16 up. */
  predicate Scientific(a: nat, places: nat) {
    (a != 0 && a * 10000 < Pow10Nat(places)) || a >= Pow10Nat(16) * Pow10Nat(places)
  }

  /** The digits after the point in the positional `repr` of `a / 10^places`: the fraction
      without trailing zeros, and "0" for a whole number. */
  function FixedFraction(a: nat, places: nat): string {
    var t := TrimZeros(ZeroPad(a % Pow10Nat(places), places));
    if |t| == 0 then "0" else t
  }

  /** The exponent suffix of a scientific `repr`: sign and at least two digits. */
  function ReprExponent(e: int): string {
    "e" + (if e < 0 then "-" else "+") + ZeroPad(if e < 0 then -e else e, 2)
  }

  /** `str(rounded).split('.')[1]` for `|rounded| = a / 10^places`, or `None` for the
      `IndexError` when the `repr` has no point: one significant digit in scientific notation. */
  function ReprFraction(a: nat, places: nat): Option<string> {
    if Scientific(a, places) then
      var digits := NatToStr(a);
      var mantissa := TrimZeros(digits);
      if |mantissa| <= 1 then None
      else Some(mantissa[1..] + ReprExponent(|digits| - 1 - places))
    else Some(FixedFraction(a, places))
  }

  function Magnitude(q: int): nat {
    if q < 0 then -q else q
  }

  /** The text for the quantized value `q` as written: `None` for the `IndexError`. */
  function ReprText(q: int, places: nat, precision: int): Option<string> {
    var frac :- ReprFraction(Magnitude(q), places);
    Some(ClockText(q, places) + "." + LJust(frac, precision, '0'))
  }

  /** The text for the quantized value `q` with the fraction in positional digits. */
  function FixedText(q: int, places: nat, precision: int): string {
    ClockText(q, places) + "." + LJust(FixedFraction(Magnitude(q), places), precision, '0')
  }

  /** `format_timedelta(time, precision)` as written. */
  function FormatTimedelta(us: int, precision: int): Result<string, ConvertError> {
    var places := Places(precision);
    Need(ReprText(Quantized(us, places), places, precision), IndexError)
  }

  /** `format_timedelta` as evidently intended: the fraction always in positional digits. */
  function FormatFixed(us: int, precision: int): string {
    var places := Places(precision);
    FixedText(Quantized(us, places), places, precision)
  }

  /** The two agree unless the quantized value is printed in scientific notation. */
  lemma FormatAgrees(us: int, precision: int)
    ensures !Scientific(Magnitude(Quantized(us, Places(precision))), Places(precision)) ==>
      FormatTimedelta(us, precision) == Ok(FormatFixed(us, precision))
  {
  }

  /** Below a tenth of a millisecond `format_timedelta` breaks: 10 µs at microsecond precision raises
      `IndexError` (`repr` is `1e-05`), and 15 µs gives the text of `1.5e-05`, while the
      positional form is `00:00:00.000010` and `00:00:00.000015`. */
  lemma FormatBelowTenthMillisecond()
    ensures FormatTimedelta(10, 6) == Err(IndexError)
    ensures FormatFixed(10, 6) == "00:00:00.000010"
    ensures FormatTimedelta(15, 6) == Ok("00:00:00.5e-050")
    ensures FormatFixed(15, 6) == "00:00:00.000015"
  {
    QuantizedSmall(10);
    QuantizedSmall(15);
    assert Places(6) == 6;
    TextTen();
    TextFifteen();
  }

  lemma TextTen()
    ensures ReprText(10, 6, 6) == None
    ensures FixedText(10, 6, 6) == "00:00:00.000010"
  {
    ClockSmall(10);
    ReprSmall();
    FixedSmall();
    LiteralTexts();
  }

  lemma TextFifteen()
    ensures ReprText(15, 6, 6) == Some("00:00:00.5e-050")
    ensures FixedText(15, 6, 6) == "00:00:00.000015"
  {
    ClockSmall(15);
    ReprSmall();
    FixedSmall();
    LiteralTexts();
  }

  lemma LiteralTexts()
    ensures "00:00:00" + "." + "000010" == "00:00:00.000010"
    ensures "00:00:00" + "." + "5e-050" == "00:00:00.5e-050"
    ensures "00:00:00" + "." + "000015" == "00:00:00.000015"
  {
  }

  lemma QuantizedSmall(n: nat)
    ensures Quantized(n, 6) == n
  {
    Pow10Values();
    assert n as real / 1000000.0 * Pow10(6) == n as real;
    RoundWhole(n);
  }

  lemma ClockSmall(n: nat)
    requires n < 100
    ensures ClockText(n, 6) == "00:00:00"
  {
    Pow10Values();
    assert Trunc(n as real / Pow10Nat(6) as real) == 0;
    assert Clock(n, 6) == (0, 0, 0);
  }

  lemma ReprSmall()
    ensures ReprFraction(10, 6) == None
    ensures ReprFraction(15, 6) == Some("5e-05")
  {
    Pow10Values();
    assert NatToStr(10) == "10" && NatToStr(15) == "15";
    assert TrimZeros("10") == "1" by {
      assert "10"[..1] == "1";
    }
    assert TrimZeros("15") == "15";
    assert ReprExponent(-5) == "e-05";
    assert "15"[1..] + "e-05" == "5e-05";
  }

  lemma FixedSmall()
    ensures LJust(FixedFraction(10, 6), 6, '0') == "000010"
    ensures LJust(FixedFraction(15, 6), 6, '0') == "000015"
    ensures LJust("5e-05", 6, '0') == "5e-050"
  {
    Pow10Values();
    assert ZeroPad(10, 6) == "000010" && ZeroPad(15, 6) == "000015" by {
      assert Zeros(4) == "0000";
    }
    assert TrimZeros("000010") == "00001" by {
      assert "000010"[..5] == "00001";
    }
    assert TrimZeros("000015") == "000015";
  }

  lemma Pow10Values()
    ensures Pow10Nat(1) == 10 && Pow10Nat(2) == 100 && Pow10Nat(3) == 1000 && Pow10Nat(4) == 10000
    ensures Pow10Nat(5) == 100000 && Pow10Nat(6) == 1000000
    ensures Pow10(6) == 1000000.0
  {
    assert Pow10Nat(2) == 100;
    assert Pow10Nat(4) == 10000;
  }

  /** `10^(a + b) = 10^a * 10^b`. */
  lemma {:induction false} Pow10NatAdd(a: nat, b: nat)
    ensures Pow10Nat(a + b) == Pow10Nat(a) * Pow10Nat(b)
    decreases a
  {
    if a > 0 {
      Pow10NatAdd(a - 1, b);
      var x, y := Pow10Nat(a - 1), Pow10Nat(b);
      assert Pow10Nat(a + b) == 10 * Pow10Nat(a - 1 + b);
      assert Pow10Nat(a) == 10 * x;
      assert 10 * (x * y) == (10 * x) * y;
    }
  }

  /** The quantized count is within half a unit of the exact count. */
  lemma QuantizedBounds(us: int, places: nat)
    ensures var x := Scaled(us, places);
      x - 0.5 <= Quantized(us, places) as real <= x + 0.5
    ensures us >= 0 ==> Quantized(us, places) >= 0
  {
    var x := Scaled(us, places);
    assert us >= 0 ==> x >= 0.0;
  }

  /** At a precision from 1 to 6, the quantized time is the time to the nearest `10^-precision`
      second, a tie going toward zero; at 6 it is the time itself. */
  lemma QuantizedError(us: int, precision: int)
    requires 1 <= precision <= 6
    ensures Abs((Quantized(us, precision) * Pow10Nat(6 - precision)) as real - us as real)
      <= Pow10Nat(6 - precision) as real / 2.0
  {
    QuantizedBounds(us, precision);
    ScaledTimes(us, precision);
    ScaleError(Quantized(us, precision), us, Pow10Nat(6 - precision), Scaled(us, precision));
  }

  /** The exact count of `10^-places` seconds, times `10^(6 - places)`, is the count of
      microseconds. */
  lemma ScaledTimes(us: int, places: nat)
    requires places <= 6
    ensures Scaled(us, places) * Pow10Nat(6 - places) as real == us as real
  {
    MicroFactors(places);
    MicroScale(us as real, Pow10(places), Pow10Nat(6 - places) as real);
  }

  /** `10^places * 10^(6 - places) = 10^6`. */
  lemma MicroFactors(places: nat)
    requires places <= 6
    ensures Pow10(places) * Pow10Nat(6 - places) as real == 1000000.0
  {
    Pow10Values();
    if places == 0 {
    } else if places == 1 {
    } else if places == 2 {
      assert Pow10(2) == 100.0;
    } else if places == 3 {
      assert Pow10(3) == 1000.0;
    } else if places == 4 {
      assert Pow10(4) == 10000.0;
    } else if places == 5 {
      assert Pow10(5) == 100000.0;
    }
  }

  lemma MicroScale(u: real, p: real, e: real)
    requires p * e == 1000000.0
    ensures (u / 1000000.0 * p) * e == u
  {
    assert (u / 1000000.0 * p) * e == u / 1000000.0 * (p * e);
  }

  /** A count within half a unit of `x`, scaled by `e`, is within `e / 2` of `x * e`. */
  lemma ScaleError(q: int, u: int, e: nat, x: real)
    requires e >= 1 && x * e as real == u as real && x - 0.5 <= q as real <= x + 0.5
    ensures Abs((q * e) as real - u as real) <= e as real / 2.0
  {
    ScaleBounds(q as real, x, e as real, u as real);
    assert (q * e) as real == q as real * e as real;
  }

  lemma ScaleBounds(q: real, x: real, e: real, u: real)
    requires e >= 1.0 && x * e == u && x - 0.5 <= q <= x + 0.5
    ensures Abs(q * e - u) <= e / 2.0
  {
    var d := q - x;
    HalfScale(d, e);
    assert q * e == x * e + d * e;
    assert q * e - u == d * e;
  }

  lemma HalfScale(d: real, e: real)
    requires -0.5 <= d <= 0.5 && e >= 0.0
    ensures -e / 2.0 <= d * e <= e / 2.0
  {
  }

  /** A positive natural divided by another as reals truncates to their integer quotient. */
  lemma TruncOfQuotient(q: nat, d: nat)
    requires d >= 1
    ensures Trunc(q as real / d as real) == q / d
  {
    var k, r := q / d, q % d;
    assert q == k * d + r;
    assert q as real / d as real == k as real + r as real / d as real;
    assert 0.0 <= r as real / d as real < 1.0;
  }

  /** For a count that is not negative: whole hours, minutes below 60 and seconds below 60
      that add up to the whole seconds of the count. */
  lemma ClockValues(q: nat, places: nat)
    ensures var c := Clock(q, places);
      c.0 >= 0 && 0 <= c.1 < 60 && 0 <= c.2 < 60 && c.0 * 3600 + c.1 * 60 + c.2 == q / Pow10Nat(places)
  {
    TruncOfQuotient(q, Pow10Nat(places));
    var s := q / Pow10Nat(places);
    var m := s / 60;
    assert s == 60 * m + s % 60;
    assert m == 60 * (m / 60) + m % 60;
  }

  /** Trimmed and padded back to `places`, the fraction is the remainder zero-padded. */
  lemma FractionPadded(a: nat, places: nat)
    requires places >= 1
    ensures |ZeroPad(a % Pow10Nat(places), places)| == places
    ensures LJust(FixedFraction(a, places), places, '0') == ZeroPad(a % Pow10Nat(places), places)
  {
    var b := a % Pow10Nat(places);
    NatToStrLength(b, places);
    PadTrimmed(ZeroPad(b, places), places);
  }

  /** A string of width `w` with its trailing zeros trimmed, `"0"` if nothing is left, and then
      padded with zeros back to `w`, is the string itself. */
  lemma PadTrimmed(z: string, w: nat)
    requires |z| == w >= 1
    ensures var t := TrimZeros(z); LJust(if |t| == 0 then "0" else t, w, '0') == z
  {
    var t := TrimZeros(z);
    assert z == t + Zeros(w - |t|);
    if |t| == 0 {
      assert z == Zeros(w);
      assert LJust("0", w, '0') == Zeros(w);
    } else if |t| < w {
      assert LJust(t, w, '0') == t + Zeros(w - |t|);
    } else {
      assert z == t;
    }
  }

  /** For a count that is not negative, the positional text is three zero-padded fields, the
      last with the fraction padded to the precision. */
  lemma FixedTextFields(q: nat, places: nat)
    requires places >= 1
    ensures var c, b := Clock(q, places), q % Pow10Nat(places);
      c.0 >= 0 && c.1 >= 0 && c.2 >= 0 &&
      FixedText(q, places, places) == ZeroPad(c.0, 2) + ":" + ZeroPad(c.1, 2) + ":" + (ZeroPad(c.2, 2) + "." + ZeroPad(b, places))
  {
    var c := Clock(q, places);
    ClockValues(q, places);
    FractionPadded(q, places);
    var f := ZeroPad(q % Pow10Nat(places), places);
    assert LJust(FixedFraction(Magnitude(q), places), places, '0') == f;
    var x, y, z := ZeroPad(c.0, 2), ZeroPad(c.1, 2), ZeroPad(c.2, 2);
    assert ClockText(q, places) == x + ":" + y + ":" + z;
    assert FixedText(q, places, places) == (x + ":" + y + ":" + z) + "." + f;
    RegroupFields(x, y, z, f);
  }

  lemma RegroupFields(x: string, y: string, z: string, f: string)
    ensures (x + ":" + y + ":" + z) + "." + f == x + ":" + y + ":" + (z + "." + f)
  {
  }

  /** Parsing the positional text of a count at precision 1 to 6 gives the count as whole
      microseconds. */
  lemma ParseFixedText(q: nat, places: nat)
    requires 1 <= places <= 6
    ensures TimedeltaFromFormatted(FixedText(q, places, places)) == Ok(q * Pow10Nat(6 - places))
  {
    var c, b := Clock(q, places), q % Pow10Nat(places);
    FixedTextFields(q, places);
    ClockValues(q, places);
    ReadFixedFields(c.0, c.1, c.2, b, places);
    FixedCoefficient(c.2, 2, b, places);
    ClockMicros(q, places, c.0, c.1, c.2, b);
  }

  /** Zero-padded hours and minutes and a fixed-point seconds field read back as `Decimal`s. */
  lemma ReadFixedFields(h: nat, m: nat, sec: nat, b: nat, places: nat)
    requires 1 <= places && b < Pow10Nat(places)
    ensures ClockFields(ZeroPad(h, 2) + ":" + ZeroPad(m, 2) + ":" + (ZeroPad(sec, 2) + "." + ZeroPad(b, places)))
      == Ok((Dec(false, h, 0), Dec(false, m, 0), Dec(false, DigitValue(ZeroPad(sec, 2) + ZeroPad(b, places)), -(places as int))))
  {
    var x, y := ZeroPad(h, 2), ZeroPad(m, 2);
    var z := ZeroPad(sec, 2) + "." + ZeroPad(b, places);
    NoColon(h, 2, 0, 0);
    NoColon(m, 2, 0, 0);
    NoColon(sec, 2, b, places);
    DecimalOfZeroPad(h, 2);
    DecimalOfZeroPad(m, 2);
    DecimalOfFixed(sec, 2, b, places);
    ThreeFields(x, y, z);
    ThreeClockFields(x + ":" + y + ":" + z, x, y, z, Dec(false, h, 0), Dec(false, m, 0), Dec(false, DigitValue(ZeroPad(sec, 2) + ZeroPad(b, places)), -(places as int)));
  }

  /** The fields of a count's clock, added back up as `Decimal`s, are the count in
      microseconds. */
  lemma ClockMicros(q: nat, places: nat, h: nat, m: nat, sec: nat, b: nat)
    requires 1 <= places <= 6
    requires h * 3600 + m * 60 + sec == q / Pow10Nat(places) && b == q % Pow10Nat(places)
    ensures FromFields(Ok((Dec(false, h, 0), Dec(false, m, 0), Dec(false, sec * Pow10Nat(places) + b, -(places as int)))))
      == Ok(q * Pow10Nat(6 - places))
  {
    var p, e := Pow10Nat(places), Pow10Nat(6 - places);
    PowersOfMicro(places);
    DecValueFixed(sec * p + b, places);
    assert Pow10(0) == 1.0;
    assert (sec * p + b) as real / p as real == sec as real + b as real / p as real;
    SecondsValue(q, h, m, sec, b, p, e);
    RoundWhole(q * e);
  }

  lemma PowersOfMicro(places: nat)
    requires places <= 6
    ensures Pow10Nat(places) * Pow10Nat(6 - places) == 1000000
  {
    Pow10Values();
    Pow10NatAdd(places, 6 - places);
  }

  lemma NoColon(n: nat, w: nat, b: nat, k: nat)
    ensures ':' !in ZeroPad(n, w)
    ensures k >= 1 ==> ':' !in ZeroPad(n, w) + "." + ZeroPad(b, k)
  {
    var t := ZeroPad(n, w) + "." + ZeroPad(b, k);
    assert forall i :: 0 <= i < |t| ==> t[i] == '.' || IsDigit(t[i]);
  }

  lemma SecondsValue(q: nat, h: int, m: int, s: int, b: nat, p: nat, e: nat)
    requires p >= 1 && p * e == 1000000
    requires h * 3600 + m * 60 + s == q / p && b == q % p
    ensures (h as real * 3600.0 + m as real * 60.0 + (s as real + b as real / p as real)) * 1000000.0 == (q * e) as real
  {
    var k := q / p;
    assert q == k * p + b;
    assert k as real + b as real / p as real == q as real / p as real;
    assert q as real / p as real * 1000000.0 == (q * e) as real by {
      assert (q * e) as real * p as real == q as real * 1000000.0;
    }
  }

  /** Formatting a time that is not negative at a precision from 1 to 6 and parsing the text
      gives back the quantized time, which is the time to that precision (`QuantizedError`);
      at microsecond precision, the time itself. */
  lemma FormatParseRoundTrip(us: int, precision: int)
    requires us >= 0 && 1 <= precision <= 6
    ensures TimedeltaFromFormatted(FormatFixed(us, precision)) == Ok(Quantized(us, precision) * Pow10Nat(6 - precision))
  {
    QuantizedBounds(us, precision);
    FormatFixedText(us, precision);
    ParseFixedText(Quantized(us, precision), precision);
  }

  /** At microsecond precision, formatting a time that is not negative and parsing the text
      gives back the time itself. */
  lemma FormatParseExact(us: nat)
    ensures TimedeltaFromFormatted(FormatFixed(us, 6)) == Ok(us)
  {
    FormatParseRoundTrip(us, 6);
    QuantizedSmall(us);
    assert Pow10Nat(0) == 1;
  }

  lemma FormatFixedText(us: int, precision: int)
    requires precision >= 1
    ensures FormatFixed(us, precision) == FixedText(Quantized(us, precision), precision, precision)
  {
  }

  /** Within the range of `timedelta` and at a precision of at most 4, `format_timedelta`'s output is
      the positional form. */
  lemma FormatTimedeltaPositional(us: int, precision: int)
    requires -MaxMicros <= us <= MaxMicros && precision <= 4
    ensures FormatTimedelta(us, precision) == Ok(FormatFixed(us, precision))
  {
    var places := Places(precision);
    var q := Quantized(us, places);
    QuantizedBounds(us, places);
    Pow10Values();
    assert Pow10Nat(places) <= 10000 by {
      Pow10NatAdd(places, 4 - places);
    }
    var x := Scaled(us, places);
    MagnitudeBound(us, x, Pow10(places));
    Pow10NatAdd(16, places);
    assert Pow10Nat(16) == 10000000000000000;
    assert Magnitude(q) < Pow10Nat(16) * Pow10Nat(places);
    FormatAgrees(us, precision);
  }

  lemma MagnitudeBound(us: int, x: real, p: real)
    requires -MaxMicros <= us <= MaxMicros && p >= 1.0 && x == us as real / 1000000.0 * p
    ensures -100000000000000.0 * p <= x <= 100000000000000.0 * p
  {
    var y := us as real / 1000000.0;
    assert -100000000000000.0 <= y <= 100000000000000.0;
    assert (100000000000000.0 - y) * p >= 0.0;
    assert (100000000000000.0 + y) * p >= 0.0;
  }

  /** `timedelta.max` in microseconds; `timedelta.min` is less far from zero. */
  const MaxMicros: int := 86399999999999999999

  // ---------------------------------------------------------------------------
  // timedelta_from_formatted
  // ---------------------------------------------------------------------------

  /** `timedelta_from_formatted(formatted)`: hours, minutes and seconds as `Decimal`s, in that
      order, into whole microseconds (a tie going to the even one). */
  function TimedeltaFromFormatted(formatted: string): Result<int, ConvertError> {
    FromFields(ClockFields(formatted))
  }

  /** The hours, minutes and seconds, once parsed, as whole microseconds. */
  function FromFields(fields: Result<(Dec, Dec, Dec), ConvertError>): Result<int, ConvertError> {
    var hms :- fields;
    Ok(SecondsToMicros(DecValue(hms.0) * 3600.0 + DecValue(hms.1) * 60.0 + DecValue(hms.2)))
  }

  /** The three `Decimal` fields of `formatted.split(":")`, converted left to right: a field
      that is not a number fails with `InvalidOperation` before a missing later field fails
      with `IndexError`. */
  function ClockFields(formatted: string): Result<(Dec, Dec, Dec), ConvertError> {
    var split := Split(formatted, ':');
    var h :- Need(DecimalOf(split[0]), InvalidOperation);
    if |split| < 2 then Err(IndexError)
    else
      var m :- Need(DecimalOf(split[1]), InvalidOperation);
      if |split| < 3 then Err(IndexError)
      else
        var s :- Need(DecimalOf(split[2]), InvalidOperation);
        Ok((h, m, s))
  }

  /** `timedelta(seconds=x)`: to the nearest microsecond, a tie going to the even one. */
  function SecondsToMicros(x: real): int {
    RoundHalfEven(x * 1000000.0)
  }

  /** `"h:m:s"` fails exactly when a field is not a number, and then with `InvalidOperation`. */
  lemma FromFormattedFields(a: string, b: string, c: string)
    requires ':' !in a && ':' !in b && ':' !in c
    ensures var r := TimedeltaFromFormatted(a + ":" + b + ":" + c);
      r.Err? <==> DecimalOf(a).None? || DecimalOf(b).None? || DecimalOf(c).None?
    ensures var r := TimedeltaFromFormatted(a + ":" + b + ":" + c);
      r.Err? ==> r.error == InvalidOperation
  {
    ThreeFields(a, b, c);
    ThreeFieldsFail(a + ":" + b + ":" + c, a, b, c);
  }

  /** `"h:m:s"` with the fields reading as `h`, `m` and `s` is `h * 3600 + m * 60 + s` seconds,
      to the nearest microsecond. */
  lemma FromFormattedValue(a: string, b: string, c: string, h: Dec, m: Dec, s: Dec)
    requires ':' !in a && ':' !in b && ':' !in c
    requires DecimalOf(a) == Some(h) && DecimalOf(b) == Some(m) && DecimalOf(c) == Some(s)
    ensures TimedeltaFromFormatted(a + ":" + b + ":" + c) == Ok(SecondsToMicros(DecValue(h) * 3600.0 + DecValue(m) * 60.0 + DecValue(s)))
  {
    ThreeFields(a, b, c);
    ThreeFieldsValue(a + ":" + b + ":" + c, a, b, c, h, m, s);
  }

  lemma ThreeFieldsFail(formatted: string, a: string, b: string, c: string)
    requires Split(formatted, ':') == [a, b, c]
    ensures var r := TimedeltaFromFormatted(formatted);
      r.Err? <==> DecimalOf(a).None? || DecimalOf(b).None? || DecimalOf(c).None?
    ensures var r := TimedeltaFromFormatted(formatted);
      r.Err? ==> r.error == InvalidOperation
  {
  }

  lemma ThreeFieldsValue(formatted: string, a: string, b: string, c: string, h: Dec, m: Dec, s: Dec)
    requires Split(formatted, ':') == [a, b, c]
    requires DecimalOf(a) == Some(h) && DecimalOf(b) == Some(m) && DecimalOf(c) == Some(s)
    ensures TimedeltaFromFormatted(formatted) == Ok(SecondsToMicros(DecValue(h) * 3600.0 + DecValue(m) * 60.0 + DecValue(s)))
  {
    ThreeClockFields(formatted, a, b, c, h, m, s);
    FromParsedFields(h, m, s);
  }

  lemma ThreeClockFields(formatted: string, a: string, b: string, c: string, h: Dec, m: Dec, s: Dec)
    requires Split(formatted, ':') == [a, b, c]
    requires DecimalOf(a) == Some(h) && DecimalOf(b) == Some(m) && DecimalOf(c) == Some(s)
    ensures ClockFields(formatted) == Ok((h, m, s))
  {
  }

  lemma FromParsedFields(h: Dec, m: Dec, s: Dec)
    ensures FromFields(Ok((h, m, s))) == Ok(SecondsToMicros(DecValue(h) * 3600.0 + DecValue(m) * 60.0 + DecValue(s)))
  {
  }

  lemma ThreeFields(a: string, b: string, c: string)
    requires ':' !in a && ':' !in b && ':' !in c
    ensures Split(a + ":" + b + ":" + c, ':') == [a, b, c]
  {
    SplitNone(c, ':');
    SplitAround(b, ':', c);
    SplitAround(a, ':', b + ":" + c);
    assert a + ":" + b + ":" + c == a + [':'] + (b + [':'] + c);
  }

  /** Fewer than three fields always fail: `IndexError` when the fields there are parse. */
  lemma FromFormattedFewFields(formatted: string)
    requires |Split(formatted, ':')| < 3
    ensures TimedeltaFromFormatted(formatted).Err?
    ensures (forall i :: 0 <= i < |Split(formatted, ':')| ==> DecimalOf(Split(formatted, ':')[i]).Some?)
      ==> TimedeltaFromFormatted(formatted) == Err(IndexError)
  {
  }
}
