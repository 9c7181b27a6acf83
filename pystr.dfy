/** The parts of Python's `str`, `int()` and `float()` that the modelled code relies on,
    written out over `seq<char>`. */
module PyStr {
  import opened Results

  // ---------------------------------------------------------------------------
  // Character classes
  // ---------------------------------------------------------------------------

  /** Python's `str.isspace()`: the whitespace and separator code points, U+0009 to U+000D,
      U+001C to U+0020, U+0085, U+00A0, U+1680, U+2000 to U+200A, U+2028, U+2029, U+202F,
      U+205F and U+3000. */
  predicate IsSpace(c: char) {
    || '\t' <= c <= '\r'
    || '\U{001C}' <= c <= ' '
    || c == '\U{0085}' || c == '\U{00A0}' || c == '\U{1680}'
    || '\U{2000}' <= c <= '\U{200A}'
    || c == '\U{2028}' || c == '\U{2029}' || c == '\U{202F}' || c == '\U{205F}' || c == '\U{3000}'
  }

  predicate IsDigit(c: char) { '0' <= c <= '9' }

  function DigitOf(c: char): nat
    requires IsDigit(c)
  {
    (c as int) - ('0' as int)
  }

  // ---------------------------------------------------------------------------
  // Searching and slicing
  // ---------------------------------------------------------------------------

  predicate StartsWith(s: string, p: string) {
    |p| <= |s| && s[..|p|] == p
  }

  /** `t` occurs in `s` starting at position `i`. */
  predicate OccursAt(s: string, t: string, i: int) {
    0 <= i && i + |t| <= |s| && s[i..i + |t|] == t
  }

  /** `t in s` for strings: `t` occurs as a contiguous substring of `s`. */
  function Contains(s: string, t: string): (r: bool)
    ensures r <==> exists i :: OccursAt(s, t, i)
    decreases |s|
  {
    if StartsWith(s, t) then
      assert OccursAt(s, t, 0);
      true
    else if |s| == 0 then
      false
    else
      var r := Contains(s[1..], t);
      assert forall i :: OccursAt(s[1..], t, i) <==> OccursAt(s, t, i + 1);
      assert !OccursAt(s, t, 0);
      assert forall i :: OccursAt(s, t, i) ==> OccursAt(s[1..], t, i - 1);
      r
  }

  /** `xs.index(x, start)`: the first position at or after `start` holding `x`. */
  function IndexOf<T(==)>(xs: seq<T>, x: T, start: nat): (r: Option<nat>)
    ensures r.Some? ==> start <= r.value < |xs| && xs[r.value] == x
    ensures r.Some? ==> forall i :: start <= i < r.value ==> xs[i] != x
    ensures r.None? ==> forall i :: start <= i < |xs| ==> xs[i] != x
    decreases |xs| - start
  {
    if start >= |xs| then None
    else if xs[start] == x then Some(start)
    else IndexOf(xs, x, start + 1)
  }

  /** The first occurrence at or after `start` is where `index` finds it. */
  lemma IndexOfIs<T>(xs: seq<T>, x: T, start: nat, i: nat)
    requires start <= i < |xs| && xs[i] == x
    requires forall j :: start <= j < i ==> xs[j] != x
    ensures IndexOf(xs, x, start) == Some(i)
  {
  }

  /** The last position holding `x`. */
  function LastIndexOf<T(==)>(xs: seq<T>, x: T): (r: Option<nat>)
    ensures r.Some? ==> r.value < |xs| && xs[r.value] == x
    ensures r.Some? ==> forall i :: r.value < i < |xs| ==> xs[i] != x
    ensures r.None? ==> x !in xs
    decreases |xs|
  {
    if |xs| == 0 then None
    else if xs[|xs| - 1] == x then Some(|xs| - 1)
    else
      assert xs == xs[..|xs| - 1] + [xs[|xs| - 1]];
      LastIndexOf(xs[..|xs| - 1], x)
  }

  lemma LastIndexOfAppend<T>(xs: seq<T>, y: T, x: T)
    ensures LastIndexOf(xs + [y], x) == if y == x then Some(|xs|) else LastIndexOf(xs, x)
  {
    assert (xs + [y])[..|xs|] == xs;
  }

  /** `s.replace(a, b)` for one-character `a` and `b`. */
  function ReplaceChar(s: string, a: char, b: char): (r: string)
    ensures |r| == |s|
    ensures forall i :: 0 <= i < |s| ==> r[i] == (if s[i] == a then b else s[i])
  {
    seq(|s|, i requires 0 <= i < |s| => if s[i] == a then b else s[i])
  }

  /** `s.replace(c, '')`. */
  function RemoveChar(s: string, c: char): (r: string)
    ensures c !in r
    ensures forall x :: x in r <==> x in s && x != c
  {
    if |s| == 0 then ""
    else if s[0] == c then RemoveChar(s[1..], c)
    else [s[0]] + RemoveChar(s[1..], c)
  }

  /** `s.upper()` on ASCII letters; other characters are kept. */
  function Upper(s: string): (r: string)
    ensures |r| == |s|
    ensures forall i :: 0 <= i < |s| ==> !('a' <= r[i] <= 'z')
  {
    seq(|s|, i requires 0 <= i < |s| =>
      if 'a' <= s[i] <= 'z' then (s[i] as int - 32) as char else s[i])
  }

  predicate AllSpace(s: string) {
    forall i :: 0 <= i < |s| ==> IsSpace(s[i])
  }

  /** `s.rstrip()`: drops the trailing whitespace. */
  function RStrip(s: string): (r: string)
    ensures |r| <= |s| && r == s[..|r|]
    ensures |r| > 0 ==> !IsSpace(r[|r| - 1])
    ensures AllSpace(s[|r|..])
  {
    if |s| > 0 && IsSpace(s[|s| - 1]) then RStrip(s[..|s| - 1]) else s
  }

  /** `s.lstrip()`: drops the leading whitespace. */
  function LStrip(s: string): (r: string)
    ensures |r| <= |s| && r == s[|s| - |r|..]
    ensures |r| > 0 ==> !IsSpace(r[0])
    ensures AllSpace(s[..|s| - |r|])
  {
    if |s| > 0 && IsSpace(s[0]) then LStrip(s[1..]) else s
  }

  function Strip(s: string): string {
    LStrip(RStrip(s))
  }

  // ---------------------------------------------------------------------------
  // split / join
  // ---------------------------------------------------------------------------

  /** `s.split(c)`: never empty; a separator at either end or two in a row give "". */
  function Split(s: string, c: char): (r: seq<string>)
    ensures |r| >= 1
    ensures forall i :: 0 <= i < |r| ==> c !in r[i]
    decreases |s|
  {
    if |s| == 0 then [""]
    else if s[0] == c then [""] + Split(s[1..], c)
    else
      var t := Split(s[1..], c);
      [[s[0]] + t[0]] + t[1..]
  }

  /** `s.split(c, maxsplit=n)`: at most `n` splits, the rest stays in the last field. */
  function SplitMax(s: string, c: char, n: nat): (r: seq<string>)
    ensures 1 <= |r| <= n + 1
    ensures forall i :: 0 <= i < |r| - 1 ==> c !in r[i]
    decreases |s|
  {
    if |s| == 0 then [""]
    else if s[0] == c && n > 0 then [""] + SplitMax(s[1..], c, n - 1)
    else
      var t := SplitMax(s[1..], c, n);
      [[s[0]] + t[0]] + t[1..]
  }

  /** `s.ljust(w, c)`: `s` followed by copies of `c` up to width `w`. */
  function LJust(s: string, w: int, c: char): (r: string)
    ensures |s| >= w ==> r == s
    ensures |s| < w ==> |r| == w && r[..|s|] == s && forall i :: |s| <= i < w ==> r[i] == c
  {
    if |s| >= w then s else s + seq(w - |s|, i => c)
  }

  /** `sep.join(parts)`. */
  function Join(parts: seq<string>, sep: string): string {
    if |parts| == 0 then ""
    else if |parts| == 1 then parts[0]
    else parts[0] + sep + Join(parts[1..], sep)
  }

  function Last<T>(xs: seq<T>): T
    requires |xs| > 0
  {
    xs[|xs| - 1]
  }

  lemma JoinCons(x: string, rest: seq<string>, sep: string)
    requires |rest| > 0
    ensures Join([x] + rest, sep) == x + sep + Join(rest, sep)
  {
    assert ([x] + rest)[1..] == rest;
  }

  lemma JoinAppend(parts: seq<string>, x: string, sep: string)
    requires |parts| > 0
    ensures Join(parts + [x], sep) == Join(parts, sep) + sep + x
    decreases |parts|
  {
    if |parts| == 1 {
      assert parts + [x] == [parts[0]] + [x];
      JoinCons(parts[0], [x], sep);
    } else {
      assert parts + [x] == [parts[0]] + (parts[1..] + [x]);
      JoinCons(parts[0], parts[1..] + [x], sep);
      JoinAppend(parts[1..], x, sep);
    }
  }

  /** Splitting and joining again gives the original string back. */
  lemma {:induction false} JoinSplit(s: string, c: char)
    ensures Join(Split(s, c), [c]) == s
    decreases |s|
  {
    if |s| == 0 {
    } else if s[0] == c {
      JoinSplit(s[1..], c);
      JoinCons("", Split(s[1..], c), [c]);
      assert s == [c] + s[1..];
    } else {
      JoinSplit(s[1..], c);
      JoinSplitKeep(s, c);
    }
  }

  /** The step of `JoinSplit` for a first character that is not the separator. */
  lemma JoinSplitKeep(s: string, c: char)
    requires |s| > 0 && s[0] != c && Join(Split(s[1..], c), [c]) == s[1..]
    ensures Join(Split(s, c), [c]) == s
  {
    var t := Split(s[1..], c);
    if |t| == 1 {
      assert Split(s, c) == [[s[0]] + t[0]];
    } else {
      assert Split(s, c) == [[s[0]] + t[0]] + t[1..];
      JoinCons([s[0]] + t[0], t[1..], [c]);
      assert t == [t[0]] + t[1..];
      JoinCons(t[0], t[1..], [c]);
    }
    assert s == [s[0]] + s[1..];
  }

  /** A separator splits the string into the fields before it and the fields after it. */
  lemma {:induction false} SplitAround(a: string, c: char, b: string)
    requires c !in a
    ensures Split(a + [c] + b, c) == [a] + Split(b, c)
    decreases |a|
  {
    if |a| == 0 {
      assert a + [c] + b == [c] + b;
      assert (a + [c] + b)[1..] == b;
    } else {
      var s := a + [c] + b;
      assert s[0] == a[0];
      assert s[1..] == a[1..] + [c] + b;
      SplitAround(a[1..], c, b);
      assert [a[0]] + a[1..] == a;
    }
  }

  /** Splitting at a separator joins the fields of both sides. */
  lemma {:induction false} SplitConcat(a: string, c: char, b: string)
    ensures Split(a + [c] + b, c) == Split(a, c) + Split(b, c)
    decreases |a|
  {
    if |a| == 0 {
      assert a + [c] + b == [c] + b;
      assert (a + [c] + b)[1..] == b;
    } else {
      var s := a + [c] + b;
      assert s[0] == a[0];
      assert s[1..] == a[1..] + [c] + b;
      SplitConcat(a[1..], c, b);
      var u, v := Split(a[1..], c), Split(b, c);
      if a[0] != c {
        FirstFieldAppend(a[0], u, v);
      } else {
        assert [""] + (u + v) == ([""] + u) + v;
      }
    }
  }

  lemma FirstFieldAppend(x: char, u: seq<string>, v: seq<string>)
    requires |u| >= 1
    ensures [[x] + (u + v)[0]] + (u + v)[1..] == ([[x] + u[0]] + u[1..]) + v
  {
    assert (u + v)[0] == u[0] && (u + v)[1..] == u[1..] + v;
  }

  /** A string without the separator is one field. */
  lemma {:induction false} SplitNone(a: string, c: char)
    requires c !in a
    ensures Split(a, c) == [a]
    decreases |a|
  {
    if |a| > 0 {
      SplitNone(a[1..], c);
      assert [a[0]] + a[1..] == a;
    }
  }

  /** Joining fields free of the separator and splitting again gives the fields back. */
  lemma {:induction false} SplitJoin(parts: seq<string>, c: char)
    requires |parts| >= 1
    requires forall i :: 0 <= i < |parts| ==> c !in parts[i]
    ensures Split(Join(parts, [c]), c) == parts
    decreases |parts|
  {
    if |parts| == 1 {
      SplitNone(parts[0], c);
    } else {
      JoinCons(parts[0], parts[1..], [c]);
      SplitJoin(parts[1..], c);
      SplitAround(parts[0], c, Join(parts[1..], [c]));
      assert parts == [parts[0]] + parts[1..];
    }
  }

  // ---------------------------------------------------------------------------
  // int() and str() of integers
  // ---------------------------------------------------------------------------

  /** Python's `digitpart`: digits, with single underscores allowed between two digits. */
  predicate IsDigitPart(d: string) {
    && |d| >= 1 && IsDigit(d[0]) && IsDigit(d[|d| - 1])
    && (forall i :: 0 <= i < |d| ==> IsDigit(d[i]) || d[i] == '_')
    && (forall i, j :: 0 <= i < |d| && 0 <= j < |d| && j == i + 1 ==> d[i] != '_' || d[j] != '_')
  }

  /** The number the digits of `d` spell, underscores ignored. */
  function DigitValue(d: string): nat
    decreases |d|
  {
    if |d| == 0 then 0
    else if IsDigit(d[|d| - 1]) then DigitValue(d[..|d| - 1]) * 10 + DigitOf(d[|d| - 1])
    else DigitValue(d[..|d| - 1])
  }

  /** How many digits `d` holds. */
  function DigitCount(d: string): nat
    decreases |d|
  {
    if |d| == 0 then 0
    else (if IsDigit(d[|d| - 1]) then 1 else 0) + DigitCount(d[..|d| - 1])
  }

  /** Python's `int(s)` for a string: surrounding whitespace, an optional sign and a digit part.
      `None` is the `ValueError` that `int()` raises. */
  function IntParse(s: string): Option<int> {
    var t := Strip(s);
    if |t| >= 1 && (t[0] == '-' || t[0] == '+') then
      if IsDigitPart(t[1..]) then
        var v: int := if t[0] == '-' then -(DigitValue(t[1..]) as int) else DigitValue(t[1..]);
        Some(v)
      else None
    else if IsDigitPart(t) then Some(DigitValue(t))
    else None
  }

  /** `str(n)` for a natural number. */
  function NatToStr(n: nat): (r: string)
    ensures |r| >= 1
    ensures forall i :: 0 <= i < |r| ==> IsDigit(r[i])
    decreases n
  {
    if n < 10 then [('0' as int + n) as char]
    else NatToStr(n / 10) + [('0' as int + n % 10) as char]
  }

  /** `str(i)` for an integer. */
  function IntToStr(i: int): string {
    if i < 0 then "-" + NatToStr(-i) else NatToStr(i)
  }

  lemma {:induction false} NatToStrValue(n: nat)
    ensures DigitValue(NatToStr(n)) == n
    decreases n
  {
    var r := NatToStr(n);
    if n >= 10 {
      NatToStrValue(n / 10);
      assert r[..|r| - 1] == NatToStr(n / 10);
    }
  }

  lemma StripOfDigits(s: string)
    requires |s| >= 1 && !IsSpace(s[0]) && !IsSpace(s[|s| - 1])
    ensures Strip(s) == s
  {
  }

  /** `int(str(i)) == i`. */
  lemma IntToStrRoundTrip(i: int)
    ensures IntParse(IntToStr(i)) == Some(i)
  {
    var n: nat := if i < 0 then -i else i;
    var d := NatToStr(n);
    NatToStrValue(n);
    if i < 0 {
      IntParseNegative(d);
    } else {
      IntParsePlain(d);
    }
  }

  lemma IntParsePlain(d: string)
    requires |d| >= 1 && AllDigits(d)
    ensures IntParse(d) == Some(DigitValue(d) as int)
  {
    DigitsDigitPart(d);
    StripOfDigits(d);
  }

  lemma DigitsDigitPart(d: string)
    requires |d| >= 1 && AllDigits(d)
    ensures IsDigitPart(d)
  {
  }

  lemma IntParseNegative(d: string)
    requires |d| >= 1 && AllDigits(d)
    ensures IntParse("-" + d) == Some(-(DigitValue(d) as int))
  {
    var t := "-" + d;
    StripNegative(d);
    DigitsDigitPart(d);
    assert t[1..] == d;
    IntParseMinus(t, d);
  }

  lemma StripNegative(d: string)
    requires |d| >= 1 && AllDigits(d)
    ensures Strip("-" + d) == "-" + d
  {
    var t := "-" + d;
    assert t[0] == '-' && t[|t| - 1] == d[|d| - 1];
    StripOfDigits(t);
  }

  lemma IntParseMinus(t: string, d: string)
    requires |t| >= 1 && t[0] == '-' && t[1..] == d && IsDigitPart(d) && Strip(t) == t
    ensures IntParse(t) == Some(-(DigitValue(d) as int))
  {
  }

  // ---------------------------------------------------------------------------
  // float() and Decimal() of strings
  // ---------------------------------------------------------------------------

  /** 10 to an integer power, as an exact rational. */
  function Pow10(e: int): (r: real)
    ensures r > 0.0
    decreases if e < 0 then -e else e
  {
    if e == 0 then 1.0
    else if e > 0 then 10.0 * Pow10(e - 1)
    else Pow10(e + 1) / 10.0
  }

  /** The exponent of a literal whose exponent marker, if any, is at `e`: 0 without one, and
      `None` when what follows the marker is not an optionally signed digit part. */
  function ExponentPart(t: string, e: Option<nat>): Option<int>
    requires e.Some? ==> e.value < |t|
  {
    if e.None? then Some(0)
    else
      var x := t[e.value + 1..];
      if |x| >= 1 && (x[0] == '-' || x[0] == '+') then
        if IsDigitPart(x[1..]) then
          var v: int := if x[0] == '-' then -(DigitValue(x[1..]) as int) else DigitValue(x[1..]);
          Some(v)
        else None
      else if IsDigitPart(x) then Some(DigitValue(x))
      else None
  }

  /** A finite `Decimal`: a sign, a coefficient and an exponent, standing for
      `(-1)^negative * coefficient * 10^exponent`. */
  datatype Dec = Dec(negative: bool, coefficient: nat, exponent: int)

  /** The number a `Decimal` stands for (`float(d)`, exactly). */
  function DecValue(d: Dec): real {
    var m := d.coefficient as real * Pow10(d.exponent);
    if d.negative then -m else m
  }

  /** The coefficient and the number of fraction digits of a mantissa
      `digitpart '.' [digitpart]`, `'.' digitpart` or `digitpart`. */
  function MantissaParts(mant: string): Option<(nat, nat)> {
    var dot := IndexOf(mant, '.', 0);
    var ip := if dot.Some? then mant[..dot.value] else mant;
    var fp := if dot.Some? then mant[dot.value + 1..] else "";
    if (|ip| > 0 && !IsDigitPart(ip)) || (|fp| > 0 && !IsDigitPart(fp)) || (|ip| == 0 && |fp| == 0) then None
    else Some((DigitValue(ip + fp), DigitCount(fp)))
  }

  /** The unsigned part of a decimal literal: a mantissa with an optional exponent
      `('e'|'E') [sign] digitpart`. */
  function UnsignedDecimal(t: string): Option<Dec> {
    var e := FirstOf(t, 'e', 'E');
    var mant := if e.Some? then t[..e.value] else t;
    var expo := ExponentPart(t, e);
    if expo.None? then None
    else
      var m :- MantissaParts(mant);
      Some(Dec(false, m.0, expo.value - m.1))
  }

  /** 10 to a natural power, as a natural number. */
  function Pow10Nat(e: nat): (r: nat)
    ensures r >= 1
  {
    if e == 0 then 1 else 10 * Pow10Nat(e - 1)
  }

  /** The natural power of ten is the rational one. */
  lemma {:induction false} Pow10NatIsPow10(e: nat)
    ensures Pow10Nat(e) as real == Pow10(e)
  {
    if e > 0 {
      Pow10NatIsPow10(e - 1);
    }
  }

  /** A negative power of ten is the reciprocal of the positive one. */
  lemma {:induction false} Pow10Negative(k: nat)
    ensures Pow10(-(k as int)) * Pow10(k) == 1.0
    decreases k
  {
    if k > 0 {
      Pow10Negative(k - 1);
      assert Pow10(-(k as int)) == Pow10(-((k - 1) as int)) / 10.0;
      assert Pow10(k) == 10.0 * Pow10(k - 1);
    }
  }

  /** `k` zeros. */
  function Zeros(k: nat): (r: string)
    ensures |r| == k && forall i :: 0 <= i < k ==> r[i] == '0'
  {
    seq(k, i => '0')
  }

  /** `f"{n:0{w}d}"` for a natural number: its digits, with zeros in front up to width `w`. */
  function ZeroPad(n: nat, w: nat): (r: string)
    ensures |r| >= w && |r| >= 1
    ensures forall i :: 0 <= i < |r| ==> IsDigit(r[i])
  {
    var d := NatToStr(n);
    if |d| < w then Zeros(w - |d|) + d else d
  }

  predicate AllDigits(s: string) {
    forall i :: 0 <= i < |s| ==> IsDigit(s[i])
  }

  lemma {:induction false} DigitCountAll(s: string)
    requires AllDigits(s)
    ensures DigitCount(s) == |s|
    decreases |s|
  {
    if |s| > 0 {
      DigitCountAll(s[..|s| - 1]);
    }
  }

  /** The digits of `a + b` spell `a` shifted past the digits of `b`. */
  lemma {:induction false} DigitValueAppend(a: string, b: string)
    requires AllDigits(b)
    ensures DigitValue(a + b) == DigitValue(a) * Pow10Nat(|b|) + DigitValue(b)
    decreases |b|
  {
    if |b| == 0 {
      assert a + b == a;
    } else {
      var init := b[..|b| - 1];
      var d := DigitOf(b[|b| - 1]);
      assert DigitValue(a + b) == DigitValue(a + init) * 10 + d by {
        var ab := a + b;
        assert ab[..|ab| - 1] == a + init;
        assert ab[|ab| - 1] == b[|b| - 1];
      }
      DigitValueAppend(a, init);
      ShiftStep(DigitValue(a), Pow10Nat(|init|), DigitValue(init), d);
    }
  }

  lemma ShiftStep(x: int, y: int, z: int, d: int)
    ensures (x * y + z) * 10 + d == x * (y * 10) + (z * 10 + d)
  {
  }

  /** Leading zeros do not change a number. */
  lemma {:induction false} DigitValueZeros(k: nat)
    ensures DigitValue(Zeros(k)) == 0
    decreases k
  {
    if k > 0 {
      assert Zeros(k)[..k - 1] == Zeros(k - 1);
      DigitValueZeros(k - 1);
    }
  }

  /** A zero-padded number reads back as that number, with every character a digit. */
  lemma ZeroPadValue(n: nat, w: nat)
    ensures IsDigitPart(ZeroPad(n, w)) && DigitValue(ZeroPad(n, w)) == n
    ensures DigitCount(ZeroPad(n, w)) == |ZeroPad(n, w)|
  {
    var d := NatToStr(n);
    NatToStrValue(n);
    DigitCountAll(ZeroPad(n, w));
    if |d| < w {
      DigitValueAppend(Zeros(w - |d|), d);
      DigitValueZeros(w - |d|);
    }
  }

  /** A number below `10^k` takes at most `k` digits. */
  lemma {:induction false} NatToStrLength(n: nat, k: nat)
    requires k >= 1 && n < Pow10Nat(k)
    ensures |NatToStr(n)| <= k
    decreases k
  {
    if n >= 10 {
      NatToStrLength(n / 10, k - 1);
    }
  }

  /** `Decimal()` of a zero-padded number: the number, with exponent 0. */
  lemma DecimalOfZeroPad(n: nat, w: nat)
    ensures DecimalOf(ZeroPad(n, w)) == Some(Dec(false, n, 0))
  {
    var t := ZeroPad(n, w);
    ZeroPadValue(n, w);
    DecimalOfUnsigned(t);
    PlainDigits(t);
    PlainMantissa(t);
    UnsignedNoExponent(t, n, 0);
  }

  /** A run of digits has no exponent marker and no point. */
  lemma PlainDigits(t: string)
    requires AllDigits(t)
    ensures FirstOf(t, 'e', 'E') == None && IndexOf(t, '.', 0) == None
  {
    assert 'e' !in t && 'E' !in t && '.' !in t;
  }

  /** A mantissa without a point is its digits, with no fraction digits. */
  lemma PlainMantissa(t: string)
    requires IndexOf(t, '.', 0) == None && IsDigitPart(t)
    ensures MantissaParts(t) == Some((DigitValue(t), 0))
  {
    assert t + "" == t;
  }

  /** A literal that starts and ends with a digit is read as unsigned. */
  lemma DecimalOfUnsigned(t: string)
    requires |t| >= 1 && IsDigit(t[0]) && IsDigit(t[|t| - 1])
    ensures DecimalOf(t) == UnsignedDecimal(t)
  {
    StripOfDigits(t);
  }

  /** `ip.fp` holds no exponent marker. */
  lemma FixedNoExponent(ip: string, fp: string)
    requires IsDigitPart(ip) && IsDigitPart(fp)
    ensures FirstOf(ip + "." + fp, 'e', 'E') == None
  {
    var t := ip + "." + fp;
    forall i | 0 <= i < |t| ensures t[i] != 'e' && t[i] != 'E' {
      if i < |ip| {
        assert t[i] == ip[i];
      } else if i > |ip| {
        assert t[i] == fp[i - |ip| - 1];
      }
    }
  }

  /** The mantissa `ip.fp` has the digits of both parts as its coefficient. */
  lemma FixedMantissa(ip: string, fp: string)
    requires IsDigitPart(ip) && IsDigitPart(fp)
    ensures MantissaParts(ip + "." + fp) == Some((DigitValue(ip + fp), DigitCount(fp)))
  {
    var t := ip + "." + fp;
    assert t[|ip|] == '.' && forall i :: 0 <= i < |ip| ==> t[i] != '.';
    IndexOfIs(t, '.', 0, |ip|);
    assert t[..|ip|] == ip && t[|ip| + 1..] == fp;
  }

  /** Without an exponent, a literal is its mantissa, with the fraction digits as a negative
      exponent. */
  lemma UnsignedNoExponent(t: string, c: nat, k: nat)
    requires FirstOf(t, 'e', 'E') == None && MantissaParts(t) == Some((c, k))
    ensures UnsignedDecimal(t) == Some(Dec(false, c, -(k as int)))
  {
    assert ExponentPart(t, None) == Some(0);
  }

  /** `Decimal()` of `ip.fp` for two digit parts. */
  lemma DecimalOfFixedDigits(ip: string, fp: string)
    requires IsDigitPart(ip) && IsDigitPart(fp)
    ensures DecimalOf(ip + "." + fp) == Some(Dec(false, DigitValue(ip + fp), -(DigitCount(fp) as int)))
  {
    var t := ip + "." + fp;
    assert t[0] == ip[0] && t[|t| - 1] == fp[|fp| - 1];
    DecimalOfUnsigned(t);
    FixedNoExponent(ip, fp);
    FixedMantissa(ip, fp);
    UnsignedNoExponent(t, DigitValue(ip + fp), DigitCount(fp));
  }

  /** `Decimal()` of `whole.frac`, both zero-padded and the fraction exactly `k` digits wide:
      the digits of both as the coefficient (`FixedCoefficient`), and exponent `-k`. */
  lemma DecimalOfFixed(a: nat, w: nat, b: nat, k: nat)
    requires k >= 1 && b < Pow10Nat(k)
    ensures DecimalOf(ZeroPad(a, w) + "." + ZeroPad(b, k)) == Some(Dec(false, DigitValue(ZeroPad(a, w) + ZeroPad(b, k)), -(k as int)))
  {
    NatToStrLength(b, k);
    DecimalOfPads(a, w, b, k);
  }

  lemma DecimalOfPads(a: nat, w: nat, b: nat, k: nat)
    requires |ZeroPad(b, k)| == k
    ensures DecimalOf(ZeroPad(a, w) + "." + ZeroPad(b, k)) == Some(Dec(false, DigitValue(ZeroPad(a, w) + ZeroPad(b, k)), -(k as int)))
  {
    ZeroPadValue(a, w);
    ZeroPadValue(b, k);
    DecimalOfFixedDigits(ZeroPad(a, w), ZeroPad(b, k));
  }

  /** The digits of a zero-padded whole part followed by a fraction exactly `k` digits wide. */
  lemma FixedCoefficient(a: nat, w: nat, b: nat, k: nat)
    requires k >= 1 && b < Pow10Nat(k)
    ensures DigitValue(ZeroPad(a, w) + ZeroPad(b, k)) == a * Pow10Nat(k) + b
  {
    NatToStrLength(b, k);
    ZeroPadValue(a, w);
    ZeroPadValue(b, k);
    DigitValueAppend(ZeroPad(a, w), ZeroPad(b, k));
  }

  /** The value of a coefficient with exponent `-k`. */
  lemma DecValueFixed(c: nat, k: nat)
    ensures DecValue(Dec(false, c, -(k as int))) == c as real / Pow10Nat(k) as real
  {
    Pow10NatIsPow10(k);
    Pow10Negative(k);
  }

  /** The first position holding `a` or `b`. */
  function FirstOf(s: string, a: char, b: char): (r: Option<nat>)
    ensures r.Some? ==> r.value < |s| && (s[r.value] == a || s[r.value] == b)
    ensures r.Some? ==> forall i :: 0 <= i < r.value ==> s[i] != a && s[i] != b
    ensures r.None? ==> forall i :: 0 <= i < |s| ==> s[i] != a && s[i] != b
  {
    var i := IndexOf(s, a, 0);
    var j := IndexOf(s, b, 0);
    if i.None? then j
    else if j.None? then i
    else if i.value <= j.value then i else j
  }

  /** Python's `Decimal(s)` for finite decimal literals: surrounding whitespace, an optional
      sign, digits with an optional fraction and exponent. `None` is the `InvalidOperation`
      that `Decimal()` raises. */
  function DecimalOf(s: string): Option<Dec> {
    var t := Strip(s);
    if |t| >= 1 && (t[0] == '-' || t[0] == '+') then
      var d :- UnsignedDecimal(t[1..]);
      Some(d.(negative := t[0] == '-'))
    else UnsignedDecimal(t)
  }

  /** Python's `float(s)` for the same literals (exactly, rounding to a double left out).
      `None` is the `ValueError` that `float()` raises. */
  function ParseFloat(s: string): Option<real> {
    var d :- DecimalOf(s);
    Some(DecValue(d))
  }

  // ---------------------------------------------------------------------------
  // int() and round() of numbers
  // ---------------------------------------------------------------------------

  /** Python's `int(x)` (and `math.trunc(x)`) for a float or a fraction: toward zero. */
  function Trunc(x: real): (r: int)
    ensures x >= 0.0 ==> r as real <= x < r as real + 1.0
    ensures x < 0.0 ==> r as real - 1.0 < x <= r as real
  {
    if x >= 0.0 then x.Floor else -((-x).Floor)
  }

  /** Python's `round(x)`, and `Decimal` rounding under the default context: to the nearest
      integer, a tie going to the even one. */
  function RoundHalfEven(x: real): (r: int)
    ensures x - 0.5 <= r as real <= x + 0.5
    ensures r as real - x == 0.5 || x - r as real == 0.5 ==> r % 2 == 0
  {
    var f := x.Floor;
    var frac := x - f as real;
    if frac > 0.5 || (frac == 0.5 && f % 2 == 1) then f + 1 else f
  }

  /** `ROUND_HALF_DOWN`: to the nearest integer, a tie going toward zero. */
  function RoundHalfDown(x: real): (r: int)
    ensures x - 0.5 <= r as real <= x + 0.5
    ensures r as real - x == 0.5 || x - r as real == 0.5 ==> (if x >= 0.0 then r as real < x else r as real > x)
    ensures x >= 0.0 ==> r >= 0
    decreases if x >= 0.0 then 0 else 1
  {
    if x >= 0.0 then
      var f := x.Floor;
      if x - f as real > 0.5 then f + 1 else f
    else -RoundHalfDown(-x)
  }

  /** A whole number is its own truncation and its own rounding. */
  lemma TruncWhole(n: int)
    ensures Trunc(n as real) == n
  {
  }

  lemma RoundWhole(n: int)
    ensures RoundHalfEven(n as real) == n && RoundHalfDown(n as real) == n
  {
  }

  // ---------------------------------------------------------------------------
  // String order
  // ---------------------------------------------------------------------------

  /** Python's `a < b` on strings: lexicographic by code point, a proper prefix first. */
  predicate Less(a: string, b: string)
    decreases |a|
  {
    if |a| == 0 then |b| > 0
    else |b| > 0 && (a[0] < b[0] || (a[0] == b[0] && Less(a[1..], b[1..])))
  }

  lemma {:induction false} LessIrreflexive(a: string)
    ensures !Less(a, a)
    decreases |a|
  {
    if |a| > 0 { LessIrreflexive(a[1..]); }
  }

  lemma {:induction false} LessTransitive(a: string, b: string, c: string)
    requires Less(a, b) && Less(b, c)
    ensures Less(a, c)
    decreases |a|
  {
    if |a| > 0 && a[0] == b[0] && b[0] == c[0] {
      LessTransitive(a[1..], b[1..], c[1..]);
    }
  }

  lemma {:induction false} LessTotal(a: string, b: string)
    requires a != b
    ensures Less(a, b) || Less(b, a)
    decreases |a|
  {
    if |a| > 0 && |b| > 0 && a[0] == b[0] {
      assert a == [a[0]] + a[1..] && b == [b[0]] + b[1..];
      LessTotal(a[1..], b[1..]);
    }
  }

  lemma {:induction false} LessAsymmetric(a: string, b: string)
    requires Less(a, b)
    ensures !Less(b, a)
    decreases |a|
  {
    if |a| > 0 && a[0] == b[0] {
      LessAsymmetric(a[1..], b[1..]);
    }
  }
}
