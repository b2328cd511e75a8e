/** The unix branch of `TimeConverter.Convert` (hydra/fileformat.go): decimal seconds with a fraction. */
module UnixTime {
  import opened Prelude
  import opened Lines

  const DOT: byte := 46
  const ZERO: byte := 48
  const PLUS: byte := 43
  const MINUS: byte := 45

  // ---- strconv.ParseInt(s, 10, 64) -------------------------------------------------

  predicate IsDigit(b: byte) {
    48 <= b <= 57
  }

  predicate Digits(s: bytes) {
    forall i :: 0 <= i < |s| ==> IsDigit(s[i])
  }

  function Pow10(n: nat): (p: nat)
    ensures p > 0
  {
    if n == 0 then 1 else 10 * Pow10(n - 1)
  }

  /** The number that a digit string denotes. */
  function Value(s: bytes): (v: nat)
    requires Digits(s)
    ensures v < Pow10(|s|)
  {
    if s == [] then 0 else 10 * Value(Front(s)) + (Last(s) - 48)
  }

  /** An optional sign, at least one digit, nothing else, and a result within int64. */
  function ParseInt(s: bytes): Option<int64> {
    var signed := s != [] && (s[0] == PLUS || s[0] == MINUS);
    var body := if signed then s[1..] else s;
    if body == [] || !Digits(body) then None
    else
      var v: int := if signed && s[0] == MINUS then 0 - Value(body) else Value(body);
      if -TWO63 <= v < TWO63 then Some(v) else None
  }

  /** `s` is a decimal integer, with a sign or without, and `i` is the number that it denotes. */
  predicate Denotes(s: bytes, i: int) {
    || (s != [] && Digits(s) && i == Value(s))
    || (|s| > 1 && s[0] == PLUS && Digits(s[1..]) && i == Value(s[1..]))
    || (|s| > 1 && s[0] == MINUS && Digits(s[1..]) && i == 0 - Value(s[1..]))
  }

  /** Parsing gives the int64 that is denoted, and fails exactly when there is none. */
  lemma ParseIntIff(s: bytes)
    ensures forall i: int64 :: ParseInt(s) == Some(i) <==> Denotes(s, i)
    ensures ParseInt(s) == None <==> forall i: int64 :: !Denotes(s, i)
  {
    hide Value;
    if ParseInt(s).Some? {
      assert Denotes(s, ParseInt(s).value);
    }
    assert s != [] && Digits(s) ==> IsDigit(s[0]);
  }

  // ---- the conversion ---------------------------------------------------------------

  /** `strings.Repeat("0", n)`. */
  function Zeros(n: nat): (r: bytes)
    ensures |r| == n
  {
    if n == 0 then [] else Zeros(n - 1) + [ZERO]
  }

  /** The fraction padded or cut to nine characters. */
  function NineDigits(s: bytes): (r: bytes)
    ensures |r| == 9
  {
    if |s| < 9 then s + Zeros(9 - |s|) else s[..9]
  }

  /** A fraction that is no number counts as zero; seconds that are none are an error. */
  function Convert(v: bytes): Result<Time> {
    var parts := Cut(v, DOT);
    var sec := ParseInt(parts.0);
    if sec.None? then Err("invalid syntax or out of range")
    else
      match parts.1
      case None => Ok(Unix(sec.value, 0))
      case Some(fraction) =>
        var nsec := ParseInt(NineDigits(fraction));
        Ok(Unix(sec.value, if nsec.Some? then nsec.value else 0))
  }

  // ---- decimal arithmetic --------------------------------------------------------------

  lemma {:induction false} Pow10Sum(a: nat, b: nat)
    ensures Pow10(a + b) == Pow10(a) * Pow10(b)
  {
    if b > 0 {
      Pow10Sum(a, b - 1);
      Assoc(Pow10(a), Pow10(b - 1));
    }
  }

  lemma Assoc(a: int, b: int)
    ensures 10 * (a * b) == a * (10 * b)
  {
  }

  lemma {:induction false} ValueConcat(s: bytes, t: bytes)
    requires Digits(s) && Digits(t)
    ensures Digits(s + t) && Value(s + t) == Value(s) * Pow10(|t|) + Value(t)
  {
    if t == [] {
      assert s + t == s;
    } else {
      assert Front(s + t) == s + Front(t) && Last(s + t) == Last(t);
      ValueConcat(s, Front(t));
      Assoc(Value(s), Pow10(|t| - 1));
    }
  }

  lemma {:induction false} ValueZeros(n: nat)
    ensures Digits(Zeros(n)) && Value(Zeros(n)) == 0
  {
    if n > 0 {
      ValueZeros(n - 1);
      assert Front(Zeros(n)) == Zeros(n - 1);
    }
  }

  lemma Billion()
    ensures Pow10(9) == BILLION
  {
    assert Pow10(4) == 10_000 by { assert Pow10(2) == 100; }
    assert Pow10(6) == 1_000_000;
    assert Pow10(8) == 100_000_000;
  }

  /** The nanoseconds of a digit fraction of any length: floor(value * 10^9 / 10^length). */
  function Nanos(f: bytes): (n: nanos)
    requires Digits(f)
  {
    Billion();
    NanosFloor(f);
    Value(NineDigits(f))
  }

  lemma NanosFloor(f: bytes)
    requires Digits(f)
    ensures Digits(NineDigits(f))
    ensures Value(NineDigits(f)) == Value(f) * BILLION / Pow10(|f|)
    ensures 0 <= Value(NineDigits(f)) < BILLION
  {
    hide Pow10, Value, Zeros;
    Billion();
    if |f| < 9 {
      PadValue(f);
    } else {
      CutValue(f);
    }
  }

  lemma PadValue(f: bytes)
    requires Digits(f) && |f| < 9
    ensures Digits(f + Zeros(9 - |f|))
    ensures Value(f + Zeros(9 - |f|)) == Value(f) * BILLION / Pow10(|f|)
  {
    hide Pow10, Value, Zeros;
    var zeros, p, q := Zeros(9 - |f|), Pow10(|f|), Pow10(9 - |f|);
    ValueZeros(9 - |f|);
    ValueConcat(f, zeros);
    assert p * q == BILLION by {
      Billion();
      Pow10Sum(|f|, 9 - |f|);
    }
    PadFloor(Value(f), p, q);
  }

  lemma CutValue(f: bytes)
    requires Digits(f) && |f| >= 9
    ensures Digits(f[..9]) && Value(f[..9]) == Value(f) * BILLION / Pow10(|f|)
  {
    hide Pow10, Value;
    var head, tail, q := f[..9], f[9..], Pow10(|f| - 9);
    assert f == head + tail;
    assert Value(f) == Value(head) * q + Value(tail) && Value(tail) < q by { ValueConcat(head, tail); }
    assert Pow10(|f|) == BILLION * q by {
      Billion();
      Pow10Sum(9, |f| - 9);
    }
    CutFloor(Value(head), q, Value(tail));
  }

  lemma PadFloor(v: nat, p: nat, q: nat)
    requires p > 0 && p * q == BILLION
    ensures v * BILLION / p == v * q
  {
    assert v * (p * q) == p * (v * q) by { Scale(v, p, q); }
    DivModUnique(v * BILLION, p, v * q, 0);
  }

  lemma CutFloor(h: nat, q: nat, t: nat)
    requires t < q
    ensures (h * q + t) * BILLION / (BILLION * q) == h
  {
    Distribute(h, q, t);
    DivModUnique((h * q + t) * BILLION, BILLION * q, h, t * BILLION);
  }

  lemma Scale(v: nat, p: nat, q: nat)
    ensures v * (p * q) == p * (v * q)
  {
  }

  lemma Distribute(h: nat, q: nat, t: nat)
    ensures (h * q + t) * BILLION == (BILLION * q) * h + t * BILLION
  {
  }

  // ---- what the conversion gives -------------------------------------------------------------

  /** Digits, a dot and digits: the seconds as written and the fraction to the nanosecond. */
  lemma ConvertDecimal(s: bytes, f: bytes)
    requires s != [] && Digits(s) && Digits(f) && Value(s) < TWO63
    ensures Convert(s + [DOT] + f) == Ok(Time(Value(s), Nanos(f)))
    ensures Convert(s) == Ok(Time(Value(s), 0))
    ensures Nanos(f) == Value(f) * BILLION / Pow10(|f|)
  {
    hide Value, Pow10, Cut, NineDigits, Unix;
    CutAt(s, f, DOT);
    NanosFloor(f);
    ParseDigits(s);
    ParseDigits(NineDigits(f));
    UnixPlain(Value(s), Nanos(f));
    UnixPlain(Value(s), 0);
  }

  /** Whatever follows the first dot, the conversion fails exactly when no int64 stands before it. */
  lemma ConvertFailsIff(v: bytes, p: bytes, f: bytes)
    requires Free(p, DOT) && (v == p || v == p + [DOT] + f)
    ensures Convert(v).Err? <==> forall i: int64 :: !Denotes(p, i)
  {
    hide Cut, ParseInt, Unix, NineDigits, Denotes;
    ParseIntIff(p);
    CutAt(p, f, DOT);
    if v == p {
      CutNone(p, DOT);
    }
  }

  lemma {:induction false} CutNone(s: bytes, sep: byte)
    requires Free(s, sep)
    ensures Cut(s, sep) == (s, None)
  {
    if s != [] {
      CutNone(s[1..], sep);
      assert [s[0]] + s[1..] == s;
    }
  }

  // ---- any fraction at all ---------------------------------------------------------------------

  predicate IsSign(b: byte) {
    b == PLUS || b == MINUS
  }

  /** The digits that `s` begins with. */
  function DigitPrefix(s: bytes): (p: bytes)
    ensures Digits(p) && p <= s && (|p| < |s| ==> !IsDigit(s[|p|]))
  {
    if s == [] || !IsDigit(s[0]) then [] else [s[0]] + DigitPrefix(s[1..])
  }

  /** The digits that stand in a fraction, behind a sign if it has one. */
  function Written(f: bytes): (g: bytes)
    ensures Digits(g)
  {
    DigitPrefix(if f != [] && IsSign(f[0]) then f[1..] else f)
  }

  /** The nanoseconds that any fraction adds: of the nine characters, all of them if they are digits, the
      last eight with the sign in front of them if that is what they are, and else none. */
  function FractionNanos(f: bytes): (n: int)
    ensures -BILLION < n < BILLION
  {
    var d := NineDigits(f);
    Billion();
    if Digits(d) then Value(d)
    else if IsSign(d[0]) && Digits(d[1..]) then
      var v := Value(d[1..]);
      assert v < Pow10(8) < Pow10(9);
      if d[0] == MINUS then 0 - v else v
    else 0
  }

  /** Whole seconds that are a number, with any fraction whatsoever, are converted. */
  lemma ConvertFraction(p: bytes, f: bytes)
    requires Free(p, DOT) && ParseInt(p).Some?
    ensures Convert(p + [DOT] + f) == Ok(Unix(ParseInt(p).value, FractionNanos(f)))
  {
    hide Cut, Unix, NineDigits, Pow10, Value, Digits;
    CutAt(p, f, DOT);
    ParseNine(NineDigits(f));
  }

  lemma ParseNine(d: bytes)
    requires |d| == 9
    ensures Digits(d) ==> Value(d) < BILLION && ParseInt(d) == Some(Value(d))
    ensures !Digits(d) && IsSign(d[0]) && Digits(d[1..]) ==>
              && Value(d[1..]) < BILLION
              && ParseInt(d) == Some(if d[0] == MINUS then 0 - Value(d[1..]) else Value(d[1..]))
    ensures !Digits(d) && !(IsSign(d[0]) && Digits(d[1..])) ==> ParseInt(d) == None
  {
    hide Pow10, Value;
    Billion();
    Pow10Sum(8, 1);
    if Digits(d) {
      assert IsDigit(d[0]);
    }
  }

  /** The nanoseconds are those of the digits in the fraction if and only if the first nine characters,
      padded, are all digits, or those digits come to no nanosecond at all. */
  lemma FractionExactIff(f: bytes)
    ensures FractionNanos(f) == Nanos(Written(f)) <==> Digits(NineDigits(f)) || Nanos(Written(f)) == 0
  {
    hide Value, Pow10, Zeros;
    var d, g := NineDigits(f), Written(f);
    if Digits(d) {
      PlainDigits(f);
    } else if IsSign(d[0]) && Digits(d[1..]) {
      ShiftedDigits(f);
      NanosFloor(g);
      Shifted(d[1..], NineDigits(g));
    }
  }

  lemma {:induction false} PrefixReaches(s: bytes, n: nat)
    requires n <= |s| && Digits(s[..n])
    ensures |DigitPrefix(s)| >= n
  {
    if n > 0 {
      assert IsDigit(s[..n][0]);
      assert s[1..][..n - 1] == s[..n][1..];
      PrefixReaches(s[1..], n - 1);
    }
  }

  /** What of the nine characters comes from the fraction itself. */
  function Kept(f: bytes): nat {
    if |f| < 9 then |f| else 9
  }

  lemma NineKept(f: bytes)
    ensures NineDigits(f)[..Kept(f)] == f[..Kept(f)]
    ensures NineDigits([]) == Zeros(9) && Zeros(9)[0] == ZERO
  {
    ValueZeros(9);
    ZerosFirst(9);
  }

  lemma {:induction false} ZerosFirst(n: nat)
    requires n > 0
    ensures Zeros(n)[0] == ZERO
  {
    if n > 1 {
      ZerosFirst(n - 1);
    }
  }

  lemma PlainDigits(f: bytes)
    requires Digits(NineDigits(f))
    ensures NineDigits(Written(f)) == NineDigits(f)
  {
    hide NineDigits, Zeros;
    NineKept(f);
    PrefixReaches(f, Kept(f));
    assert f != [] ==> f[..Kept(f)][0] == f[0] && IsDigit(f[0]);
    NineOfLong(f, DigitPrefix(f));
  }

  lemma NineOfLong(f: bytes, g: bytes)
    requires g <= f && |g| >= Kept(f)
    ensures NineDigits(g) == NineDigits(f)
  {
    if |f| >= 9 {
      assert g[..9] == f[..9];
    } else {
      assert g == f;
    }
  }

  /** Behind a sign the digits are cut one place early. */
  lemma ShiftedDigits(f: bytes)
    requires var d := NineDigits(f); IsSign(d[0]) && Digits(d[1..])
    ensures NineDigits(f)[1..] == NineDigits(Written(f))[..8]
  {
    hide NineDigits, Zeros, DigitPrefix;
    NineKept(f);
    var k, tail := Kept(f) - 1, f[1..];
    assert f[0] == NineDigits(f)[..Kept(f)][0];
    assert tail[..k] == NineDigits(f)[..Kept(f)][1..] == NineDigits(f)[1..][..k];
    PrefixReaches(tail, k);
    EightOfLong(f, DigitPrefix(tail));
  }

  lemma EightOfLong(f: bytes, g: bytes)
    requires f != [] && g <= f[1..] && |g| >= Kept(f) - 1
    ensures NineDigits(f)[1..] == NineDigits(g)[..8]
  {
    if |f| >= 9 {
      assert f[..9][1..] == f[1..][..8] == g[..8];
      assert |g| == 8 ==> (g + Zeros(1))[..8] == g;
      assert |g| > 8 ==> g[..9][..8] == g[..8];
    } else {
      assert g == f[1..];
      var n: nat := 9 - |f|;
      assert (f + Zeros(n))[1..] == g + Zeros(n);
      assert Zeros(n + 1) == Zeros(n) + [ZERO];
      assert (g + (Zeros(n) + [ZERO]))[..8] == g + Zeros(n);
    }
  }

  lemma Shifted(eight: bytes, nine: bytes)
    requires |nine| == 9 && Digits(nine) && eight == nine[..8]
    ensures Digits(eight)
    ensures Value(eight) == Value(nine) <==> Value(nine) == 0
    ensures 0 - Value(eight) == Value(nine) <==> Value(nine) == 0
  {
    assert Front(nine) == eight;
    assert IsDigit(Last(nine));
  }

  /** `1.-5` is 0.95 seconds, `1.+5` is 1.05 seconds, and `1.5x` is one second. */
  lemma OddFractions()
    ensures Convert([49, DOT, MINUS, 53]) == Ok(Time(0, 950_000_000))
    ensures Convert([49, DOT, PLUS, 53]) == Ok(Time(1, 50_000_000))
    ensures Convert([49, DOT, 53, 120]) == Ok(Time(1, 0))
  {
    assert [49, DOT, MINUS, 53] == [49] + [DOT] + [MINUS, 53];
    assert [49, DOT, PLUS, 53] == [49] + [DOT] + [PLUS, 53];
    assert [49, DOT, 53, 120] == [49] + [DOT] + [53, 120];
    hide NineDigits, Pow10, Cut, FractionNanos, Convert, ParseInt, Unix;
    FiveNanos();
    OneSecond();
    assert Unix(1, -50_000_000) == Time(0, 950_000_000) by { Carry(-50_000_000); }
    assert Unix(1, 50_000_000) == Time(1, 50_000_000) && Unix(1, 0) == Time(1, 0) by { Carry(50_000_000); Carry(0); }
    ConvertFraction([49], [MINUS, 53]);
    ConvertFraction([49], [PLUS, 53]);
    ConvertFraction([49], [53, 120]);
  }

  lemma Carry(n: int)
    requires -BILLION < n < BILLION
    ensures Unix(1, n) == if n < 0 then Time(0, n + BILLION) else Time(1, n)
  {
  }

  lemma OneSecond()
    ensures ParseInt([49]) == Some(1)
  {
    assert Front([49]) == [];
    ParseDigits([49]);
  }

  lemma FiveNanos()
    ensures FractionNanos([MINUS, 53]) == -50_000_000
    ensures FractionNanos([PLUS, 53]) == 50_000_000
    ensures FractionNanos([53, 120]) == 0
  {
    hide Value, Pow10, Zeros;
    FiveAndZeros();
    var zeros := Zeros(7);
    var minus, plus, x := [MINUS, 53] + zeros, [PLUS, 53] + zeros, [53, 120] + zeros;
    assert minus[1..] == plus[1..] == [53] + zeros;
    assert !IsDigit(minus[0]) && !IsDigit(plus[0]) && !IsDigit(x[1]);
    assert NineDigits([MINUS, 53]) == minus && NineDigits([PLUS, 53]) == plus && NineDigits([53, 120]) == x;
  }

  lemma FiveAndZeros()
    ensures Digits([53] + Zeros(7)) && Value([53] + Zeros(7)) == 50_000_000
  {
    ValueZeros(7);
    ValueConcat([53], Zeros(7));
    assert Front([53]) == [];
    assert Pow10(7) == 10_000_000 by { assert Pow10(4) == 10_000; }
  }

  lemma ParseDigits(s: bytes)
    requires s != [] && Digits(s) && Value(s) < TWO63
    ensures ParseInt(s) == Some(Value(s))
  {
    assert IsDigit(s[0]);
  }

  // ---- negative seconds ------------------------------------------------------------------------

  function TotalNanos(t: Time): int {
    t.sec * BILLION + t.nsec
  }

  /** With a minus sign the fraction still counts upwards: the instant is the decimal number that was
      written, cut to nanoseconds, exactly when its fraction has no nanoseconds. */
  lemma NegativeExactIff(s: bytes, f: bytes)
    requires s != [] && Digits(s) && Digits(f) && Value(s) <= TWO63
    ensures Convert([MINUS] + s + [DOT] + f) == Ok(Time(0 - Value(s), Nanos(f)))
    ensures TotalNanos(Time(0 - Value(s), Nanos(f))) == -(Value(s) * BILLION + Nanos(f)) <==> Nanos(f) == 0
  {
    hide Value, Pow10, Cut, NineDigits, Unix;
    CutAt([MINUS] + s, f, DOT);
    NanosFloor(f);
    ParseNegative(s);
    ParseDigits(NineDigits(f));
    UnixPlain(0 - Value(s), Nanos(f));
  }

  lemma ParseNegative(s: bytes)
    requires s != [] && Digits(s) && Value(s) <= TWO63
    ensures ParseInt([MINUS] + s) == Some(0 - Value(s))
  {
    assert ([MINUS] + s)[1..] == s;
  }

  // ---- printing ------------------------------------------------------------------------------

  function Decimal(n: nat): (s: bytes)
    ensures s != [] && Digits(s)
  {
    (if n < 10 then [] else Decimal(n / 10)) + [48 + n % 10]
  }

  /** The last `width` digits of `n`, with leading zeros. */
  function Padded(n: nat, width: nat): (s: bytes)
    ensures |s| == width && Digits(s)
  {
    if width == 0 then [] else Padded(n / 10, width - 1) + [48 + n % 10]
  }

  function Print(t: Time): bytes {
    (if t.sec < 0 then [MINUS] + Decimal(0 - t.sec) else Decimal(t.sec)) + [DOT] + Padded(t.nsec, 9)
  }

  lemma {:induction false} ValueDecimal(n: nat)
    ensures Value(Decimal(n)) == n
  {
    var d: bytes := [48 + n % 10];
    if n < 10 {
      assert Decimal(n) == [] + d && Front([] + d) == [];
    } else {
      ValueDecimal(n / 10);
      assert Front(Decimal(n)) == Decimal(n / 10);
    }
  }

  lemma {:induction false} ValuePadded(n: nat, width: nat)
    requires n < Pow10(width)
    ensures Value(Padded(n, width)) == n
  {
    if width > 0 {
      ValuePadded(n / 10, width - 1);
      assert Front(Padded(n, width)) == Padded(n / 10, width - 1);
    }
  }

  /** Converting what was printed with nine fraction digits gives back every instant, the ones before
      the epoch included. */
  lemma ConvertInvertsPrint(t: Time)
    ensures Convert(Print(t)) == Ok(t)
  {
    hide Value, Pow10, Cut, Decimal, Padded, Unix, NineDigits;
    var f := Padded(t.nsec, 9);
    Billion();
    ValuePadded(t.nsec, 9);
    NineOfNine(f);
    if t.sec < 0 {
      ValueDecimal(0 - t.sec);
      NegativeExactIff(Decimal(0 - t.sec), f);
    } else {
      ValueDecimal(t.sec);
      ConvertDecimal(Decimal(t.sec), f);
    }
  }

  lemma NineOfNine(f: bytes)
    requires |f| == 9
    ensures NineDigits(f) == f
  {
    assert f + Zeros(0) == f;
  }

  // ---- order ------------------------------------------------------------------------------------

  predicate NotAfter(a: Time, b: Time) {
    a.sec < b.sec || (a.sec == b.sec && a.nsec <= b.nsec)
  }

  /** The decimal number `s.f` is at most `s'.f'`, with both brought to a common denominator. */
  predicate AtMost(s: bytes, f: bytes, s': bytes, f': bytes)
    requires Digits(s) && Digits(f) && Digits(s') && Digits(f')
  {
    (Value(s) * Pow10(|f|) + Value(f)) * Pow10(|f'|) <= (Value(s') * Pow10(|f'|) + Value(f')) * Pow10(|f|)
  }

  /** A larger decimal number is never converted to an earlier instant, however many digits either has. */
  lemma ConvertMonotone(s: bytes, f: bytes, s': bytes, f': bytes)
    requires s != [] && Digits(s) && Digits(f) && Value(s) < TWO63
    requires s' != [] && Digits(s') && Digits(f') && Value(s') < TWO63
    requires AtMost(s, f, s', f')
    ensures Convert(s + [DOT] + f).Ok? && Convert(s' + [DOT] + f').Ok?
    ensures NotAfter(Convert(s + [DOT] + f).value, Convert(s' + [DOT] + f').value)
  {
    hide Value, Pow10, Convert;
    ConvertDecimal(s, f);
    ConvertDecimal(s', f');
    WholePart(Value(s), Value(f), Pow10(|f|), Value(s'), Value(f'), Pow10(|f'|));
    if Value(s) == Value(s') {
      FractionPart(Value(f), Pow10(|f|), Value(f'), Pow10(|f'|));
    }
  }

  lemma WholePart(a: nat, x: nat, p: nat, b: nat, y: nat, q: nat)
    requires x < p && y < q && (a * p + x) * q <= (b * q + y) * p
    ensures a <= b
    ensures a == b ==> x * q <= y * p
  {
    Expand(a, p, x, q);
    Expand(b, q, y, p);
    MulLess(y, q, p);
    Swap1(p, q);
    Whole(a, b, p * q, x * q, y * p);
  }

  lemma Whole(a: nat, b: nat, unit: nat, x: nat, y: nat)
    requires y < unit && a * unit + x <= b * unit + y
    ensures a <= b
    ensures a == b ==> x <= y
  {
    if a > b {
      MulAtMost(b + 1, a, unit);
    }
  }

  lemma Swap1(a: nat, b: nat)
    ensures a * b == b * a
  {
  }

  lemma Expand(a: nat, p: nat, x: nat, q: nat)
    ensures (a * p + x) * q == a * (p * q) + x * q
  {
    assert (a * p) * q == a * (p * q);
  }

  lemma MulLess(a: nat, b: nat, p: nat)
    requires a < b && p > 0
    ensures a * p < b * p
  {
  }

  lemma MulAtMost(a: nat, b: nat, p: nat)
    requires a <= b
    ensures a * p <= b * p
  {
  }

  lemma FractionPart(x: nat, p: nat, y: nat, q: nat)
    requires p > 0 && q > 0 && x * q <= y * p
    ensures x * BILLION / p <= y * BILLION / q
  {
    var n, m := x * BILLION / p, y * BILLION / q;
    assert n * p <= x * BILLION;
    assert y * BILLION < (m + 1) * q by { assert y * BILLION == m * q + y * BILLION % q; }
    if n > m {
      MulAtMost(m + 1, n, p);
      MulAtMost((m + 1) * p, x * BILLION, q);
      MulAtMost(x * q, y * p, BILLION);
      MulLess(y * BILLION, (m + 1) * q, p);
      Swap(m + 1, p, q);
      assert x * BILLION * q == x * q * BILLION && y * p * BILLION == y * BILLION * p by {
        Swap(x, BILLION, q);
        Swap(y, p, BILLION);
      }
      assert false;
    }
  }

  lemma Swap(a: nat, b: nat, c: nat)
    ensures a * b * c == a * c * b
  {
    assert a * b * c == a * (b * c) && a * c * b == a * (c * b) && b * c == c * b;
  }
}
