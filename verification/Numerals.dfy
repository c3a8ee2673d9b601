/** Numbers written out and read back: what strtol of kernel/src/lib/string.c makes of every numeral. */
module Numerals {
  import opened CStrings

  const DIGITS: string := "0123456789abcdefghijklmnopqrstuvwxyz"
  const CAPITALS: string := "0123456789ABCDEFGHIJKLMNOPQRSTUVWXYZ"

  /** The digit character for d, small or capital. */
  function Digit(d: nat, capital: bool): char
    requires d < 36
  {
    if capital then CAPITALS[d] else DIGITS[d]
  }

  lemma DigitReads(d: nat, capital: bool)
    requires d < 36
    ensures DigitValue(Digit(d, capital)) == d
  {
    if d < 10 {
      assert Digit(d, capital) as int == '0' as int + d;
    } else if capital {
      assert Digit(d, capital) as int == 'A' as int + d - 10;
    } else {
      assert Digit(d, capital) as int == 'a' as int + d - 10;
    }
  }

  lemma Quotient(n: nat, b: nat)
    requires n >= b >= 2
    ensures 0 < n / b < n && n == n / b * b + n % b && 0 <= n % b < b
  {
    var q, r := n / b, n % b;
    assert n == b * q + r;
    if q > 0 { Doubles(q, b); }
  }

  lemma Doubles(q: nat, b: nat)
    requires q > 0 && b >= 2
    ensures b * q >= 2 * q && b * q == q * b
  {
    assert b * q == 2 * q + (b - 2) * q;
  }

  /** n in base b, without leading zeros. */
  function Numeral(n: nat, b: nat, capital: bool): (s: string)
    requires 2 <= b <= 36
    ensures s != []
  {
    if n < b then [Digit(n, capital)] else
    Quotient(n, b);
    Numeral(n / b, b, capital) + [Digit(n % b, capital)]
  }

  lemma {:induction false} NumeralDigits(n: nat, b: nat, capital: bool)
    requires 2 <= b <= 36
    ensures var s := Numeral(n, b, capital);
            && (forall k :: 0 <= k < |s| ==> DigitValue(s[k]) < b)
            && Value(s, b) == n && (n > 0 ==> DigitValue(s[0]) > 0) && (|s| > 1 ==> n > 0)
  {
    hide DigitValue, Digit;
    var s := Numeral(n, b, capital);
    if n < b {
      DigitReads(n, capital);
      assert s[..0] == [] && Value(s[..0], b) == 0;
    } else {
      Quotient(n, b);
      var q, r: nat := n / b, n % b;
      var pre, d := Numeral(q, b, capital), Digit(r, capital);
      NumeralDigits(q, b, capital);
      DigitReads(r, capital);
      hide Numeral;
      assert s == pre + [d];
      Extend(pre, d, b);
    }
  }

  lemma Extend(pre: string, d: char, b: nat)
    requires pre != []
    ensures Value(pre + [d], b) == Value(pre, b) * b + DigitValue(d) && (pre + [d])[0] == pre[0]
  {
    assert (pre + [d])[..|pre|] == pre;
  }

  /** What may stand behind a numeral: nothing, or a character that is no digit in any base. */
  predicate Ends(rest: string) {
    rest == [] || DigitValue(rest[0]) >= 36
  }

  lemma RunOfNumeral(n: nat, b: nat, capital: bool, rest: string)
    requires 2 <= b <= 36 && Ends(rest)
    ensures Value(DigitRun(Numeral(n, b, capital) + rest, b), b) == n
  {
    hide DigitValue, Digit, Numeral, Value, DigitRun;
    var s := Numeral(n, b, capital);
    NumeralDigits(n, b, capital);
    DigitRunIs(s + rest, b, |s|);
    assert (s + rest)[..|s|] == s;
  }

  /** The optional sign. */
  datatype Sign = NoSign | Plus | Minus

  function SignString(g: Sign): string {
    match g case NoSign => "" case Plus => "+" case Minus => "-"
  }

  function Signed(g: Sign, n: nat): int {
    if g == Minus then 0 - n as int else n as int
  }

  /** The value strtol should give, in plain numbers. */
  function Saturated(v: int): int {
    if v > 9223372036854775807 then 9223372036854775807 else if v < -9223372036854775808 then -9223372036854775808
    else v
  }

  /** Any of the six white-space characters, in front. */
  predicate IsWhite(w: string) {
    forall k :: 0 <= k < |w| ==>
      w[k] == ' ' || w[k] == '\t' || w[k] == '\n' || w[k] == '\r' || w[k] == 12 as char || w[k] == 11 as char
  }

  lemma {:induction false} SkipsWhite(w: string, t: string)
    requires IsWhite(w) && (t == [] || !IsSpace(t[0]))
    ensures SkipSpace(w + t) == t
  {
    if w == [] {
      assert w + t == t;
    } else {
      SkipsWhite(w[1..], t);
      assert (w + t)[1..] == w[1..] + t;
    }
  }

  /** The digits of a string that begins with a digit: no white space, no sign in front of them. */
  lemma DigitFirst(c: char)
    requires DigitValue(c) < 36
    ensures !IsSpace(c) && c != '-' && c != '+'
  {
  }

  /** What strtol does once white space and sign are behind it. */
  lemma AfterSign(w: string, g: Sign, v: string, base: nat)
    requires IsWhite(w) && v != [] && DigitValue(v[0]) < 36
    ensures var (b, u) := Prefix(v, base);
            StrtolSpec(w + SignString(g) + v, base) == Saturated(Signed(g, Value(DigitRun(u, b), b)))
  {
    DigitFirst(v[0]);
    var t := SignString(g) + v;
    assert w + SignString(g) + v == w + t;
    assert t[0] == if g == NoSign then v[0] else SignString(g)[0];
    assert g != NoSign ==> t[1..] == v;
    assert g == NoSign ==> t == v;
    SkipsWhite(w, t);
    hide SkipSpace, Value, DigitRun, Prefix, DigitValue;
  }

  /** Base 2 to 36: white space, a sign and a numeral are read back as the number, cut off at the ends of a
      long; what stands behind the numeral does not matter. */
  lemma StrtolReads(w: string, g: Sign, n: nat, b: nat, capital: bool, rest: string)
    requires IsWhite(w) && 2 <= b <= 36 && Ends(rest)
    ensures StrtolSpec(w + SignString(g) + (Numeral(n, b, capital) + rest), b) == Saturated(Signed(g, n))
  {
    var s := Numeral(n, b, capital);
    NumeralDigits(n, b, capital);
    assert (s + rest)[0] == s[0];
    NotHex(s, rest, n, b, capital);
    hide DigitValue, Digit, Numeral, Value, DigitRun, SkipSpace;
    AfterSign(w, g, s + rest, b);
    RunOfNumeral(n, b, capital, rest);
  }

  lemma NotHex(s: string, rest: string, n: nat, b: nat, capital: bool)
    requires 2 <= b <= 36 && Ends(rest) && s == Numeral(n, b, capital)
    ensures !Hex(s + rest)
  {
    hide Digit, Numeral, Value;
    NumeralDigits(n, b, capital);
    assert (s + rest)[0] == s[0];
    assert |s + rest| > 1 ==> (s + rest)[1] == if |s| > 1 then s[1] else rest[0];
  }

  /** Base 16 or 0: the prefix 0x or 0X is skipped. */
  lemma StrtolReadsHex(w: string, g: Sign, n: nat, base: nat, x: char, capital: bool, rest: string)
    requires IsWhite(w) && Ends(rest) && (base == 16 || base == 0) && (x == 'x' || x == 'X')
    ensures StrtolSpec(w + SignString(g) + (['0', x] + (Numeral(n, 16, capital) + rest)),
                base) == Saturated(Signed(g, n))
  {
    var u := Numeral(n, 16, capital) + rest;
    var v := ['0', x] + u;
    assert v[2..] == u && Hex(v);
    hide DigitRun, Value, Numeral, SkipSpace;
    AfterSign(w, g, v, base);
    RunOfNumeral(n, 16, capital, rest);
  }

  /** Base 0: a leading 0 means octal, any other digit decimal. */
  lemma StrtolReadsAuto(w: string, g: Sign, n: nat, rest: string)
    requires IsWhite(w) && Ends(rest)
    ensures StrtolSpec(w + SignString(g) + (['0'] + (Numeral(n, 8, false) + rest)), 0) == Saturated(Signed(g, n))
    ensures StrtolSpec(w + SignString(g) + (Numeral(n, 10, false) + rest), 0) == Saturated(Signed(g, n))
  {
    OctalAuto(w, g, n, rest);
    DecimalAuto(w, g, n, rest);
  }

  lemma OctalAuto(w: string, g: Sign, n: nat, rest: string)
    requires IsWhite(w) && Ends(rest)
    ensures StrtolSpec(w + SignString(g) + (['0'] + (Numeral(n, 8, false) + rest)), 0) == Saturated(Signed(g, n))
  {
    var s := Numeral(n, 8, false);
    var u := s + rest;
    var v := ['0'] + u;
    NumeralDigits(n, 8, false);
    assert v[1..] == u && v[1] == s[0] && !Hex(v);
    hide DigitRun, Value, Numeral, SkipSpace;
    AfterSign(w, g, v, 0);
    RunOfNumeral(n, 8, false, rest);
  }

  lemma DecimalAuto(w: string, g: Sign, n: nat, rest: string)
    requires IsWhite(w) && Ends(rest)
    ensures StrtolSpec(w + SignString(g) + (Numeral(n, 10, false) + rest), 0) == Saturated(Signed(g, n))
  {
    var s := Numeral(n, 10, false);
    var v := s + rest;
    NumeralDigits(n, 10, false);
    assert v[0] == s[0];
    if n == 0 {
      assert s == ['0'] && v[1..] == rest;
      assert DigitRun(rest, 8) == [] && Value([], 8) == 0;
      NotHex(s, rest, 0, 10, false);
    } else {
      assert v[0] != '0';
    }
    hide DigitRun, Value, Numeral, SkipSpace;
    AfterSign(w, g, v, 0);
    RunOfNumeral(n, 10, false, rest);
  }
}
