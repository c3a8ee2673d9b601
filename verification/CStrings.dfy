/** The C string functions of kernel/src/lib/string.c that the file system uses. A C string is the
    text from an offset of a buffer up to the first NUL. */
module CStrings {

  const NUL: char := '\0'

  /** There is a NUL at or behind offset i. */
  ghost predicate Terminated(b: seq<char>, i: nat) {
    exists k :: i <= k < |b| && b[k] == NUL
  }

  function CStr(b: seq<char>, i: nat): string
    requires i <= |b|
    decreases |b| - i
  {
    if i == |b| || b[i] == NUL then [] else [b[i]] + CStr(b, i + 1)
  }

  lemma {:induction false} CStrFacts(b: seq<char>, i: nat)
    requires i <= |b| && Terminated(b, i)
    ensures var t := CStr(b, i);
            && i + |t| < |b| && b[i + |t|] == NUL && t == b[i..i + |t|]
            && (forall k :: 0 <= k < |t| ==> t[k] != NUL)
    decreases |b| - i
  {
    if b[i] != NUL {
      var k :| i <= k < |b| && b[k] == NUL;
      assert Terminated(b, i + 1);
      CStrFacts(b, i + 1);
      var t := CStr(b, i);
      assert t == b[i..i + |t|];
    }
  }

  lemma {:induction false} CStrAtLeast(b: seq<char>, i: nat, n: nat)
    requires i + n <= |b| && forall k :: i <= k < i + n ==> b[k] != NUL
    ensures |CStr(b, i)| >= n
    decreases n
  {
    if n > 0 {
      CStrAtLeast(b, i + 1, n - 1);
    }
  }

  lemma CStrBound(b: seq<char>, i: nat)
    requires i <= |b| && Terminated(b, i)
    ensures i + |CStr(b, i)| < |b|
  {
    CStrFacts(b, i);
  }

  /** A NUL-free stretch followed by a NUL is the string. */
  lemma {:induction false} CStrIs(b: seq<char>, i: nat, n: nat)
    requires i + n < |b| && b[i + n] == NUL && forall k :: i <= k < i + n ==> b[k] != NUL
    ensures CStr(b, i) == b[i..i + n]
    decreases n
  {
    if n > 0 {
      CStrIs(b, i + 1, n - 1);
      assert b[i..i + n] == [b[i]] + b[i + 1..i + n];
    }
  }

  lemma CStrTail(b: seq<char>, i: nat, n: nat)
    requires i <= |b| && Terminated(b, i) && n <= |CStr(b, i)|
    ensures i + n <= |b| && Terminated(b, i + n) && CStr(b, i + n) == CStr(b, i)[n..]
  {
    var t := CStr(b, i);
    CStrFacts(b, i);
    forall k | i + n <= k < i + |t| ensures b[k] != NUL {
      assert t[k - i] == b[k];
    }
    CStrIs(b, i + n, |t| - n);
    assert b[i + n..i + |t|] == t[n..];
  }

  lemma EndsHere(b: seq<char>, i: nat, n: nat)
    requires i <= |b| && Terminated(b, i) && n <= |CStr(b, i)| && i + n < |b| && b[i + n] == NUL
    ensures n == |CStr(b, i)|
  {
    CStrTail(b, i, n);
    HeadOf(b, i + n);
  }

  lemma HeadOf(b: seq<char>, s: nat)
    requires s <= |b| && Terminated(b, s)
    ensures s < |b| && (b[s] == NUL <==> CStr(b, s) == []) && (b[s] != NUL ==> CStr(b, s)[0] == b[s])
  {
    CStrFacts(b, s);
  }

  // ---------- strspn, strcspn, strcmp ----------

  /** The number of leading characters that are, or are not, in the set. */
  function Span(t: string, set_: string): (n: nat)
    ensures n <= |t|
  {
    if t == [] || t[0] !in set_ then 0 else 1 + Span(t[1..], set_)
  }

  function CoSpan(t: string, set_: string): (n: nat)
    ensures n <= |t|
  {
    if t == [] || t[0] in set_ then 0 else 1 + CoSpan(t[1..], set_)
  }

  lemma {:induction false} SpanFacts(t: string, set_: string)
    ensures var n := Span(t, set_); (forall k :: 0 <= k < n ==> t[k] in set_) && (n < |t| ==> t[n] !in set_)
  {
    if t != [] && t[0] in set_ {
      SpanFacts(t[1..], set_);
    }
  }

  lemma {:induction false} CoSpanFacts(t: string, set_: string)
    ensures var n := CoSpan(t, set_); (forall k :: 0 <= k < n ==> t[k] !in set_) && (n < |t| ==> t[n] in set_)
  {
    if t != [] && t[0] !in set_ {
      CoSpanFacts(t[1..], set_);
    }
  }

  lemma SpanUnique(t: string, set_: string, n: nat)
    requires n <= |t| && (forall k :: 0 <= k < n ==> t[k] in set_) && (n < |t| ==> t[n] !in set_)
    ensures n == Span(t, set_)
  {
    SpanFacts(t, set_);
  }

  lemma CoSpanUnique(t: string, set_: string, n: nat)
    requires n <= |t| && (forall k :: 0 <= k < n ==> t[k] !in set_) && (n < |t| ==> t[n] in set_)
    ensures n == CoSpan(t, set_)
  {
    CoSpanFacts(t, set_);
  }

  method Strspn(b: seq<char>, s: nat, accept: string) returns (count: nat)
    requires s <= |b| && Terminated(b, s)
    ensures count == Span(CStr(b, s), accept)
  {
    ghost var t := CStr(b, s);
    CStrFacts(b, s);
    count := 0;
    while b[s + count] != NUL
      invariant count <= |t| && forall k :: 0 <= k < count ==> t[k] in accept
      decreases |t| - count
    {
      assert count < |t| && b[s + count] == t[count];
      var p := 0;
      while p < |accept| && b[s + count] != accept[p]
        invariant p <= |accept| && forall q :: 0 <= q < p ==> accept[q] != t[count]
      {
        p := p + 1;
      }
      if p == |accept| {
        SpanUnique(t, accept, count);
        return;
      }
      count := count + 1;
    }
    EndsHere(b, s, count);
    SpanUnique(t, accept, count);
  }

  method Strcspn(b: seq<char>, s: nat, reject: string) returns (count: nat)
    requires s <= |b| && Terminated(b, s)
    ensures count == CoSpan(CStr(b, s), reject)
  {
    ghost var t := CStr(b, s);
    CStrFacts(b, s);
    count := 0;
    while b[s + count] != NUL
      invariant count <= |t| && forall k :: 0 <= k < count ==> t[k] !in reject
      decreases |t| - count
    {
      assert count < |t| && b[s + count] == t[count];
      var p := 0;
      while p < |reject|
        invariant p <= |reject| && forall q :: 0 <= q < p ==> reject[q] != t[count]
      {
        if b[s + count] == reject[p] {
          CoSpanUnique(t, reject, count);
          return;
        }
        p := p + 1;
      }
      count := count + 1;
    }
    EndsHere(b, s, count);
    CoSpanUnique(t, reject, count);
  }

  /** Lexicographic order. */
  predicate Before(s: string, t: string) {
    t != [] && (s == [] || s[0] < t[0] || (s[0] == t[0] && Before(s[1..], t[1..])))
  }

  /** strcmp is 0 exactly on equal strings and negative exactly if the first comes before the second. */
  method Strcmp(a: seq<char>, i: nat, b: seq<char>, j: nat) returns (d: int)
    requires i <= |a| && Terminated(a, i) && j <= |b| && Terminated(b, j)
    ensures d == 0 <==> CStr(a, i) == CStr(b, j)
    ensures d < 0 <==> Before(CStr(a, i), CStr(b, j))
  {
    var x: nat, y: nat := i, j;
    HeadOf(a, x);
    HeadOf(b, y);
    while a[x] != NUL && a[x] == b[y]
      invariant x < |a| && Terminated(a, x) && y < |b| && Terminated(b, y)
      invariant CStr(a, i) == CStr(b, j) <==> CStr(a, x) == CStr(b, y)
      invariant Before(CStr(a, i), CStr(b, j)) <==> Before(CStr(a, x), CStr(b, y))
      decreases |a| - x
    {
      HeadOf(a, x);
      HeadOf(b, y);
      CStrTail(a, x, 1);
      CStrTail(b, y, 1);
      SameHead(CStr(a, x), CStr(b, y));
      x, y := x + 1, y + 1;
      HeadOf(a, x);
      HeadOf(b, y);
    }
    d := a[x] as int - b[y] as int;
    HeadOf(a, x);
    HeadOf(b, y);
  }

  /** What a character pointer can hold: no NUL before the end. */
  type cstring = s: string | NUL !in s witness ""

  lemma Stored(s: cstring)
    ensures Terminated(s + [NUL], 0) && CStr(s + [NUL], 0) == s
  {
    assert (s + [NUL])[|s|] == NUL;
    CStrIs(s + [NUL], 0, |s|);
  }

  /** strcmp(s, t) == 0 on the stored bytes. */
  method SameString(s: cstring, t: cstring) returns (same: bool)
    ensures same <==> s == t
  {
    Stored(s);
    Stored(t);
    var d := Strcmp(s + [NUL], 0, t + [NUL], 0);
    same := d == 0;
  }

  lemma SameHead(s: string, t: string)
    requires s != [] && t != [] && s[0] == t[0]
    ensures s == t <==> s[1..] == t[1..]
  {
    assert s == [s[0]] + s[1..] && t == [t[0]] + t[1..];
  }

  // ---------- strtol ----------

  const LONG_MAX: int := 0x7fff_ffff_ffff_ffff
  const LONG_MIN: int := -0x8000_0000_0000_0000

  predicate IsSpace(c: char) {
    c == ' ' || c == '\t' || c == '\n' || c == '\r' || c == 12 as char || c == 11 as char
  }

  /** The value of a digit character; 36 for anything else. */
  function DigitValue(c: char): (d: nat)
    ensures d <= 36
  {
    if '0' <= c <= '9' then c as int - '0' as int
    else if 'a' <= c <= 'z' then c as int - 'a' as int + 10
    else if 'A' <= c <= 'Z' then c as int - 'A' as int + 10
    else 36
  }

  /** The digits of the base that a text starts with. */
  function DigitRun(t: string, base: nat): string {
    if t == [] || DigitValue(t[0]) >= base then [] else [t[0]] + DigitRun(t[1..], base)
  }

  /** The number a digit string denotes. */
  function Value(ds: string, base: nat): nat {
    if ds == [] then 0 else Value(ds[..|ds| - 1], base) * base + DigitValue(ds[|ds| - 1])
  }

  function SkipSpace(t: string): string {
    if t == [] || !IsSpace(t[0]) then t else SkipSpace(t[1..])
  }

  function Clamp(v: int): int {
    if v > LONG_MAX then LONG_MAX else if v < LONG_MIN then LONG_MIN else v
  }

  predicate Hex(t: string) {
    |t| >= 2 && t[0] == '0' && (t[1] == 'x' || t[1] == 'X')
  }

  /** The base in force and the digits' text, after the optional base prefix. */
  function Prefix(t: string, base: nat): (nat, string) {
    if base == 0 then
      if Hex(t) then (16, t[2..]) else if t != [] && t[0] == '0' then (8, t[1..]) else (10, t)
    else if base == 16 && Hex(t) then (16, t[2..])
    else (base, t)
  }

  /** What strtol should compute: the signed value of the digit prefix, clamped to a long. */
  function StrtolSpec(t: string, base: nat): int {
    var u := SkipSpace(t);
    var negative := u != [] && u[0] == '-';
    var v := if u != [] && (u[0] == '-' || u[0] == '+') then u[1..] else u;
    var (b, w) := Prefix(v, base);
    var n: int := Value(DigitRun(w, b), b);
    Clamp(if negative then -n else n)
  }

  lemma {:induction false} ValueMonotone(ds: string, k: nat, base: nat)
    requires k <= |ds| && base >= 1
    ensures Value(ds[..k], base) <= Value(ds, base)
  {
    if k == |ds| {
      assert ds[..k] == ds;
    } else {
      var n := |ds| - 1;
      ValueMonotone(ds[..n], k, base);
      assert ds[..n][..k] == ds[..k];
      assert Value(ds[..n], base) <= Value(ds[..n], base) * base by { MulGrows(Value(ds[..n], base), base); }
    }
  }

  lemma MulGrows(x: nat, b: nat)
    requires b >= 1
    ensures x <= x * b
  {
  }

  lemma {:induction false} DigitRunFacts(t: string, base: nat)
    ensures var n := |DigitRun(t, base)|;
            && n <= |t| && DigitRun(t, base) == t[..n]
            && (forall k :: 0 <= k < n ==> DigitValue(t[k]) < base) && (n < |t| ==> DigitValue(t[n]) >= base)
  {
    if t != [] && DigitValue(t[0]) < base {
      DigitRunFacts(t[1..], base);
      var n := |DigitRun(t, base)|;
      assert t[..n] == [t[0]] + t[1..][..n - 1];
    }
  }

  lemma DigitRunIs(t: string, base: nat, n: nat)
    requires n <= |t| && (forall k :: 0 <= k < n ==> DigitValue(t[k]) < base) && (n < |t| ==> DigitValue(t[n]) >= base)
    ensures DigitRun(t, base) == t[..n]
  {
    DigitRunFacts(t, base);
  }

  /** The comparison against cutoff and cutlim detects exactly the steps that would leave a long. */
  lemma CutoffExact(result: int, digit: int, base: int)
    requires 2 <= base <= 36 && 0 <= result && 0 <= digit < base
    ensures (result > LONG_MAX / base || (result == LONG_MAX / base && digit > LONG_MAX % base))
            <==> result * base + digit > LONG_MAX
  {
    var q, r := LONG_MAX / base, LONG_MAX % base;
    assert LONG_MAX == q * base + r;
    if result > q {
      assert result * base >= (q + 1) * base == q * base + base;
    } else if result < q {
      assert result * base <= (q - 1) * base == q * base - base;
    }
  }

  lemma NoDigits(base: nat)
    ensures forall ds: string :: ds[..0] == [] && Value([], base) == 0
  {
  }

  lemma ValueStep(ds: string, n: nat, base: nat)
    requires n < |ds|
    ensures Value(ds[..n + 1], base) == Value(ds[..n], base) * base + DigitValue(ds[n])
  {
    assert ds[..n + 1][..n] == ds[..n];
  }

  method SkipWhite(b: seq<char>, str: nat) returns (s: nat)
    requires str <= |b| && Terminated(b, str)
    ensures s <= |b| && Terminated(b, s) && CStr(b, s) == SkipSpace(CStr(b, str))
  {
    s := str;
    HeadOf(b, s);
    while IsSpace(b[s])
      invariant s < |b| && Terminated(b, s) && SkipSpace(CStr(b, s)) == SkipSpace(CStr(b, str))
      decreases |b| - s
    {
      HeadOf(b, s);
      CStrTail(b, s, 1);
      s := s + 1;
      HeadOf(b, s);
    }
    HeadOf(b, s);
  }

  method Strtol(b: seq<char>, str: nat, base: nat) returns (result: int)
    requires str <= |b| && Terminated(b, str) && (base == 0 || 2 <= base <= 36)
    ensures result == StrtolSpec(CStr(b, str), base)
    ensures LONG_MIN <= result <= LONG_MAX
  {
    hide Terminated, Clamp, DigitRun, Value;
    var s := SkipWhite(b, str);
    HeadOf(b, s);
    var sign := 1;
    if b[s] == '-' {
      sign := -1;
      CStrTail(b, s, 1);
      s := s + 1;
    } else if b[s] == '+' {
      CStrTail(b, s, 1);
      s := s + 1;
    }
    var radix;
    s, radix := BasePrefix(b, s, base);
    result := Accumulate(b, s, radix, sign);
  }

  /** The base prefix: 0x or 0 when the base is 0, an optional 0x when it is 16. */
  method BasePrefix(b: seq<char>, at: nat, base: nat) returns (s: nat, radix: nat)
    requires at <= |b| && Terminated(b, at) && (base == 0 || 2 <= base <= 36)
    ensures s <= |b| && Terminated(b, s) && 2 <= radix <= 36
    ensures (radix, CStr(b, s)) == Prefix(CStr(b, at), base)
  {
    s, radix := at, base;
    HeadOf(b, at);
    if b[at] == '0' {
      CStrTail(b, at, 1);
      HeadOf(b, at + 1);
      ghost var t := CStr(b, at);
      assert t[1..] != [] ==> t[1..][0] == t[1];
      if b[at + 1] == 'x' || b[at + 1] == 'X' {
        CStrTail(b, at, 2);
      }
    }
    if base == 0 {
      if b[s] == '0' {
        if b[s + 1] == 'x' || b[s + 1] == 'X' {
          radix := 16;
          s := s + 2;
        } else {
          radix := 8;
          s := s + 1;
        }
      } else {
        radix := 10;
      }
    } else if base == 16 && b[s] == '0' && (b[s + 1] == 'x' || b[s + 1] == 'X') {
      s := s + 2;
    }
  }

  /** The digit loop, with its early exit on overflow. */
  method Accumulate(b: seq<char>, at: nat, base: nat, sign: int) returns (result: int)
    requires at <= |b| && Terminated(b, at) && 2 <= base <= 36 && (sign == 1 || sign == -1)
    ensures result == Clamp(sign * Value(DigitRun(CStr(b, at), base), base))
    ensures LONG_MIN <= result <= LONG_MAX
  {
    hide DigitValue, Value, DigitRun;
    ghost var t := CStr(b, at);
    ghost var ds := DigitRun(t, base);
    DigitRunFacts(t, base);
    NoDigits(base);
    HeadOf(b, at);
    result := 0;
    var cutoff, cutlim := LONG_MAX / base, LONG_MAX % base;
    ghost var n := 0;
    var s := at;
    while b[s] != NUL
      invariant s == at + n && n <= |ds| && s < |b| && 0 <= result <= LONG_MAX
      invariant result == Value(ds[..n], base)
      decreases |ds| - n
    {
      CStrTail(b, at, n);
      HeadOf(b, s);
      assert t[n..][0] == t[n];
      var digit := DigitValue(b[s]);
      if digit >= base {
        break;
      }
      assert n < |ds| && ds[n] == t[n];
      ValueStep(ds, n, base);
      CStrTail(b, at, n + 1);
      HeadOf(b, s + 1);
      CutoffExact(result, digit, base);
      ValueMonotone(ds, n + 1, base);
      if result > cutoff || (result == cutoff && digit > cutlim) {
        result := if sign == 1 then LONG_MAX else LONG_MIN;
        return;
      }
      result := result * base + digit;
      s := s + 1;
      n := n + 1;
    }
    CStrTail(b, at, n);
    HeadOf(b, s);
    assert n < |t| ==> t[n..][0] == t[n];
    assert n == |ds|;
    assert ds[..n] == ds;
    result := result * sign;
  }

  // ---------- strtok ----------

  /** The maximal non-empty stretches without a delimiter, in order. */
  function Segments(t: string, delim: string): seq<string>
    decreases |t|
  {
    var u := t[Span(t, delim)..];
    if u == [] then [] else
    var n := CoSpan(u, delim);
    [u[..n]] + Segments(u[n..], delim)
  }

  /** Segment i of t is t[a..b], and nothing on either side belongs to it. */
  ghost predicate MaximalAt(t: string, delim: string, a: nat, b: nat) {
    && a < b <= |t|
    && (forall k :: a <= k < b ==> t[k] !in delim)
    && (a > 0 ==> t[a - 1] in delim) && (b < |t| ==> t[b] in delim)
  }

  ghost predicate SegmentAt(t: string, delim: string, from: nat, seg: string, a: nat) {
    from <= a && MaximalAt(t, delim, a, a + |seg|) && seg == t[a..a + |seg|]
  }

  ghost predicate Covered(segs: seq<string>, at: seq<nat>, k: nat)
    requires |at| == |segs|
  {
    exists i :: 0 <= i < |segs| && at[i] <= k < at[i] + |segs[i]|
  }

  /** The segments sit at the given places of t, from `from` on. */
  ghost predicate Located(t: string, delim: string, from: nat, segs: seq<string>, at: seq<nat>) {
    && |at| == |segs| && from <= |t|
    && (forall i :: 0 <= i < |segs| ==> SegmentAt(t, delim, from, segs[i], at[i]))
    && (forall i, j :: 0 <= i < j < |segs| ==> at[i] + |segs[i]| < at[j])
    && (forall k :: from <= k < |t| && t[k] !in delim ==> Covered(segs, at, k))
  }

  lemma SegmentsFrom(t: string, delim: string, from: nat)
    requires from <= |t|
    ensures var a := from + Span(t[from..], delim);
            && a <= |t|
            && var b := a + CoSpan(t[a..], delim);
            && b <= |t|
            && Segments(t[from..], delim) == if a == |t| then [] else [t[a..b]] + Segments(t[b..], delim)
  {
    hide Segments, Span, CoSpan;
    var s := t[from..];
    var a := from + Span(s, delim);
    UnfoldSegments(s, delim);
    SliceSlice(t, from, Span(s, delim));
    SliceSlice(t, a, CoSpan(t[a..], delim));
  }

  lemma SliceSlice(t: string, a: nat, n: nat)
    requires a + n <= |t|
    ensures t[a..][n..] == t[a + n..] && t[a..][..n] == t[a..a + n]
  {
  }

  /** The first segment of t[from..]: behind the leading delimiters, up to the next one. */
  lemma FirstSegment(t: string, delim: string, from: nat) returns (a: nat, b: nat)
    requires from <= |t| && (0 < from < |t| ==> t[from - 1] in delim || t[from] in delim)
    ensures from <= a <= b <= |t| && forall k :: from <= k < a ==> t[k] in delim
    ensures Segments(t[from..], delim) == if a == |t| then [] else [t[a..b]] + Segments(t[b..], delim)
    ensures a < |t| ==> MaximalAt(t, delim, a, b)
  {
    hide Segments;
    SegmentsFrom(t, delim, from);
    SpanIn(t, from, delim);
    a := from + Span(t[from..], delim);
    b := a + CoSpan(t[a..], delim);
    if a < |t| {
      CoSpanIn(t, a, delim);
    }
  }

  lemma SpanIn(t: string, from: nat, delim: string)
    requires from <= |t|
    ensures var a := from + Span(t[from..], delim);
            a <= |t| && (forall k :: from <= k < a ==> t[k] in delim) && (a < |t| ==> t[a] !in delim)
  {
    var s := t[from..];
    SpanFacts(s, delim);
    assert forall k :: from <= k < |t| ==> t[k] == s[k - from];
  }

  lemma CoSpanIn(t: string, from: nat, delim: string)
    requires from < |t| && t[from] !in delim
    ensures var b := from + CoSpan(t[from..], delim);
            from < b <= |t| && (forall k :: from <= k < b ==> t[k] !in delim) && (b < |t| ==> t[b] in delim)
  {
    var s := t[from..];
    CoSpanFacts(s, delim);
    assert forall k :: from <= k < |t| ==> t[k] == s[k - from];
  }

  /** Independent reading of Segments: the segments are maximal delimiter-free stretches at strictly
      increasing, separated places, and every character that is no delimiter lies in one of them. */
  lemma {:induction false} SegmentsMaximal(t: string, delim: string, from: nat) returns (at: seq<nat>)
    requires from <= |t| && (0 < from < |t| ==> t[from - 1] in delim || t[from] in delim)
    ensures Located(t, delim, from, Segments(t[from..], delim), at)
    decreases |t| - from
  {
    hide Segments;
    var a, b := FirstSegment(t, delim, from);
    if a == |t| {
      at := [];
    } else {
      var rest := SegmentsMaximal(t, delim, b);
      at := [a] + rest;
      SegmentsJoin(t, delim, from, a, b, Segments(t[b..], delim), rest);
    }
  }

  lemma SegmentsJoin(t: string, delim: string, from: nat, a: nat, b: nat, segs: seq<string>, at: seq<nat>)
    requires from <= a && MaximalAt(t, delim, a, b) && Located(t, delim, b, segs, at)
    requires forall k :: from <= k < a ==> t[k] in delim
    ensures Located(t, delim, from, [t[a..b]] + segs, [a] + at)
  {
    hide MaximalAt;
    Bounds(t, delim, a, b);
    var segs', at' := [t[a..b]] + segs, [a] + at;
    forall k | from <= k < |t| && t[k] !in delim
      ensures Covered(segs', at', k)
    {
      hide Located;
      if k >= b { CoveredBy(t, delim, b, segs, at, k); } else { LocatedSizes(t, delim, b, segs, at); }
      JoinCovers(t[a..b], segs, a, at, k);
    }
    hide Covered;
    forall i | 0 <= i < |segs'| ensures SegmentAt(t, delim, from, segs'[i], at'[i]) {
      assert i > 0 ==> SegmentAt(t, delim, b, segs[i - 1], at[i - 1]);
    }
    forall i | 0 <= i < |segs| ensures b < at[i] {
      assert SegmentAt(t, delim, b, segs[i], at[i]);
      Separate(t, delim, a, b, at[i], at[i] + |segs[i]|);
    }
  }

  lemma JoinCovers(first: string, segs: seq<string>, a: nat, at: seq<nat>, k: nat)
    requires |at| == |segs| && (a <= k < a + |first| || Covered(segs, at, k))
    ensures Covered([first] + segs, [a] + at, k)
  {
    var segs', at' := [first] + segs, [a] + at;
    if a <= k < a + |first| {
      assert at'[0] <= k < at'[0] + |segs'[0]|;
    } else {
      var i :| 0 <= i < |segs| && at[i] <= k < at[i] + |segs[i]|;
      assert at'[i + 1] <= k < at'[i + 1] + |segs'[i + 1]|;
    }
  }

  lemma LocatedSizes(t: string, delim: string, from: nat, segs: seq<string>, at: seq<nat>)
    requires Located(t, delim, from, segs, at)
    ensures |at| == |segs|
  {
  }

  lemma Bounds(t: string, delim: string, a: nat, b: nat)
    requires MaximalAt(t, delim, a, b)
    ensures a < b <= |t|
  {
  }

  lemma Separate(t: string, delim: string, a: nat, b: nat, c: nat, d: nat)
    requires MaximalAt(t, delim, a, b) && MaximalAt(t, delim, c, d) && b <= c
    ensures b < c
  {
  }

  lemma CoveredBy(t: string, delim: string, from: nat, segs: seq<string>, at: seq<nat>, k: nat)
    requires Located(t, delim, from, segs, at) && from <= k < |t| && t[k] !in delim
    ensures |at| == |segs| && Covered(segs, at, k)
  {
  }

  /** A leading delimiter does not matter. */
  lemma LeadingDelimiter(t: string, delim: string)
    requires t != [] && t[0] in delim
    ensures Segments(t, delim) == Segments(t[1..], delim)
  {
    assert t[Span(t, delim)..] == t[1..][Span(t[1..], delim)..];
  }

  /** The end of the token that starts at s. */
  function TokenEnd(c: seq<char>, s: nat, delim: string): nat
    requires s <= |c|
  {
    s + CoSpan(CStr(c, s), delim)
  }

  /** The cut strtok makes: the token at s becomes a string of its own, and the text behind it still
      holds the remaining segments. */
  lemma CutToken(c: seq<char>, i: nat, delim: string)
    requires i <= |c| && Terminated(c, i) && NUL !in delim
    ensures var s := i + Span(CStr(c, i), delim);
            && s <= i + |CStr(c, i)| < |c| && Terminated(c, s)
            && (c[s] == NUL <==> Segments(CStr(c, i), delim) == [])
            && (c[s] != NUL ==>
                  var e := TokenEnd(c, s, delim);
                  && s < e <= i + |CStr(c, i)|
                  && var c' := c[e := NUL];
                  && var l := if c[e] != NUL then e + 1 else e;
                  && Terminated(c', s) && CStr(c', s) == Segments(CStr(c, i), delim)[0]
                  && l < |c| && Terminated(c', l) && l + |CStr(c', l)| == i + |CStr(c, i)|
                  && Segments(CStr(c', l), delim) == Segments(CStr(c, i), delim)[1..])
  {
    hide CStr, Terminated, Segments;
    var t := CStr(c, i);
    var n := Span(t, delim);
    var s := i + n;
    CStrBound(c, i);
    CStrTail(c, i, n);
    HeadOf(c, s);
    UnfoldSegments(t, delim);
    if c[s] != NUL {
      SpanFacts(t, delim);
      CutAt(c, s, delim);
    }
  }

  lemma UnfoldSegments(t: string, delim: string)
    ensures var u := t[Span(t, delim)..];
            var n := CoSpan(u, delim);
            Segments(t, delim) == if u == [] then [] else [u[..n]] + Segments(u[n..], delim)
  {
  }

  lemma EndsAt(c: seq<char>, i: nat, k: nat)
    requires i <= k < |c| && c[k] == NUL
    ensures Terminated(c, i)
  {
  }

  lemma CutAt(c: seq<char>, s: nat, delim: string)
    requires s <= |c| && Terminated(c, s) && NUL !in delim && CStr(c, s) != [] && CStr(c, s)[0] !in delim
    ensures var u := CStr(c, s);
            var n := CoSpan(u, delim);
            var e := s + n;
            && 0 < n && e < |c|
            && var c' := c[e := NUL];
            && var l := if c[e] != NUL then e + 1 else e;
            && Terminated(c', s) && CStr(c', s) == u[..n]
            && l < |c| && Terminated(c', l) && Segments(CStr(c', l), delim) == Segments(u[n..], delim)
            && l + |CStr(c', l)| == s + |u|
  {
    hide Segments, CStr, Terminated;
    var u := CStr(c, s);
    var n := CoSpan(u, delim);
    var e := s + n;
    CoSpanFacts(u, delim);
    CStrFacts(c, s);
    CStrTail(c, s, n);
    HeadOf(c, e);
    var c' := c[e := NUL];
    forall k | s <= k < e ensures c'[k] != NUL { assert u[k - s] == c[k]; }
    CStrIs(c', s, n);
    EndsAt(c', s, e);
    assert c'[s..e] == u[..n];
    if c[e] != NUL {
      CStrTail(c, s, n + 1);
      LeadingDelimiter(u[n..], delim);
      assert u[n..][1..] == u[n + 1..];
      SameTail(c, c', e + 1);
    } else {
      EndsAt(c', e, e);
      assert c' == c;
    }
  }

  lemma {:induction false} SameTail(c: seq<char>, c': seq<char>, i: nat)
    requires |c| == |c'| && i <= |c| && c[i..] == c'[i..]
    ensures CStr(c, i) == CStr(c', i) && (Terminated(c, i) ==> Terminated(c', i))
    decreases |c| - i
  {
    forall k | i <= k < |c| ensures c[k] == c'[k] {
      assert c[i..][k - i] == c'[i..][k - i];
    }
    if i < |c| {
      assert c[i + 1..] == c'[i + 1..];
      SameTail(c, c', i + 1);
    }
  }

  /** strtok and its static cursor; `buf` is null until a first token was found. */
  class Tokenizer {
    var buf: array?<char>
    var last: nat

    constructor ()
      ensures buf == null
    {
      buf, last := null, 0;
    }

    ghost predicate Ready()
      reads this, buf
    {
      buf != null ==> last <= buf.Length && Terminated(buf[..], last)
    }

    method Strtok(str: array?<char>, at: nat, delim: string) returns (found: bool, tok: nat)
      requires NUL !in delim && Ready()
      requires str != null ==> at <= str.Length && Terminated(str[..], at)
      modifies this, str, buf
      ensures var b, i := if str != null then str else old(buf), if str != null then at else old(last);
              && (found <==> b != null && Segments(CStr(old(b[..]), i), delim) != [])
              && (found ==> Cut(old(b[..]), i, delim, b[..], tok, last) && buf == b)
      ensures !found ==> buf == old(buf) && last == old(last)
      ensures !found && str != null ==> str[..] == old(str[..])
      ensures old(buf) != null && (!found || (str != null && str != old(buf))) ==> old(buf)[..] == old(buf[..])
    {
      hide Terminated, Segments, CStr, Cut, TokenEnd;
      var b, i := str, at;
      if b == null {
        b, i := buf, last;
      }
      if b == null {
        return false, 0;
      }
      CutDone(b[..], i, delim);
      var skip := Strspn(b[..], i, delim);
      tok := i + skip;
      if b[tok] == NUL {
        return false, 0;
      }
      var n := Strcspn(b[..], tok, delim);
      var end := tok + n;
      if b[end] != NUL {
        b[end] := NUL;
        end := end + 1;
      }
      assert b[..] == old(b[..])[tok + n := NUL];
      buf, last := b, end;
      found := true;
    }

    /** strtok(str, delim). */
    method First(str: array<char>, at: nat, delim: string) returns (found: bool, tok: nat)
      requires NUL !in delim && Ready() && at <= str.Length && Terminated(str[..], at)
      modifies this, str, buf
      ensures Ready() && (found <==> Segments(CStr(old(str[..]), at), delim) != [])
      ensures found ==> Cut(old(str[..]), at, delim, str[..], tok, last) && buf == str
      ensures !found ==> buf == old(buf) && last == old(last) && str[..] == old(str[..])
    {
      hide Segments, CStr;
      found, tok := Strtok(str, at, delim);
    }

    /** strtok(NULL, delim) after a first token was found. */
    method Next(delim: string) returns (found: bool, tok: nat)
      requires NUL !in delim && Ready() && buf != null
      modifies this, buf
      ensures Ready() && buf == old(buf) && (found <==> Segments(CStr(old(buf[..]), old(last)), delim) != [])
      ensures found ==> Cut(old(buf[..]), old(last), delim, buf[..], tok, last)
      ensures !found ==> last == old(last) && buf[..] == old(buf[..])
    {
      hide Segments, CStr;
      found, tok := Strtok(null, 0, delim);
    }
  }

  lemma CutDone(c: seq<char>, i: nat, delim: string)
    requires i <= |c| && Terminated(c, i) && NUL !in delim
    ensures var s := i + Span(CStr(c, i), delim);
            && s < |c| && Terminated(c, s) && (c[s] == NUL <==> Segments(CStr(c, i), delim) == [])
            && (c[s] != NUL ==>
                  var e := s + CoSpan(CStr(c, s), delim);
                  e < |c| && Cut(c, i, delim, c[e := NUL], s, if c[e] != NUL then e + 1 else e))
  {
    hide Terminated, Segments, CStr;
    CutToken(c, i, delim);
  }

  /** One successful call: the first segment became a string at tok, one character was overwritten by
      NUL, and the cursor stands before exactly the remaining segments. */
  ghost predicate Cut(c: seq<char>, i: nat, delim: string, c': seq<char>, tok: nat, last: nat) {
    && i <= tok && i <= |c| == |c'| && Terminated(c, i) && tok < |c|
    && Segments(CStr(c, i), delim) != []
    && var e := TokenEnd(c, tok, delim);
    && tok < e <= i + |CStr(c, i)| && e < |c| && c' == c[e := NUL]
    && Terminated(c', tok) && CStr(c', tok) == Segments(CStr(c, i), delim)[0]
    && e <= last < |c'| && Terminated(c', last) && last + |CStr(c', last)| == i + |CStr(c, i)|
    && Segments(CStr(c', last), delim) == Segments(CStr(c, i), delim)[1..]
  }
}
