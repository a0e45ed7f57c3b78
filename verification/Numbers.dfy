/** Numbers as text: itoa, utoa and strtol of src/libc/stdlib.c. */
module Numbers {
  import opened Chars
  import opened Words

  /** The size of the scratch buffer of itoa and utoa. */
  const RBUF: nat := 16

  function Pow(b: nat, k: nat): nat {
    if k == 0 then 1 else b * Pow(b, k - 1)
  }

  /* Printing */

  function DigitChar(d: nat): char
    requires d < 36
  {
    if d < 10 then (d + '0' as int) as char else (d - 10 + 'a' as int) as char
  }

  const DIGITS := "0123456789abcdefghijklmnopqrstuvwxyz"

  lemma DigitCharIs(d: nat)
    requires d < 36
    ensures DigitChar(d) == DIGITS[d]
  {
  }

  /** The digits of a positive number, none for 0. */
  function Digits(v: nat, base: nat): string
    requires 2 <= base <= 36
  {
    if v == 0 then "" else Shorter(v, base); Digits(v / base, base) + [DigitChar(v % base)]
  }

  lemma Shorter(v: nat, base: nat)
    requires 2 <= base && v > 0
    ensures 0 <= v / base < v && v == v / base * base + v % base
  {
    assert v == v / base * base + v % base;
    Twice(v / base, base);
  }

  lemma Twice(q: nat, base: nat)
    requires base >= 2
    ensures q * base >= 2 * q
  {
  }

  /** What itoa and utoa put in front of the terminator. */
  function Text(v: int, base: nat): string
    requires 2 <= base <= 36
  {
    if v == 0 then "0" else if v < 0 then "-" + Digits(-v, base) else Digits(v, base)
  }

  /** A number has at most k digits exactly when it is below the k-th power of the base. */
  lemma {:induction false} LengthExactly(v: nat, base: nat, k: nat)
    requires 2 <= base <= 36
    ensures |Digits(v, base)| <= k <==> v < Pow(base, k)
    decreases k
  {
    PowGrows(base, base, k);
    if v > 0 && k > 0 {
      Shorter(v, base);
      LengthExactly(v / base, base, k - 1);
      DivBelow(v, base, Pow(base, k - 1));
    }
  }

  lemma DivBelow(v: nat, base: nat, p: nat)
    requires base > 0
    ensures v / base < p <==> v < base * p
  {
    var q := v / base;
    assert v == q * base + v % base;
    if q < p { MulLess(q, p, base); } else { MulLess(p, q + 1, base); }
  }

  lemma MulLess(a: nat, b: nat, c: nat)
    requires a < b
    ensures a * c + c <= b * c && c * b == b * c && c * a == a * c
  {
    var d := b - a - 1;
    assert b * c == (a + 1 + d) * c == a * c + c + d * c && d * c >= 0;
  }

  /** The scratch buffer holds the text of a number exactly when it has at most 16 digits, 15 with a sign. */
  lemma FitsExactly(v: int, base: nat)
    requires 2 <= base <= 36
    ensures |Text(v, base)| <= RBUF <==> v < Pow(base, 16) && -v < Pow(base, 15)
  {
    if v == 0 {
      PowGrows(2, base, 16);
      PowGrows(2, base, 15);
    } else if v > 0 {
      LengthExactly(v, base, 16);
    } else {
      LengthExactly(-v, base, 15);
    }
  }

  lemma {:induction false} PowGrows(a: nat, b: nat, k: nat)
    requires 0 < a <= b
    ensures 0 < Pow(a, k) <= Pow(b, k)
  {
    if k > 0 {
      PowGrows(a, b, k - 1);
      MulMono(a, b, Pow(a, k - 1), Pow(b, k - 1));
    }
  }

  lemma MulMono(a: nat, b: nat, c: nat, d: nat)
    requires 0 < a <= b && 0 < c <= d
    ensures 0 < a * c <= b * d
  {
    assert a * c <= b * c <= b * d;
  }

  /** Every int but the least one fits from base 5 on, every unsigned int from base 4 on. */
  lemma Fits(v: int, base: nat)
    requires 2 <= base <= 36
    ensures base >= 5 && -INT_END < v < INT_END ==> |Text(v, base)| <= RBUF
    ensures base >= 4 && 0 <= v < WORD_END ==> |Text(v, base)| <= RBUF
  {
    FitsExactly(v, base);
    if base >= 5 {
      PowGrows(5, base, 15);
      PowGrows(5, base, 16);
      PowFive();
    }
    if base >= 4 {
      PowGrows(4, base, 16);
      PowFour();
      PowGrows(1, base, 15);
    }
  }

  lemma PowSplit(b: nat, j: nat, k: nat)
    ensures Pow(b, j + k) == Pow(b, j) * Pow(b, k)
    decreases j
  {
    if j > 0 {
      PowSplit(b, j - 1, k);
      Assoc(b, Pow(b, j - 1), Pow(b, k));
    }
  }

  lemma Assoc(a: nat, b: nat, c: nat)
    ensures a * (b * c) == a * b * c
  {
  }

  lemma PowFive()
    ensures Pow(5, 15) >= INT_END && Pow(5, 16) >= INT_END
  {
    assert Pow(5, 5) == 3125;
    PowSplit(5, 5, 5);
    PowSplit(5, 5, 10);
    assert Pow(5, 16) == 5 * Pow(5, 15);
  }

  lemma PowFour()
    ensures Pow(4, 16) == WORD_END && Pow(4, 15) == 0x4000_0000
  {
    assert Pow(4, 5) == 1024;
    PowSplit(4, 5, 5);
    PowSplit(4, 5, 10);
    assert Pow(4, 16) == 4 * Pow(4, 15);
  }

  /** In base 4 the negative numbers overrun it from -4^15 on. */
  lemma BaseFour(v: int)
    requires -INT_END < v < INT_END
    ensures |Text(v, 4)| <= RBUF <==> v > -0x4000_0000
  {
    FitsExactly(v, 4);
    PowFour();
  }

  function Reversed(s: string): (r: string)
    ensures |r| == |s| && forall i | 0 <= i < |r| :: r[i] == s[|s| - 1 - i]
  {
    if s == "" then "" else Reversed(s[1..]) + [s[0]]
  }

  /** The digit loop: the digits of val in reverse. */
  method PutDigits(val: nat, base: nat, rbuf: array<char>) returns (ptr: nat)
    requires 2 <= base <= 36 && |Text(val, base)| <= rbuf.Length
    modifies rbuf
    ensures ptr == |Text(val, base)| && Reversed(rbuf[..ptr]) == Text(val, base)
  {
    hide Digits, Reversed, DigitChar;
    ptr := 0;
    var v := val;
    NoDigits(base);
    if v == 0 {
      rbuf[0] := '0';
      ptr := 1;
      One(rbuf[..1]);
      return;
    }
    while v != 0
      invariant v >= 0 && ptr + |Digits(v, base)| == |Digits(val, base)|
      invariant Digits(val, base) == Digits(v, base) + Reversed(rbuf[..ptr])
    {
      Shorter(v, base);
      NextDigit(v, base, rbuf[..ptr]);
      ghost var done := rbuf[..ptr];
      rbuf[ptr] := DigitChar(v % base);
      assert rbuf[..ptr + 1] == done + [DigitChar(v % base)];
      ptr, v := ptr + 1, v / base;
    }
  }

  lemma NoDigits(base: nat)
    requires 2 <= base <= 36
    ensures Digits(0, base) == "" && Reversed("") == ""
  {
  }

  lemma One(s: string)
    requires s == "0"
    ensures Reversed(s) == "0"
  {
  }

  /** A turn of the digit loop. */
  lemma NextDigit(v: nat, base: nat, done: string)
    requires 2 <= base <= 36 && v > 0
    ensures 0 <= v / base < v && 0 <= v % base < base
    ensures Digits(v, base) == Digits(v / base, base) + [DigitChar(v % base)]
    ensures Digits(v, base) + Reversed(done) == Digits(v / base, base) + Reversed(done + [DigitChar(v % base)])
  {
    Shorter(v, base);
    MoveDigit(Digits(v / base, base), DigitChar(v % base), done);
  }

  lemma MoveDigit(front: string, c: char, done: string)
    ensures front + [c] + Reversed(done) == front + Reversed(done + [c])
  {
    var r := Reversed(done + [c]);
    assert r == [c] + Reversed(done);
  }

  /** The copy loop, from the last digit down. */
  method CopyBack(rbuf: array<char>, len: nat, buf: array<char>)
    requires rbuf != buf && len <= rbuf.Length && len < buf.Length
    modifies buf
    ensures buf[..] == Reversed(rbuf[..len]) + [NUL] + old(buf[len + 1..])
  {
    var i := 0;
    while i < len
      invariant i <= len && buf[i..] == old(buf[i..])
      invariant forall k | 0 <= k < i :: buf[k] == rbuf[len - 1 - k]
    {
      buf[i] := rbuf[len - 1 - i];
      i := i + 1;
    }
    buf[len] := NUL;
  }

  method UToA(val: nat, buf: array<char>, base: nat)
    requires 2 <= base <= 36 && val < WORD_END && |Text(val, base)| <= RBUF && |Text(val, base)| < buf.Length
    modifies buf
    ensures buf[..] == Text(val, base) + [NUL] + old(buf[|Text(val, base)| + 1..])
  {
    var rbuf := new char[RBUF];
    var ptr := PutDigits(val, base, rbuf);
    CopyBack(rbuf, ptr, buf);
  }

  method IToA(val: int, buf: array<char>, base: nat)
    requires 2 <= base <= 36 && -INT_END < val < INT_END
    requires |Text(val, base)| <= RBUF && |Text(val, base)| < buf.Length
    modifies buf
    ensures buf[..] == Text(val, base) + [NUL] + old(buf[|Text(val, base)| + 1..])
  {
    hide Digits, Reversed, DigitChar, Text;
    var rbuf := new char[RBUF];
    TextOf(val, base);
    var ptr := PutDigits(if val < 0 then -val else val, base, rbuf);
    if val < 0 {
      MinusLast(val, base, rbuf[..ptr]);
      ghost var done := rbuf[..ptr];
      rbuf[ptr] := '-';
      assert rbuf[..ptr + 1] == done + ['-'];
      ptr := ptr + 1;
    }
    CopyBack(rbuf, ptr, buf);
  }

  lemma TextOf(val: int, base: nat)
    requires 2 <= base <= 36
    ensures val < 0 ==> |Text(val, base)| == |Text(-val, base)| + 1
  {
  }

  lemma MinusLast(val: int, base: nat, done: string)
    requires 2 <= base <= 36 && val < 0 && Reversed(done) == Text(-val, base)
    ensures Reversed(done + ['-']) == Text(val, base)
  {
    hide Digits, Reversed;
    MoveDigit("", '-', done);
  }

  /* Parsing.  A string ends where its terminator is: reading there yields it. */

  function At(s: string, i: nat): char {
    if i < |s| then s[i] else NUL
  }

  predicate IsSpace(c: char) { c in {' ', '\t', '\n', '\r', 11 as char, 12 as char} }

  /** The blank and the five control characters from 9 to 13. */
  lemma IsSpaceExactly(c: char)
    ensures IsSpace(c) <==> c as int == 32 || 9 <= c as int <= 13
  {
  }

  /** What strtol takes a character for, -1 if it is no digit in any base. */
  function DigitOf(c: char): int {
    var l := Lower(c);
    if '0' <= l <= '9' then c as int - '0' as int
    else if 'a' <= l <= 'f' then 10 + l as int - 'a' as int
    else -1
  }

  const CAPITAL_DIGITS := "0123456789ABCDEF"

  /** It takes for digits exactly the sixteen hexadecimal ones of either case, each for its place among them. */
  lemma DigitOfExactly(c: char, d: int)
    ensures DigitOf(c) == d && d >= 0 <==> 0 <= d < 16 && (c == DIGITS[d] || c == CAPITAL_DIGITS[d])
  {
    if 0 <= d < 16 {
      DigitCharIs(d);
      CapitalDigit(d);
    }
  }

  lemma CapitalDigit(d: nat)
    requires d < 16
    ensures CAPITAL_DIGITS[d] as int == if d < 10 then '0' as int + d else 'A' as int + d - 10
  {
  }

  predicate IsDigit(c: char, base: nat) { 0 <= DigitOf(c) < base }

  predicate AllDigits(s: string, base: nat) {
    forall i | 0 <= i < |s| :: IsDigit(s[i], base)
  }

  /** The positional value. */
  function Value(s: string, base: nat): nat
    requires AllDigits(s, base)
  {
    if s == "" then 0 else Value(s[..|s| - 1], base) * base + DigitOf(s[|s| - 1])
  }

  /** The base that 0 stands for, by the first characters of the number. */
  function Base(s: string, start: nat, base: nat): nat {
    if base != 0 then base
    else if At(s, start) != '0' then 10
    else if At(s, start + 1) in {'x', 'X'} then 16
    else 8
  }

  /** What strtol must find at the start of a string: spaces, a sign, digits, then none that fits. */
  datatype Parts = Parts(spaces: nat, sign: string, digits: string) {
    function Start(): nat { spaces + |sign| }

    function End(): nat { Start() + |digits| }

    ghost predicate Of(s: string, base: nat) {
      && End() <= |s|
      && (forall i | 0 <= i < spaces :: IsSpace(s[i])) && !IsSpace(At(s, spaces))
      && (sign == if At(s, spaces) in {'+', '-'} then [s[spaces]] else "")
      && digits == s[Start()..End()]
      && AllDigits(digits, Base(s, spaces, base)) && !IsDigit(At(s, End()), Base(s, spaces, base))
    }
  }

  /** The parts of a string are its only ones. */
  lemma PartsUnique(s: string, base: nat, p: Parts, q: Parts)
    requires NUL !in s && p.Of(s, base) && q.Of(s, base)
    ensures p == q
  {
    Spaces(s, base, p);
    Spaces(s, base, q);
    assert p.spaces == q.spaces && p.sign == q.sign;
    DigitsAt(s, base, p);
    DigitsAt(s, base, q);
    assert p.End() == q.End();
  }

  lemma Spaces(s: string, base: nat, p: Parts)
    requires p.Of(s, base)
    ensures forall i | 0 <= i < p.spaces :: IsSpace(At(s, i))
  {
    forall i | 0 <= i < p.spaces ensures IsSpace(At(s, i)) { assert At(s, i) == s[i]; }
  }

  lemma DigitsAt(s: string, base: nat, p: Parts)
    requires p.Of(s, base)
    ensures forall i | p.Start() <= i < p.End() :: IsDigit(At(s, i), Base(s, p.spaces, base))
  {
    forall i | p.Start() <= i < p.End() ensures IsDigit(At(s, i), Base(s, p.spaces, base)) {
      assert At(s, i) == s[i] == p.digits[i - p.Start()];
    }
  }

  function Parsed(s: string, base: nat, p: Parts): int
    requires AllDigits(p.digits, Base(s, p.spaces, base))
  {
    var v: int := Value(p.digits, Base(s, p.spaces, base));
    Wrap(if p.sign == "-" then -v else v)
  }

  lemma WrapStep(x: int, b: int, d: int)
    ensures Wrap(Wrap(x) * b + d) == Wrap(x * b + d)
  {
    var k := (x + INT_END) / WORD_END;
    assert Wrap(x) == x - k * WORD_END;
    Shifted(x, k, b, d);
    WrapShift(x * b + d, k * b);
  }

  lemma Shifted(x: int, k: int, b: int, d: int)
    ensures (x - k * WORD_END) * b + d == x * b + d - k * b * WORD_END
  {
  }

  lemma WrapShift(y: int, m: int)
    ensures Wrap(y - m * WORD_END) == Wrap(y)
  {
  }

  lemma NegWrap(x: int)
    ensures Wrap(-Wrap(x)) == Wrap(-x)
  {
    WrapStep(x, -1, 0);
  }

  lemma NoValue()
    ensures forall b: nat :: AllDigits("", b) && Value("", b) == 0
    ensures Wrap(0) == 0 && forall b: nat :: !IsDigit(NUL, b)
  {
  }

  /** A turn of the digit loop. */
  lemma MoreDigits(s: string, start: nat, at: nat, b: nat)
    requires start <= at < |s| && AllDigits(s[start..at], b) && IsDigit(s[at], b)
    ensures AllDigits(s[start..at + 1], b)
    ensures Wrap(Wrap(Value(s[start..at], b)) * b + DigitOf(s[at])) == Wrap(Value(s[start..at + 1], b))
  {
    hide Wrap, IsDigit;
    assert s[start..at + 1][..at - start] == s[start..at];
    WrapStep(Value(s[start..at], b), b, DigitOf(s[at]));
  }

  /** The start of strtol: spaces, base and sign. */
  method Prefix(s: string, base: nat) returns (spaces: nat, b: nat, neg: bool, start: nat)
    requires NUL !in s
    ensures spaces <= start <= |s| && (forall i | 0 <= i < spaces :: IsSpace(s[i])) && !IsSpace(At(s, spaces))
    ensures b == Base(s, spaces, base)
    ensures s[spaces..start] == (if At(s, spaces) in {'+', '-'} then [s[spaces]] else "")
    ensures neg <==> s[spaces..start] == "-"
  {
    var str := 0;
    while IsSpace(At(s, str))
      invariant str <= |s| && forall i | 0 <= i < str :: IsSpace(s[i])
      decreases |s| - str
    {
      str := str + 1;
    }
    spaces, neg := str, false;
    b := base;
    if b == 0 {
      if At(s, str) == '0' {
        b := if At(s, str + 1) in {'x', 'X'} then 16 else 8;
      } else {
        b := 10;
      }
    }
    if At(s, str) == '+' {
      str := str + 1;
    } else if At(s, str) == '-' {
      neg := true;
      str := str + 1;
    }
    start := str;
  }

  /** The digit loop of strtol. */
  method ScanDigits(s: string, start: nat, b: nat) returns (str: nat, acc: int, valid: bool)
    requires NUL !in s && start <= |s|
    ensures start <= str <= |s| && AllDigits(s[start..str], b) && !IsDigit(At(s, str), b)
    ensures acc == Wrap(Value(s[start..str], b)) && (valid <==> start < str)
  {
    hide AllDigits, Value, Wrap, IsDigit;
    str, acc, valid := start, 0, false;
    NoValue();
    assert s[start..str] == "";
    while IsDigit(At(s, str), b)
      invariant start <= str <= |s| && AllDigits(s[start..str], b) && acc == Wrap(Value(s[start..str], b))
      invariant valid <==> start < str
      decreases |s| - str
    {
      MoreDigits(s, start, str, b);
      valid := true;
      acc := Wrap(acc * b + DigitOf(At(s, str)));
      str := str + 1;
    }
  }

  /** strtol with an end pointer. */
  method StrToL(s: string, base: nat) returns (value: int, end: nat, ghost p: Parts)
    requires NUL !in s
    ensures p.Of(s, base)
    ensures value == Parsed(s, base, p)
    ensures end == if p.digits == "" then 0 else p.End()
  {
    hide AllDigits, Value, Wrap, IsDigit, IsSpace;
    var spaces, b, neg, start := Prefix(s, base);
    var str, acc, valid := ScanDigits(s, start, b);
    NegWrap(Value(s[start..str], b));
    p := Parts(spaces, s[spaces..start], s[start..str]);
    value := if neg then Wrap(-acc) else acc;
    end := if valid then str else 0;
  }

  /* The round trip */

  lemma {:induction false} ValueOfDigits(v: nat, base: nat)
    requires 2 <= base <= 36 && UpToF(Digits(v, base))
    ensures AllDigits(Digits(v, base), base) && Value(Digits(v, base), base) == v
  {
    if v > 0 {
      Shorter(v, base);
      var d, front := Digits(v, base), Digits(v / base, base);
      assert front == d[..|d| - 1] && d[|d| - 1] == DigitChar(v % base);
      assert forall i | 0 <= i < |front| :: front[i] == d[i];
      ValueOfDigits(v / base, base);
    }
  }

  predicate UpToF(s: string) {
    forall i | 0 <= i < |s| :: s[i] <= 'f'
  }

  lemma {:induction false} SmallBases(v: nat, base: nat)
    requires 2 <= base <= 16
    ensures UpToF(Digits(v, base))
  {
    if v > 0 {
      Shorter(v, base);
      SmallBases(v / base, base);
    }
  }

  lemma {:induction false} Alphanumeric(v: nat, base: nat)
    requires 2 <= base <= 36
    ensures forall i | 0 <= i < |Digits(v, base)| ::
      '0' <= Digits(v, base)[i] <= '9' || 'a' <= Digits(v, base)[i] <= 'z'
    ensures v > 0 ==> Digits(v, base) != ""
  {
    if v > 0 {
      Shorter(v, base);
      Alphanumeric(v / base, base);
    }
  }

  function Magnitude(v: int, base: nat): string
    requires 2 <= base <= 36
  {
    if v == 0 then "0" else Digits(if v < 0 then -v else v, base)
  }

  lemma MagnitudeIs(v: int, base: nat)
    requires 2 <= base <= 36
    ensures var m := Magnitude(v, base);
      && m != "" && Text(v, base) == (if v < 0 then "-" else "") + m && '0' <= m[0] && NUL !in m
      && (UpToF(m) ==> AllDigits(m, base) && Value(m, base) == if v < 0 then -v else v)
  {
    hide Digits, Value, AllDigits;
    if v == 0 {
      ZeroText(base);
    } else {
      Alphanumeric(if v < 0 then -v else v, base);
      if UpToF(Magnitude(v, base)) { ValueOfDigits(if v < 0 then -v else v, base); }
    }
  }

  lemma ZeroText(base: nat)
    requires base > 0
    ensures AllDigits("0", base) && Value("0", base) == 0
  {
    assert "0"[..0] == "";
  }

  /** The parts of a sign and digits. */
  lemma PartsOf(sign: string, m: string, base: nat, p: Parts)
    requires base > 0 && sign in {"", "-"} && m != "" && '0' <= m[0] && NUL !in m && p.Of(sign + m, base)
    ensures p.spaces == 0 && p.sign == sign && p.digits == m[..|p.digits|]
    ensures p.End() == |sign + m| ==> p.digits == m
    ensures AllDigits(m, base) ==> p.digits == m
  {
    var s := sign + m;
    assert At(s, 0) == s[0];
    assert s[p.Start()..p.End()] == m[..|p.digits|];
    if p.End() < |s| {
      assert At(s, p.End()) == s[p.End()] == m[|p.digits|];
    }
  }

  lemma DigitsUpToF(m: string, base: nat)
    requires AllDigits(m, base)
    ensures UpToF(m)
  {
    forall i | 0 <= i < |m| ensures m[i] <= 'f' { assert IsDigit(m[i], base); }
  }

  /** The text of a number parses back to it, up to the terminator, exactly when strtol knows all its digits. */
  lemma RoundTripExactly(v: int, base: nat, p: Parts)
    requires 2 <= base <= 36 && -INT_END < v < INT_END && p.Of(Text(v, base), base)
    ensures NUL !in Text(v, base)
    ensures Parsed(Text(v, base), base, p) == v && p.digits != "" && p.End() == |Text(v, base)|
      <==> UpToF(Magnitude(v, base))
  {
    hide UpToF, Magnitude, Text, Value, IsDigit;
    var m := Magnitude(v, base);
    MagnitudeIs(v, base);
    PartsOf(if v < 0 then "-" else "", m, base, p);
    if p.digits == m { DigitsUpToF(m, base); }
  }

  /** In every base up to 16 it always does. */
  lemma RoundTrip(v: int, base: nat, p: Parts)
    requires 2 <= base <= 16 && -INT_END < v < INT_END && p.Of(Text(v, base), base)
    ensures Parsed(Text(v, base), base, p) == v && p.digits != "" && p.End() == |Text(v, base)|
  {
    RoundTripExactly(v, base, p);
    SmallBases(if v < 0 then -v else v, base);
  }

  /** A sign in front of digits that all fit the base: they are all read, and the minus negates them. */
  lemma SignedDigits(sign: string, m: string, base: nat, p: Parts)
    requires sign in {"", "+", "-"} && m != "" && NUL !in m && p.Of(sign + m, base)
    requires AllDigits(m, Base(sign + m, 0, base))
    ensures p.digits == m && p.End() == |sign + m|
    ensures Parsed(sign + m, base, p)
      == var v: int := Value(m, Base(sign + m, 0, base)); Wrap(if sign == "-" then -v else v)
  {
    hide AllDigits, Value, Wrap;
    var q := Parts(0, sign, m);
    SignedParts(sign, m, base);
    assert q.Of(sign + m, base);
    PartsUnique(sign + m, base, p, q);
  }

  lemma SignedParts(sign: string, m: string, base: nat)
    requires sign in {"", "+", "-"} && m != "" && AllDigits(m, Base(sign + m, 0, base))
    ensures Parts(0, sign, m).Of(sign + m, base)
  {
    var s := sign + m;
    assert At(s, 0) == s[0] && IsDigit(m[0], Base(s, 0, base));
    assert s[|sign|..|s|] == m;
    hide AllDigits;
  }

  /** With base 0 a leading 0 makes a number octal. */
  lemma LeadingZero(o: string, p: Parts)
    requires AllDigits(o, 8) && NUL !in o && p.Of("0" + o, 0)
    ensures p.digits == "0" + o && p.End() == 1 + |o| && Parsed("0" + o, 0, p) == Wrap(Value(o, 8))
  {
    hide AllDigits, Value, Wrap, Base, IsDigit;
    var s := "0" + o;
    OctalBase(o);
    DropZero(o);
    assert "" + s == s;
    SignedDigits("", s, 0, p);
  }

  lemma OctalBase(o: string)
    requires AllDigits(o, 8)
    ensures Base("0" + o, 0, 0) == 8
  {
    var s := "0" + o;
    assert At(s, 1) == if o == "" then NUL else o[0];
    assert o != "" ==> IsDigit(o[0], 8);
  }

  lemma {:induction false} DropZero(o: string)
    requires AllDigits(o, 8)
    ensures AllDigits("0" + o, 8) && Value("0" + o, 8) == Value(o, 8)
  {
    var s := "0" + o;
    if o == "" {
      ZeroText(8);
    } else {
      DropZero(o[..|o| - 1]);
      assert s[..|s| - 1] == "0" + o[..|o| - 1] && s[|s| - 1] == o[|o| - 1];
    }
  }

  /** The base is chosen before the sign is skipped: with base 0 a sign leaves it as it is for the digits alone exactly
      unless they start with a 0. */
  lemma SignHidesBase(sign: string, m: string)
    requires sign in {"+", "-"}
    ensures Base(sign + m, 0, 0) == 10 && (Base(m, 0, 0) == Base(sign + m, 0, 0) <==> At(m, 0) != '0')
  {
    assert (sign + m)[0] == sign[0];
  }

  /** With base 0 a "0x" behind any spaces selects base 16 and is not skipped: only the 0 is read. */
  lemma HexPrefixLost(s: string, p: Parts)
    requires p.Of(s, 0) && At(s, p.spaces) == '0' && At(s, p.spaces + 1) in {'x', 'X'}
    ensures Parsed(s, 0, p) == 0 && p.digits == "0" && p.End() == p.spaces + 1
  {
    assert p.sign == "" && Base(s, p.spaces, 0) == 16;
    DigitsAt(s, 0, p);
    assert p.digits == "0";
    ZeroText(16);
  }
}
