/** Integers in decimal: printed as `%d` does, read as `atoi` does. */
module Decimal {

  function Digit(d: int): char
    requires 0 <= d < 10
  {
    ('0' as int + d) as char
  }

  predicate IsDigit(c: char) { '0' <= c <= '9' }

  function PrintNat(n: nat): (s: string)
    ensures s != [] && forall i :: 0 <= i < |s| ==> IsDigit(s[i])
    ensures n > 0 ==> s[0] != '0'
    ensures n == 0 ==> s == "0"
  {
    if n < 10 then [Digit(n)] else PrintNat(n / 10) + [Digit(n % 10)]
  }

  function PrintInt(n: int): string {
    if n < 0 then ['-'] + PrintNat(-n) else PrintNat(n)
  }

  /** Add digits to `n` as long as they last. */
  function ParseDigits(n: nat, t: string): (r: (nat, string))
    ensures |r.1| <= |t|
    decreases |t|
  {
    if t != [] && IsDigit(t[0]) then ParseDigits(n * 10 + (t[0] as int - '0' as int), t[1..]) else (n, t)
  }

  lemma {:induction false} DigitsRoundTrip(n: nat, rest: string)
    ensures ParseDigits(0, PrintNat(n) + rest) == ParseDigits(n, rest)
    decreases n
  {
    if n < 10 {
      assert (PrintNat(n) + rest)[1..] == rest;
    } else {
      var d := [Digit(n % 10)];
      DigitsRoundTrip(n / 10, d + rest);
      assert PrintNat(n) + rest == PrintNat(n / 10) + (d + rest);
      assert (d + rest)[1..] == rest;
    }
  }

  function Ten(k: nat): (t: nat)
    ensures t > 0
  {
    if k == 0 then 1 else 10 * Ten(k - 1)
  }

  /** The digits that are printed, the last one first: units, tens and so on, */
  lemma {:induction false} PrintedDigits(n: nat, i: nat)
    requires i < |PrintNat(n)|
    ensures PrintNat(n)[|PrintNat(n)| - 1 - i] as int == 48 + n / Ten(i) % 10
    decreases n
  {
    hide Ten; hide PrintNat;
    PrintNatStep(n);
    Tens(0);
    if i > 0 {
      PrintedDigits(n / 10, i - 1);
      Tens(i - 1);
      DivTwice(n, 10, Ten(i - 1));
    }
  }

  /** and no more of them than needed. */
  lemma {:induction false} PrintedBound(n: nat)
    ensures n < Ten(|PrintNat(n)|) && (n > 0 ==> n >= Ten(|PrintNat(n)| - 1))
    decreases n
  {
    hide Ten; hide PrintNat;
    PrintNatStep(n);
    Tens(0);
    if n >= 10 {
      PrintedBound(n / 10);
      Tens(|PrintNat(n / 10)|);
      Tens(|PrintNat(n / 10)| - 1);
    }
  }

  lemma PrintNatStep(n: nat)
    ensures |PrintNat(n)| == if n < 10 then 1 else |PrintNat(n / 10)| + 1
    ensures PrintNat(n)[|PrintNat(n)| - 1] as int == 48 + n % 10
    ensures n >= 10 ==> PrintNat(n)[..|PrintNat(n)| - 1] == PrintNat(n / 10)
  {}

  lemma Tens(k: nat)
    ensures Ten(k + 1) == 10 * Ten(k) && Ten(0) == 1
  {}

  lemma DivTwice(n: nat, a: nat, b: nat)
    requires a > 0 && b > 0
    ensures a * b > 0 && n / a / b == n / (a * b)
  {
    var m, c := n / a, a * b;
    Positive(a, b);
    DivParts(n, a);
    DivParts(m, b);
    DivJoined(n, a, b, c, m, n % a, m / b, m % b);
  }

  lemma DivParts(n: nat, d: nat)
    requires d > 0
    ensures n == d * (n / d) + n % d && n / d >= 0
  {}

  lemma DivJoined(n: nat, a: nat, b: nat, c: nat, m: nat, x: nat, q: nat, r: nat)
    requires n == a * m + x && x < a && m == b * q + r && r < b && c == a * b && c > 0
    ensures n / c == q
  {
    Nested(a, b, q, r, x);
    DivUnique(n, c, q, a * r + x);
  }

  lemma Positive(a: nat, b: nat)
    requires a > 0 && b > 0
    ensures a * b > 0
  {}

  lemma Nested(a: nat, b: nat, q: nat, r: nat, x: nat)
    requires r < b && x < a
    ensures a * (b * q + r) + x == (a * b) * q + (a * r + x) && a * r + x < a * b
  {
    assert a * (b * q + r) == a * (b * q) + a * r;
    assert a * (b * q) == (a * b) * q;
    assert a * b == a * r + a * (b - r);
    Multiple(a, b - r);
  }

  lemma DivUnique(n: nat, d: nat, q: nat, r: nat)
    requires d > 0 && n == d * q + r && r < d
    ensures n / d == q
  {
    Multiple(d, q - n / d);
    assert d * (q - n / d) == d * q - d * (n / d);
  }

  lemma Multiple(d: int, z: int)
    requires d >= 0
    ensures z >= 1 ==> d * z >= d
    ensures z <= -1 ==> d * z <= -d
  {
    if z >= 1 { assert d * z == d + d * (z - 1); }
    if z <= -1 { assert d * z == -d + d * (z + 1); }
  }

  predicate IsSpace(c: char) { c == ' ' || '\t' <= c <= '\r' }

  /** White space, a sign and digits; what follows them is ignored. */
  function Atoi(t: string): int {
    if t == [] then 0
    else if IsSpace(t[0]) then Atoi(t[1..])
    else if t[0] == '-' then 0 - ParseDigits(0, t[1..]).0
    else if t[0] == '+' then ParseDigits(0, t[1..]).0
    else ParseDigits(0, t).0
  }

  /** Any white space, a sign or none, zeros and a number, and then anything but a digit. */
  lemma {:induction false} AtoiReads(space: string, sign: string, zeros: nat, n: nat, rest: string)
    requires forall i :: 0 <= i < |space| ==> space[i] in {' ', '\t', '\n', '\U{000B}', '\U{000C}', '\r'}
    requires sign in {"", "+", "-"} && (rest == [] || !('0' <= rest[0] <= '9'))
    ensures Atoi(space + (sign + (seq(zeros, _ => '0') + (PrintNat(n) + rest))))
         == if sign == "-" then 0 - n as int else n as int
    decreases |space|
  {
    hide PrintNat;
    var t := sign + (seq(zeros, _ => '0') + (PrintNat(n) + rest));
    if space == [] {
      AtoiSigned(sign, zeros, n, rest);
      assert space + t == t;
    } else {
      hide ParseDigits;
      AtoiReads(space[1..], sign, zeros, n, rest);
      assert (space + t)[0] == space[0] && (space + t)[1..] == space[1..] + t;
    }
  }

  lemma AtoiSigned(sign: string, zeros: nat, n: nat, rest: string)
    requires sign in {"", "+", "-"} && (rest == [] || !('0' <= rest[0] <= '9'))
    ensures Atoi(sign + (seq(zeros, _ => '0') + (PrintNat(n) + rest)))
         == if sign == "-" then 0 - n as int else n as int
  {
    var digits := seq(zeros, _ => '0') + (PrintNat(n) + rest);
    ZerosSkipped(zeros, PrintNat(n) + rest);
    DigitsRoundTrip(n, rest);
    assert ParseDigits(n, rest).0 == n;
    assert IsDigit(digits[0]);
    hide PrintNat; hide ParseDigits;
    if sign == "" {
      assert sign + digits == digits;
    } else {
      assert (sign + digits)[0] == sign[0] && (sign + digits)[1..] == digits;
    }
  }

  lemma {:induction false} ZerosSkipped(zeros: nat, t: string)
    ensures ParseDigits(0, seq(zeros, _ => '0') + t) == ParseDigits(0, t)
    decreases zeros
  {
    var z := seq(zeros, _ => '0');
    if zeros == 0 {
      assert z + t == t;
    } else {
      ZerosSkipped(zeros - 1, t);
      assert (z + t)[1..] == seq(zeros - 1, _ => '0') + t;
    }
  }

  /** Anything else is nothing. */
  lemma AtoiNothing(t: string)
    requires t == [] || !(t[0] in {' ', '\t', '\n', '\U{000B}', '\U{000C}', '\r', '+', '-'} || '0' <= t[0] <= '9')
    ensures Atoi(t) == 0
  {}

  lemma AtoiRoundTrip(n: int)
    ensures Atoi(PrintInt(n)) == n
  {
    hide PrintNat;
    var m := if n < 0 then -n else n;
    DigitsRoundTrip(m, []);
    assert PrintNat(m) + [] == PrintNat(m);
    if n < 0 { assert PrintInt(n)[1..] == PrintNat(m); }
  }
}
