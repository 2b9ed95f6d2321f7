/**
  Whole numbers as text: `stringify(QWORD, bool)` and `integer` of String/src/sstring.cpp.
*/
module Decimals {
  import opened Words

  const ZERO: byte := 48
  const MINUS: byte := 45

  function Digits(n: nat): (s: seq<byte>)
    ensures |s| > 0
  {
    if n < 10 then [48 + n] else Digits(n / 10) + [48 + n % 10]
  }

  function Number(s: seq<byte>): int {
    if s == [] then 0 else 10 * Number(s[..|s| - 1]) + s[|s| - 1] as int - 48
  }

  predicate AllDigits(s: seq<byte>) {
    forall i :: 0 <= i < |s| ==> 48 <= s[i] <= 57
  }

  lemma {:induction false} NumberOfDigits(n: nat)
    ensures AllDigits(Digits(n)) && Number(Digits(n)) == n
  {
    if n >= 10 {
      NumberOfDigits(n / 10);
      assert Digits(n)[..|Digits(n)| - 1] == Digits(n / 10);
    } else {
      assert Digits(n)[..0] == [];
    }
  }

  /** Two's complement, printed with its sign: the magnitude is cut to 63 bits. */
  function SignedText(n: nat): seq<byte>
    requires n < TWO64
  {
    if n < TWO63 then Digits(n) else [MINUS] + Digits((TWO64 - n) % TWO63)
  }

  /** `None` where the original reads address 1. */
  function Integer(s: seq<byte>): Option<word> {
    var neg := s != [] && s[0] == MINUS;
    var digits := if neg then s[1..] else s;
    if !AllDigits(digits) then None
    else Some((if neg then 0 - Number(digits) else Number(digits)) % TWO64)
  }

  /** What is printed is read back for every word but one: the most negative number is printed as -0. */
  lemma RoundTripExactly(n: nat)
    requires n < TWO64
    ensures Integer(SignedText(n)) == Some(n) <==> n != TWO63
  {
    if n < TWO63 {
      PlainInteger(n);
    } else {
      var m := (TWO64 - n) % TWO63;
      NumberOfDigits(m);
      assert SignedText(n)[1..] == Digits(m);
      if n == TWO63 { assert m == 0; } else { Complement(n, m); }
    }
  }

  lemma Complement(n: nat, m: nat)
    requires TWO63 < n < TWO64 && m == (TWO64 - n) % TWO63
    ensures m == TWO64 - n && (0 - m) % TWO64 == n
  {
    SmallRemainder(TWO64 - n, TWO63);
  }

  lemma PlainInteger(n: nat)
    requires n < TWO64
    ensures Integer(Digits(n)) == Some(n)
  {
    NumberOfDigits(n);
    SmallRemainder(n, TWO64);
    assert Digits(n)[0] != MINUS;
  }

  // --- printing -------------------------------------------------------------------------------------------

  function Pow10(k: nat): (p: nat)
    ensures p > 0
  {
    if k == 0 then 1 else 10 * Pow10(k - 1)
  }

  /** `x` times 10^k. */
  function Scale(x: int, k: nat): int {
    if k == 0 then x else 10 * Scale(x, k - 1)
  }

  lemma {:induction false} ScaleSum(x: int, y: int, k: nat)
    ensures Scale(x + y, k) == Scale(x, k) + Scale(y, k)
  {
    if k > 0 { ScaleSum(x, y, k - 1); }
  }

  lemma {:induction false} ScaleTen(x: int, k: nat)
    ensures Scale(10 * x, k) == 10 * Scale(x, k)
  {
    if k > 0 { ScaleTen(x, k - 1); }
  }

  lemma {:induction false} ScaleIsProduct(x: int, k: nat)
    ensures Scale(x, k) == Pow10(k) * x
  {
    if k > 0 {
      ScaleIsProduct(x, k - 1);
      assert 10 * (Pow10(k - 1) * x) == (10 * Pow10(k - 1)) * x;
    }
  }

  /** One digit is split off the front of what is left. */
  lemma OneDigit(n: nat, q: nat, val: nat, k: nat, dig: nat, val': nat)
    requires k > 0 && val < Pow10(k) && n == Scale(q, k) + val
    requires dig == val / Pow10(k - 1) && val' == val % Pow10(k - 1)
    ensures dig < 10 && val' < Pow10(k - 1) && n == Scale(10 * q + dig, k - 1) + val'
  {
    var p := Pow10(k - 1);
    assert val == p * dig + val';
    if dig >= 10 { MulMonotone(p, 10, dig); }
    ScaleIsProduct(dig, k - 1);
    ScaleTen(q, k - 1);
    ScaleSum(10 * q, dig, k - 1);
  }

  lemma DigitsStep(q: nat, dig: nat)
    requires dig < 10
    ensures q > 0 ==> Digits(10 * q + dig) == Digits(q) + [48 + dig]
    ensures q == 0 ==> Digits(10 * q + dig) == [48 + dig]
  {
    if q > 0 { DivModUnique(10 * q + dig, 10, q, dig); }
  }

  /** The bytes before the first zero, as the string constructor takes them. */
  function CString(buf: seq<byte>): seq<byte> {
    if buf == [] || buf[0] == 0 then [] else [buf[0]] + CString(buf[1..])
  }

  lemma {:induction false} CStringIs(buf: seq<byte>, n: nat)
    requires n < |buf| && buf[n] == 0 && forall i :: 0 <= i < n ==> buf[i] != 0
    ensures CString(buf) == buf[..n]
  {
    if n > 0 {
      CStringIs(buf[1..], n - 1);
      assert buf[..n] == [buf[0]] + buf[1..][..n - 1];
    }
  }

  /** Everything that has been printed: leading zeros are not, but the last digit stands in the buffer in any case. */
  ghost predicate Printed(buf: seq<byte>, start: nat, i: nat, q: nat, k: nat) {
    && |buf| == 25 && start <= 1 && start <= i && i <= start + 20 - k
    && (forall j :: i < j < 25 ==> buf[j] == 0)
    && (q > 0 ==> buf[start..i] == Digits(q) && buf[i] == 0)
    && (q == 0 ==> i == start && (k < 20 ==> buf[i] == ZERO))
  }

  lemma PrintedStep(buf: seq<byte>, start: nat, i: nat, q: nat, k: nat, dig: nat)
    requires 0 < k <= 20 && Printed(buf, start, i, q, k) && dig < 10
    ensures i < 25 && var i' := if q > 0 || dig > 0 then i + 1 else i;
      Printed(buf[i := 48 + dig], start, i', 10 * q + dig, k - 1)
  {
    DigitsStep(q, dig);
    var buf' := buf[i := 48 + dig];
    if q > 0 || dig > 0 {
      assert buf'[start..i + 1] == buf[start..i] + [48 + dig];
    }
  }

  lemma PrintedEnd(buf: seq<byte>, start: nat, i: nat, n: nat)
    requires Printed(buf, start, i, n, 0) && (start == 1 ==> buf[0] == MINUS)
    ensures CString(buf) == (if start == 1 then [MINUS] else []) + Digits(n)
  {
    NumberOfDigits(n);
    if n > 0 {
      assert forall j :: start <= j < i ==> buf[j] == Digits(n)[j - start];
      CStringIs(buf, i);
      assert buf[..i] == buf[..start] + buf[start..i];
    } else {
      CStringIs(buf, start + 1);
      assert Digits(0) == [ZERO];
      assert buf[..start + 1] == buf[..start] + [ZERO];
    }
  }

  lemma TopPower()
    ensures Pow10(19) == 10000000000000000000 && TWO64 < Pow10(20)
  {
    assert Pow10(5) == 100000;
    assert Pow10(10) == 10000000000;
    assert Pow10(15) == 1000000000000000;
    assert Pow10(19) == 10000000000000000000;
  }

  lemma TenthOf(k: nat)
    ensures Pow10(k) / 10 == if k == 0 then 0 else Pow10(k - 1)
  {
  }

  lemma QuotientIsNat(n: nat, d: nat)
    requires d > 0
    ensures n / d >= 0
  {
  }

  /** The digit loop. */
  method PrintDigits(n: nat, buf0: seq<byte>, start: nat) returns (buf: seq<byte>, ghost i: nat)
    requires n < TWO64 && |buf0| == 25 && start <= 1 && forall j :: start <= j < 25 ==> buf0[j] == 0
    ensures Printed(buf, start, i, n, 0) && buf[..start] == buf0[..start]
  {
    TopPower();
    ScaleIsProduct(0, 20);
    buf := buf0;
    var dec: nat, val: nat, at: nat, add := 10000000000000000000, n, start, false;
    ghost var k: nat, q: nat := 20, 0;
    while dec != 0
      invariant k <= 20 && dec == (if k == 0 then 0 else Pow10(k - 1)) && val < Pow10(k) && n == Scale(q, k) + val
      invariant (add <==> q > 0) && Printed(buf, start, at, q, k) && buf[..start] == buf0[..start]
      decreases k
    {
      QuotientIsNat(val, dec);
      var dig: nat, rest: nat := val / dec, val % dec;
      OneDigit(n, q, val, k, dig, rest);
      PrintedStep(buf, start, at, q, k, dig);
      TenthOf(k - 1);
      val := rest;
      dec := dec / 10;
      add := add || dig != 0;
      buf := buf[at := 48 + dig];
      at := if add then at + 1 else at;
      q, k := 10 * q + dig, k - 1;
    }
    i := at;
  }

  /** `stringify(val, sign)` */
  method Stringify(n: nat, sign: bool) returns (text: seq<byte>)
    requires n < TWO64
    ensures text == if sign then SignedText(n) else Digits(n)
  {
    var buf: seq<byte> := seq(25, _ => 0);
    var start, val := 0, n;
    if sign {
      var neg := val / TWO63 == 1;
      val := val % TWO63;
      if neg {
        buf := buf[0 := MINUS];
        start := 1;
        NegativeSteps(n);
        val := (val + TWO64 - 1) % TWO64;
        val := TWO64 - 1 - val;
        val := val % TWO63;
      } else {
        SmallRemainder(n, TWO63);
      }
    }
    ghost var i;
    buf, i := PrintDigits(val, buf, start);
    PrintedEnd(buf, start, i, val);
    text := CString(buf);
  }

  /** Subtracting one and inverting negates the word. */
  lemma NegativeSteps(n: nat)
    requires TWO63 <= n < TWO64
    ensures (TWO64 - 1 - (n % TWO63 + TWO64 - 1) % TWO64) % TWO63 == (TWO64 - n) % TWO63
  {
    DivModUnique(n, TWO63, 1, n - TWO63);
    if n > TWO63 {
      DivModUnique(n - TWO63 + TWO64 - 1, TWO64, 1, n - TWO63 - 1);
      DivModUnique(TWO64 - n + TWO63, TWO63, 1, TWO64 - n);
      SmallRemainder(TWO64 - n, TWO63);
    } else {
      SmallRemainder(TWO64 - 1, TWO64);
    }
  }

  lemma WrapStep(a: int, v: nat, d: int)
    requires v == a % TWO64
    ensures (v * 10 % TWO64 + d) % TWO64 == (10 * a + d) % TWO64
  {
    var q, r := a / TWO64, v * 10 / TWO64;
    assert 10 * a + d == TWO64 * (10 * q + r) + (v * 10 % TWO64 + d);
    WrapMultiple(v * 10 % TWO64 + d, 10 * q + r);
  }

  lemma WrapMultiple(x: int, q: int)
    ensures (TWO64 * q + x) % TWO64 == x % TWO64
  {
  }

  /** `integer(str)` */
  method ParseInteger(str: seq<byte>) returns (result: Option<word>)
    ensures result == Integer(str)
  {
    var i: nat, neg := 0, false;
    if i < |str| && str[i] == MINUS {
      neg := true;
      i := i + 1;
    }
    var val: nat := 0;
    ghost var start: nat := i;
    assert str[start..start] == [];
    while i < |str|
      invariant start <= i <= |str| && val == Number(str[start..i]) % TWO64
      invariant forall j :: start <= j < i ==> 48 <= str[j] <= 57
    {
      if str[i] < 48 || str[i] > 57 {
        assert str[start..][i - start] == str[i];
        return None;
      }
      assert str[start..i + 1][..i - start] == str[start..i];
      WrapStep(Number(str[start..i]), val, str[i] as int - 48);
      val := (val * 10 % TWO64 + (str[i] as int - 48)) % TWO64;
      i := i + 1;
    }
    assert str[start..i] == str[start..];
    if neg {
      NegateWrap(Number(str[start..]), val);
      val := (TWO64 - val) % TWO64;
    }
    return Some(val);
  }

  lemma NegateWrap(a: int, v: nat)
    requires v == a % TWO64
    ensures (TWO64 - v) % TWO64 == (0 - a) % TWO64
  {
    var q := a / TWO64;
    assert 0 - a == TWO64 * (-1 - q) + (TWO64 - v);
    WrapMultiple(TWO64 - v, -1 - q);
  }

  // --- the text of floating-point numbers ----------------------------------------------------------------

  const NANTEXT: seq<byte> := [78, 97, 78]
  const INFINITYTEXT: seq<byte> := [73, 110, 102, 105, 110, 105, 116, 121]

  predicate Sign(c: byte) {
    c == 43 || c == MINUS
  }

  function AfterSign(s: seq<byte>): seq<byte> {
    if s != [] && Sign(s[0]) then s[1..] else s
  }

  function AfterDigits(s: seq<byte>): seq<byte> {
    if s != [] && 48 <= s[0] <= 57 then AfterDigits(s[1..]) else s
  }

  function AfterFraction(s: seq<byte>): seq<byte> {
    if s != [] && s[0] == 46 then AfterDigits(s[1..]) else s
  }

  /** Nothing, or an exponent; a character is read behind its letter, which must not be the last one. */
  predicate Exponent(s: seq<byte>) {
    s == [] || ((s[0] == 69 || s[0] == 101) && |s| > 1 && AfterDigits(AfterSign(s[1..])) == [])
  }

  /** The texts that `floating` gives a value; on any other it stops. */
  predicate FloatText(s: seq<byte>) {
    s != [] && var t := AfterSign(s);
      t == NANTEXT || t == INFINITYTEXT || Exponent(AfterFraction(AfterDigits(t)))
  }

  lemma DropOne(s: seq<byte>, i: nat)
    requires i < |s|
    ensures s[i..] != [] && s[i..][0] == s[i] && s[i..][1..] == s[i + 1..]
  {
  }

  method SkipDigits(str: seq<byte>, from: nat) returns (i: nat)
    requires from <= |str|
    ensures from <= i <= |str| && str[i..] == AfterDigits(str[from..])
  {
    i := from;
    while i < |str| && 48 <= str[i] <= 57
      invariant from <= i <= |str| && AfterDigits(str[i..]) == AfterDigits(str[from..])
    {
      DropOne(str, i);
      i := i + 1;
    }
    if i < |str| { DropOne(str, i); }
  }

  /** The part of `floating` behind the fraction. */
  method ScanExponent(str: seq<byte>, from: nat) returns (ok: bool)
    requires from <= |str|
    ensures ok <==> Exponent(str[from..])
  {
    var i := from;
    if i < |str| && (str[i] == 69 || str[i] == 101) {
      DropOne(str, i);
      i := i + 1;
      if i >= |str| {
        return false;
      }
      DropOne(str, i);
      if Sign(str[i]) {
        i := i + 1;
      }
      i := SkipDigits(str, i);
    }
    ok := i == |str|;
  }

  /** `floating(str)`, without the value: the way of its cursor, and whether it gets to the end. */
  method ScanFloat(str: seq<byte>) returns (ok: bool)
    ensures ok <==> FloatText(str)
  {
    if str == [] {
      return false;
    }
    var i: nat := 0;
    if Sign(str[i]) {
      i := i + 1;
    }
    assert str[i..] == AfterSign(str);
    if str[i..] == NANTEXT || str[i..] == INFINITYTEXT {
      return true;
    }
    i := SkipDigits(str, i);
    if i < |str| && str[i] == 46 {
      DropOne(str, i);
      i := SkipDigits(str, i + 1);
    }
    ok := ScanExponent(str, i);
  }

  lemma {:induction false} OnlyDigits(s: seq<byte>)
    requires AllDigits(s)
    ensures AfterDigits(s) == []
  {
    if s != [] { OnlyDigits(s[1..]); }
  }

  /** A minus sign and digits are such a text. */
  lemma SignedIsFloat(digits: seq<byte>)
    requires AllDigits(digits)
    ensures FloatText([MINUS] + digits)
  {
    assert ([MINUS] + digits)[1..] == digits;
    OnlyDigits(digits);
  }
}
