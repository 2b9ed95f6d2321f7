/**
  Little-endian base-256 numerals: what a byte buffer means as a number.
*/
module Numerals {
  import opened Words

  /** `d` shifted up by `n` bytes. */
  function Weight(d: int, n: nat): int {
    if n == 0 then d else 256 * Weight(d, n - 1)
  }

  function Pow256(n: nat): (p: nat)
    ensures p > 0
  {
    if n == 0 then 1 else 256 * Pow256(n - 1)
  }

  function Value(s: seq<byte>): int {
    if s == [] then 0 else Value(s[..|s| - 1]) + Weight(s[|s| - 1], |s| - 1)
  }

  /** The number of bytes needed to write `n`: no leading zero byte, none at all for zero. */
  function Bytes(n: nat): nat {
    if n == 0 then 0 else 1 + Bytes(n / 256)
  }

  function Digit(s: seq<byte>, i: nat): byte {
    if i < |s| then s[i] else 0
  }

  /** The value of the low `i` bytes, missing bytes counting as zero. */
  function Low(s: seq<byte>, i: nat): int {
    Value(s[..Min(i, |s|)])
  }

  function Zeros(n: nat): (s: seq<byte>)
    ensures |s| == n && forall i :: 0 <= i < n ==> s[i] == 0
  {
    seq(n, _ => 0)
  }

  lemma {:induction false} WeightAdd(x: int, y: int, n: nat)
    ensures Weight(x + y, n) == Weight(x, n) + Weight(y, n)
  {
    if n > 0 { WeightAdd(x, y, n - 1); }
  }

  lemma {:induction false} WeightUp(x: int, n: nat)
    ensures Weight(256 * x, n) == Weight(x, n + 1)
  {
    if n > 0 { WeightUp(x, n - 1); }
  }

  lemma {:induction false} WeightTwice(x: int, m: nat, n: nat)
    ensures Weight(Weight(x, m), n) == Weight(x, m + n)
  {
    if n > 0 { WeightTwice(x, m, n - 1); }
  }

  lemma {:induction false} WeightMonotone(x: int, y: int, n: nat)
    requires x <= y
    ensures Weight(x, n) <= Weight(y, n)
  {
    if n > 0 { WeightMonotone(x, y, n - 1); }
  }

  lemma {:induction false} WeightScale(c: int, x: int, n: nat)
    ensures c * Weight(x, n) == Weight(c * x, n)
  {
    if n > 0 {
      WeightScale(c, x, n - 1);
      MulRotate(c, Weight(x, n - 1));
    }
  }

  lemma {:induction false} WeightOne(n: nat)
    ensures Weight(1, n) == Pow256(n) && Weight(0, n) == 0
  {
    if n > 0 { WeightOne(n - 1); }
  }

  lemma {:induction false} WeightIsProduct(x: int, n: nat)
    ensures Weight(x, n) == x * Pow256(n)
  {
    if n > 0 {
      WeightIsProduct(x, n - 1);
      MulRotate(x, Pow256(n - 1));
    }
  }

  lemma MulRotate(x: int, p: int)
    ensures 256 * (x * p) == x * (256 * p)
  {
  }

  /** Splitting off the low byte of a digit sum. */
  lemma WeightSplit(x: nat, n: nat)
    ensures Weight(x % 256, n) + Weight(x / 256, n + 1) == Weight(x, n)
  {
    WeightUp(x / 256, n);
    WeightAdd(x % 256, 256 * (x / 256), n);
  }

  lemma LowStep(s: seq<byte>, i: nat)
    ensures Low(s, i + 1) == Low(s, i) + Weight(Digit(s, i), i)
  {
    if i < |s| {
      assert s[..i + 1][..i] == s[..i];
    } else {
      WeightOne(i);
    }
  }

  /** Storing a byte at the end of the part already written. */
  lemma ValueStore(s: seq<byte>, i: nat, x: byte)
    requires i < |s|
    ensures Value(s[i := x][..i + 1]) == Value(s[..i]) + Weight(x, i)
  {
    assert s[i := x][..i + 1][..i] == s[..i];
  }

  lemma ValueReplace(s: seq<byte>, i: nat, x: byte)
    requires i < |s|
    ensures Value(s[i := x]) == Value(s) - Weight(s[i], i) + Weight(x, i)
  {
    var t := s[i := x];
    assert s == s[..i + 1] + s[i + 1..] && t == t[..i + 1] + s[i + 1..];
    ValueConcat(s[..i + 1], s[i + 1..]);
    ValueConcat(t[..i + 1], s[i + 1..]);
    ValueStore(s, i, x);
    ValueStore(s, i, s[i]);
    assert s[i := s[i]] == s;
  }

  /** The low `i` bytes hold the sum of the low parts, but for the carry. */
  predicate AddInvariant(cells: seq<byte>, a: seq<byte>, b: seq<byte>, i: nat, carry: nat) {
    i <= |cells| && carry <= 1 && Value(cells[..i]) + Weight(carry, i) == Low(a, i) + Low(b, i)
  }

  /** One column of the addition loop. */
  lemma AddStep(cells: seq<byte>, a: seq<byte>, b: seq<byte>, i: nat, x: byte, y: byte, carry: nat, sum: nat,
                low: byte, high: nat)
    requires i < |cells| && AddInvariant(cells, a, b, i, carry) && x == Digit(a, i) && y == Digit(b, i)
    requires sum == carry + x as int + y as int && low == sum % 256 && high == sum / 256
    ensures AddInvariant(cells[i := low], a, b, i + 1, high)
  {
    LowStep(a, i);
    LowStep(b, i);
    WeightAdd(carry + x as int, y, i);
    WeightAdd(carry, x, i);
    WeightSplit(sum, i);
    ValueStore(cells, i, low);
  }

  /** `x` times the low `j` bytes of `b`, placed `i` bytes up: one row of the schoolbook product. */
  function Row(x: byte, b: seq<byte>, i: nat, j: nat): int {
    if j == 0 then 0 else Row(x, b, i, j - 1) + Weight(x as int * Digit(b, j - 1), i + j - 1)
  }

  lemma {:induction false} RowIsProduct(x: byte, b: seq<byte>, i: nat, j: nat)
    ensures Row(x, b, i, j) == Weight(x * Low(b, j), i)
  {
    if j == 0 {
      WeightOne(i);
    } else {
      var d: int := Digit(b, j - 1);
      RowIsProduct(x, b, i, j - 1);
      LowStep(b, j - 1);
      MulAdd(x, Low(b, j - 1), Weight(d, j - 1));
      WeightScale(x, d, j - 1);
      WeightAdd(x * Low(b, j - 1), Weight(x * d, j - 1), i);
      WeightTwice(x * d, j - 1, i);
    }
  }

  /** The sum of the rows of the low `i` bytes of `a`. */
  function Rows(a: seq<byte>, b: seq<byte>, i: nat): int
    requires i <= |a|
  {
    if i == 0 then 0 else Rows(a, b, i - 1) + Row(a[i - 1], b, i - 1, |b|)
  }

  lemma {:induction false} RowsIsProduct(a: seq<byte>, b: seq<byte>, i: nat)
    requires i <= |a|
    ensures Rows(a, b, i) == Value(a[..i]) * Value(b)
  {
    if i > 0 {
      var v, low, x := Value(b), Value(a[..i - 1]), a[i - 1];
      RowsIsProduct(a, b, i - 1);
      RowIsProduct(x, b, i - 1, |b|);
      assert Low(b, |b|) == v by { assert b[..|b|] == b; }
      assert Value(a[..i]) == low + Weight(x, i - 1) by { assert a[..i][..i - 1] == a[..i - 1]; }
      ProductStep(low, x, i - 1, v);
    }
  }

  lemma ProductStep(low: int, x: int, n: nat, v: int)
    ensures (low + Weight(x, n)) * v == low * v + Weight(x * v, n)
  {
    WeightScale(v, x, n);
    MulCommutes(v, x);
    MulAdd(v, low, Weight(x, n));
    MulCommutes(v, low);
    MulCommutes(v, low + Weight(x, n));
  }

  lemma MulCommutes(x: int, y: int)
    ensures x * y == y * x
  {
  }

  lemma SchoolbookProduct(a: seq<byte>, b: seq<byte>)
    ensures Rows(a, b, |a|) == Value(a) * Value(b)
  {
    RowsIsProduct(a, b, |a|);
    assert a[..|a|] == a;
  }

  /** Columns above the multiplier add nothing to a row. */
  lemma {:induction false} RowEnd(x: byte, b: seq<byte>, i: nat, j: nat)
    requires j >= |b|
    ensures Row(x, b, i, j) == Row(x, b, i, |b|)
  {
    if j > |b| {
      RowEnd(x, b, i, j - 1);
      WeightOne(i + j - 1);
    }
  }

  /** One cell of the multiplication loop: the carry stays below 256 and the total is kept. */
  lemma MultiplyStep(cells: seq<byte>, x: byte, b: seq<byte>, i: nat, j: nat, d: byte, carry: nat, sum: nat,
                     total: int)
    requires i + j < |cells| && carry <= 255 && d == Digit(b, j)
    requires sum == carry + x as int * d + cells[i + j] as int
    requires Value(cells) + Weight(carry, i + j) == total + Row(x, b, i, j)
    ensures sum / 256 <= 255
    ensures Value(cells[i + j := sum % 256]) + Weight(sum / 256, i + j + 1) == total + Row(x, b, i, j + 1)
  {
    var xd := x as int * d;
    assert xd <= 255 * 255 by { MulMonotone(x, d, 255); MulMonotone(255, x, 255); }
    ValueReplace(cells, i + j, sum % 256);
    WeightAdd(carry + xd, cells[i + j], i + j);
    WeightAdd(carry, xd, i + j);
    WeightSplit(sum, i + j);
  }

  lemma {:induction false} Pow256Add(m: nat, n: nat)
    ensures Pow256(m + n) == Pow256(m) * Pow256(n)
  {
    if m > 0 {
      Pow256Add(m - 1, n);
      assert Pow256(m + n) == 256 * (Pow256(m - 1) * Pow256(n)) == (256 * Pow256(m - 1)) * Pow256(n);
    }
  }

  lemma {:induction false} Pow256Monotone(m: nat, n: nat)
    requires m <= n
    ensures Pow256(m) <= Pow256(n)
  {
    if m < n { Pow256Monotone(m, n - 1); }
  }

  lemma {:induction false} Pow256IsPow2(n: nat)
    ensures Pow256(n) == Pow2(8 * n)
  {
    if n > 0 {
      Pow256IsPow2(n - 1);
      Pow2Add(8, 8 * n - 8);
      Pow2Words();
    }
  }

  lemma {:induction false} ValueBound(s: seq<byte>)
    ensures 0 <= Value(s) < Pow256(|s|)
  {
    if s != [] {
      var n := |s| - 1;
      ValueBound(s[..n]);
      WeightMonotone(0, s[n], n);
      WeightMonotone(s[n] as int + 1, 256, n);
      WeightAdd(s[n], 1, n);
      WeightUp(1, n);
      WeightOne(n);
      WeightOne(n + 1);
    }
  }

  lemma {:induction false} ValueConcat(s: seq<byte>, t: seq<byte>)
    ensures Value(s + t) == Value(s) + Weight(Value(t), |s|)
  {
    if t == [] {
      assert s + t == s;
      WeightOne(|s|);
    } else {
      var n, t' := |t| - 1, t[..|t| - 1];
      assert (s + t)[..|s + t| - 1] == s + t';
      ValueConcat(s, t');
      WeightAdd(Value(t'), Weight(t[n], n), |s|);
      WeightTwice(t[n], n, |s|);
    }
  }

  /** The leading byte of a numeral is its remainder by 256. */
  lemma ValueHead(s: seq<byte>)
    requires s != []
    ensures Value(s) == s[0] + 256 * Value(s[1..])
  {
    assert s == s[..1] + s[1..];
    ValueConcat(s[..1], s[1..]);
    assert Value(s[..1]) == s[0] by { assert s[..1][..0] == []; }
  }

  lemma {:induction false} ValueZeros(s: seq<byte>)
    requires forall i :: 0 <= i < |s| ==> s[i] == 0
    ensures Value(s) == 0
  {
    if s != [] {
      ValueZeros(s[..|s| - 1]);
      WeightOne(|s| - 1);
    }
  }

  /** Slack bytes that are zero do not change the value. */
  lemma ValueTrim(s: seq<byte>, n: nat)
    requires n <= |s|
    requires forall i :: n <= i < |s| ==> s[i] == 0
    ensures Value(s) == Value(s[..n])
  {
    assert s == s[..n] + s[n..];
    ValueConcat(s[..n], s[n..]);
    ValueZeros(s[n..]);
    WeightOne(n);
  }

  lemma ValueTop(s: seq<byte>)
    requires s != [] && s[|s| - 1] != 0
    ensures Value(s) >= Pow256(|s| - 1)
  {
    var n := |s| - 1;
    ValueBound(s[..n]);
    WeightMonotone(1, s[n], n);
    WeightOne(n);
  }

  /** Clearing the top byte is taking the remainder by its weight. */
  lemma DropTopByte(s: seq<byte>)
    requires s != []
    ensures Value(s) % Pow256(|s| - 1) == Value(s[..|s| - 1])
  {
    var n := |s| - 1;
    ValueBound(s[..n]);
    WeightMonotone(0, s[n], n);
    WeightIsProduct(s[n], n);
    TopRemainder(Value(s), Pow256(n), s[n], Value(s[..n]));
  }

  lemma TopRemainder(v: int, p: nat, d: nat, low: nat)
    requires v == low + d * p && low < p
    ensures v % p == low
  {
    MulCommutes(d, p);
    DivModUnique(v, p, d, low);
  }

  /** A numeral without a leading zero byte has exactly `Bytes` bytes. */
  lemma {:induction false} BytesOfValue(s: seq<byte>)
    requires s != [] ==> s[|s| - 1] != 0
    ensures Value(s) >= 0 && Bytes(Value(s)) == |s|
  {
    ValueBound(s);
    if s != [] {
      ValueHead(s);
      ValueTop(s);
      BytesOfValue(s[1..]);
    }
  }

  lemma {:induction false} BytesBound(n: nat)
    ensures n < Pow256(Bytes(n))
    ensures n > 0 ==> Pow256(Bytes(n) - 1) <= n
  {
    if n > 0 { BytesBound(n / 256); }
  }

  lemma BytesUnique(n: nat, k: nat)
    requires k > 0 && Pow256(k - 1) <= n < Pow256(k)
    ensures Bytes(n) == k
  {
    BytesBound(n);
    if Bytes(n) < k { Pow256Monotone(Bytes(n), k - 1); }
    if Bytes(n) > k { Pow256Monotone(k, Bytes(n) - 1); }
  }

  /** Numerals of one length are ordered by their highest differing byte. */
  lemma ValueOrder(s: seq<byte>, t: seq<byte>, i: nat)
    requires |s| == |t| && i < |s| && s[i] < t[i] && s[i + 1..] == t[i + 1..]
    ensures Value(s) < Value(t)
  {
    ValueOrderLow(s[..i + 1], t[..i + 1]);
    assert s == s[..i + 1] + s[i + 1..] && t == t[..i + 1] + t[i + 1..];
    ValueConcat(s[..i + 1], s[i + 1..]);
    ValueConcat(t[..i + 1], t[i + 1..]);
  }

  lemma ValueOrderLow(s: seq<byte>, t: seq<byte>)
    requires |s| == |t| > 0 && s[|s| - 1] < t[|s| - 1]
    ensures Value(s) < Value(t)
  {
    var n := |s| - 1;
    ValueBound(s[..n]);
    ValueBound(t[..n]);
    WeightMonotone(s[n] as int + 1, t[n], n);
    WeightAdd(s[n], 1, n);
    WeightOne(n);
  }

  lemma ValueLonger(s: seq<byte>, t: seq<byte>)
    requires |s| < |t| && t[|t| - 1] != 0
    ensures Value(s) < Value(t)
  {
    ValueBound(s);
    ValueTop(t);
    Pow256Monotone(|s|, |t| - 1);
  }

  // --- shifts by less than a byte -------------------------------------------------------------------------

  lemma ShiftLeftBits(d: byte, q: nat)
    requires q in {1, 2, 4, 8, 16, 32, 64, 128}
    ensures var x := d * q as int;
      x >= 0 && x / 256 < q && (x % 256) % q == 0
  {
    if q == 1 {} else if q == 2 {} else if q == 4 {} else if q == 8 {} else if q == 16 {}
    else if q == 32 {} else if q == 64 {} else {}
  }

  lemma MultipleBelow(top: byte, q: nat)
    requires q in {1, 2, 4, 8, 16, 32, 64, 128} && top % q == 0
    ensures top + q <= 256
  {
    if q == 1 {} else if q == 2 {} else if q == 4 {} else if q == 8 {} else if q == 16 {}
    else if q == 32 {} else if q == 64 {} else {}
  }

  /** `<<=` on one byte: the low part goes in place, the high part is or-ed into the byte above. */
  lemma ShiftLeftByte(d: byte, top: byte, bit: nat)
    requires bit < 8 && LowClear(top, bit)
    ensures var x := Shl(d, bit);
      x >= 0 && LowClear(x % 256, bit) && Or(top, x / 256) == top + x / 256 < 256
  {
    ShiftFactor(bit);
    ShlIsProduct(d, bit);
    ShiftLeftBits(d, Pow2(bit));
    LowClearMultiple(top, bit);
    LowClearMultiple(Shl(d, bit) % 256, bit);
    MultipleBelow(top, Pow2(bit));
    OrDisjoint(top, Shl(d, bit) / 256, bit);
  }

  lemma ShiftRightBits(d: byte, below: byte, q: nat, r: nat)
    requires (q, r) in {(1, 256), (2, 128), (4, 64), (8, 32), (16, 16), (32, 8), (64, 4), (128, 2)} && below < r
    ensures var x := d * r as int;
      x >= 0 && below + x % 256 < 256 && (x % 256) % r == 0 && x / 256 == d / q < r
  {
    var e, f := d / q, d % q;
    assert q * r == 256 && d == q * e + f && 0 <= e && 0 <= f < q;
    var x := d * r as int;
    assert x == 256 * e + f * r by { MulTwoParts(q, e, f, r); }
    MulMonotone(r, f + 1, q);
    MulMonotone(r, 0, f);
    MulAdd(r, f, 1);
    DivModUnique(x, 256, e, f * r);
    DivModUnique(f * r, r, f, 0);
    if e >= r { MulMonotone(q, r, e); }
  }

  lemma MulTwoParts(q: int, e: int, f: int, r: int)
    ensures (q * e + f) * r == (q * r) * e + f * r
  {
  }

  /** `>>=` on one byte: its low bits are or-ed into the top of the byte below. */
  lemma ShiftRightByte(d: byte, below: byte, bit: nat)
    requires bit < 8 && below < Pow2(8 - bit)
    ensures var x := Shl(d, 8 - bit);
      && x >= 0 && Or(below, x % 256) == below + x % 256 < 256
      && 0 <= x / 256 == Shr(d, bit) < Pow2(8 - bit) <= 256
  {
    var x := Shl(d, 8 - bit);
    ShiftFactor(bit);
    ShlIsProduct(d, 8 - bit);
    ShrIsQuotient(d, bit);
    ShiftRightBits(d, below, Pow2(bit), Pow2(8 - bit));
    LowClearMultiple(x % 256, 8 - bit);
    OrCommutes(below, x % 256);
    OrDisjoint(x % 256, below, 8 - bit);
  }

  /** One step of the `<<=` loop on the part of the buffer already shifted. */
  lemma ShiftLeftColumn(d: byte, above: seq<byte>, v: int, x: nat, bit: nat)
    requires above != [] && x == Shl(d, bit) && above[0] + x / 256 < 256 && Value(above) == Shl(v, bit)
    ensures Value([x % 256] + above[0 := above[0] + x / 256]) == Shl(d + 256 * v, bit)
  {
    var s: seq<byte> := above[0 := above[0] + x / 256];
    var t: seq<byte> := [x % 256] + s;
    ValueHead(t);
    assert t[1..] == s;
    ValueHead(above);
    ValueHead(s);
    assert s[1..] == above[1..];
    ShlSum(d, 256 * v, bit);
    ShlScale(256, v, bit);
  }

  /** The bytes from `k` on hold the value of `o[i..]` shifted left by `bit`. */
  predicate ShiftedLeft(s: seq<byte>, k: nat, o: seq<byte>, i: nat, bit: nat)
    requires k < |s| && i <= |o|
  {
    LowClear(s[k], bit) && Value(s[k..]) == Shl(Value(o[i..]), bit)
  }

  lemma ShiftLeftStep(s: seq<byte>, k: nat, o: seq<byte>, i: nat, bit: nat, x: int)
    requires bit < 8 && 0 < k < |s| && 0 < i <= |o| && x == Shl(o[i - 1], bit)
    requires ShiftedLeft(s, k, o, i, bit)
    ensures x >= 0 && Or(s[k], x / 256) < 256
    ensures ShiftedLeft(s[k - 1 := x % 256][k := Or(s[k], x / 256)], k - 1, o, i - 1, bit)
  {
    var above, d := s[k..], o[i - 1];
    ShiftLeftByte(d, above[0], bit);
    var t := s[k - 1 := x % 256][k := Or(s[k], x / 256)];
    assert t[k - 1..] == [t[k - 1]] + above[0 := t[k]];
    ShiftLeftColumn(d, above, Value(o[i..]), x, bit);
    ValueHead(o[i - 1..]);
    assert o[i - 1..][1..] == o[i..];
  }

  lemma {:induction false} ZeroBits(k: nat)
    ensures Shl(0, k) == 0 && Shr(0, k) == 0 && LowClear(0, k)
  {
    if k > 0 { ZeroBits(k - 1); }
  }

  lemma ShiftLeftStart(s: seq<byte>, k: nat, o: seq<byte>, bit: nat)
    requires k < |s| && forall j :: k <= j < |s| ==> s[j] == 0
    ensures ShiftedLeft(s, k, o, |o|, bit)
  {
    ValueZeros(s[k..]);
    ZeroBits(bit);
  }

  /** Zeros below a shifted value shift it up by whole bytes. */
  lemma ShiftLeftEnd(s: seq<byte>, byt: nat, o: seq<byte>, bit: nat, val: nat)
    requires byt < |s| && ShiftedLeft(s, byt, o, 0, bit) && val == bit + 8 * byt
    ensures Value(Zeros(byt) + s[byt..]) == Shl(Value(o), val)
  {
    var v, eight := Value(o), 8 * byt;
    assert o[0..] == o;
    ValueConcat(Zeros(byt), s[byt..]);
    ValueZeros(Zeros(byt));
    WeightIsShift(Shl(v, bit), byt);
    ShlAdd(v, bit, eight);
  }

  lemma {:induction false} WeightIsShift(x: int, n: nat)
    ensures Weight(x, n) == Shl(x, 8 * n)
  {
    if n > 0 {
      WeightIsShift(x, n - 1);
      ShlAdd(x, 8 * n - 8, 8);
      ShlIsProduct(Shl(x, 8 * n - 8), 8);
      Pow2Words();
    }
  }

  /** `v` is the value of the source bytes below `d`, the next source byte. */
  lemma ShiftRightColumn(v: nat, d: byte, i: nat, bit: nat)
    requires bit < 8 && i > 0
    ensures Weight(d, i) >= 0
    ensures Shr(v + Weight(d, i), bit) == Shr(v, bit) + Weight(Shl(d, 8 - bit), i - 1)
  {
    var q, x := Pow2(bit), Shl(d, 8 - bit);
    ShiftFactor(bit);
    var w := Weight(x, i - 1);
    assert x >= 0 && 256 * (d as int) == q * x by { ShlIsProduct(d, 8 - bit); }
    assert Weight(d, i) == q * w by {
      WeightUp(d, i - 1);
      WeightScale(q, x, i - 1);
    }
    WeightMonotone(0, x, i - 1);
    WeightOne(i - 1);
    WeightMonotone(0, d, i);
    WeightOne(i);
    DivAddMultiple(v, q, w);
    ShrIsQuotient(v, bit);
    ShrIsQuotient(v + q * w, bit);
  }

  lemma DivAddMultiple(v: int, q: nat, w: int)
    requires v >= 0 && q > 0 && w >= 0
    ensures (v + q * w) / q == v / q + w
  {
    MulAdd(q, v / q, w);
    DivModUnique(v + q * w, q, v / q + w, v % q);
  }

  /** The low `i` bytes of `s` hold the value of `src[..i]` shifted right by `bit`. */
  predicate ShiftedRight(s: seq<byte>, src: seq<byte>, i: nat, bit: nat)
    requires i <= |s| && i <= |src|
  {
    Value(src[..i]) >= 0 && Value(s[..i]) == Shr(Value(src[..i]), bit)
  }

  lemma ShiftRightStart(s: seq<byte>, src: seq<byte>, bit: nat)
    ensures ShiftedRight(s, src, 0, bit)
  {
    ZeroBits(bit);
  }

  lemma ShiftRightStep(s: seq<byte>, src: seq<byte>, i: nat, bit: nat, u: seq<byte>)
    requires bit < 8 && i < |s| == |u| && i < |src| && ShiftedRight(s, src, i, bit)
    requires u[i] == Shr(src[i], bit) && u[i + 1..] == s[i + 1..]
    requires i > 0 ==> s[i - 1] < Pow2(8 - bit) && u[i - 1] == Or(s[i - 1], Shl(src[i], 8 - bit) % 256)
    requires forall k :: 0 <= k < i - 1 ==> u[k] == s[k]
    ensures ShiftedRight(u, src, i + 1, bit)
  {
    ShiftRightByte(src[i], if i > 0 then s[i - 1] else 0, bit);
    assert u[..i + 1][..i] == u[..i] && src[..i + 1][..i] == src[..i];
    if i > 0 {
      var x := Shl(src[i], 8 - bit);
      assert u[..i] == s[..i][i - 1 := u[i - 1]];
      ValueReplace(s[..i], i - 1, u[i - 1]);
      WeightAdd(s[i - 1], x % 256, i - 1);
      WeightSplit(x, i - 1);
      ShiftRightColumn(Value(src[..i]), src[i], i, bit);
    }
  }

  /** After the loop the bytes from `m` on still hold what was there before. */
  lemma ShiftRightEnd(s: seq<byte>, before: seq<byte>, n: nat, m: nat)
    requires |s| == |before| && m <= n <= |s| && s[m..] == before[m..]
    requires forall k :: n <= k < |s| ==> before[k] == 0
    ensures Value(s) == Value(s[..m]) + Weight(Value(before[m..n]), m)
  {
    assert s == s[..m] + s[m..];
    ValueConcat(s[..m], s[m..]);
    ValueTrim(before[m..], n - m);
    assert before[m..][..n - m] == before[m..n];
  }
}
