/**
  String/src/MWORD.cpp: unbounded naturals in a growable little-endian byte buffer.

  `address` is the whole buffer, `length` the number of significant bytes.  Between calls the bytes above
  `length` are zero and the highest significant byte is not; inside `-=` the temporary is not normalised,
  which is why `+=` asks only for `Sized`.
*/
module BigNumbers {
  import opened Words
  import opened Numerals

  // --- what the operators compute -------------------------------------------------------------------------

  /** `-=` adds the two's complement over the bytes of `b` and then clears the top byte of the sum. */
  function SubtractResult(a: nat, b: nat): nat {
    if b == 0 then a else
      BytesBound(b);
      var sum := a + (Pow256(Bytes(b)) - b);
      sum % Pow256(Bytes(sum) - 1)
  }

  /** `>>=` on `s`: the bytes above the shift are moved down, the vacated bytes keep their old contents. */
  function ShiftRightResult(s: seq<byte>, byt: nat, bit: nat): int
    requires byt <= |s|
  {
    ValueBound(s[byt..]);
    Shr(Value(s[byt..]), bit) + Weight(Value(s[|s| - byt..]), |s| - byt)
  }

  function Power(a: nat, n: nat): nat {
    if n == 0 then 1 else a * Power(a, n - 1)
  }

  // --- exact conditions -----------------------------------------------------------------------------------

  /** `-=` is subtraction exactly when the difference fits in the bytes of the subtrahend. */
  lemma SubtractExact(a: nat, b: nat)
    ensures SubtractResult(a, b) == a - b <==> b == 0 || (b <= a && a - b < Pow256(Bytes(b)))
  {
    if b > 0 && b <= a {
      BytesBound(b);
      var n, p := Bytes(b), Pow256(Bytes(b));
      var sum := a + (p - b);
      if a - b < p {
        assert Pow256(n + 1) == 256 * p;
        BytesUnique(sum, n + 1);
        DivModUnique(sum, p, 1, a - b);
      } else {
        BytesBound(sum);
        RemainderMisses(sum, p, Pow256(Bytes(sum) - 1));
      }
    }
  }

  lemma RemainderMisses(sum: nat, p: nat, t: nat)
    requires sum >= 2 * p > 0 && t > 0
    ensures sum % t != sum - p
  {
    if sum % t == sum - p {
      var q := sum / t;
      assert sum == t * q + sum % t;
      if q > 0 { MulGap(t, q, 0); }
    }
  }

  /** Clearing the top byte of the complement sum gives `SubtractResult`. */
  lemma ComplementSum(a: nat, b: nat, sum: seq<byte>)
    requires b > 0 && Value(sum) == a + (Pow256(Bytes(b)) - 1 - b) + 1
    requires sum != [] ==> sum[|sum| - 1] != 0
    ensures sum != [] && Value(sum[..|sum| - 1]) == SubtractResult(a, b)
  {
    BytesBound(b);
    BytesOfValue(sum);
    DropTopByte(sum);
  }

  /** `>>=` is division by a power of two exactly for shifts below 8. */
  lemma ShiftRightExact(s: seq<byte>, val: nat)
    requires s != [] ==> s[|s| - 1] != 0
    requires val / 8 <= |s|
    ensures Value(s) >= 0
    ensures ShiftRightResult(s, val / 8, val % 8) == Shr(Value(s), val) <==> val < 8
  {
    ValueBound(s);
    if val < 8 {
      assert s[0..] == s && s[|s|..] == [];
      WeightOne(|s|);
    } else {
      ShiftRightStale(s, val / 8, val % 8);
      ShrShrinks(Value(s), val, |s|);
    }
  }

  lemma ShiftRightStale(s: seq<byte>, byt: nat, bit: nat)
    requires s != [] && s[|s| - 1] != 0 && 0 < byt <= |s|
    ensures ShiftRightResult(s, byt, bit) >= Pow256(|s| - 1)
  {
    var m := |s| - byt;
    var top := s[m..];
    ValueTop(top);
    WeightMonotone(Pow256(byt - 1), Value(top), m);
    WeightOne(byt - 1);
    WeightTwice(1, byt - 1, m);
    WeightOne(|s| - 1);
    ValueBound(s[byt..]);
    ShrNonNegative(Value(s[byt..]), bit);
  }

  lemma ShrShrinks(v: nat, val: nat, n: nat)
    requires val >= 8 && n > 0 && v < Pow256(n)
    ensures Shr(v, val) < Pow256(n - 1)
  {
    ShrIsQuotient(v, val);
    Pow2Monotone(8, val);
    Pow2Words();
    QuotientBelow(v, Pow2(val), Pow256(n - 1));
  }

  lemma QuotientBelow(v: nat, p: nat, bound: nat)
    requires p >= 256 && v < 256 * bound
    ensures v / p < bound
  {
    var q := v / p;
    assert v == p * q + v % p;
    MulMonotone(q, 256, p);
  }

  /** What the loop of `division` keeps; `k` is the current shift, -1 after the last round. */
  ghost predicate DivisionInvariant(n: nat, d: nat, shift: nat, k: int, v2: int, res: int, q: int, rem: int) {
    && -1 <= k <= shift && q >= 0 && rem >= 0
    && (k >= 0 ==> v2 == Shl(d, k) && res == Shl(1, k))
    && (k == -1 ==> res == 0)
    && (d > 0 ==> n == d * q + rem && (if k >= 0 then rem < 2 * Shl(d, k) else rem < d))
    && (d == 0 ==> rem == n && q == Shl(1, shift + 1) - Shl(1, k + 1))
    && (n == 0 ==> q == 0)
  }

  /** Quotient and remainder; without a divisor the remainder is the dividend and the quotient is all ones. */
  ghost predicate Divided(n: nat, d: nat, q: int, rem: int) {
    && (d > 0 ==> q == n / d && rem == n % d)
    && (d == 0 ==> rem == n && q == if n == 0 then 0 else Shl(1, BitLength(n) + 1) - 1)
  }

  lemma DivisionStart(n: nat, d: nat, shift: nat)
    requires BitLength(n) == BitLength(d) + shift
    ensures DivisionInvariant(n, d, shift, shift, Shl(d, shift), Shl(1, shift), 0, n)
  {
    if d > 0 {
      BitLengthBounds(n);
      BitLengthBounds(d);
      var b := BitLength(d) - 1;
      Pow2Add(b, shift + 1);
      ShlIsProduct(d, shift + 1);
      MulMonotone(Pow2(shift + 1), Pow2(b), d);
    }
  }

  /** Halving keeps the invariant, after a round that subtracted exactly when it could. */
  lemma DivisionStep(n: nat, d: nat, shift: nat, k: nat, v2: nat, res: nat, q: nat, rem: nat)
    requires rem > 0 && DivisionInvariant(n, d, shift, k, v2, res, q, rem)
    ensures rem >= v2 ==>
      && SubtractResult(rem, v2) == rem - v2
      && DivisionInvariant(n, d, shift, k - 1, Shr(v2, 1), Shr(res, 1), q + res, rem - v2)
    ensures rem < v2 ==> DivisionInvariant(n, d, shift, k - 1, Shr(v2, 1), Shr(res, 1), q, rem)
  {
    BytesBound(v2);
    SubtractExact(rem, v2);
    ShlIsProduct(d, k);
    ShlIsProduct(1, k);
    MulAdd(d, q, res);
    if d == 0 { ShlNonNegative(1, k); }
    assert Shr(v2, 1) == v2 / 2 && Shr(res, 1) == res / 2;
  }

  lemma {:induction false} PowerAdd(a: nat, m: nat, n: nat)
    ensures Power(a, m + n) == Power(a, m) * Power(a, n)
  {
    if m > 0 {
      PowerAdd(a, m - 1, n);
      assert a * (Power(a, m - 1) * Power(a, n)) == (a * Power(a, m - 1)) * Power(a, n);
    }
  }

  lemma {:induction false} PowerSquare(a: nat, n: nat)
    ensures Power(a * a, n) == Power(a, 2 * n)
  {
    if n > 0 {
      PowerSquare(a, n - 1);
      assert Power(a, 2 * n) == a * (a * Power(a, 2 * n - 2)) == (a * a) * Power(a, 2 * n - 2);
    }
  }

  // --- the class ------------------------------------------------------------------------------------------

  class MWord {
    var address: seq<byte>
    var length: nat

    ghost predicate Sized()
      reads this
    {
      length <= |address|
    }

    ghost predicate Valid()
      reads this
    {
      && length <= |address|
      && (length > 0 ==> address[length - 1] != 0)
      && (forall i :: length <= i < |address| ==> address[i] == 0)
    }

    ghost function Nat(): nat
      reads this
      requires Sized()
    {
      ValueBound(address[..length]);
      Value(address[..length])
    }

    constructor Zero()
      ensures Valid() && Nat() == 0
    {
      address, length := [], 0;
    }

    constructor FromWord(value: nat)
      requires value < TWO64
      ensures Valid() && Nat() == value
    {
      address, length := [], 0;
      new;
      var x: nat, size: nat := value, 0;
      while x > 0
        invariant Bytes(value) == size + Bytes(x)
      {
        size := size + 1;
        x := x / 256;
      }
      Resize(size);
      x := value;
      var i: nat := 0;
      while x > 0
        invariant |address| == size == i + Bytes(x)
        invariant Value(address[..i]) + Weight(x, i) == value
        invariant x == 0 && i > 0 ==> address[i - 1] != 0
      {
        ghost var before := address[..i];
        address := address[i := x % 256];
        assert address[..i + 1][..i] == before;
        WeightSplit(x, i);
        i := i + 1;
        x := x / 256;
      }
      WeightOne(i);
      length := |address|;
    }

    constructor Copy(other: MWord)
      requires other.Sized()
      ensures address == other.address && length == other.length
    {
      address, length := other.address, other.length;
    }

    /** Memory::string::resize: bytes that appear are whatever the allocator left there. */
    method Resize(size: nat)
      modifies this`address
      ensures |address| == size
      ensures forall i :: 0 <= i < Min(size, |old(address)|) ==> address[i] == old(address)[i]
    {
      if size <= |address| {
        address := address[..size];
      } else {
        var fresh': seq<byte> :| |fresh'| == size - |address| by { var z := Zeros(size - |address|); }
        address := address + fresh';
      }
    }

    method Assign(other: MWord)
      requires other.Sized()
      modifies this
      ensures address == old(other.address) && length == old(other.length)
    {
      address, length := other.address, other.length;
    }

    /** Drops leading zero bytes from the significant length. */
    method Clear()
      modifies this`length
      ensures Valid() && Nat() == Value(address)
    {
      length := |address|;
      while length > 0 && address[length - 1] == 0
        invariant length <= |address|
        invariant forall i :: length <= i < |address| ==> address[i] == 0
      {
        length := length - 1;
      }
      ValueTrim(address, length);
    }

    /** `val` may be this object. */
    method AddAssign(val: MWord)
      requires Sized() && val.Sized()
      modifies this
      ensures Valid()
      ensures Nat() == old(Nat()) + old(val.Nat())
    {
      ghost var a, b := address[..length], val.address[..val.length];
      var size := Max(length, val.length);
      address := address[..length] + Zeros(|address| - length);
      Resize(size + 1);
      var carry := AddLoop(val, size, a, b);
      ValueStore(address, size, carry);
      address := address[size := carry];
      assert a[..|a|] == a && b[..|b|] == b && address[..size + 1] == address;
      Clear();
    }

    /** The column loop of `+=`. */
    method AddLoop(val: MWord, size: nat, ghost a: seq<byte>, ghost b: seq<byte>) returns (carry: byte)
      requires |address| == size + 1 && length == |a| <= size && val.length == |b| <= size && |b| <= |val.address|
      requires address[..length] == a && val.address[..val.length] == b
      modifies this`address
      ensures |address| == size + 1 && AddInvariant(address, a, b, size, carry)
    {
      carry := 0;
      var i := 0;
      WeightOne(0);
      while i < size
        invariant 0 <= i <= size && |address| == size + 1 && |b| <= |val.address|
        invariant forall k :: i <= k < |a| ==> address[k] == a[k]
        invariant forall k :: i <= k < |b| ==> val.address[k] == b[k]
        invariant AddInvariant(address, a, b, i, carry)
      {
        var x := if i < length then address[i] else 0;
        var y := if i < val.length then val.address[i] else 0;
        var sum: nat := carry as int + x as int + y as int;
        var low: byte, high: byte := sum % 256, sum / 256;
        AddStep(address, a, b, i, x, y, carry, sum, low, high);
        address, carry := address[i := low], high;
        i := i + 1;
      }
    }

    /** `val` may be this object. */
    method SubAssign(val: MWord)
      requires Valid() && val.Valid()
      modifies this
      ensures Valid()
      ensures Nat() == SubtractResult(old(Nat()), old(val.Nat()))
    {
      ghost var a, b := address[..length], val.address[..val.length];
      BytesOfValue(b);
      if val.length != 0 {
        var adder := new MWord.Copy(val);
        adder.Complement();
        var one := new MWord.FromWord(1);
        adder.AddAssign(one);
        AddAssign(adder);
        ghost var sum := address[..length];
        ComplementSum(Value(a), Value(b), sum);
        address := address[length - 1 := 0];
        assert address[..length - 1] == sum[..length - 1];
        ValueTrim(address, length - 1);
        Clear();
      }
    }

    /** The complement loop of `-=`: every significant byte is inverted. */
    method Complement()
      requires Sized()
      modifies this`address
      ensures Sized() && Nat() == Pow256(length) - 1 - old(Nat())
    {
      var i := 0;
      assert Pow256(0) == 1;
      while i < length
        invariant 0 <= i <= length <= |address| == |old(address)|
        invariant forall k :: i <= k < length ==> address[k] == old(address)[k]
        invariant Value(address[..i]) == Pow256(i) - 1 - Value(old(address)[..i])
      {
        ghost var before := address[..i];
        address := address[i := 255 - address[i]];
        assert address[..i + 1][..i] == before;
        assert old(address)[..i + 1][..i] == old(address)[..i];
        ghost var d: int := old(address)[i];
        WeightAdd(255 - d, d + 1, i);
        WeightAdd(d, 1, i);
        WeightUp(1, i);
        WeightOne(i);
        WeightOne(i + 1);
        i := i + 1;
      }
    }

    /** `val2` may be this object. */
    method MulAssign(val2: MWord)
      requires Valid() && val2.Valid()
      modifies this
      ensures Valid()
      ensures Nat() == old(Nat()) * old(val2.Nat())
    {
      var addr1, addr2 := address, val2.address;
      var l1, l2 := length, val2.length;
      ghost var a, b := addr1[..l1], addr2[..l2];
      var addr3: seq<byte> := Zeros(l1 + l2);
      ValueZeros(addr3);
      var i := 0;
      while i < l1
        invariant 0 <= i <= l1 && |addr3| == l1 + l2
        invariant forall k :: i + l2 <= k < |addr3| ==> addr3[k] == 0
        invariant Value(addr3) == Rows(a, b, i)
      {
        addr3 := MultiplyRow(addr3, addr1[i], addr2, l2, i);
        i := i + 1;
      }
      SchoolbookProduct(a, b);
      address := addr3;
      Clear();
    }

    method ShiftLeftAssign(val: nat)
      requires Valid()
      modifies this
      ensures Valid() && |address| == old(length) + val / 8 + 1
      ensures Nat() == Shl(old(Nat()), val)
    {
      var byt, bit := val / 8, val % 8;
      ghost var o := address[..length];
      Resize(length + byt + 1);
      address := address[..length] + Zeros(byt + 1);
      assert address[..length] == o;
      address := ShiftLeftLoop(address, length, byt, bit, val);
      Clear();
    }

    /**
      `ok` is false when `length - byt` wraps around: the loop then runs past the buffer, whose checked index
      throws.  The vacated top bytes of a shift by 8 or more are left as they were.
    */
    method ShiftRightAssign(val: nat) returns (ok: bool)
      requires Valid()
      modifies this
      ensures ok <==> val / 8 <= old(length)
      ensures ok ==> Valid() && Nat() == ShiftRightResult(old(address[..length]), val / 8, val % 8)
    {
      var byt, bit := val / 8, val % 8;
      if byt > length {
        return false;
      }
      ghost var o := address[..length];
      address := ShiftRightLoop(address, length, byt, bit);
      Clear();
      return true;
    }

    method Less(val: MWord) returns (r: bool)
      requires Valid() && val.Valid()
      ensures r <==> Nat() < val.Nat()
    {
      if length == val.length {
        var i := length;
        while i > 0
          invariant 0 <= i <= length
          invariant forall k :: i <= k < length ==> address[k] == val.address[k]
        {
          i := i - 1;
          if address[i] != val.address[i] {
            CompareAt(address[..length], val.address[..length], i);
            return address[i] < val.address[i];
          }
        }
        assert address[..length] == val.address[..length];
        return false;
      }
      CompareLengths(address[..length], val.address[..val.length]);
      return length < val.length;
    }

    method Greater(val: MWord) returns (r: bool)
      requires Valid() && val.Valid()
      ensures r <==> Nat() > val.Nat()
    {
      if length == val.length {
        var i := length;
        while i > 0
          invariant 0 <= i <= length
          invariant forall k :: i <= k < length ==> address[k] == val.address[k]
        {
          i := i - 1;
          if address[i] != val.address[i] {
            CompareAt(address[..length], val.address[..length], i);
            return address[i] > val.address[i];
          }
        }
        assert address[..length] == val.address[..length];
        return false;
      }
      CompareLengths(address[..length], val.address[..val.length]);
      return length > val.length;
    }

    method GreaterEqual(val: MWord) returns (r: bool)
      requires Valid() && val.Valid()
      ensures r <==> Nat() >= val.Nat()
    {
      if length == val.length {
        var i := length;
        while i > 0
          invariant 0 <= i <= length
          invariant forall k :: i <= k < length ==> address[k] == val.address[k]
        {
          i := i - 1;
          if address[i] != val.address[i] {
            CompareAt(address[..length], val.address[..length], i);
            return address[i] > val.address[i];
          }
        }
        assert address[..length] == val.address[..length];
        return true;
      }
      CompareLengths(address[..length], val.address[..val.length]);
      return length > val.length;
    }

    /** `operator bool`: some byte is significant. */
    method NonZero() returns (r: bool)
      requires Valid()
      ensures r <==> Nat() != 0
    {
      if length > 0 { ValueTop(address[..length]); }
      return length != 0;
    }

    /** `operator QWORD` keeps the low 64 bits. */
    method ToWord() returns (ret: nat)
      requires Valid()
      ensures ret == Nat() % TWO64
    {
      ret := 0;
      var i := length;
      assert address[..length][length..] == [];
      while i > 0
        invariant 0 <= i <= length
        invariant ret == Value(address[..length][i..]) % TWO64
      {
        i := i - 1;
        ghost var s := address[..length];
        ValueHead(s[i..]);
        assert s[i..][1..] == s[i + 1..];
        ValueBound(s[i + 1..]);
        AppendByte(Value(s[i + 1..]), address[i]);
        ret := Or(ret * 256 % TWO64, address[i]);
      }
      assert address[..length][0..] == address[..length];
    }

    method Width() returns (bits: int)
      requires Valid()
      ensures bits == BitLength(Nat())
    {
      if length > 0 {
        var zeros := LeadingZeros(address[length - 1]);
        WidthOfTop(address[..length]);
        return 8 * length - (zeros - 56);
      }
      return 0;
    }

    /**
      `val1` may be `val3` or `val4`, as `/=` and `%=` call it; the divisor is copied on entry.
      Division by zero ends with the dividend as remainder and all ones as quotient.
    */
    static method Division(val1: MWord, val2: MWord, val3: MWord, val4: MWord)
      requires val1.Valid() && val2.Valid() && val3 != val4
      modifies val3, val4
      ensures val3.Valid() && val4.Valid()
      ensures Divided(old(val1.Nat()), old(val2.Nat()), val3.Nat(), val4.Nat())
    {
      ghost var n, d := val1.Nat(), val2.Nat();
      var divisor := new MWord.Copy(val2);
      val4.Assign(val1);
      var zero := new MWord.FromWord(0);
      val3.Assign(zero);
      var res := new MWord.FromWord(1);
      var bitcount1 := val4.Width();
      var bitcount2 := divisor.Width();
      if bitcount1 >= bitcount2 {
        DivisionShifts(divisor, res, val3, val4, n, d, bitcount1 - bitcount2);
      } else {
        DivisionSmall(n, d);
      }
    }

    /** Divisor and quotient bit are aligned with the dividend before the loop. */
    static method DivisionShifts(divisor: MWord, res: MWord, val3: MWord, val4: MWord,
                                 ghost n: nat, ghost d: nat, shift: nat)
      requires divisor.Valid() && res.Valid() && val3.Valid() && val4.Valid()
      requires divisor !in {res, val3, val4} && res !in {val3, val4} && val3 != val4
      requires divisor.Nat() == d && res.Nat() == 1 && val3.Nat() == 0 && val4.Nat() == n
      requires BitLength(n) == BitLength(d) + shift
      modifies divisor, res, val3, val4
      ensures val3.Valid() && val4.Valid()
      ensures Divided(n, d, val3.Nat(), val4.Nat())
    {
      divisor.ShiftLeftAssign(shift);
      res.ShiftLeftAssign(shift);
      DivisionStart(n, d, shift);
      ghost var k := DivisionLoop(divisor, res, val3, val4, n, d, shift);
      DivisionEnd(n, d, shift, k, divisor.Nat(), res.Nat(), val3.Nat(), val4.Nat());
    }

    static method DivisionLoop(divisor: MWord, res: MWord, val3: MWord, val4: MWord,
                               ghost n: nat, ghost d: nat, ghost shift: nat) returns (ghost k: int)
      requires divisor.Valid() && res.Valid() && val3.Valid() && val4.Valid()
      requires divisor !in {res, val3, val4} && res !in {val3, val4} && val3 != val4
      requires DivisionInvariant(n, d, shift, shift, divisor.Nat(), res.Nat(), val3.Nat(), val4.Nat())
      modifies divisor, res, val3, val4
      ensures divisor.Valid() && res.Valid() && val3.Valid() && val4.Valid()
      ensures DivisionInvariant(n, d, shift, k, divisor.Nat(), res.Nat(), val3.Nat(), val4.Nat())
      ensures res.Nat() == 0 || val4.Nat() == 0
    {
      k := shift;
      var more := Both(res, val4);
      while more
        invariant divisor.Valid() && res.Valid() && val3.Valid() && val4.Valid()
        invariant DivisionInvariant(n, d, shift, k, divisor.Nat(), res.Nat(), val3.Nat(), val4.Nat())
        invariant more <==> res.Nat() != 0 && val4.Nat() != 0
        decreases k
      {
        DivisionRound(divisor, res, val3, val4, n, d, shift, k);
        k := k - 1;
        more := Both(res, val4);
      }
    }

    /** One round: subtract the shifted divisor if it fits, then halve it and its quotient bit. */
    static method DivisionRound(divisor: MWord, res: MWord, val3: MWord, val4: MWord,
                                ghost n: nat, ghost d: nat, ghost shift: nat, ghost k: nat)
      requires divisor.Valid() && res.Valid() && val3.Valid() && val4.Valid()
      requires divisor !in {res, val3, val4} && res !in {val3, val4} && val3 != val4
      requires val4.Nat() > 0
      requires DivisionInvariant(n, d, shift, k, divisor.Nat(), res.Nat(), val3.Nat(), val4.Nat())
      modifies divisor, res, val3, val4
      ensures divisor.Valid() && res.Valid() && val3.Valid() && val4.Valid()
      ensures DivisionInvariant(n, d, shift, k - 1, divisor.Nat(), res.Nat(), val3.Nat(), val4.Nat())
    {
      DivisionStep(n, d, shift, k, divisor.Nat(), res.Nat(), val3.Nat(), val4.Nat());
      var subtract := val4.GreaterEqual(divisor);
      if subtract {
        val4.SubAssign(divisor);
        val3.AddAssign(res);
      }
      divisor.Halve();
      res.Halve();
    }

    /** `x >>= 1`, the only right shift the division makes. */
    method Halve()
      requires Valid()
      modifies this
      ensures Valid() && Nat() == Shr(old(Nat()), 1)
    {
      ShiftRightExact(address[..length], 1);
      var ok := ShiftRightAssign(1);
    }

    static method Both(a: MWord, b: MWord) returns (r: bool)
      requires a.Valid() && b.Valid()
      ensures r <==> a.Nat() != 0 && b.Nat() != 0
    {
      var x := a.NonZero();
      var y := b.NonZero();
      return x && y;
    }
  }

  /** NumberSize of BinaryStorage.c counts the bits of a word. */
  method NumberSize(word: nat) returns (v: nat)
    ensures v == BitLength(word)
  {
    v := 0;
    var x := word;
    while x > 0
      invariant BitLength(word) == v + BitLength(x)
    {
      v := v + 1;
      x := x / 2;
    }
  }

  method LeadingZeros(x: nat) returns (zeros: int)
    ensures zeros == 64 - BitLength(x)
  {
    var size: int := NumberSize(x);
    return 64 - size;
  }

  /** POWER squares `a` once per bit of `n`, once more than it needs. */
  method RaiseTo(a0: MWord, n0: nat) returns (r: MWord)
    requires a0.Valid()
    ensures fresh(r) && r.Valid() && r.Nat() == Power(a0.Nat(), n0)
  {
    var a := new MWord.Copy(a0);
    var n := n0;
    r := new MWord.FromWord(1);
    while n > 0
      invariant fresh(a) && fresh(r) && a != r && a.Valid() && r.Valid()
      invariant r.Nat() * Power(a.Nat(), n) == Power(a0.Nat(), n0)
    {
      PowerStep(r.Nat(), a.Nat(), n);
      if n % 2 == 1 {
        r.MulAssign(a);
      }
      a.MulAssign(a);
      n := n / 2;
    }
  }

  lemma PowerStep(r: nat, a: nat, n: nat)
    requires n > 0
    ensures (if n % 2 == 1 then r * a else r) * Power(a * a, n / 2) == r * Power(a, n)
  {
    PowerSquare(a, n / 2);
    if n % 2 == 1 {
      assert (r * a) * Power(a, n - 1) == r * (a * Power(a, n - 1));
    }
  }

  lemma CompareAt(s: seq<byte>, t: seq<byte>, i: nat)
    requires |s| == |t| && i < |s| && s[i] != t[i] && forall k :: i < k < |s| ==> s[k] == t[k]
    ensures Value(s) != Value(t) && (Value(s) < Value(t) <==> s[i] < t[i])
  {
    assert s[i + 1..] == t[i + 1..];
    if s[i] < t[i] { ValueOrder(s, t, i); } else { ValueOrder(t, s, i); }
  }

  lemma CompareLengths(s: seq<byte>, t: seq<byte>)
    requires |s| != |t| && (s != [] ==> s[|s| - 1] != 0) && (t != [] ==> t[|t| - 1] != 0)
    ensures Value(s) != Value(t) && (Value(s) < Value(t) <==> |s| < |t|)
  {
    if |s| < |t| { ValueLonger(s, t); } else { ValueLonger(t, s); }
  }

  lemma AppendByte(v: nat, d: byte)
    ensures Or((v % TWO64) * 256 % TWO64, d) == (d + 256 * v) % TWO64
  {
    var p := 0x100_0000_0000_0000;
    var b, c := v / p, v % p;
    DivModUnique(v, TWO64, b / 256, p * (b % 256) + c);
    DivModUnique((v % TWO64) * 256, TWO64, b % 256, 256 * c);
    DivModUnique(d + 256 * v, TWO64, b, d + 256 * c);
    LowClearByte(c);
    OrDisjoint(256 * c, d, 8);
  }

  lemma LowClearByte(c: nat)
    ensures LowClear(256 * c, 8) && Pow2(8) == 256
  {
    Pow2Words();
    LowClearMultiple(256 * c, 8);
  }

  lemma Sandwich(p: nat, a: nat, d: nat, b: nat, low: nat, v: nat)
    requires a <= d < b && low < p && v == low + d * p
    ensures a * p <= v < b * p
  {
    MulMonotone(p, a, d);
    MulMonotone(p, d + 1, b);
  }

  lemma WidthOfTop(s: seq<byte>)
    requires s != [] && s[|s| - 1] != 0
    ensures Value(s) >= 0 && BitLength(Value(s)) == 8 * (|s| - 1) + BitLength(s[|s| - 1])
  {
    var n, d: nat := |s| - 1, s[|s| - 1];
    ValueBound(s);
    ValueBound(s[..n]);
    BitLengthBounds(d);
    var k, p := BitLength(d), Pow256(n);
    WeightIsProduct(d, n);
    Sandwich(p, Pow2(k - 1), d, Pow2(k), Value(s[..n]), Value(s));
    Pow256IsPow2(n);
    Pow2Add(k - 1, 8 * n);
    Pow2Add(k, 8 * n);
    BitLengthUnique(Value(s), 8 * n + k);
  }

  lemma DivisionEnd(n: nat, d: nat, shift: nat, k: int, v2: int, res: int, q: int, rem: int)
    requires DivisionInvariant(n, d, shift, k, v2, res, q, rem)
    requires res == 0 || rem == 0
    requires BitLength(n) == BitLength(d) + shift
    ensures Divided(n, d, q, rem)
  {
    if k >= 0 { ShlNonNegative(1, k); }
    if d > 0 { DivModUnique(n, d, q, rem); }
  }

  lemma DivisionSmall(n: nat, d: nat)
    requires BitLength(n) < BitLength(d)
    ensures Divided(n, d, 0, n)
  {
    BitLengthBounds(n);
    BitLengthBounds(d);
    Pow2Monotone(BitLength(n), BitLength(d) - 1);
    DivModUnique(n, d, 0, n);
  }

  /** The loop of `<<=`, from the top byte down, and the clearing of the vacated low bytes. */
  method ShiftLeftLoop(buffer: seq<byte>, length: nat, byt: nat, bit: nat, ghost val: nat)
    returns (address: seq<byte>)
    requires bit < 8 && val == bit + 8 * byt && |buffer| == length + byt + 1
    requires forall k :: length <= k < |buffer| ==> buffer[k] == 0
    ensures |address| == |buffer| && Value(address) == Shl(Value(buffer[..length]), val)
  {
    address := buffer;
    ghost var o := buffer[..length];
    ShiftLeftStart(address, length + byt, o, bit);
    var i := length;
    while i > 0
      invariant 0 <= i <= length && |address| == |buffer|
      invariant forall k :: 0 <= k < i ==> address[k] == o[k]
      invariant ShiftedLeft(address, i + byt, o, i, bit)
    {
      var x := Shl(address[i - 1], bit);
      ShiftLeftStep(address, i + byt, o, i, bit, x);
      i := i - 1;
      address := address[i + byt := x % 256];
      x := x / 256;
      address := address[i + byt + 1 := Or(address[i + byt + 1], x)];
    }
    ShiftLeftEnd(address, byt, o, bit, val);
    address := Zeros(byt) + address[byt..];
  }

  /** The loop of `>>=`, from the low byte up. */
  method ShiftRightLoop(buffer: seq<byte>, length: nat, byt: nat, bit: nat) returns (address: seq<byte>)
    requires bit < 8 && byt <= length <= |buffer|
    requires forall k :: length <= k < |buffer| ==> buffer[k] == 0
    ensures |address| == |buffer| && Value(address) == ShiftRightResult(buffer[..length], byt, bit)
  {
    address := buffer;
    ghost var src := buffer[byt..length];
    var i: nat := 0;
    ShiftRightStart(address, src, bit);
    while i < length - byt
      invariant i <= |src| && |address| == |buffer|
      invariant forall k :: i <= k < |buffer| ==> address[k] == buffer[k]
      invariant i > 0 ==> address[i - 1] < Pow2(8 - bit)
      invariant ShiftedRight(address, src, i, bit)
    {
      var d := address[i + byt];
      ShiftRightByte(d, if i > 0 then address[i - 1] else 0, bit);
      ghost var s := address;
      if i > 0 {
        address := address[i - 1 := Or(address[i - 1], Shl(d, 8 - bit) % 256)];
      }
      address := address[i := Shr(d, bit)];
      ShiftRightStep(s, src, i, bit, address);
      i := i + 1;
    }
    assert src[..i] == src && buffer[..length][byt..] == src;
    assert buffer[..length][i..] == buffer[i..length];
    assert address[i..] == buffer[i..];
    ShiftRightEnd(address, buffer, length, i);
  }

  /** The inner loop of `*=`: every index is inside the product buffer, and the carry dies at column `l2`. */
  method MultiplyRow(cells: seq<byte>, x: byte, addr2: seq<byte>, l2: nat, i: nat) returns (addr3: seq<byte>)
    requires l2 <= |addr2| && (forall k :: l2 <= k < |addr2| ==> addr2[k] == 0)
    requires i + l2 < |cells| && (forall k :: i + l2 <= k < |cells| ==> cells[k] == 0)
    ensures |addr3| == |cells| && (forall k :: i + l2 < k < |cells| ==> addr3[k] == 0)
    ensures Value(addr3) == Value(cells) + Row(x, addr2[..l2], i, l2)
  {
    ghost var b, total := addr2[..l2], Value(cells);
    var carry: nat, j := 0, 0;
    addr3 := cells;
    WeightOne(i);
    while j < l2 || carry > 0
      invariant 0 <= j <= l2 + 1 && |addr3| == |cells|
      invariant carry <= 255 && (j == l2 + 1 ==> carry == 0)
      invariant forall k :: i + l2 < k < |addr3| ==> addr3[k] == 0
      invariant j <= l2 ==> addr3[i + l2] == 0
      invariant Value(addr3) + Weight(carry, i + j) == total + Row(x, b, i, j)
      decreases l2 + 1 - j
    {
      var d := if j < |addr2| then addr2[j] else 0;
      assert d == Digit(b, j);
      var sum: nat := carry + x as int * d + addr3[i + j] as int;
      MultiplyStep(addr3, x, b, i, j, d, carry, sum, total);
      addr3 := addr3[i + j := sum % 256];
      carry := sum / 256;
      j := j + 1;
    }
    WeightOne(i + j);
    RowEnd(x, b, i, j);
  }
}
