/**
  Memory/src/CommonEndian.c: words as bytes.
*/
module ByteOrder {
  import opened Words

  /** SaveAsLEndian */
  function LittleEndian(x: nat, n: nat): (s: seq<byte>)
    ensures |s| == n
  {
    if n == 0 then [] else [x % 256] + LittleEndian(x / 256, n - 1)
  }

  /** SaveAsBEndian */
  function BigEndian(x: nat, n: nat): (s: seq<byte>)
    ensures |s| == n
  {
    if n == 0 then [] else BigEndian(x / 256, n - 1) + [x % 256]
  }

  /** Byte `i` counted from the lowest, in either order. */
  lemma {:induction false} ByteOf(x: nat, n: nat, i: nat)
    requires i < n
    ensures Shr(x, 8 * i) >= 0
    ensures LittleEndian(x, n)[i] == BigEndian(x, n)[n - 1 - i] == Shr(x, 8 * i) % 256
  {
    ShrNonNegative(x, 8 * i);
    if i > 0 {
      ByteOf(x / 256, n - 1, i - 1);
      ShrAdd(x, 8, 8 * (i - 1));
      ShrEight(x);
    }
  }

  lemma ShrEight(x: nat)
    ensures Shr(x, 8) == x / 256
  {
    ShrIsQuotient(x, 8);
    assert Pow2(8) == 256;
  }

  /** Bit `i` of byte `k` counted from the lowest is bit 8k + i of the word. */
  lemma {:induction false} ByteBit(x: nat, n: nat, k: nat, i: nat)
    requires k < n && i < 8
    ensures Bit(LittleEndian(x, n)[k], i) <==> Bit(x, 8 * k + i)
    ensures Bit(BigEndian(x, n)[n - 1 - k], i) <==> Bit(x, 8 * k + i)
  {
    if k > 0 {
      ByteBit(x / 256, n - 1, k - 1, i);
      BitAbove(x, 8, 8 * (k - 1) + i);
      ShrEight(x);
    } else {
      LowByte(x, i, 8);
    }
  }

  lemma {:induction false} BitAbove(x: nat, m: nat, i: nat)
    ensures Shr(x, m) >= 0 && (Bit(Shr(x, m), i) <==> Bit(x, m + i))
  {
    ShrNonNegative(x, m);
    if m > 0 { BitAbove(x / 2, m - 1, i); }
  }

  lemma LowByte(x: nat, i: nat, n: nat)
    requires i < n == 8
    ensures Bit(x % 256, i) <==> Bit(x, i)
  {
    Pow2Words();
    LowPart(x, i, n);
  }

  lemma {:induction false} LowPart(x: nat, i: nat, n: nat)
    requires i < n
    ensures Bit(x % Pow2(n), i) <==> Bit(x, i)
  {
    HalfRemainder(x, n);
    if i > 0 { LowPart(x / 2, i - 1, n - 1); }
  }

  lemma {:induction false} BigEndianSplit(x: nat, m: nat, n: nat)
    ensures Shr(x, 8 * n) >= 0
    ensures BigEndian(x, m + n) == BigEndian(Shr(x, 8 * n), m) + BigEndian(x, n)
  {
    if n > 0 {
      BigEndianSplit(x / 256, m, n - 1);
      ShrAdd(x, 8, 8 * n - 8);
      ShrIsQuotient(x, 8);
      Pow2Words();
      assert BigEndian(x, m + n) == BigEndian(x / 256, m + n - 1) + [x % 256];
    }
  }

  lemma {:induction false} BigEndianInjective(x: nat, y: nat, n: nat)
    requires x < Pow2(8 * n) && y < Pow2(8 * n) && BigEndian(x, n) == BigEndian(y, n)
    ensures x == y
  {
    if n > 0 {
      Pow2Add(8, 8 * n - 8);
      Pow2Words();
      var s, t := BigEndian(x, n), BigEndian(y, n);
      assert x % 256 == s[n - 1] == t[n - 1] == y % 256;
      assert BigEndian(x / 256, n - 1) == s[..n - 1] == t[..n - 1] == BigEndian(y / 256, n - 1);
      BigEndianInjective(x / 256, y / 256, n - 1);
    }
  }
}
