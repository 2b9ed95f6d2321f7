/**
  Compression/src/NibbleReader.cpp: the bit cursor under the decoders.  Bytes are read least significant bit
  first; a read past the end stops the program, which is the result `ok == false` here.
*/
module BitStreams {
  import opened Words

  predicate BitAt(stream: seq<byte>, p: nat)
    requires p < 8 * |stream|
  {
    Bit(stream[p / 8], p % 8)
  }

  /** Everything from bit `p` on. */
  function Rest(stream: seq<byte>, p: nat): (bits: seq<bool>)
    requires p <= 8 * |stream|
    ensures |bits| == 8 * |stream| - p
  {
    seq(8 * |stream| - p, i requires 0 <= i < 8 * |stream| - p => BitAt(stream, p + i))
  }

  lemma RestDrop(stream: seq<byte>, p: nat, n: nat)
    requires p + n <= 8 * |stream|
    ensures Rest(stream, p)[n..] == Rest(stream, p + n)
  {
  }

  function BitValue(b: bool): nat { if b then 1 else 0 }

  /** A bit `k` places up. */
  function Place(b: bool, k: nat): nat {
    if k == 0 then BitValue(b) else 2 * Place(b, k - 1)
  }

  lemma {:induction false} PlaceIsShl(b: bool, k: nat)
    ensures Place(b, k) == Shl(BitValue(b), k)
  {
    if k > 0 { PlaceIsShl(b, k - 1); }
  }

  /** Bits as a number, the first bit least significant. */
  function Number(bits: seq<bool>): nat {
    if bits == [] then 0
    else Number(bits[..|bits| - 1]) + Place(bits[|bits| - 1], |bits| - 1)
  }

  lemma {:induction false} PlaceBound(b: bool, k: nat)
    ensures Place(b, k) == if b then Pow2(k) else 0
  {
    if k > 0 { PlaceBound(b, k - 1); }
  }

  lemma {:induction false} NumberBound(bits: seq<bool>)
    ensures Number(bits) < Pow2(|bits|)
  {
    if bits != [] {
      NumberBound(bits[..|bits| - 1]);
      PlaceBound(bits[|bits| - 1], |bits| - 1);
    }
  }

  /** A word of a given width is determined by its bits. */
  lemma {:induction false} NumberInjective(a: seq<bool>, b: seq<bool>)
    requires |a| == |b| && Number(a) == Number(b)
    ensures a == b
  {
    if a != [] {
      var n := |a| - 1;
      NumberBound(a[..n]);
      NumberBound(b[..n]);
      PlaceBound(a[n], n);
      PlaceBound(b[n], n);
      NumberInjective(a[..n], b[..n]);
      assert a == a[..n] + [a[n]] && b == b[..n] + [b[n]];
    }
  }

  lemma NumberSnoc(bits: seq<bool>, k: nat)
    requires k < |bits|
    ensures Number(bits[..k + 1]) == Number(bits[..k]) + Shl(BitValue(bits[k]), k)
  {
    PlaceIsShl(bits[k], k);
    assert bits[..k + 1][..k] == bits[..k];
  }

  lemma {:induction false} ShlClears(x: nat, k: nat)
    ensures Shl(x, k) >= 0 && LowClear(Shl(x, k), k)
  {
    ShlNonNegative(x, k);
    if k > 0 {
      ShlClears(x, k - 1);
      assert Shl(x, k) / 2 == Shl(x, k - 1);
    }
  }

  lemma SeenFits(seen: nat, k: nat)
    requires k < 64 && seen < Pow2(k)
    ensures 0 <= Shl(seen, 63 - k) < Pow2(63)
  {
    ShlNonNegative(seen, 63 - k);
    ShlMonotone(seen, Pow2(k), 63 - k);
    ShlOne(k);
    ShlAdd(1, k, 63 - k);
    ShlOne(63);
  }

  lemma SeenGrows(seen: nat, top: nat, k: nat)
    requires k < 64
    ensures Shl(seen + Shl(top, k), 63 - k) == Shl(seen, 63 - k) + Shl(top, 63)
  {
    ShlAdd(top, k, 63 - k);
    ShlSum(seen, Shl(top, k), 63 - k);
  }

  lemma OrTop(low: nat, top: nat)
    requires low < Pow2(63)
    ensures Shl(top, 63) >= 0 && Or(low, Shl(top, 63)) == low + Shl(top, 63)
  {
    ShlClears(top, 63);
    OrDisjoint(Shl(top, 63), low, 63);
    OrCommutes(low, Shl(top, 63));
  }

  lemma ShlHalf(x: nat, k: nat)
    requires k > 0
    ensures Shl(x, k) / 2 == Shl(x, k - 1)
  {
  }

  /** The bits read so far, at the top of a 64-bit word. */
  ghost function Entered(unread: seq<bool>, k: nat): int
    requires k <= |unread| && k <= 64
  {
    Shl(Number(unread[..k]), 64 - k)
  }

  /** One turn of the loop in `read`: the new bit enters at the top while the older ones move down. */
  lemma TakeBit(seen: nat, low: nat, k: nat, ret: nat)
    requires k < 64 && seen < Pow2(k) && ret == Shl(seen, 64 - k)
    ensures Shl(low, 63) >= 0 && Or(ret / 2, Shl(low, 63)) == Shl(seen + Shl(low, k), 63 - k)
  {
    ShlHalf(seen, 64 - k);
    SeenFits(seen, k);
    OrTop(ret / 2, low);
    SeenGrows(seen, low, k);
  }

  lemma BitEnters(unread: seq<bool>, k: nat, ret: nat, low: nat)
    requires k < |unread| && k < 64 && low == BitValue(unread[k]) && ret == Entered(unread, k)
    ensures Shl(low, 63) >= 0 && Or(ret / 2, Shl(low, 63)) == Entered(unread, k + 1)
  {
    NumberBound(unread[..k]);
    NumberSnoc(unread, k);
    TakeBit(Number(unread[..k]), low, k, ret);
  }

  lemma {:induction false} ShrShl(x: nat, k: nat)
    ensures Shr(Shl(x, k), k) == x
  {
    if k > 0 { ShrShl(x, k - 1); }
  }

  lemma ShrOfByte(x: byte, k: nat)
    ensures Shr(x, k) >= 0 && And(Shr(x, k), 1) == BitValue(Bit(x, k))
    decreases k
  {
    if k == 0 { AndHalves(x, 1); } else { ShrOfByte(x / 2, k - 1); }
  }

  lemma NextBit(stream: seq<byte>, start: nat, k: nat, index: nat, bit: nat)
    requires start + k < 8 * |stream| && index == (start + k) / 8 && bit == (start + k) % 8
    ensures Shr(stream[index], bit) >= 0 && And(Shr(stream[index], bit), 1) == BitValue(Rest(stream, start)[k])
  {
    ShrOfByte(stream[index], bit);
    assert Rest(stream, start)[k] == BitAt(stream, start + k);
  }

  /** What is left of a byte, read upwards from bit `k`. */
  lemma {:induction false} RestOfByte(x: nat, k: nat, bits: seq<bool>)
    requires k <= 8 && |bits| == 8 - k && x < 256
    requires forall i :: 0 <= i < 8 - k ==> bits[i] == Bit(x, k + i)
    ensures Number(bits) == Shr(x, k)
    decreases 8 - k
  {
    if k == 8 {
      ShrIsQuotient(x, 8);
      assert Pow2(8) == 256;
    } else {
      RestOfByte(x, k + 1, bits[1..]);
      NumberCons(bits);
      ShrTop(x, k);
    }
  }

  lemma {:induction false} NumberCons(bits: seq<bool>)
    requires bits != []
    ensures Number(bits) == BitValue(bits[0]) + 2 * Number(bits[1..])
  {
    var n := |bits| - 1;
    if n > 0 {
      NumberCons(bits[..n]);
      assert bits[..n][1..] == bits[1..][..n - 1];
    }
  }

  lemma {:induction false} ShrTop(x: nat, k: nat)
    ensures Shr(x, k) == BitValue(Bit(x, k)) + 2 * Shr(x, k + 1)
    decreases k
  {
    if k > 0 { ShrTop(x / 2, k - 1); }
  }

  class NibbleReader {
    const stream: seq<byte>
    var position: nat

    ghost predicate Valid()
      reads this
    {
      position <= 8 * |stream|
    }

    /** The bits not read yet. */
    ghost function Unread(): seq<bool>
      reads this
      requires Valid()
    {
      Rest(stream, position)
    }

    constructor (stream: seq<byte>)
      ensures Valid() && this.stream == stream && position == 0
    {
      this.stream, position := stream, 0;
    }

    /** At most 64 bits, the first one least significant; nothing moves when they are not there. */
    method Read(bits: nat) returns (ok: bool, value: nat)
      requires Valid()
      modifies this`position
      ensures Valid()
      ensures ok <==> bits <= 64 && bits <= old(|Unread()|)
      ensures ok ==> Unread() == old(Unread())[bits..] && value == Number(old(Unread())[..bits])
      ensures !ok ==> position == old(position)
    {
      if bits > 64 || position + bits > 8 * |stream| {
        return false, 0;
      }
      ghost var seen := Number(Unread()[..bits]);
      RestDrop(stream, position, bits);
      var ret := Gather(bits);
      ShrShl(seen, 64 - bits);
      return true, Shr(ret, 64 - bits);
    }

    /** The loop of `read`. */
    method Gather(bits: nat) returns (ret: nat)
      requires Valid() && bits <= 64 && bits <= |Unread()|
      modifies this`position
      ensures position == old(position) + bits
      ensures ret == Entered(old(Unread()), bits)
    {
      ghost var unread, start, k: nat := Unread(), position, 0;
      ShlIsProduct(0, 64);
      var left := bits;
      ret := 0;
      while left > 0
        invariant k + left == bits && position == start + k
        invariant ret == Entered(unread, k)
      {
        var index: nat, bit: nat := position / 8, position % 8;
        NextBit(stream, start, k, index, bit);
        var low: nat := And(Shr(stream[index], bit), 1);
        BitEnters(unread, k, ret, low);
        var top: nat := Shl(low, 63);
        ret := Or(ret / 2, top);
        position, left, k := position + 1, left - 1, k + 1;
      }
    }

    /** Skips to the next whole byte and returns what was left of this one. */
    method Boundary() returns (value: nat)
      requires Valid()
      modifies this`position
      ensures Valid() && position % 8 == 0 && old(position) <= position < old(position) + 8
      ensures value == Number(old(Unread())[..position - old(position)])
    {
      value := 0;
      var index, bit := position / 8, position % 8;
      if bit != 0 {
        LeftOfByte(stream, position, index, bit);
        value := Shr(stream[index], bit);
        position := (index + 1) * 8;
      }
    }

    method Seek(pos: nat) returns (ok: bool)
      requires Valid()
      modifies this`position
      ensures Valid() && (ok <==> pos <= 8 * |stream|)
      ensures position == if ok then pos else old(position)
    {
      if pos > 8 * |stream| {
        return false;
      }
      position := pos;
      return true;
    }

    /** The sum is a 64-bit word; a length that makes it wrap moves the cursor backwards. */
    method Skip(len: nat) returns (ok: bool)
      requires Valid() && len < TWO64 && 8 * |stream| < TWO64
      modifies this`position
      ensures Valid()
      ensures ok && position == old(position) + len <==> len <= old(|Unread()|)
      ensures ok && len > old(|Unread()|) ==> position == old(position) + len - TWO64
      ensures !ok ==> position == old(position)
    {
      var sum := (position + len) % TWO64;
      if sum > 8 * |stream| {
        return false;
      }
      position := sum;
      return true;
    }
  }

  lemma LeftOfByte(stream: seq<byte>, start: nat, index: nat, bit: nat)
    requires start < 8 * |stream| && index == start / 8 && bit == start % 8
    ensures |Rest(stream, start)| >= 8 - bit && Shr(stream[index], bit) >= 0
    ensures Number(Rest(stream, start)[..8 - bit]) == Shr(stream[index], bit)
  {
    var bits := Rest(stream, start)[..8 - bit];
    ShrOfByte(stream[index], bit);
    forall i | 0 <= i < 8 - bit ensures bits[i] == Bit(stream[index], bit + i) {
      DivModUnique(start + i, 8, index, bit + i);
      assert bits[i] == BitAt(stream, start + i);
    }
    RestOfByte(stream[index], bit, bits);
  }

  /** Eight bits from a whole byte on are that byte. */
  lemma WholeByte(stream: seq<byte>, index: nat)
    requires index < |stream|
    ensures |Rest(stream, 8 * index)| >= 8 && Number(Rest(stream, 8 * index)[..8]) == stream[index]
  {
    DivModUnique(8 * index, 8, index, 0);
    LeftOfByte(stream, 8 * index, index, 0);
  }

  /** The first bits of a number are its lowest. */
  lemma {:induction false} NumberConcat(a: seq<bool>, b: seq<bool>)
    ensures Number(a + b) == Number(a) + Shl(Number(b), |a|)
  {
    if a == [] {
      assert a + b == b;
    } else {
      assert (a + b)[1..] == a[1..] + b;
      NumberCons(a + b);
      NumberCons(a);
      NumberConcat(a[1..], b);
      assert Shl(Number(b), |a|) == 2 * Shl(Number(b), |a| - 1);
    }
  }
}
