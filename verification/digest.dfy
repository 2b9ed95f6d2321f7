/**
  Cryptography/src/MessageDigest.cpp and CommonMessageDigest.cpp: block buffering and length padding of the
  MD and SHA-1/SHA-2 digests.  The compression function and the output transform are parameters.
*/
module Digests {
  import opened Words
  import opened ByteOrder

  function ZeroBytes(n: nat): (s: seq<byte>)
    ensures |s| == n && forall i :: 0 <= i < n ==> s[i] == 0
  {
    seq(n, _ => 0)
  }

  /** How a digest writes the message length: Appendix32 in either byte order, or Appendix64 (big-endian). */
  datatype Family = Short(big: bool) | Long {
    function LengthSize(): nat {
      if Short? then 8 else 16
    }

    function LengthField(bits: nat): (s: seq<byte>)
      ensures |s| == LengthSize()
    {
      match this
      case Short(big) => if big then BigEndian(bits, 8) else LittleEndian(bits, 8)
      case Long => BigEndian(0, 8) + BigEndian(bits, 8)
    }
  }

  type Compression = (seq<byte>, seq<byte>) -> seq<byte>

  /** The chaining value after all whole blocks of `m`. */
  function Fold(f: Compression, iv: seq<byte>, m: seq<byte>, size: nat): seq<byte>
    requires size > 0
    decreases |m|
  {
    if |m| < size then iv else f(m[|m| - size..], Fold(f, iv, m[..|m| - size], size))
  }

  /** 0x80, the fewest zeros that complete a block together with the length field, and the length field. */
  function Padding(family: Family, n: nat, size: nat): (s: seq<byte>)
    requires size > family.LengthSize()
    ensures (n + |s|) % size == 0
  {
    var fixed := n + 1 + family.LengthSize();
    var zeros := (size - fixed % size) % size;
    PaddingLength(fixed, size);
    [0x80] + ZeroBytes(zeros) + family.LengthField(8 * n % TWO64)
  }

  lemma PaddingLength(fixed: nat, size: nat)
    requires size > 0
    ensures (fixed + (size - fixed % size) % size) % size == 0
  {
    var q, r := fixed / size, fixed % size;
    assert fixed == size * q + r;
    if r == 0 {
      assert (size - r) % size == 0 by { DivModUnique(size, size, 1, 0); }
    } else {
      assert (size - r) % size == size - r by { DivModUnique(size - r, size, 0, size - r); }
      MulAdd(size, q, 1);
      DivModUnique(fixed + (size - r), size, q + 1, 0);
    }
  }

  lemma FoldBlock(f: Compression, iv: seq<byte>, m: seq<byte>, block: seq<byte>, size: nat)
    requires size > 0 && |block| == size
    ensures Fold(f, iv, m + block, size) == f(block, Fold(f, iv, m, size))
  {
    assert (m + block)[|m|..] == block && (m + block)[..|m|] == m;
  }

  /** The chaining value of a padded message: sections 5.1.1, 5.1.2 and 6 of FIPS 180-4. */
  function Padded(f: Compression, iv: seq<byte>, m: seq<byte>, family: Family, size: nat): seq<byte>
    requires size > family.LengthSize()
  {
    Fold(f, iv, m + Padding(family, |m|, size), size)
  }

  /** How many zeros `Padding` has when `p` bytes are left over after `whole` bytes of whole blocks. */
  lemma PaddingZeros(whole: nat, l: nat, size: nat, p: nat)
    requires p < size && l < size && whole % size == 0
    ensures
      (size - (whole + p + 1 + l) % size) % size ==
        if p + 1 + l <= size then size - (p + 1 + l) else size - (p + 1) + (size - l)
  {
    var r := p + 1 + l;
    if r < size {
      AddToWhole(whole, size, 0, r);
      DivModUnique(size - r, size, 0, size - r);
    } else if r == size {
      AddToWhole(whole, size, 1, 0);
      DivModUnique(size, size, 1, 0);
    } else {
      AddToWhole(whole, size, 1, r - size);
      DivModUnique(2 * size - r, size, 0, 2 * size - r);
    }
  }

  lemma AddToWhole(whole: nat, size: nat, k: nat, r: nat)
    requires size > 0 && whole % size == 0 && k <= 1 && r < size
    ensures (whole + k * size + r) % size == r
  {
    var q := whole / size;
    assert whole == size * q;
    MulAdd(size, q, k);
    DivModUnique(whole + k * size + r, size, q + k, r);
  }

  /** The bytes that `finally` appends, cut where its loop cuts them: `p` bytes are buffered. */
  lemma PaddingBlocks(family: Family, whole: nat, size: nat, p: nat, field: seq<byte>)
    requires size > family.LengthSize() && p < size && whole % size == 0
    requires field == family.LengthField(8 * (whole + p) % TWO64)
    ensures
      var l := family.LengthSize();
      Padding(family, whole + p, size) ==
        if size - (p + 1) >= l then [0x80] + ZeroBytes(size - l - (p + 1)) + field
        else [0x80] + ZeroBytes(size - (p + 1)) + (ZeroBytes(size - l) + field)
  {
    var l := family.LengthSize();
    var zeros := (size - (whole + p + 1 + l) % size) % size;
    PaddingZeros(whole, l, size, p);
    assert Padding(family, whole + p, size) == [0x80] + ZeroBytes(zeros) + field;
    if size - (p + 1) < l {
      JoinZeros(size - (p + 1), size - l, zeros, field);
    }
  }

  lemma JoinZeros(m: nat, n: nat, k: nat, field: seq<byte>)
    requires k == m + n
    ensures [0x80] + ZeroBytes(k) + field == [0x80] + ZeroBytes(m) + (ZeroBytes(n) + field)
  {
    assert ZeroBytes(k) == ZeroBytes(m) + ZeroBytes(n);
  }

  lemma Regroup(done: seq<byte>, tail: seq<byte>, x: seq<byte>, z: seq<byte>, f: seq<byte>)
    ensures done + tail + (x + z + f) == done + (tail + x + z + f)
    ensures done + tail + (x + z + f) == done + (tail + x + z) + f
  {
  }

  /** The blocks that the loop of `finally` folds on top of `done`: `head` is the buffered part and 0x80. */
  ghost function FinalBlocks(done: seq<byte>, head: seq<byte>, size: nat, family: Family, bits: nat): seq<byte>
    requires |head| <= size && family.LengthSize() < size
  {
    var l, field := family.LengthSize(), family.LengthField(bits);
    if size - |head| >= l then done + (head + ZeroBytes(size - l - |head|) + field)
    else done + (head + ZeroBytes(size - |head|)) + (ZeroBytes(size - l) + field)
  }

  lemma FinalBlocksArePadding(family: Family, done: seq<byte>, tail: seq<byte>, size: nat)
    requires size > family.LengthSize() && |done| % size == 0 && |tail| < size
    ensures FinalBlocks(done, tail + [0x80], size, family, 8 * |done + tail| % TWO64)
         == done + tail + Padding(family, |done + tail|, size)
  {
    var l, p, field := family.LengthSize(), |tail|, family.LengthField(8 * |done + tail| % TWO64);
    PaddingBlocks(family, |done|, size, p, field);
    if size - (p + 1) >= l {
      Regroup(done, tail, [0x80], ZeroBytes(size - l - (p + 1)), field);
    } else {
      Regroup(done, tail, [0x80], ZeroBytes(size - (p + 1)), ZeroBytes(size - l) + field);
    }
  }

  /** Appendix32 and Appendix64: true if the length did not fit and another block has to follow. */
  method Appendix(family: Family, bits: nat, block0: seq<byte>, position: nat)
    returns (again: bool, block: seq<byte>)
    requires family.LengthSize() < |block0| && position <= |block0|
    ensures |block| == |block0|
    ensures again <==> |block0| - position < family.LengthSize()
    ensures again ==> block == block0[..position] + ZeroBytes(|block0| - position)
    ensures !again ==>
      block == block0[..position] + ZeroBytes(|block0| - family.LengthSize() - position) + family.LengthField(bits)
  {
    var l := family.LengthSize();
    if |block0| - position < l {
      return true, block0[..position] + ZeroBytes(|block0| - position);
    }
    block := block0[..position] + ZeroBytes(|block0| - l - position) + block0[|block0| - l..];
    block := block[..|block| - l] + family.LengthField(bits);
    again := false;
  }

  /** Memory::copy into a buffer. */
  method CopyBytes(dst: array<byte>, at: nat, src: seq<byte>)
    requires at + |src| <= dst.Length
    modifies dst
    ensures dst[..at] == old(dst[..at]) && dst[at..at + |src|] == src
    ensures dst[at + |src|..] == old(dst[at + |src|..])
  {
    forall i | 0 <= i < |src| {
      dst[at + i] := src[i];
    }
  }

  class MessageDigest {
    const size: nat
    const family: Family
    const computation: Compression
    const transform: seq<byte> -> seq<byte>
    const block: array<byte>
    var position: nat
    var digest: seq<byte>
    var length: nat
    ghost const iv: seq<byte>
    ghost var done: seq<byte>

    ghost predicate Buffered()
      reads this, block
    {
      && size > family.LengthSize() && block.Length == size && position < size
      && |done| % size == 0 && digest == Fold(computation, iv, done, size)
    }

    ghost predicate Valid()
      reads this, block
    {
      Buffered() && length == 8 * |Message()| % TWO64
    }

    /** Everything passed to `Update` so far: the whole blocks already folded, then the buffered bytes. */
    ghost function Message(): seq<byte>
      reads this, block
      requires position <= block.Length
    {
      done + block[..position]
    }

    constructor (size: nat, family: Family, iv: seq<byte>, computation: Compression,
                 transform: seq<byte> -> seq<byte>)
      requires size > family.LengthSize()
      ensures Valid() && fresh(block) && Message() == []
      ensures this.size == size && this.family == family && this.iv == iv
      ensures this.computation == computation && this.transform == transform
    {
      this.size, this.family, this.iv := size, family, iv;
      this.computation, this.transform := computation, transform;
      block := new byte[size];
      position, digest, length := 0, iv, 0;
      done := [];
    }

    method Update(data: seq<byte>)
      requires Valid()
      modifies this, block
      ensures Valid() && Message() == old(Message()) + data
    {
      ghost var before := Message();
      LengthAdds(|before|, |data|);
      length := (length + 8 * |data|) % TWO64;
      ghost var total := length;
      var off := 0;
      while off < |data|
        invariant 0 <= off <= |data| && length == total
        invariant Buffered() && Message() == before + data[..off]
      {
        var copy := Min(|data| - off, size - position);
        Absorb(data[off..off + copy]);
        JoinSlice(before, data, off, copy);
        off := off + copy;
      }
      assert data[..off] == data;
    }

    /** One turn of the `update` loop. */
    method Absorb(part: seq<byte>)
      requires Buffered() && 0 < |part| <= size - position
      modifies this, block
      ensures Buffered() && Message() == old(Message()) + part && length == old(length)
    {
      CopyBytes(block, position, part);
      assert block[..position + |part|] == block[..position] + block[position..position + |part|];
      position := position + |part|;
      if position >= size {
        FoldBlock(computation, iv, done, block[..], size);
        AddBlock(|done|, size);
        digest := computation(block[..], digest);
        done := done + block[..];
        position := 0;
      }
    }

    /** Works on copies: the object is left as it was. */
    method Finally() returns (dig: seq<byte>)
      requires Valid()
      ensures dig == transform(Padded(computation, iv, Message(), family, size))
    {
      var blk, pos := block[..], position;
      FinalBlocksArePadding(family, done, block[..position], size);
      blk := blk[pos := 0x80];
      pos := pos + 1;
      assert blk[..pos] == block[..position] + [0x80];
      ghost var rounds;
      dig, rounds := PadAndFold(computation, iv, family, length, blk, pos, digest, done);
      dig := transform(dig);
    }
  }

  /** The loop of `finally`: two rounds if the length does not fit behind the message, else one. */
  method PadAndFold(f: Compression, ghost iv: seq<byte>, family: Family, bits: nat, blk0: seq<byte>, pos0: nat,
                    dig0: seq<byte>, ghost done: seq<byte>) returns (dig: seq<byte>, ghost rounds: nat)
    requires family.LengthSize() < |blk0| && pos0 <= |blk0|
    requires dig0 == Fold(f, iv, done, |blk0|)
    ensures dig == Fold(f, iv, FinalBlocks(done, blk0[..pos0], |blk0|, family, bits), |blk0|)
    ensures rounds == if |blk0| - pos0 < family.LengthSize() then 2 else 1
  {
    rounds := 0;
    ghost var all: nat := if |blk0| - pos0 < family.LengthSize() then 2 else 1;
    var blk, pos: nat, append := blk0, pos0, true;
    ghost var folded, head := done, blk0[..pos0];
    ghost var final := FinalBlocks(done, head, |blk0|, family, bits);
    dig := dig0;
    while append
      invariant |blk| == |blk0| && pos <= |blk| && head == blk[..pos]
      invariant dig == Fold(f, iv, folded, |blk|)
      invariant if append then FinalBlocks(folded, head, |blk|, family, bits) == final else folded == final
      invariant rounds + (if !append then 0 else if |blk| - pos < family.LengthSize() then 2 else 1) == all
      decreases append, all - rounds
    {
      append, blk := Appendix(family, bits, blk, pos);
      FinalStep(folded, head, blk, family, bits, append);
      if append {
        pos := 0;
        head := [];
      }
      dig := f(blk, dig);
      FoldBlock(f, iv, folded, blk, |blk|);
      folded := folded + blk;
      rounds := rounds + 1;
    }
  }

  lemma FinalStep(done: seq<byte>, head: seq<byte>, blk: seq<byte>, family: Family, bits: nat, again: bool)
    requires |head| <= |blk| && family.LengthSize() < |blk|
    requires again <==> |blk| - |head| < family.LengthSize()
    requires blk == if again then head + ZeroBytes(|blk| - |head|)
                    else head + ZeroBytes(|blk| - family.LengthSize() - |head|) + family.LengthField(bits)
    ensures FinalBlocks(done, head, |blk|, family, bits)
         == if again then FinalBlocks(done + blk, [], |blk|, family, bits) else done + blk
  {
    var none: seq<byte>, z := [], ZeroBytes(|blk| - family.LengthSize());
    assert none + z == z;
  }

  /** A digest does not depend on how the message was cut into `Update` calls. */
  method DigestOf(size: nat, family: Family, iv: seq<byte>, computation: Compression,
                  transform: seq<byte> -> seq<byte>, chunks: seq<seq<byte>>) returns (dig: seq<byte>)
    requires size > family.LengthSize()
    ensures dig == transform(Padded(computation, iv, Flatten(chunks), family, size))
  {
    var d := new MessageDigest(size, family, iv, computation, transform);
    for i := 0 to |chunks|
      invariant d.Valid() && fresh(d) && fresh(d.block) && d.Message() == Flatten(chunks[..i])
      invariant d.size == size && d.family == family && d.iv == iv
      invariant d.computation == computation && d.transform == transform
    {
      d.Update(chunks[i]);
      assert chunks[..i + 1][..i] == chunks[..i];
    }
    assert chunks[..|chunks|] == chunks;
    dig := d.Finally();
  }

  function Flatten(chunks: seq<seq<byte>>): seq<byte> {
    if chunks == [] then [] else Flatten(chunks[..|chunks| - 1]) + chunks[|chunks| - 1]
  }

  lemma JoinSlice(before: seq<byte>, data: seq<byte>, off: nat, n: nat)
    requires off + n <= |data|
    ensures before + data[..off] + data[off..off + n] == before + data[..off + n]
  {
  }

  lemma AddBlock(n: nat, size: nat)
    requires size > 0 && n % size == 0
    ensures (n + size) % size == 0
  {
    AddToWhole(n, size, 1, 0);
  }

  lemma LengthAdds(m: nat, n: nat)
    ensures (8 * m % TWO64 + 8 * n) % TWO64 == 8 * (m + n) % TWO64
  {
  }

  // --- the length field -----------------------------------------------------------------------------------

  /**
    Appendix64 writes the 128-bit length of section 5.1.2 of FIPS 180-4 exactly for messages below 2^64 bits.
    (The standard ends at 2^128 bits.)
  */
  lemma LongLengthExact(bits: nat)
    requires bits < TWO64 * TWO64
    ensures Long.LengthField(bits % TWO64) == BigEndian(bits, 16) <==> bits < TWO64
  {
    Pow2Words();
    BigEndianSplit(bits, 8, 8);
    ShrIsQuotient(bits, 64);
    var high := bits / TWO64;
    assert Long.LengthField(bits)[..8] == BigEndian(0, 8) && BigEndian(bits, 16)[..8] == BigEndian(high, 8);
    if bits < TWO64 {
      assert high == 0;
    } else {
      assert Long.LengthField(bits % TWO64)[..8] == BigEndian(0, 8);
      if Long.LengthField(bits % TWO64) == BigEndian(bits, 16) {
        BigEndianInjective(high, 0, 8);
        assert false;
      }
    }
  }

  /** Byte `i` of the length counted from its lowest: first, or last where the family is big-endian. */
  lemma LengthFieldAt(family: Family, bits: nat, i: nat)
    requires i < 8
    ensures Shr(bits, 8 * i) >= 0
    ensures family.LengthField(bits)[if family == Short(false) then i else family.LengthSize() - 1 - i]
         == Shr(bits, 8 * i) % 256
    ensures family.Long? ==> family.LengthField(bits)[i] == 0
  {
    ByteOf(bits, 8, i);
    if family.Long? { ZeroField(7 - i); }
  }

  lemma ZeroField(i: nat)
    requires i < 8
    ensures BigEndian(0, 8)[7 - i] == 0
  {
    ByteOf(0, 8, i);
    ShrIsQuotient(0, 8 * i);
    DivModUnique(0, Pow2(8 * i), 0, 0);
  }

  // --- the fold -------------------------------------------------------------------------------------------

  /** The chaining value starts with `iv` and takes the blocks in order. */
  lemma {:induction false} FoldBlocks(f: Compression, iv: seq<byte>, blocks: seq<seq<byte>>, size: nat)
    requires size > 0 && forall i :: 0 <= i < |blocks| ==> |blocks[i]| == size
    ensures Fold(f, iv, Flatten(blocks), size) == Chained(f, iv, blocks)
    decreases |blocks|
  {
    if blocks != [] {
      var n := |blocks| - 1;
      FoldBlocks(f, iv, blocks[..n], size);
      FoldBlock(f, iv, Flatten(blocks[..n]), blocks[n], size);
      ChainedSnoc(f, iv, blocks[..n], blocks[n]);
      assert blocks == blocks[..n] + [blocks[n]];
    }
  }

  /** The chain of sections 6.1.2 and 6.2.2 of FIPS 180-4, from the first block on. */
  function Chained(f: Compression, iv: seq<byte>, blocks: seq<seq<byte>>): seq<byte>
    decreases |blocks|
  {
    if blocks == [] then iv else Chained(f, f(blocks[0], iv), blocks[1..])
  }

  lemma {:induction false} ChainedSnoc(f: Compression, iv: seq<byte>, blocks: seq<seq<byte>>, last: seq<byte>)
    ensures Chained(f, iv, blocks + [last]) == f(last, Chained(f, iv, blocks))
    decreases |blocks|
  {
    if blocks == [] {
      assert [last][1..] == [];
      assert blocks + [last] == [last];
    } else {
      assert (blocks + [last])[1..] == blocks[1..] + [last];
      ChainedSnoc(f, f(blocks[0], iv), blocks[1..], last);
    }
  }

  /** A message that fits in one block together with 0x80 and its length. */
  lemma PaddedShort(f: Compression, iv: seq<byte>, m: seq<byte>, family: Family, size: nat)
    requires |m| + 1 + family.LengthSize() <= size && |m| < 0x1000_0000
    ensures Padded(f, iv, m, family, size)
         == f(m + [0x80] + ZeroBytes(size - |m| - 1 - family.LengthSize()) + family.LengthField(8 * |m|), iv)
  {
    SmallRemainder(8 * |m|, TWO64);
    PaddingBlocks(family, 0, size, |m|, family.LengthField(8 * |m|));
    var block := m + Padding(family, |m|, size);
    assert block == m + [0x80] + ZeroBytes(size - |m| - 1 - family.LengthSize()) + family.LengthField(8 * |m|);
    FoldBlock(f, iv, [], block, size);
    assert [] + block == block;
  }

  /** The example "abc" of SHA-1 and SHA-256 ends in 0x18, of MD5 in 0x18 and seven zeros. */
  lemma PaddedAbc(f: Compression, iv: seq<byte>, n: nat)
    requires n == 24
    ensures Padded(f, iv, [0x61, 0x62, 0x63], Short(true), 64)
         == f([0x61, 0x62, 0x63] + [0x80] + ZeroBytes(52) + [0, 0, 0, 0, 0, 0, 0, 0x18], iv)
    ensures Padded(f, iv, [0x61, 0x62, 0x63], Short(false), 64)
         == f([0x61, 0x62, 0x63] + [0x80] + ZeroBytes(52) + [0x18, 0, 0, 0, 0, 0, 0, 0], iv)
  {
    var m: seq<byte> := [0x61, 0x62, 0x63];
    PaddedShort(f, iv, m, Short(true), 64);
    PaddedShort(f, iv, m, Short(false), 64);
    TwentyFour(n, 8);
    assert 8 * |m| == n;
  }

  lemma {:induction false} TwentyFour(n: nat, k: nat)
    requires n == 24 && k == 8
    ensures BigEndian(n, k) == [0, 0, 0, 0, 0, 0, 0, 0x18] && LittleEndian(n, k) == [0x18, 0, 0, 0, 0, 0, 0, 0]
  {
    forall i | 0 <= i < 8
      ensures BigEndian(n, k)[7 - i] == LittleEndian(n, k)[i] == if i == 0 then 0x18 else 0
    {
      ByteOf(n, k, i);
      if i > 0 { ShrSmall(n, 8 * i); }
    }
  }

  lemma ShrSmall(n: nat, k: nat)
    requires n < 256 && k >= 8
    ensures Shr(n, k) == 0
  {
    Pow2Words();
    Pow2Monotone(8, k);
    ShrIsQuotient(n, k);
    DivModUnique(n, Pow2(k), 0, n);
  }
}
