/**
  Cryptography/src/SHA3.cpp and SHAKE.cpp: absorbing, padding and squeezing around the Keccak permutation, which
  is a parameter.
*/
module Sponges {
  import opened Words
  import opened Digests

  const WIDTH: nat := 200

  type Permutation = seq<byte> -> seq<byte>

  ghost predicate KeepsWidth(f: Permutation) {
    forall s: seq<byte> :: |s| == WIDTH ==> |f(s)| == WIDTH
  }

  /** `Sponge` before the permutation: the block is added to the state. */
  function Combine(s: seq<byte>, p: seq<byte>): (r: seq<byte>)
    requires |s| == |p| == WIDTH
    ensures |r| == WIDTH
  {
    seq(WIDTH, i requires 0 <= i < WIDTH => XorBytes(s[i], p[i]))
  }

  /** Adding a block twice takes it back: nothing of the state is lost. */
  lemma CombineTwice(s: seq<byte>, p: seq<byte>)
    requires |s| == |p| == WIDTH
    ensures Combine(Combine(s, p), p) == s
  {
    forall i | 0 <= i < WIDTH ensures Combine(Combine(s, p), p)[i] == s[i] { XorTwice(s[i], p[i]); }
  }

  lemma CombineZero(p: seq<byte>)
    requires |p| == WIDTH
    ensures Combine(ZeroBytes(WIDTH), p) == p && Combine(p, ZeroBytes(WIDTH)) == p
  {
    forall i | 0 <= i < WIDTH ensures Combine(ZeroBytes(WIDTH), p)[i] == Combine(p, ZeroBytes(WIDTH))[i] == p[i] {
      assert Xor(0, p[i]) == p[i] && Xor(p[i], 0) == p[i];
    }
  }

  /** Bit by bit the state afterwards is one exactly where state and block differ. */
  lemma CombineBits(s: seq<byte>, p: seq<byte>, i: nat, k: nat)
    requires |s| == |p| == WIDTH && i < WIDTH
    ensures Bit(Combine(s, p)[i], k) <==> Bit(s[i], k) != Bit(p[i], k)
  {
    BitwiseAt(s[i], p[i], k);
  }

  /** A block does not reach the capacity of the state (section 4 of FIPS 202). */
  lemma CombineCapacity(s: seq<byte>, block: seq<byte>, rate: nat)
    requires |s| == WIDTH && |block| == rate <= WIDTH
    ensures Combine(s, block + ZeroBytes(WIDTH - rate))[rate..] == s[rate..]
  {
    var t := Combine(s, block + ZeroBytes(WIDTH - rate));
    forall i | rate <= i < WIDTH ensures t[i] == s[i] { XorZero(s[i]); }
  }

  lemma XorZero(a: nat)
    ensures Xor(a, 0) == a
  {
  }

  /** The state after absorbing all whole blocks of `rate` bytes of `m`; the capacity bytes get zeros. */
  ghost function Absorb(f: Permutation, rate: nat, m: seq<byte>): (s: seq<byte>)
    requires 0 < rate <= WIDTH && KeepsWidth(f)
    ensures |s| == WIDTH
    decreases |m|
  {
    if |m| < rate then ZeroBytes(WIDTH)
    else
      var whole := m[|m| - rate..] + ZeroBytes(WIDTH - rate);
      f(Combine(Absorb(f, rate, m[..|m| - rate]), whole))
  }

  /** Before the permutation, the block is added to the first `rate` bytes and the others are as they were. */
  lemma AbsorbAdds(f: Permutation, rate: nat, m: seq<byte>, block: seq<byte>) returns (t: seq<byte>)
    requires 0 < rate <= WIDTH && KeepsWidth(f) && |block| == rate
    ensures Absorb(f, rate, m + block) == f(t) && |t| == WIDTH
    ensures forall i, k: nat :: 0 <= i < rate ==> (Bit(t[i], k) <==> Bit(Absorb(f, rate, m)[i], k) != Bit(block[i], k))
    ensures t[rate..] == Absorb(f, rate, m)[rate..]
  {
    var before, whole := Absorb(f, rate, m), block + ZeroBytes(WIDTH - rate);
    t := Combine(before, whole);
    AbsorbBlock(f, rate, m, block);
    CombineCapacity(before, block, rate);
    forall i, k: nat | 0 <= i < rate ensures Bit(t[i], k) <==> Bit(before[i], k) != Bit(block[i], k) {
      CombineBits(before, whole, i, k);
    }
  }

  /** The first block meets a state of zeros. */
  lemma AbsorbFirst(f: Permutation, rate: nat, block: seq<byte>)
    requires 0 < rate <= WIDTH && KeepsWidth(f) && |block| == rate
    ensures Absorb(f, rate, block) == f(block + ZeroBytes(WIDTH - rate))
  {
    assert [] + block == block;
    AbsorbBlock(f, rate, [], block);
    CombineZero(block + ZeroBytes(WIDTH - rate));
  }

  /** The domain byte and pad10*1 of section 5.1 of FIPS 202, whose last bit may fall into the domain byte. */
  function Padding101(suffix: byte, rate: nat, p: nat): (s: seq<byte>)
    requires p < rate && suffix < 128
    ensures |s| == rate - p
  {
    OrTopBit(suffix);
    if p + 1 == rate then [Or(suffix, 0x80)] else [suffix] + ZeroBytes(rate - p - 2) + [0x80]
  }

  lemma OrTopBit(x: byte)
    requires x < 128
    ensures Or(x, 0x80) == Or(0x80, x) == x + 0x80
  {
    Pow2Words();
    assert Pow2(7) == 128;
    assert LowClear(0x80, 7);
    OrCommutes(x, 0x80);
    OrDisjoint(0x80, x, 7);
  }

  /** The absorbed state of a whole message. */
  ghost function Sealed(f: Permutation, rate: nat, m: seq<byte>, suffix: byte): (s: seq<byte>)
    requires 0 < rate <= WIDTH && KeepsWidth(f) && suffix < 128
    ensures |s| == WIDTH
  {
    Absorb(f, rate, m + Padding101(suffix, rate, |m| % rate))
  }

  /** A message that fits in one block, byte for byte. */
  lemma SealedShort(f: Permutation, rate: nat, m: seq<byte>, suffix: byte)
    requires 0 < rate <= WIDTH && KeepsWidth(f) && suffix < 128 && |m| < rate
    ensures |m| + 2 <= rate ==>
      Sealed(f, rate, m, suffix)
        == f(m + [suffix] + ZeroBytes(rate - 2 - |m|) + [0x80] + ZeroBytes(WIDTH - rate))
    ensures |m| + 1 == rate ==> Sealed(f, rate, m, suffix) == f(m + [suffix + 0x80] + ZeroBytes(WIDTH - rate))
  {
    SmallRemainder(|m|, rate);
    OrTopBit(suffix);
    var padding := Padding101(suffix, rate, |m|);
    AbsorbFirst(f, rate, m + padding);
    if |m| + 2 <= rate {
      assert m + padding == m + [suffix] + ZeroBytes(rate - 2 - |m|) + [0x80];
    }
  }

  /** Of a longer message the last incomplete block is sealed like a message of its own, on top of the others. */
  lemma SealedTail(f: Permutation, rate: nat, done: seq<byte>, tail: seq<byte>, suffix: byte)
    returns (block: seq<byte>, t: seq<byte>)
    requires 0 < rate <= WIDTH && KeepsWidth(f) && suffix < 128 && |done| % rate == 0 && |tail| < rate
    ensures |block| == |t| == WIDTH
    ensures Sealed(f, rate, tail, suffix) == f(block) && Sealed(f, rate, done + tail, suffix) == f(t)
    ensures forall i, k: nat :: 0 <= i < WIDTH ==>
      (Bit(t[i], k) <==> Bit(Absorb(f, rate, done)[i], k) != Bit(block[i], k))
  {
    var padding := Padding101(suffix, rate, |tail|);
    var before := Absorb(f, rate, done);
    block := tail + padding + ZeroBytes(WIDTH - rate);
    t := Combine(before, block);
    SmallRemainder(|tail|, rate);
    AbsorbFirst(f, rate, tail + padding);
    AddToWhole(|done|, rate, 0, |tail|);
    assert done + tail + padding == done + (tail + padding);
    AbsorbBlock(f, rate, done, tail + padding);
    forall i, k: nat | 0 <= i < WIDTH ensures Bit(t[i], k) <==> Bit(before[i], k) != Bit(block[i], k) {
      CombineBits(before, block, i, k);
    }
  }

  ghost function Iterate(f: Permutation, s: seq<byte>, n: nat): (r: seq<byte>)
    requires KeepsWidth(f) && |s| == WIDTH
    ensures |r| == WIDTH
  {
    if n == 0 then s else f(Iterate(f, s, n - 1))
  }

  /** Byte `i` of the output stream: byte i mod rate of the state permuted i / rate times. */
  ghost function StreamByte(f: Permutation, s: seq<byte>, rate: nat, i: nat): byte
    requires KeepsWidth(f) && |s| == WIDTH && 0 < rate <= WIDTH
  {
    Iterate(f, s, i / rate)[i % rate]
  }

  ghost function Stream(f: Permutation, s: seq<byte>, rate: nat, n: nat): (r: seq<byte>)
    requires KeepsWidth(f) && |s| == WIDTH && 0 < rate <= WIDTH
    ensures |r| == n
  {
    seq(n, i requires 0 <= i < n => StreamByte(f, s, rate, i))
  }

  function LowBits(x: byte, k: nat): (r: byte)
    ensures r <= x
  {
    ModuloAtMost(x, Pow2(k));
    x % Pow2(k)
  }

  lemma ModuloAtMost(x: nat, p: nat)
    requires p > 0
    ensures x % p <= x
  {
    if x < p { DivModUnique(x, p, 0, x); }
  }

  /** The first `bits` bits of the stream: a last partial byte keeps its low bits. */
  ghost function Output(f: Permutation, s: seq<byte>, rate: nat, bits: nat): (r: seq<byte>)
    requires KeepsWidth(f) && |s| == WIDTH && 0 < rate <= WIDTH
    ensures |r| == bits / 8 + if bits % 8 == 0 then 0 else 1
  {
    if bits % 8 == 0 then Stream(f, s, rate, bits / 8)
    else
      Stream(f, s, rate, bits / 8) + [LowBits(StreamByte(f, s, rate, bits / 8), bits % 8)]
  }

  /** A shorter whole-byte output is a prefix of a longer one of the same message. */
  lemma OutputPrefix(f: Permutation, s: seq<byte>, rate: nat, m: nat, n: nat)
    requires KeepsWidth(f) && |s| == WIDTH && 0 < rate <= WIDTH && m <= n / 8
    ensures Output(f, s, rate, 8 * m) == Output(f, s, rate, n)[..m]
  {
    var a, b := Output(f, s, rate, 8 * m), Output(f, s, rate, n);
    assert a == Stream(f, s, rate, m);
    forall i | 0 <= i < m ensures a[i] == b[i] {
      assert b[i] == Stream(f, s, rate, n / 8)[i];
    }
  }

  /** The first block of output is the rate of the state, and behind it comes the output of the permuted state. */
  lemma StreamStarts(f: Permutation, s: seq<byte>, rate: nat, n: nat)
    requires KeepsWidth(f) && |s| == WIDTH && 0 < rate <= WIDTH
    ensures n <= rate ==> Output(f, s, rate, 8 * n) == s[..n]
    ensures Output(f, s, rate, 8 * (rate + n)) == s[..rate] + Output(f, f(s), rate, 8 * n)
  {
    EightTimes(n);
    EightTimes(rate + n);
    forall i | 0 <= i < rate + n
      ensures StreamByte(f, s, rate, i) == if i < rate then s[i] else StreamByte(f, f(s), rate, i - rate)
    {
      if i < rate { DivModUnique(i, rate, 0, i); } else { NextBlock(f, s, rate, i); }
    }
  }

  lemma EightTimes(n: nat)
    ensures 8 * n / 8 == n && 8 * n % 8 == 0
  {
  }

  lemma NextBlock(f: Permutation, s: seq<byte>, rate: nat, i: nat)
    requires KeepsWidth(f) && |s| == WIDTH && 0 < rate <= WIDTH && i >= rate
    ensures StreamByte(f, s, rate, i) == StreamByte(f, f(s), rate, i - rate)
  {
    var q, r := (i - rate) / rate, (i - rate) % rate;
    assert i - rate == rate * q + r;
    MulAdd(rate, q, 1);
    DivModUnique(i, rate, q + 1, r);
    IterateShift(f, s, q);
  }

  lemma {:induction false} IterateShift(f: Permutation, s: seq<byte>, n: nat)
    requires KeepsWidth(f) && |s| == WIDTH
    ensures Iterate(f, s, n + 1) == Iterate(f, f(s), n)
  {
    if n > 0 { IterateShift(f, s, n - 1); }
  }

  /** What is kept of a last partial byte are its low bits. */
  lemma {:induction false} LowBitsAt(x: byte, k: nat, i: nat)
    ensures Bit(LowBits(x, k), i) <==> i < k && Bit(x, i)
  {
    AndMask(x, k);
    BitwiseAt(x, Pow2(k) - 1, i);
    OnesAt(k, i);
  }

  lemma {:induction false} OnesAt(k: nat, i: nat)
    ensures Bit(Pow2(k) - 1, i) <==> i < k
  {
    if k == 0 {
      NoBits(i);
    } else {
      var ones := Pow2(k) - 1;
      assert ones % 2 == 1 && ones / 2 == Pow2(k - 1) - 1;
      if i > 0 { OnesAt(k - 1, i - 1); }
    }
  }

  lemma {:induction false} NoBits(i: nat)
    ensures !Bit(0, i)
  {
    if i > 0 { NoBits(i - 1); }
  }

  lemma OutputLast(f: Permutation, s: seq<byte>, rate: nat, n: nat, k: nat, i: nat)
    requires KeepsWidth(f) && |s| == WIDTH && 0 < rate <= WIDTH && 0 < k < 8
    ensures var out, whole := Output(f, s, rate, 8 * n + k), Output(f, s, rate, 8 * n + 8);
      |out| == |whole| == n + 1 && out[..n] == whole[..n] && (Bit(out[n], i) <==> i < k && Bit(whole[n], i))
  {
    EightTimes(n + 1);
    assert (8 * n + k) / 8 == n && (8 * n + k) % 8 == k;
    LowBitsAt(StreamByte(f, s, rate, n), k, i);
  }

  lemma JoinAll(a: seq<byte>, b: seq<byte>, c: seq<byte>)
    ensures a + (b + c) == (a + b) + c
  {
  }

  class Keccak {
    const rate: nat
    const permute: Permutation
    const block: array<byte>
    var position: nat
    var digest: seq<byte>
    ghost var done: seq<byte>

    /** The bytes of `block` from `rate` on are never written: the capacity stays zero. */
    ghost predicate Valid()
      reads this, block
    {
      && 0 < rate < WIDTH && KeepsWidth(permute) && block.Length == WIDTH && position < rate
      && block[rate..] == ZeroBytes(WIDTH - rate)
      && |done| % rate == 0 && digest == Absorb(permute, rate, done)
    }

    ghost function Message(): seq<byte>
      reads this, block
      requires position <= block.Length
    {
      done + block[..position]
    }

    constructor (rate: nat, permute: Permutation)
      requires 0 < rate < WIDTH && KeepsWidth(permute)
      ensures Valid() && fresh(block) && Message() == []
      ensures this.rate == rate && this.permute == permute
    {
      this.rate, this.permute := rate, permute;
      block := new byte[WIDTH](_ => 0);
      position, digest, done := 0, ZeroBytes(WIDTH), [];
    }

    method Update(data: seq<byte>)
      requires Valid()
      modifies this, block
      ensures Valid() && Message() == old(Message()) + data
    {
      ghost var before := Message();
      var off := 0;
      while off < |data|
        invariant 0 <= off <= |data| && Valid() && Message() == before + data[..off]
      {
        var copy := Min(|data| - off, rate - position);
        Fill(data[off..off + copy]);
        JoinSlice(before, data, off, copy);
        off := off + copy;
      }
      assert data[..off] == data;
    }

    /** One turn of the `update` loop. */
    method Fill(part: seq<byte>)
      requires Valid() && 0 < |part| <= rate - position
      modifies this, block
      ensures Valid() && Message() == old(Message()) + part
    {
      ghost var p, head := position + |part|, block[..position];
      assert block[rate..] == block[p..][rate - p..];
      CopyBytes(block, position, part);
      assert block[rate..] == block[p..][rate - p..];
      assert block[..p] == head + part;
      JoinAll(done, head, part);
      position := position + |part|;
      if position >= rate {
        position := 0;
        AbsorbFull();
        assert done + block[..0] == done;
      }
    }

    method AbsorbFull()
      requires Valid() && position == 0
      modifies this`digest, this`done
      ensures Valid() && done == old(done) + block[..rate]
    {
      AbsorbBlock(permute, rate, done, block[..rate]);
      AddToWhole(|done|, rate, 1, 0);
      assert block[..] == block[..rate] + block[rate..];
      digest := permute(Combine(digest, block[..]));
      done := done + block[..rate];
    }

    /** The common start of both `finally`: pad a copy of the block and absorb it into a copy of the state. */
    method Seal(suffix: byte) returns (dig: seq<byte>)
      requires Valid() && suffix < 128
      ensures dig == Sealed(permute, rate, Message(), suffix)
    {
      var blk, pos := block[..], position;
      blk := blk[pos := suffix];
      pos := pos + 1;
      blk := blk[..pos] + ZeroBytes(rate - pos) + blk[rate..];
      ghost var last := blk[rate - 1];
      assert last < 128;
      OrTopBit(last);
      blk := blk[rate - 1 := Or(blk[rate - 1], 0x80)];
      AddToWhole(|done|, rate, 0, position);
      ghost var padding := Padding101(suffix, rate, position);
      SealedBlock(blk, block[..position], suffix, rate);
      AbsorbBlock(permute, rate, done, block[..position] + padding);
      assert Message() + padding == done + (block[..position] + padding);
      dig := permute(Combine(digest, blk));
    }
  }

  /** The function table of SHA3.cpp in bits of digest; SHAKE.cpp has 128 and 256. */
  function Rate(strength: nat): nat
    requires strength <= 512
  {
    (1600 - 2 * strength) / 8
  }

  /** Table 3 of FIPS 202 in bytes, and SHAKE128 and SHAKE256. */
  lemma Rates()
    ensures Rate(224) == 144 && Rate(256) == 136 && Rate(384) == 104 && Rate(512) == 72 && Rate(128) == 168
  {
  }

  /** SHA3::finally: the state is cut to the digest size. */
  method FinallySHA3(h: Keccak, strength: nat) returns (out: seq<byte>)
    requires h.Valid() && strength in {224, 256, 384, 512} && h.rate == Rate(strength)
    ensures out == Output(h.permute, Sealed(h.permute, h.rate, h.Message(), 6), h.rate, strength)
  {
    var dig := h.Seal(6);
    out := dig[..strength / 8];
    forall i | 0 <= i < strength / 8 ensures out[i] == StreamByte(h.permute, dig, h.rate, i) {
      DivModUnique(i, h.rate, 0, i);
    }
  }

  /** SHAKE::finally: whole blocks are copied out, one permutation apart, and the last byte is masked. */
  method FinallySHAKE(h: Keccak, size: nat) returns (out: seq<byte>)
    requires h.Valid()
    ensures out == Output(h.permute, Sealed(h.permute, h.rate, h.Message(), 0x1F), h.rate, size)
  {
    out := [];
    if size == 0 {
      return;
    }
    var length := size / 8 + if size % 8 == 0 then 0 else 1;
    var dig := h.Seal(0x1F);
    out := Squeeze(h.permute, h.rate, dig, length);
    var bit := (8 - size % 8) % 8;
    var mask := Shr(Shl(0xFF, bit) % 256, bit);
    ShrNonNegative(Shl(0xFF, bit) % 256, bit);
    MaskByte(out[length - 1], bit, mask);
    LastByteMasked(h.permute, dig, h.rate, size, bit);
    out := out[length - 1 := And(out[length - 1], mask)];
  }

  /** The output does not depend on how the message was cut into `Update` calls. */
  method SHAKEOf(permute: Permutation, strength: nat, chunks: seq<seq<byte>>, size: nat) returns (out: seq<byte>)
    requires KeepsWidth(permute) && strength in {128, 256}
    ensures var rate := Rate(strength);
      out == Output(permute, Sealed(permute, rate, Flatten(chunks), 0x1F), rate, size)
  {
    var h := new Keccak(Rate(strength), permute);
    UpdateAll(h, chunks);
    out := FinallySHAKE(h, size);
  }

  method SHA3Of(permute: Permutation, strength: nat, chunks: seq<seq<byte>>) returns (out: seq<byte>)
    requires KeepsWidth(permute) && strength in {224, 256, 384, 512}
    ensures var rate := Rate(strength);
      out == Output(permute, Sealed(permute, rate, Flatten(chunks), 6), rate, strength)
  {
    var h := new Keccak(Rate(strength), permute);
    UpdateAll(h, chunks);
    out := FinallySHA3(h, strength);
  }

  method UpdateAll(h: Keccak, chunks: seq<seq<byte>>)
    requires h.Valid() && h.Message() == []
    modifies h, h.block
    ensures h.Valid() && h.Message() == Flatten(chunks)
  {
    for i := 0 to |chunks|
      invariant h.Valid() && h.Message() == Flatten(chunks[..i])
    {
      h.Update(chunks[i]);
      assert chunks[..i + 1][..i] == chunks[..i];
    }
    assert chunks[..|chunks|] == chunks;
  }

  method Squeeze(f: Permutation, rate: nat, state: seq<byte>, length: nat) returns (out: seq<byte>)
    requires KeepsWidth(f) && |state| == WIDTH && 0 < rate <= WIDTH
    ensures out == Stream(f, state, rate, length)
  {
    var dig := state;
    out := [];
    ghost var rounds := 0;
    while |out| < length
      invariant |out| <= length && |dig| == WIDTH && dig == Iterate(f, state, rounds)
      invariant out == Stream(f, state, rate, |out|)
      invariant |out| < length ==> |out| == rate * rounds
      decreases length - |out|
    {
      var copy := Min(length - |out|, rate);
      StreamBlock(f, state, rate, rounds, copy);
      out := out + dig[..copy];
      dig := f(dig);
      MulAdd(rate, rounds, 1);
      rounds := rounds + 1;
    }
  }

  lemma StreamBlock(f: Permutation, s: seq<byte>, rate: nat, rounds: nat, copy: nat)
    requires KeepsWidth(f) && |s| == WIDTH && 0 < rate <= WIDTH && copy <= rate
    ensures rate * rounds >= 0
    ensures Stream(f, s, rate, rate * rounds + copy)
         == Stream(f, s, rate, rate * rounds) + Iterate(f, s, rounds)[..copy]
  {
    MulMonotone(rate, 0, rounds);
    forall i | 0 <= i < copy
      ensures StreamByte(f, s, rate, rate * rounds + i) == Iterate(f, s, rounds)[i]
    {
      DivModUnique(rate * rounds + i, rate, rounds, i);
    }
  }

  lemma LastByteMasked(f: Permutation, s: seq<byte>, rate: nat, size: nat, bit: nat)
    requires KeepsWidth(f) && |s| == WIDTH && 0 < rate <= WIDTH && size > 0 && bit == (8 - size % 8) % 8
    ensures
      var length := size / 8 + if size % 8 == 0 then 0 else 1;
      var out := Stream(f, s, rate, length);
      Output(f, s, rate, size)
        == if bit == 0 then out else out[length - 1 := LowBits(out[length - 1], 8 - bit)]
  {
    if size % 8 != 0 {
      var n := size / 8;
      assert Stream(f, s, rate, n + 1) == Stream(f, s, rate, n) + [StreamByte(f, s, rate, n)];
    }
  }

  /** The mask 0xFF << bit >> bit keeps the low 8 - bit bits. */
  lemma MaskByte(x: byte, bit: nat, mask: nat)
    requires bit < 8 && mask == Shr(Shl(0xFF, bit) % 256, bit)
    ensures And(x, mask) == LowBits(x, 8 - bit) && (bit == 0 ==> And(x, mask) == x)
  {
    MaskValue(bit, mask);
    AndMask(x, 8 - bit);
    if bit == 0 {
      Pow2Words();
      SmallRemainder(x, 256);
    }
  }

  lemma MaskValue(bit: nat, mask: nat)
    requires bit < 8 && mask == Shr(Shl(0xFF, bit) % 256, bit)
    ensures mask == Pow2(8 - bit) - 1
  {
    var q, r := Pow2(bit), Pow2(8 - bit);
    ShiftFactor(bit);
    ShlIsProduct(0xFF, bit);
    assert 0xFF * q % 256 == 256 - q && (256 - q) / q == r - 1;
    ShrIsQuotient(256 - q, bit);
  }

  lemma AbsorbBlock(f: Permutation, rate: nat, m: seq<byte>, block: seq<byte>)
    requires 0 < rate <= WIDTH && KeepsWidth(f) && |block| == rate
    ensures Absorb(f, rate, m + block) == f(Combine(Absorb(f, rate, m), block + ZeroBytes(WIDTH - rate)))
  {
    assert (m + block)[|m|..] == block && (m + block)[..|m|] == m;
  }

  lemma SealedBlock(blk: seq<byte>, tail: seq<byte>, suffix: byte, rate: nat)
    requires |tail| < rate < WIDTH && |blk| == WIDTH && suffix < 128
    requires blk[..|tail|] == tail && blk[rate..] == ZeroBytes(WIDTH - rate)
    requires forall i :: |tail| <= i < rate ==>
      blk[i] == (if i == |tail| then suffix as int else 0) + (if i == rate - 1 then 0x80 else 0)
    ensures blk == tail + Padding101(suffix, rate, |tail|) + ZeroBytes(WIDTH - rate)
  {
    OrTopBit(suffix);
    assert blk == blk[..|tail|] + blk[|tail|..rate] + blk[rate..];
    assert blk[|tail|..rate] == Padding101(suffix, rate, |tail|);
  }
}
