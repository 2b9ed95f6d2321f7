/**
  The distance codes of `DecodeCompressedMetaBlock` in Compression/src/Brotli.cpp (section 4 of RFC 7932):
  codes from 16 on and their extra bits are another way to write the distances 1, 2, 3, ...
*/
module DistanceCodes {
  import opened Words

  /** `(h << p) + l`, and its parts. */
  function Join(h: nat, l: nat, p: nat): int {
    Shl(h, p) + l
  }

  lemma {:induction false} JoinParts(h: nat, l: nat, p: nat)
    requires l < Pow2(p)
    ensures Join(h, l, p) >= 0 && Shr(Join(h, l, p), p) == h && Join(h, l, p) % Pow2(p) == l
  {
    ShlNonNegative(h, p);
    if p > 0 {
      JoinParts(h, l / 2, p - 1);
      assert Join(h, l, p) / 2 == Join(h, l / 2, p - 1) && Join(h, l, p) % 2 == l % 2;
      HalfRemainder(Join(h, l, p), p);
    }
  }

  lemma {:induction false} PartsJoin(x: nat, p: nat)
    ensures Shr(x, p) >= 0 && x % Pow2(p) < Pow2(p) && Join(Shr(x, p), x % Pow2(p), p) == x
  {
    ShrNonNegative(x, p);
    if p > 0 {
      PartsJoin(x / 2, p - 1);
      HalfRemainder(x, p);
    }
  }

  /** A number from 2 on as its highest bit, the bit below it and the rest. */
  datatype Parts = Parts(n: nat, b: nat, e: nat)

  function Split(v: nat): Parts
    requires v >= 2
  {
    if v < 4 then Parts(0, v - 2, 0)
    else
      var s := Split(v / 2);
      Parts(s.n + 1, s.b, 2 * s.e + v % 2)
  }

  function Whole(s: Parts): int {
    Shl(2 + s.b, s.n) + s.e
  }

  predicate ProperParts(s: Parts) {
    s.b < 2 && s.e < Pow2(s.n)
  }

  lemma {:induction false} WholeOfSplit(v: nat)
    requires v >= 2
    ensures ProperParts(Split(v)) && Whole(Split(v)) == v
  {
    if v >= 4 { WholeOfSplit(v / 2); }
  }

  lemma {:induction false} SplitOfWhole(s: Parts)
    requires ProperParts(s)
    ensures Whole(s) >= 2 && Split(Whole(s)) == s
    decreases s.n
  {
    if s.n > 0 {
      var t := Parts(s.n - 1, s.b, s.e / 2);
      SplitOfWhole(t);
      assert Whole(s) / 2 == Whole(t) && Whole(s) % 2 == s.e % 2;
      assert Whole(s) >= 4;
    }
  }

  /** `((2 + (hcode & 1)) << ndistbits) - 4`, where the width is `1 + (hcode >> 1)`. */
  function Offset(h: nat): int {
    Shl(2 + h % 2, 1 + h / 2) - 4
  }

  lemma OffsetIsWhole(h: nat, extra: nat)
    ensures Offset(h) + extra == Whole(Parts(1 + h / 2, h % 2, extra)) - 4 && Offset(h) >= 0
  {
    ShlAdd(2 + h % 2, h / 2, 1);
    ShlNonNegative(2 + h % 2, h / 2);
  }

  /** The high part of the code number, and the extra bits, of an offset with its extra bits. */
  function HighOf(y: nat): nat {
    SplitAbove(y + 4);
    2 * (Split(y + 4).n - 1) + Split(y + 4).b
  }

  function ExtraOf(y: nat): nat {
    Split(y + 4).e
  }

  lemma SplitAbove(v: nat)
    requires v >= 4
    ensures Split(v).n >= 1
  {
  }

  lemma OffsetOnto(y: nat)
    ensures ExtraOf(y) < Pow2(1 + HighOf(y) / 2) && Offset(HighOf(y)) + ExtraOf(y) == y
  {
    WholeOfSplit(y + 4);
    SplitAbove(y + 4);
    OffsetIsWhole(HighOf(y), ExtraOf(y));
  }

  lemma OffsetOneToOne(h: nat, extra: nat)
    requires extra < Pow2(1 + h / 2)
    ensures Offset(h) >= 0 && HighOf(Offset(h) + extra) == h && ExtraOf(Offset(h) + extra) == extra
  {
    OffsetIsWhole(h, extra);
    SplitOfWhole(Parts(1 + h / 2, h % 2, extra));
  }

  /** `hcode` */
  function High(postfix: nat, direct: nat, code: nat): nat
    requires code >= 16 + direct
  {
    ShrNonNegative(code - direct - 16, postfix);
    Shr(code - direct - 16, postfix)
  }

  /** `ndistbits` */
  function ExtraBits(postfix: nat, direct: nat, code: nat): (n: nat)
    requires code >= 16 + direct
  {
    ShrNonNegative(code - direct - 16, postfix + 1);
    1 + Shr(code - direct - 16, postfix + 1)
  }

  lemma ExtraBitsOfHigh(postfix: nat, direct: nat, code: nat)
    requires code >= 16 + direct
    ensures ExtraBits(postfix, direct, code) == 1 + High(postfix, direct, code) / 2
  {
    ShrAdd(code - direct - 16, postfix, 1);
  }

  predicate Proper(postfix: nat, direct: nat, code: nat, extra: nat) {
    code >= 16 && if code < 16 + direct then extra == 0 else extra < Pow2(ExtraBits(postfix, direct, code))
  }

  /** The distance, before any truncation to 32 bits. */
  function Distance(postfix: nat, direct: nat, code: nat, extra: nat): int
    requires code >= 16
  {
    if code < 16 + direct then code - 15
    else
      var h := High(postfix, direct, code);
      var offset := Shl(2 + h % 2, ExtraBits(postfix, direct, code)) - 4;
      Shl(offset + extra, postfix) + (code - direct - 16) % Pow2(postfix) + direct + 1
  }

  lemma DistanceIsJoin(postfix: nat, direct: nat, code: nat, extra: nat, h: nat)
    requires code >= 16 + direct && h == High(postfix, direct, code)
    ensures Offset(h) >= 0
    ensures Distance(postfix, direct, code, extra) ==
            Join(Offset(h) + extra, (code - direct - 16) % Pow2(postfix), postfix) + direct + 1
  {
    OffsetIsWhole(h, extra);
    ExtraBitsOfHigh(postfix, direct, code);
  }

  /** The code and extra bits of a distance. */
  function CodeOf(postfix: nat, direct: nat, distance: nat): (nat, nat)
    requires distance > 0
  {
    if distance <= direct then (distance + 15, 0)
    else
      var x := distance - direct - 1;
      ShrNonNegative(x, postfix);
      var y := Shr(x, postfix);
      ShlNonNegative(HighOf(y), postfix);
      (Join(HighOf(y), x % Pow2(postfix), postfix) + direct + 16, ExtraOf(y))
  }

  lemma LongOnto(postfix: nat, direct: nat, x: nat, y: nat, l: nat, code: nat)
    requires y == Shr(x, postfix) && l == x % Pow2(postfix) && code == Join(HighOf(y), l, postfix) + direct + 16
    ensures Proper(postfix, direct, code, ExtraOf(y)) && Distance(postfix, direct, code, ExtraOf(y)) == x + direct + 1
  {
    PartsJoin(x, postfix);
    JoinParts(HighOf(y), l, postfix);
    OffsetOnto(y);
    ExtraBitsOfHigh(postfix, direct, code);
    DistanceIsJoin(postfix, direct, code, ExtraOf(y), HighOf(y));
  }

  /** Every distance from 1 on has a code, and the code gives it back. */
  lemma DistanceOfCode(postfix: nat, direct: nat, distance: nat)
    requires distance > 0
    ensures var (code, extra) := CodeOf(postfix, direct, distance);
      Proper(postfix, direct, code, extra) && Distance(postfix, direct, code, extra) == distance
  {
    if distance > direct {
      var x := distance - direct - 1;
      PartsJoin(x, postfix);
      LongOnto(postfix, direct, x, Shr(x, postfix), x % Pow2(postfix), CodeOf(postfix, direct, distance).0);
    }
  }

  lemma LongCode(postfix: nat, direct: nat, x: nat, y: nat, l: nat)
    requires y == Shr(x, postfix) && l == x % Pow2(postfix)
    ensures CodeOf(postfix, direct, x + direct + 1) == (Join(HighOf(y), l, postfix) + direct + 16, ExtraOf(y))
  {
  }

  lemma LongOneToOne(postfix: nat, direct: nat, code: nat, extra: nat, h: nat, l: nat)
    requires code >= 16 + direct && Proper(postfix, direct, code, extra)
    requires h == High(postfix, direct, code) && l == (code - direct - 16) % Pow2(postfix)
    ensures Distance(postfix, direct, code, extra) > direct
    ensures CodeOf(postfix, direct, Distance(postfix, direct, code, extra)) == (code, extra)
  {
    PartsJoin(code - direct - 16, postfix);
    ExtraBitsOfHigh(postfix, direct, code);
    OffsetOneToOne(h, extra);
    DistanceIsJoin(postfix, direct, code, extra, h);
    LongInverse(postfix, direct, h, l, extra, Offset(h) + extra, Distance(postfix, direct, code, extra), code);
  }

  lemma LongInverse(postfix: nat, direct: nat, h: nat, l: nat, extra: nat, y: nat, distance: int, code: nat)
    requires l < Pow2(postfix) && HighOf(y) == h && ExtraOf(y) == extra
    requires distance == Join(y, l, postfix) + direct + 1 && code == Join(h, l, postfix) + direct + 16
    ensures distance > direct && CodeOf(postfix, direct, distance) == (code, extra)
  {
    JoinParts(y, l, postfix);
    LongCode(postfix, direct, Join(y, l, postfix), y, l);
  }

  /** Different codes and extra bits are different distances. */
  lemma CodeOfDistance(postfix: nat, direct: nat, code: nat, extra: nat)
    requires Proper(postfix, direct, code, extra)
    ensures Distance(postfix, direct, code, extra) > 0
    ensures CodeOf(postfix, direct, Distance(postfix, direct, code, extra)) == (code, extra)
  {
    if code >= 16 + direct {
      LongOneToOne(postfix, direct, code, extra, High(postfix, direct, code), (code - direct - 16) % Pow2(postfix));
    }
  }

  /** The map is one-to-one and onto: its ranges tile 1, 2, 3, ... without gap or overlap. */
  lemma DistancesTile(postfix: nat, direct: nat, code: nat, extra: nat, distance: nat)
    requires distance > 0 && code >= 16
    ensures Proper(postfix, direct, code, extra) && Distance(postfix, direct, code, extra) == distance
       <==> (code, extra) == CodeOf(postfix, direct, distance)
  {
    DistanceOfCode(postfix, direct, distance);
    if Proper(postfix, direct, code, extra) { CodeOfDistance(postfix, direct, code, extra); }
  }

  // --- in order -------------------------------------------------------------------------------------------

  /** A direct code stands for the distance behind that of the code before it, the first for 1. */
  lemma DirectInOrder(postfix: nat, direct: nat, code: nat)
    requires 16 <= code < 16 + direct
    ensures Distance(postfix, direct, 16, 0) == 1
    ensures code + 1 < 16 + direct ==>
      Distance(postfix, direct, code + 1, 0) == Distance(postfix, direct, code, 0) + 1
  {
  }

  /** The first codes behind the direct ones have one extra bit, and the next distances. */
  lemma FirstLong(postfix: nat, direct: nat, l: nat, extra: nat)
    requires l < Pow2(postfix) && extra < 2
    ensures ExtraBits(postfix, direct, 16 + direct + l) == 1
    ensures Distance(postfix, direct, 16 + direct + l, 0) == direct + 1 + l
    ensures Distance(postfix, direct, 16 + direct + l, 1) == direct + 1 + l + Pow2(postfix)
  {
    ShlZero(postfix);
    JoinParts(0, l, postfix);
    ExtraBitsOfHigh(postfix, direct, 16 + direct + l);
    assert Offset(0) == 0;
    DistanceIsJoin(postfix, direct, 16 + direct + l, 0, 0);
    DistanceIsJoin(postfix, direct, 16 + direct + l, 1, 0);
    ShlOne(postfix);
  }

  lemma {:induction false} ShlZero(k: nat)
    ensures Shl(0, k) == 0
  {
    if k > 0 { ShlZero(k - 1); }
  }

  /** One more in the extra bits is `1 << NPOSTFIX` more in the distance. */
  lemma ExtraInOrder(postfix: nat, direct: nat, code: nat, extra: nat)
    requires code >= 16 + direct
    ensures Distance(postfix, direct, code, extra + 1) == Distance(postfix, direct, code, extra) + Pow2(postfix)
  {
    var h := High(postfix, direct, code);
    DistanceIsJoin(postfix, direct, code, extra, h);
    DistanceIsJoin(postfix, direct, code, extra + 1, h);
    ShlSum(Offset(h) + extra, 1, postfix);
    ShlOne(postfix);
  }

  /**
    The code `1 << NPOSTFIX` further goes on where the extra bits of this one end; the one after it has one extra bit
    more.
  */
  lemma CodesInOrder(postfix: nat, direct: nat, code: nat, next: nat)
    requires code >= 16 + direct && next == code + Pow2(postfix)
    ensures Distance(postfix, direct, next, 0)
         == Distance(postfix, direct, code, Pow2(ExtraBits(postfix, direct, code)) - 1) + Pow2(postfix)
    ensures ExtraBits(postfix, direct, next + Pow2(postfix)) == ExtraBits(postfix, direct, code) + 1
  {
    var h, n := High(postfix, direct, code), ExtraBits(postfix, direct, code);
    NextHigh(postfix, direct, code, next, h);
    NextHigh(postfix, direct, next, next + Pow2(postfix), h + 1);
    ExtraBitsOfHigh(postfix, direct, code);
    ExtraBitsOfHigh(postfix, direct, next + Pow2(postfix));
    OffsetNext(h, n);
    ExtraInOrder(postfix, direct, code, Pow2(n) - 1);
    SameJoin(postfix, direct, code, Pow2(n), h, next);
  }

  lemma NextHigh(postfix: nat, direct: nat, code: nat, next: nat, h: nat)
    requires code >= 16 + direct && next == code + Pow2(postfix) && h == High(postfix, direct, code)
    ensures High(postfix, direct, next) == h + 1
    ensures (next - direct - 16) % Pow2(postfix) == (code - direct - 16) % Pow2(postfix)
  {
    var l := (code - direct - 16) % Pow2(postfix);
    PartsJoin(code - direct - 16, postfix);
    ShlSum(h, 1, postfix);
    ShlOne(postfix);
    JoinParts(h + 1, l, postfix);
  }

  lemma OffsetNext(h: nat, n: nat)
    requires n == 1 + h / 2
    ensures Offset(h + 1) == Offset(h) + Pow2(n)
  {
    ShlOne(n);
    if h % 2 == 0 {
      ShlSum(2, 1, n);
    } else {
      ShlSum(3, 1, n);
      ShlAdd(2, n, 1);
      ShlScale(2, 2, n);
      assert (h + 1) / 2 == h / 2 + 1;
    }
  }

  lemma SameJoin(postfix: nat, direct: nat, code: nat, extra: nat, h: nat, next: nat)
    requires code >= 16 + direct && next == code + Pow2(postfix) && h == High(postfix, direct, code)
    requires High(postfix, direct, next) == h + 1 && Offset(h + 1) == Offset(h) + extra
    requires (next - direct - 16) % Pow2(postfix) == (code - direct - 16) % Pow2(postfix)
    ensures Distance(postfix, direct, next, 0) == Distance(postfix, direct, code, extra)
  {
    DistanceIsJoin(postfix, direct, code, extra, h);
    DistanceIsJoin(postfix, direct, next, 0, h + 1);
  }

  // --- in 32 bits -----------------------------------------------------------------------------------------

  lemma {:induction false} ShlOfPower(m: nat, k: nat)
    ensures Shl(Pow2(m), k) == Pow2(m + k)
    decreases k
  {
    if k > 0 { ShlOfPower(m, k - 1); }
  }

  /** The code numbers of the alphabet of 16 + NDIRECT + (48 << NPOSTFIX) symbols. */
  predicate InAlphabet(postfix: nat, direct: nat, code: nat) {
    16 + direct <= code < 16 + direct + Shl(48, postfix)
  }

  lemma HighBelow(postfix: nat, direct: nat, code: nat)
    requires InAlphabet(postfix, direct, code)
    ensures High(postfix, direct, code) < 48
  {
    var d, h := code - direct - 16, High(postfix, direct, code);
    PartsJoin(d, postfix);
    if h >= 48 { if h > 48 { ShlMonotone(48, h, postfix); } }
  }

  /** They are the codes with at most 24 extra bits. */
  lemma AlphabetExactly(postfix: nat, direct: nat, code: nat)
    requires code >= 16 + direct
    ensures InAlphabet(postfix, direct, code) <==> ExtraBits(postfix, direct, code) <= 24
  {
    var d, h := code - direct - 16, High(postfix, direct, code);
    ExtraBitsOfHigh(postfix, direct, code);
    PartsJoin(d, postfix);
    if InAlphabet(postfix, direct, code) { HighBelow(postfix, direct, code); }
    if h < 48 {
      ShlMonotone(h, 47, postfix);
      ShlSum(47, 1, postfix);
      ShlOne(postfix);
    }
  }

  /** The words of the computation stay below 2^32, so no truncation shows. */
  lemma NoWrap(postfix: nat, direct: nat, code: nat, extra: nat, h: nat, n: nat)
    requires postfix <= 3 && direct < 256 && InAlphabet(postfix, direct, code) && Proper(postfix, direct, code, extra)
    requires h == High(postfix, direct, code) && n == ExtraBits(postfix, direct, code)
    ensures n <= 24 && 4 <= Shl(2 + h % 2, n) < TWO32
    ensures 0 <= Shl(2 + h % 2, n) - 4 + extra < TWO32 && Shl(Shl(2 + h % 2, n) - 4 + extra, postfix) + 0x108 < TWO32
  {
    HighBelow(postfix, direct, code);
    ExtraBitsOfHigh(postfix, direct, code);
    OffsetIsWhole(h, extra);
    WordBound(2 + h % 2, n, extra, postfix);
  }

  lemma WordBound(top: nat, n: nat, extra: nat, postfix: nat)
    requires top < 4 && n <= 24 && extra < Pow2(n) && postfix <= 3
    ensures Shl(top, n) + extra < Pow2(26) < TWO32 && Shl(Shl(top, n) - 4 + extra, postfix) + 0x108 < TWO32
  {
    ShlOne(n);
    ShlSumBound(top, extra, n);
    Pow2Monotone(n + 2, 26);
    ShlMonotone(Shl(top, n) - 4 + extra, Pow2(26), postfix);
    ShlOfPower(26, postfix);
    Pow2Monotone(26 + postfix, 29);
    assert Pow2(8) == 256 && Pow2(16) == 0x1_0000;
    assert Pow2(24) == 0x100_0000;
    assert Pow2(29) == 0x2000_0000;
  }

  lemma ShlSumBound(top: nat, extra: nat, n: nat)
    requires top < 4 && extra < Pow2(n)
    ensures Shl(top, n) + extra < Pow2(n + 2)
  {
    ShlIsProduct(top, n);
    MulMonotone(Pow2(n), top, 3);
    assert top * Pow2(n) == Pow2(n) * top;
  }

  function Dword(x: int): nat {
    x % TWO32
  }

  lemma DwordSmall(x: int)
    requires 0 <= x < TWO32
    ensures Dword(x) == x
  {
  }

  lemma DwordAdd(x: int, y: int)
    ensures Dword(Dword(x) + y) == Dword(x + y)
  {
  }

  lemma {:induction false} DwordShl(x: int, p: nat)
    ensures Dword(Shl(Dword(x), p)) == Dword(Shl(x, p))
  {
    if p > 0 {
      DwordShl(x, p - 1);
      DwordTwice(Shl(Dword(x), p - 1));
      DwordTwice(Shl(x, p - 1));
    }
  }

  lemma DwordTwice(x: int)
    ensures Dword(2 * Dword(x)) == Dword(2 * x)
  {
  }

  /** `offset` and the sum around it, every intermediate result cut to 32 bits. */
  function DwordSum(top: int, dextra: nat, postfix: nat, lcode: nat, direct: nat): nat {
    var offset := Dword(Dword(top) - 4);
    Dword(Dword(Shl(Dword(offset + dextra), postfix)) + lcode + direct + 1)
  }

  lemma DwordSumIs(top: int, dextra: nat, postfix: nat, lcode: nat, direct: nat)
    ensures DwordSum(top, dextra, postfix, lcode, direct) == Dword(Shl(top - 4 + dextra, postfix) + lcode + direct + 1)
  {
    DwordAdd(top, -4);
    DwordAdd(top - 4, dextra);
    DwordShl(top - 4 + dextra, postfix);
    DwordAdd(Shl(top - 4 + dextra, postfix), lcode + direct + 1);
  }

  /** Inside the alphabet the distance is a word; beyond it, it need not be. */
  lemma DistanceFits(postfix: nat, direct: nat, code: nat, extra: nat)
    requires postfix <= 3 && direct < 256 && InAlphabet(postfix, direct, code) && Proper(postfix, direct, code, extra)
    ensures ExtraBits(postfix, direct, code) < 32 && Distance(postfix, direct, code, extra) < TWO32
  {
    NoWrap(postfix, direct, code, extra, High(postfix, direct, code), ExtraBits(postfix, direct, code));
    LowBelow(code - direct - 16, postfix);
  }

  lemma LowBelow(x: nat, postfix: nat)
    requires postfix <= 3
    ensures x % Pow2(postfix) < 8
  {
    Pow2Monotone(postfix, 3);
    assert Pow2(3) == 8;
  }

  /** The branch for a code behind the direct ones; shifting a 32-bit word by 32 or more is a failure. */
  method DecodeLong(postfix: nat, direct: nat, dcode: nat, dextra: nat) returns (ok: bool, distance: nat)
    requires dcode >= 16 + direct
    ensures ok <==> ExtraBits(postfix, direct, dcode) < 32
    ensures ok ==> distance == Dword(Distance(postfix, direct, dcode, dextra))
  {
    var ndistbits := ExtraBits(postfix, direct, dcode);
    ok, distance := ndistbits < 32, 0;
    if ok {
      var hcode := High(postfix, direct, dcode);
      var lcode: nat := (dcode - direct - 16) % Pow2(postfix);
      var top := Shl(2 + hcode % 2, ndistbits);
      DwordSumIs(top, dextra, postfix, lcode, direct);
      assert Distance(postfix, direct, dcode, dextra) == Shl(top - 4 + dextra, postfix) + lcode + direct + 1;
      distance := DwordSum(top, dextra, postfix, lcode, direct);
    }
  }

  /** The block that turns a code of at least 16 into a distance. */
  method DecodeDistance(postfix: nat, direct: nat, dcode: nat, dextra: nat) returns (ok: bool, distance: nat)
    requires Proper(postfix, direct, dcode, dextra)
    ensures ok <==> dcode < 16 + direct || ExtraBits(postfix, direct, dcode) < 32
    ensures ok && dcode >= 16 + direct ==> distance == Dword(Distance(postfix, direct, dcode, dextra))
    ensures dcode < 16 + direct || (postfix <= 3 && direct < 256 && InAlphabet(postfix, direct, dcode)) ==>
      && ok && distance == Distance(postfix, direct, dcode, dextra) > 0
      && (dcode, dextra) == CodeOf(postfix, direct, distance)
  {
    CodeOfDistance(postfix, direct, dcode, dextra);
    if dcode < direct + 16 {
      return true, dcode - 15;
    }
    ok, distance := DecodeLong(postfix, direct, dcode, dextra);
    if postfix <= 3 && direct < 256 && InAlphabet(postfix, direct, dcode) {
      DistanceFits(postfix, direct, dcode, dextra);
      DwordSmall(Distance(postfix, direct, dcode, dextra));
    }
  }

  /** A code and its extra bits can be recovered from the 32-bit distance if and only if the distance did not wrap. */
  lemma RecoveredExactly(postfix: nat, direct: nat, code: nat, extra: nat, distance: nat)
    requires Proper(postfix, direct, code, extra) && distance == Dword(Distance(postfix, direct, code, extra))
    ensures distance > 0 && CodeOf(postfix, direct, distance) == (code, extra) <==>
      Distance(postfix, direct, code, extra) < TWO32
  {
    CodeOfDistance(postfix, direct, code, extra);
    if distance > 0 { DistancesTile(postfix, direct, code, extra, distance); }
    if Distance(postfix, direct, code, extra) < TWO32 { DwordSmall(Distance(postfix, direct, code, extra)); }
  }

  /** NDIRECT 1 makes an alphabet of 65 symbols of 7 bits; the symbol 78 is one of them whose distance wraps. */
  lemma BeyondWraps()
    ensures Proper(0, 1, 78, 0) && ExtraBits(0, 1, 78) == 31 && 78 >= 16 + 1 + Shl(48, 0)
    ensures Distance(0, 1, 78, 0) == TWO32 + 0x7FFF_FFFE
  {
    assert High(0, 1, 78) == 61;
    ShlIsProduct(3, 31);
    Pow2Words();
    assert Pow2(32) == 2 * Pow2(31);
  }
}
