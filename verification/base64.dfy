/**
  Cryptography/src/BASE64.cpp.  The encoder walks a bit position, the decoder a four-state machine; both are
  measured against the 24-bit groups of section 6.8 of RFC 2045.
*/
module Base64 {
  import opened Words

  const PAD: byte := '=' as int

  /** The alphabet table. */
  function B64(x: nat): byte
    requires x < 64
  {
    if x < 26 then 'A' as int + x
    else if x < 52 then 'a' as int + (x - 26)
    else if x < 62 then '0' as int + (x - 52)
    else if x == 62 then '+' as int
    else '/' as int
  }

  function Value(c: byte): (v: Option<nat>)
    ensures v.Some? ==> v.value < 64 && B64(v.value) == c && c != PAD
  {
    if 'A' as int <= c <= 'Z' as int then Some(c - 'A' as int)
    else if 'a' as int <= c <= 'z' as int then Some(26 + c as int - 'a' as int)
    else if '0' as int <= c <= '9' as int then Some(52 + c as int - '0' as int)
    else if c == '+' as int then Some(62)
    else if c == '/' as int then Some(63)
    else None
  }

  lemma ValueOfB64(x: nat)
    requires x < 64
    ensures Value(B64(x)) == Some(x)
  {
  }

  // --- the reference: groups of 24 bits -------------------------------------------------------------------

  function ByteAt(data: seq<byte>, i: nat): byte {
    if i < |data| then data[i] else 0
  }

  /** Three octets as one number, missing octets as zeros. */
  function Group(data: seq<byte>, q: nat): nat {
    0x1_0000 * ByteAt(data, 3 * q) as int + 0x100 * ByteAt(data, 3 * q + 1) as int + ByteAt(data, 3 * q + 2) as int
  }

  /** Character `i` of a group stands for its i-th six bits, highest first. */
  function Sextet(data: seq<byte>, q: nat, i: nat): (x: nat)
    ensures x < 64
  {
    var g := Group(data, q);
    match i
    case 0 => g / 0x4_0000 % 64
    case 1 => g / 0x1000 % 64
    case 2 => g / 0x40 % 64
    case _ => g % 64
  }

  /** The number of characters that carry data. */
  function Sextets(n: nat): nat {
    (8 * n + 5) / 6
  }

  function EncodedLength(n: nat): nat {
    4 * ((n + 2) / 3)
  }

  function Encoding(data: seq<byte>): (s: seq<byte>)
    ensures |s| == EncodedLength(|data|)
  {
    seq(EncodedLength(|data|), k requires 0 <= k =>
      if k < Sextets(|data|) then B64(Sextet(data, k / 4, k % 4)) else PAD)
  }

  /** How many of the last two characters are padding, counted as the decoder counts them. */
  function Appended(text: seq<byte>): nat
    requires |text| % 4 == 0
  {
    if text == [] then 0
    else (if text[|text| - 1] == PAD then 1 else 0) + (if text[|text| - 2] == PAD then 1 else 0)
  }

  predicate Accepted(text: seq<byte>) {
    && |text| % 4 == 0
    && forall k :: 0 <= k < |text| - Appended(text) ==> Value(text[k]).Some?
  }

  function DigitAt(text: seq<byte>, k: nat): (x: nat)
    ensures x < 64
  {
    if k < |text| && Value(text[k]).Some? then Value(text[k]).value else 0
  }

  /** Four characters as one number. */
  function Quad(text: seq<byte>, q: nat): nat {
    0x4_0000 * DigitAt(text, 4 * q) + 0x1000 * DigitAt(text, 4 * q + 1)
      + 0x40 * DigitAt(text, 4 * q + 2) + DigitAt(text, 4 * q + 3)
  }

  function Octet(text: seq<byte>, q: nat, i: nat): byte {
    var g := Quad(text, q);
    match i
    case 0 => g / 0x1_0000 % 256
    case 1 => g / 0x100 % 256
    case _ => g % 256
  }

  function Decoding(text: seq<byte>): Option<seq<byte>> {
    if !Accepted(text) then None
    else Some(seq(|text| / 4 * 3 - Appended(text), t requires 0 <= t => Octet(text, t / 3, t % 3)))
  }

  // --- six bits at a time and eight bits at a time --------------------------------------------------------

  lemma GroupDigits(a: byte, b: byte, c: byte, g: nat)
    requires g == 0x1_0000 * a as int + 0x100 * b as int + c as int
    ensures g / 0x4_0000 % 64 == a / 4
    ensures g / 0x1000 % 64 == a % 4 * 16 + b / 16
    ensures g / 0x40 % 64 == b % 16 * 4 + c / 64
    ensures g % 64 == c % 64
  {
    var a1: nat, a0: nat, b1: nat, b0: nat, c1: nat, c0: nat := a / 4, a % 4, b / 16, b % 16, c / 64, c % 64;
    assert a as int == 4 * a1 + a0 && b as int == 16 * b1 + b0 && c as int == 64 * c1 + c0;
    DivModUnique(g, 0x4_0000, a1, 0x1_0000 * a0 + 0x100 * b as int + c as int);
    DivModUnique(g, 0x1000, 64 * a1 + (16 * a0 + b1), 0x100 * b0 + c as int);
    DivModUnique(64 * a1 + (16 * a0 + b1), 64, a1, 16 * a0 + b1);
    DivModUnique(g, 0x40, 64 * (64 * a1 + (16 * a0 + b1)) + (4 * b0 + c1), c0);
    DivModUnique(64 * (64 * a1 + (16 * a0 + b1)) + (4 * b0 + c1), 64, 64 * a1 + (16 * a0 + b1), 4 * b0 + c1);
  }

  lemma QuadOctets(x: nat, y: nat, z: nat, w: nat, g: nat)
    requires x < 64 && y < 64 && z < 64 && w < 64
    requires g == 0x4_0000 * x + 0x1000 * y + 0x40 * z + w
    ensures g / 0x1_0000 % 256 == 4 * x + y / 16
    ensures g / 0x100 % 256 == y % 16 * 16 + z / 4
    ensures g % 256 == z % 4 * 64 + w
  {
    var y1, y0, z1, z0 := y / 16, y % 16, z / 4, z % 4;
    assert y == 16 * y1 + y0 && z == 4 * z1 + z0;
    DivModUnique(g, 0x1_0000, 4 * x + y1, 0x1000 * y0 + 0x40 * z + w);
    DivModUnique(g, 0x100, 256 * (4 * x + y1) + (16 * y0 + z1), 64 * z0 + w);
    DivModUnique(256 * (4 * x + y1) + (16 * y0 + z1), 256, 4 * x + y1, 16 * y0 + z1);
    DivModUnique(g, 256, 256 * (4 * x + y1) + (16 * y0 + z1), 64 * z0 + w);
  }

  /** The four sextets of group `q` in terms of its octets. */
  lemma SextetsOf(data: seq<byte>, q: nat)
    ensures var a, b, c := ByteAt(data, 3 * q), ByteAt(data, 3 * q + 1), ByteAt(data, 3 * q + 2);
      && Sextet(data, q, 0) == a / 4
      && Sextet(data, q, 1) == a % 4 * 16 + b / 16
      && Sextet(data, q, 2) == b % 16 * 4 + c / 64
      && Sextet(data, q, 3) == c % 64
  {
    GroupDigits(ByteAt(data, 3 * q), ByteAt(data, 3 * q + 1), ByteAt(data, 3 * q + 2), Group(data, q));
  }

  /** The three octets of quad `q` in terms of its digits. */
  lemma OctetsOf(text: seq<byte>, q: nat, x: nat, y: nat, z: nat, w: nat)
    requires x == DigitAt(text, 4 * q) && y == DigitAt(text, 4 * q + 1)
    requires z == DigitAt(text, 4 * q + 2) && w == DigitAt(text, 4 * q + 3)
    ensures Octet(text, q, 0) == 4 * x + y / 16
    ensures Octet(text, q, 1) == y % 16 * 16 + z / 4
    ensures Octet(text, q, 2) == z % 4 * 64 + w
  {
    QuadOctets(x, y, z, w, Quad(text, q));
  }

  lemma Lengths(n: nat)
    ensures EncodedLength(n) % 4 == 0 && EncodedLength(n) - Sextets(n) == (3 - n % 3) % 3
    ensures EncodedLength(n) / 4 * 3 - (3 - n % 3) % 3 == n
    ensures n > 0 ==> 4 <= EncodedLength(n) < Sextets(n) + 3
  {
    var g, r := n / 3, n % 3;
    assert n == 3 * g + r;
    if r == 0 {} else if r == 1 {} else {}
  }

  lemma QuarterOf(k: nat, q: nat, i: nat)
    requires k == 4 * q + i && i < 4
    ensures k / 4 == q && k % 4 == i
  {
  }

  /** Beyond the data there are only zero bits. */
  lemma SextetBeyond(data: seq<byte>, q: nat, i: nat)
    requires i < 4 && 4 * q + i >= Sextets(|data|)
    ensures Sextet(data, q, i) == 0
  {
    SextetsOf(data, q);
  }

  lemma DigitOfEncoding(data: seq<byte>, q: nat, i: nat, k: nat)
    requires i < 4 && k == 4 * q + i && k < EncodedLength(|data|)
    ensures DigitAt(Encoding(data), k) == Sextet(data, q, i)
  {
    QuarterOf(k, q, i);
    if k < Sextets(|data|) { ValueOfB64(Sextet(data, q, i)); } else { SextetBeyond(data, q, i); }
  }

  lemma DigitsOfEncoding(data: seq<byte>, q: nat)
    requires 4 * q + 3 < EncodedLength(|data|)
    ensures DigitAt(Encoding(data), 4 * q) == Sextet(data, q, 0)
    ensures DigitAt(Encoding(data), 4 * q + 1) == Sextet(data, q, 1)
    ensures DigitAt(Encoding(data), 4 * q + 2) == Sextet(data, q, 2)
    ensures DigitAt(Encoding(data), 4 * q + 3) == Sextet(data, q, 3)
  {
    DigitOfEncoding(data, q, 0, 4 * q);
    DigitOfEncoding(data, q, 1, 4 * q + 1);
    DigitOfEncoding(data, q, 2, 4 * q + 2);
    DigitOfEncoding(data, q, 3, 4 * q + 3);
  }

  lemma OctetsOfEncoding(data: seq<byte>, q: nat)
    requires 3 * q < |data|
    ensures Octet(Encoding(data), q, 0) == ByteAt(data, 3 * q)
    ensures Octet(Encoding(data), q, 1) == ByteAt(data, 3 * q + 1)
    ensures Octet(Encoding(data), q, 2) == ByteAt(data, 3 * q + 2)
  {
    DigitsOfEncoding(data, q);
    SextetsOf(data, q);
    OctetsOf(Encoding(data), q, Sextet(data, q, 0), Sextet(data, q, 1), Sextet(data, q, 2), Sextet(data, q, 3));
    ByteParts(ByteAt(data, 3 * q), ByteAt(data, 3 * q + 1), ByteAt(data, 3 * q + 2));
  }

  lemma OctetOfEncoding(data: seq<byte>, t: nat, q: nat, i: nat)
    requires t < |data| && t == 3 * q + i && i < 3
    ensures Octet(Encoding(data), q, i) == data[t]
  {
    OctetsOfEncoding(data, q);
  }

  lemma ByteParts(a: byte, b: byte, c: byte)
    ensures 4 * (a / 4) as int + (a % 4 * 16 + b / 16) as int / 16 == a
    ensures (a % 4 * 16 + b / 16) as int % 16 * 16 + (b % 16 * 4 + c / 64) as int / 4 == b
    ensures (b % 16 * 4 + c / 64) as int % 4 * 64 + c as int % 64 == c
  {
    var a0: nat, b1: nat, b0: nat, c1: nat := a % 4, b / 16, b % 16, c / 64;
    DivModUnique(a0 * 16 + b1, 16, a0, b1);
    DivModUnique(b0 * 4 + c1, 4, b0, c1);
  }

  lemma CharOfEncoding(data: seq<byte>, k: nat)
    requires k < |Encoding(data)|
    ensures k < Sextets(|data|) ==> Value(Encoding(data)[k]) == Some(Sextet(data, k / 4, k % 4))
    ensures Encoding(data)[k] == PAD <==> k >= Sextets(|data|)
  {
    ValueOfB64(Sextet(data, k / 4, k % 4));
  }

  lemma EncodingPadding(data: seq<byte>)
    ensures |Encoding(data)| % 4 == 0
    ensures Appended(Encoding(data)) == EncodedLength(|data|) - Sextets(|data|)
  {
    var n := |Encoding(data)|;
    Lengths(|data|);
    if n > 0 {
      CharOfEncoding(data, n - 1);
      CharOfEncoding(data, n - 2);
    }
  }

  lemma EncodingAccepted(data: seq<byte>)
    ensures Accepted(Encoding(data))
    ensures |Encoding(data)| / 4 * 3 - Appended(Encoding(data)) == |data|
  {
    var text := Encoding(data);
    Lengths(|data|);
    EncodingPadding(data);
    forall k | 0 <= k < |text| - Appended(text) ensures Value(text[k]).Some? {
      CharOfEncoding(data, k);
    }
  }

  /** What was encoded decodes to itself. */
  lemma DecodeEncode(data: seq<byte>)
    ensures Decoding(Encoding(data)) == Some(data)
  {
    EncodingAccepted(data);
    var out := Decoding(Encoding(data)).value;
    forall t | 0 <= t < |data| ensures out[t] == data[t] {
      OctetOfEncoding(data, t, t / 3, t % 3);
    }
    assert out == data;
  }

  // --- which texts are encodings --------------------------------------------------------------------------

  /** The bits of the last data character that no octet uses are zero. */
  predicate Canonical(text: seq<byte>)
    requires Accepted(text)
  {
    var a := Appended(text);
    a == 0 || (if a == 1 then DigitAt(text, |text| - 2) % 4 == 0 else DigitAt(text, |text| - 3) % 16 == 0)
  }

  /** Sextets of octets that came from digits: the digits again, unless the octet behind them was cut off. */
  lemma DigitsXY(a: nat, b: nat, x: nat, y: nat, z: nat, there: bool)
    requires x < 64 && y < 64 && z < 64
    requires a == 4 * x + y / 16 && b == if there then y % 16 * 16 + z / 4 else 0
    ensures a / 4 == x && (a % 4 * 16 + b / 16 == y <==> there || y % 16 == 0)
  {
    var y1, y0, z1 := y / 16, y % 16, z / 4;
    DivModUnique(a, 4, x, y1);
    if there { DivModUnique(b, 16, y0, z1); }
  }

  lemma DigitsZW(b: nat, c: nat, y: nat, z: nat, w: nat, there: bool)
    requires y < 64 && z < 64 && w < 64
    requires b == y % 16 * 16 + z / 4 && c == if there then z % 4 * 64 + w else 0
    ensures b % 16 * 4 + c / 64 == z <==> there || z % 4 == 0
    ensures there ==> c % 64 == w
  {
    var y0, z1, z0 := y % 16, z / 4, z % 4;
    DivModUnique(b, 16, y0, z1);
    if there { DivModUnique(c, 64, z0, w); }
  }

  /** An accepted text ends in exactly `Appended` padding characters, and its octet count fits. */
  lemma AcceptedShape(text: seq<byte>, data: seq<byte>)
    requires Accepted(text) && Decoding(text) == Some(data)
    ensures EncodedLength(|data|) == |text| && Sextets(|data|) == |text| - Appended(text)
    ensures forall k :: 0 <= k < |text| ==> (text[k] == PAD <==> k >= |text| - Appended(text))
  {
    var g, a := |text| / 4, Appended(text);
    assert |text| == 4 * g && |data| == 3 * g - a;
    if a == 0 {} else if a == 1 {
      assert Value(PAD) == None;
      assert text[|text| - 2] != PAD by { assert Value(text[|text| - 2]).Some?; }
    } else {}
  }

  lemma DecodedOctet(text: seq<byte>, data: seq<byte>, q: nat, i: nat, t: nat)
    requires Accepted(text) && Decoding(text) == Some(data) && i < 3 && t == 3 * q + i
    ensures ByteAt(data, t) == if t < |data| then Octet(text, q, i) else 0
  {
    DivModUnique(t, 3, q, i);
  }

  lemma DecodedQuad(text: seq<byte>, data: seq<byte>, q: nat)
    requires Accepted(text) && Decoding(text) == Some(data) && 4 * q < |text|
    ensures 3 * q < |data| && ByteAt(data, 3 * q) == Octet(text, q, 0)
    ensures ByteAt(data, 3 * q + 1) == if 3 * q + 1 < |data| then Octet(text, q, 1) else 0
    ensures ByteAt(data, 3 * q + 2) == if 3 * q + 2 < |data| then Octet(text, q, 2) else 0
  {
    AcceptedShape(text, data);
    DecodedOctet(text, data, q, 0, 3 * q);
    DecodedOctet(text, data, q, 1, 3 * q + 1);
    DecodedOctet(text, data, q, 2, 3 * q + 2);
  }

  /** The sextets of decoded octets against the digits that they came from; the last octets may be missing. */
  lemma FirstBack(text: seq<byte>, data: seq<byte>, q: nat, x: nat, y: nat)
    requires Accepted(text) && Decoding(text) == Some(data) && 4 * q < |text|
    requires x == DigitAt(text, 4 * q) && y == DigitAt(text, 4 * q + 1)
    ensures Sextet(data, q, 0) == x
    ensures Sextet(data, q, 1) == y <==> 3 * q + 1 < |data| || y % 16 == 0
  {
    var z, w := DigitAt(text, 4 * q + 2), DigitAt(text, 4 * q + 3);
    DecodedQuad(text, data, q);
    OctetsOf(text, q, x, y, z, w);
    SextetsOf(data, q);
    DigitsXY(ByteAt(data, 3 * q), ByteAt(data, 3 * q + 1), x, y, z, 3 * q + 1 < |data|);
  }

  lemma LastBack(text: seq<byte>, data: seq<byte>, q: nat, z: nat, w: nat)
    requires Accepted(text) && Decoding(text) == Some(data) && 4 * q < |text| && 3 * q + 1 < |data|
    requires z == DigitAt(text, 4 * q + 2) && w == DigitAt(text, 4 * q + 3)
    ensures Sextet(data, q, 2) == z <==> 3 * q + 2 < |data| || z % 4 == 0
    ensures 3 * q + 2 < |data| ==> Sextet(data, q, 3) == w
  {
    var x, y := DigitAt(text, 4 * q), DigitAt(text, 4 * q + 1);
    DecodedQuad(text, data, q);
    OctetsOf(text, q, x, y, z, w);
    SextetsOf(data, q);
    DigitsZW(ByteAt(data, 3 * q + 1), ByteAt(data, 3 * q + 2), y, z, w, 3 * q + 2 < |data|);
  }

  lemma LastQuad(text: seq<byte>, data: seq<byte>, q: nat, i: nat)
    requires Accepted(text) && Decoding(text) == Some(data) && i < 4 && 4 * q + i < |text| - Appended(text)
    ensures i >= 1 ==> (3 * q + 1 < |data| <==> Appended(text) < 2 || 4 * q + 4 < |text|)
    ensures i >= 2 ==> 3 * q + 1 < |data| && (3 * q + 2 < |data| <==> Appended(text) < 1 || 4 * q + 4 < |text|)
    ensures i == 3 ==> 3 * q + 2 < |data|
  {
    var g := |text| / 4;
    assert |text| == 4 * g && |data| == 3 * g - Appended(text);
  }

  /** A data character that is not the last of a padded text, or whose unused bits are zero. */
  predicate Kept(text: seq<byte>, k: nat)
    requires |text| % 4 == 0 && k < |text| - Appended(text)
  {
    var a := Appended(text);
    a == 0 || k + 1 < |text| - a || (if a == 1 then DigitAt(text, k) % 4 == 0 else DigitAt(text, k) % 16 == 0)
  }

  lemma KeptAt(text: seq<byte>, data: seq<byte>, q: nat, i: nat, k: nat)
    requires Accepted(text) && Decoding(text) == Some(data)
    requires i < 4 && k == 4 * q + i && k < |text| - Appended(text)
    ensures i == 0 || i == 3 ==> Kept(text, k)
    ensures i == 1 ==> (Kept(text, k) <==> 3 * q + 1 < |data| || DigitAt(text, k) % 16 == 0)
    ensures i == 2 ==> (Kept(text, k) <==> 3 * q + 2 < |data| || DigitAt(text, k) % 4 == 0)
    ensures i >= 2 ==> 3 * q + 1 < |data|
    ensures i == 3 ==> 3 * q + 2 < |data|
  {
    LastQuad(text, data, q, i);
    var g := |text| / 4;
    assert |text| == 4 * g;
  }

  /** It comes back; no other does. */
  lemma SextetBack(text: seq<byte>, data: seq<byte>, q: nat, i: nat, k: nat)
    requires Accepted(text) && Decoding(text) == Some(data)
    requires i < 4 && k == 4 * q + i && k < |text| - Appended(text)
    ensures Sextet(data, q, i) == DigitAt(text, k) <==> Kept(text, k)
  {
    if i <= 1 { EarlyBack(text, data, q, i, k); } else { LateBack(text, data, q, i, k); }
  }

  lemma EarlyBack(text: seq<byte>, data: seq<byte>, q: nat, i: nat, k: nat)
    requires Accepted(text) && Decoding(text) == Some(data)
    requires i < 2 && k == 4 * q + i && k < |text| - Appended(text)
    ensures Sextet(data, q, i) == DigitAt(text, k) <==> Kept(text, k)
  {
    KeptAt(text, data, q, i, k);
    FirstBack(text, data, q, DigitAt(text, 4 * q), DigitAt(text, 4 * q + 1));
  }

  lemma LateBack(text: seq<byte>, data: seq<byte>, q: nat, i: nat, k: nat)
    requires Accepted(text) && Decoding(text) == Some(data)
    requires 2 <= i < 4 && k == 4 * q + i && k < |text| - Appended(text)
    ensures Sextet(data, q, i) == DigitAt(text, k) <==> Kept(text, k)
  {
    KeptAt(text, data, q, i, k);
    LastBack(text, data, q, DigitAt(text, 4 * q + 2), DigitAt(text, 4 * q + 3));
  }

  lemma KeptIsCanonical(text: seq<byte>, k: nat)
    requires Accepted(text) && k < |text| - Appended(text)
    ensures Kept(text, k) <==> k + 1 != |text| - Appended(text) || Canonical(text)
  {
  }

  lemma CharSextet(text: seq<byte>, data: seq<byte>, k: nat)
    requires Accepted(text) && Decoding(text) == Some(data) && k < |text|
    ensures |Encoding(data)| == |text|
    ensures Encoding(data)[k] == text[k] <==>
      (k < |text| - Appended(text) ==> Sextet(data, k / 4, k % 4) == DigitAt(text, k))
  {
    AcceptedShape(text, data);
    CharOfEncoding(data, k);
    if k < |text| - Appended(text) { assert Value(text[k]).Some?; }
  }

  lemma CharBack(text: seq<byte>, data: seq<byte>, k: nat)
    requires Accepted(text) && Decoding(text) == Some(data) && k < |text|
    ensures |Encoding(data)| == |text|
    ensures Encoding(data)[k] == text[k] <==> k + 1 != |text| - Appended(text) || Canonical(text)
  {
    CharSextet(text, data, k);
    if k < |text| - Appended(text) {
      SextetBack(text, data, k / 4, k % 4, k);
      KeptIsCanonical(text, k);
    }
  }

  /** Decoding and encoding again gives the text back exactly for canonical texts. */
  lemma EncodeDecodeExactly(text: seq<byte>)
    requires Accepted(text)
    ensures Encoding(Decoding(text).value) == text <==> Canonical(text)
  {
    var data := Decoding(text).value;
    AcceptedShape(text, data);
    if Canonical(text) {
      CanonicalBack(text, data);
    } else {
      CharBack(text, data, |text| - Appended(text) - 1);
    }
  }

  lemma CanonicalBack(text: seq<byte>, data: seq<byte>)
    requires Accepted(text) && Decoding(text) == Some(data) && Canonical(text)
    ensures Encoding(data) == text
  {
    AcceptedShape(text, data);
    forall k | 0 <= k < |text| ensures Encoding(data)[k] == text[k] {
      CharBack(text, data, k);
    }
  }

  // --- section 4 of RFC 4648 ------------------------------------------------------------------------------

  const CAPITALS: string := "ABCDEFGHIJKLMNOPQRSTUVWXYZ"
  const SMALLS: string := "abcdefghijklmnopqrstuvwxyz"
  const ALPHABET: string := CAPITALS + SMALLS + "0123456789" + "+/"

  lemma CapitalIs(x: nat)
    requires x < 26
    ensures CAPITALS[x] as int == B64(x)
  {
  }

  lemma SmallIs(x: nat)
    requires x < 26
    ensures SMALLS[x] as int == B64(26 + x)
  {
  }

  lemma OtherIs(x: nat)
    requires x < 12
    ensures x < 10 ==> "0123456789"[x] as int == B64(52 + x)
    ensures x >= 10 ==> "+/"[x - 10] as int == B64(52 + x)
  {
  }

  lemma AlphabetIs(x: nat)
    requires x < 64
    ensures |ALPHABET| == 64 && B64(x) == ALPHABET[x] as int
  {
    if x < 26 { CapitalIs(x); } else if x < 52 { SmallIs(x - 26); } else { OtherIs(x - 52); }
  }

  lemma ValueExactly(c: byte)
    ensures Value(c).Some? <==> exists x :: 0 <= x < |ALPHABET| && c == ALPHABET[x] as int
  {
    if Value(c).Some? {
      var v := Value(c).value;
      AlphabetIs(v);
      assert c == ALPHABET[v] as int;
    }
    if x :| 0 <= x < |ALPHABET| && c == ALPHABET[x] as int {
      AlphabetIs(x);
      ValueOfB64(x);
    }
  }

  /** Three octets are four characters; one or two of them are padded. */
  lemma EncodeThree(a: byte, b: byte, c: byte)
    ensures Encoding([a, b, c]) == [B64(a / 4), B64(a % 4 * 16 + b / 16), B64(b % 16 * 4 + c / 64), B64(c % 64)]
  {
    SextetsOf([a, b, c], 0);
    FourOf([a, b, c]);
  }

  lemma EncodeTwo(a: byte, b: byte)
    ensures Encoding([a, b]) == [B64(a / 4), B64(a % 4 * 16 + b / 16), B64(b % 16 * 4), PAD]
  {
    SextetsOf([a, b], 0);
    FourOf([a, b]);
  }

  lemma EncodeOne(a: byte)
    ensures Encoding([a]) == [B64(a / 4), B64(a % 4 * 16), PAD, PAD]
  {
    SextetsOf([a], 0);
    FourOf([a]);
  }

  lemma FourOf(data: seq<byte>)
    requires 1 <= |data| <= 3
    ensures var s := Encoding(data);
      |s| == 4 && s[0] == B64(Sextet(data, 0, 0)) && s[1] == B64(Sextet(data, 0, 1))
      && s[2] == (if |data| >= 2 then B64(Sextet(data, 0, 2)) else PAD)
      && s[3] == (if |data| == 3 then B64(Sextet(data, 0, 3)) else PAD)
  {
  }

  /** Groups of three octets are encoded on their own. */
  lemma EncodingConcat(a: seq<byte>, b: seq<byte>)
    requires |a| % 3 == 0
    ensures Encoding(a + b) == Encoding(a) + Encoding(b)
  {
    var n := |a| / 3;
    assert |a| == 3 * n;
    JoinedLengths(n, |b|);
    forall k | 0 <= k < 4 * n ensures Encoding(a + b)[k] == Encoding(a)[k] { CharOfFirst(a, b, n, k); }
    forall k | 0 <= k < |Encoding(b)| ensures Encoding(a + b)[4 * n + k] == Encoding(b)[k] { CharOfSecond(a, b, n, k); }
    JoinedBy(Encoding(a + b), Encoding(a), Encoding(b));
  }

  lemma JoinedBy(s: seq<byte>, t: seq<byte>, u: seq<byte>)
    requires |s| == |t| + |u| && forall k :: 0 <= k < |t| ==> s[k] == t[k]
    requires forall k :: 0 <= k < |u| ==> s[|t| + k] == u[k]
    ensures s == t + u
  {
  }

  lemma JoinedLengths(n: nat, m: nat)
    ensures EncodedLength(3 * n) == 4 * n == Sextets(3 * n)
    ensures EncodedLength(3 * n + m) == 4 * n + EncodedLength(m) && Sextets(3 * n + m) == 4 * n + Sextets(m)
  {
    DivModUnique(3 * n + m + 2, 3, n + (m + 2) / 3, (m + 2) % 3);
    DivModUnique(8 * (3 * n + m) + 5, 6, 4 * n + (8 * m + 5) / 6, (8 * m + 5) % 6);
  }

  lemma CharOfFirst(a: seq<byte>, b: seq<byte>, n: nat, k: nat)
    requires |a| == 3 * n && k < 4 * n <= |Encoding(a + b)| && |Encoding(a)| == 4 * n
    requires 4 * n == Sextets(|a|) && 4 * n <= Sextets(|a + b|)
    ensures Encoding(a + b)[k] == Encoding(a)[k]
  {
    var q := k / 4;
    assert 3 * q + 2 < |a|;
    assert Group(a + b, q) == Group(a, q);
  }

  lemma CharOfSecond(a: seq<byte>, b: seq<byte>, n: nat, k: nat)
    requires |a| == 3 * n && 4 * n + k < |Encoding(a + b)| && k < |Encoding(b)|
    requires Sextets(|a + b|) == 4 * n + Sextets(|b|)
    ensures Encoding(a + b)[4 * n + k] == Encoding(b)[k]
  {
    var q := k / 4;
    QuarterOf(4 * n + k, n + q, k % 4);
    assert Group(a + b, n + q) == Group(b, q);
  }

  type Ascii = s: string | forall i :: 0 <= i < |s| ==> s[i] as int < 0x80

  function Octets(s: Ascii): (b: seq<byte>)
    ensures |b| == |s| && forall i :: 0 <= i < |s| ==> b[i] == s[i] as int
  {
    seq(|s|, i requires 0 <= i < |s| => s[i] as int)
  }

  lemma Spelled(s: Ascii, c: char, d: char, e: char, f: char)
    requires s == [c, d, e, f]
    ensures c as int < 0x80 && d as int < 0x80 && e as int < 0x80 && f as int < 0x80
    ensures Octets(s) == [c as int, d as int, e as int, f as int]
  {
    assert s[0] == c && s[1] == d && s[2] == e && s[3] == f;
  }

  lemma EncodeNone()
    ensures Encoding([]) == []
  {
  }

  /** The test vectors of section 10 of RFC 4648. */
  lemma F(f: byte)
    requires f == 'f' as int
    ensures Encoding([f]) == Octets("Zg==")
  {
    EncodeOne(f);
    Spelled("Zg==", 'Z', 'g', '=', '=');
  }

  lemma Fo(f: byte, o: byte)
    requires f == 'f' as int && o == 'o' as int
    ensures Encoding([f, o]) == Octets("Zm8=")
  {
    EncodeTwo(f, o);
    Spelled("Zm8=", 'Z', 'm', '8', '=');
  }

  lemma Foo(f: byte, o: byte)
    requires f == 'f' as int && o == 'o' as int
    ensures Encoding([f, o, o]) == Octets("Zm9v")
  {
    EncodeThree(f, o, o);
    Spelled("Zm9v", 'Z', 'm', '9', 'v');
  }

  lemma B(b: byte)
    requires b == 'b' as int
    ensures Encoding([b]) == Octets("Yg==")
  {
    EncodeOne(b);
    Spelled("Yg==", 'Y', 'g', '=', '=');
  }

  lemma Ba(b: byte, a: byte)
    requires b == 'b' as int && a == 'a' as int
    ensures Encoding([b, a]) == Octets("YmE=")
  {
    EncodeTwo(b, a);
    Spelled("YmE=", 'Y', 'm', 'E', '=');
  }

  lemma Bar(b: byte, a: byte, r: byte)
    requires b == 'b' as int && a == 'a' as int && r == 'r' as int
    ensures Encoding([b, a, r]) == Octets("YmFy")
  {
    EncodeThree(b, a, r);
    Spelled("YmFy", 'Y', 'm', 'F', 'y');
  }

  lemma OctetsConcat(s: Ascii, t: Ascii)
    ensures Octets(s + t) == Octets(s) + Octets(t)
  {
  }

  lemma Foob()
    ensures Encoding(Octets("foo" + "b")) == Octets("Zm9v" + "Yg==")
  {
    var f, o, b := 'f' as int, 'o' as int, 'b' as int;
    Foo(f, o);
    B(b);
    EncodingConcat([f, o, o], [b]);
    OctetsConcat("foo", "b");
    assert Octets("foo") == [f, o, o] && Octets("b") == [b];
    OctetsConcat("Zm9v", "Yg==");
  }

  lemma Fooba()
    ensures Encoding(Octets("foo" + "ba")) == Octets("Zm9v" + "YmE=")
  {
    var f, o, b, a := 'f' as int, 'o' as int, 'b' as int, 'a' as int;
    Foo(f, o);
    Ba(b, a);
    EncodingConcat([f, o, o], [b, a]);
    OctetsConcat("foo", "ba");
    assert Octets("foo") == [f, o, o] && Octets("ba") == [b, a];
    OctetsConcat("Zm9v", "YmE=");
  }

  lemma Foobar()
    ensures Encoding(Octets("foo" + "bar")) == Octets("Zm9v" + "YmFy")
  {
    var f, o, b, a, r := 'f' as int, 'o' as int, 'b' as int, 'a' as int, 'r' as int;
    Foo(f, o);
    Bar(b, a, r);
    EncodingConcat([f, o, o], [b, a, r]);
    OctetsConcat("foo", "bar");
    assert Octets("foo") == [f, o, o] && Octets("bar") == [b, a, r];
    OctetsConcat("Zm9v", "YmFy");
  }

  /** A text is accepted if and only if it is characters of the alphabet and at most two of padding. */
  lemma AcceptedExactly(text: seq<byte>)
    ensures Accepted(text) <==> |text| % 4 == 0 && exists a :: 0 <= a <= 2 && PaddedBy(text, a)
  {
    if Accepted(text) {
      var data := Decoding(text).value;
      AcceptedShape(text, data);
      assert PaddedBy(text, Appended(text));
    }
    if |text| % 4 == 0 && text != [] {
      forall a | 0 <= a <= 2 && PaddedBy(text, a) ensures Appended(text) == a {
        LastTwo(text, a);
      }
    }
  }

  ghost predicate PaddedBy(text: seq<byte>, a: nat) {
    && a <= |text|
    && (forall k :: 0 <= k < |text| - a ==> Value(text[k]).Some?)
    && (forall k :: |text| - a <= k < |text| ==> text[k] == PAD)
  }

  lemma LastTwo(text: seq<byte>, a: nat)
    requires |text| >= 4 && |text| % 4 == 0 && a <= 2 && PaddedBy(text, a)
    ensures Appended(text) == a
  {
    var n := |text|;
    assert n - 1 >= n - a ==> text[n - 1] == PAD;
    assert n - 2 >= n - a ==> text[n - 2] == PAD;
    assert n - 1 < n - a ==> Value(text[n - 1]).Some?;
    assert n - 2 < n - a ==> Value(text[n - 2]).Some?;
  }

  // --- the encoder ----------------------------------------------------------------------------------------

  lemma BitPosition(q: nat, r: nat)
    requires r < 4
    ensures (24 * q + 6 * r) / 8 == 3 * q + (if r <= 1 then 0 else r - 1)
    ensures (24 * q + 6 * r) % 8 == if r == 0 then 0 else if r == 1 then 6 else if r == 2 then 4 else 2
  {
    if r == 0 {} else if r == 1 {} else if r == 2 {} else {}
  }

  lemma OrParts(x: nat, y: nat, k: nat, p: nat)
    requires p == Pow2(k) && x % p == 0 && y < p
    ensures Or(x, y) == x + y
  {
    LowClearMultiple(x, k);
    OrDisjoint(x, y, k);
  }

  lemma SmallPowers()
    ensures Pow2(2) == 4 && Pow2(4) == 16 && Pow2(6) == 64
  {
  }

  lemma TwoAndFour(a: byte, b: byte)
    ensures Or(a % 4 * 16, b / 16) == a % 4 * 16 + b / 16
  {
    SmallPowers();
    OrParts(a % 4 * 16, b / 16, 4, 16);
  }

  lemma FourAndTwo(b: byte, c: byte)
    ensures Or(b % 16 * 4, c / 64) == b % 16 * 4 + c / 64
  {
    SmallPowers();
    OrParts(b % 16 * 4, c / 64, 2, 4);
  }

  lemma SixWhole(data: seq<byte>, q: nat)
    requires 3 * q < |data|
    ensures data[3 * q] / 4 == Sextet(data, q, 0)
    ensures 3 * q + 2 < |data| ==> data[3 * q + 2] % 64 == Sextet(data, q, 3)
  {
    SextetsOf(data, q);
  }

  lemma SixAcross(data: seq<byte>, q: nat)
    requires 3 * q + 1 < |data|
    ensures Or(data[3 * q] % 4 * 16, data[3 * q + 1] / 16) == Sextet(data, q, 1)
    ensures 3 * q + 2 < |data| ==> Or(data[3 * q + 1] % 16 * 4, data[3 * q + 2] / 64) == Sextet(data, q, 2)
  {
    SextetsOf(data, q);
    TwoAndFour(data[3 * q], data[3 * q + 1]);
    if 3 * q + 2 < |data| { FourAndTwo(data[3 * q + 1], data[3 * q + 2]); }
  }

  /** Six bits that begin in octet `at` of the data and, for the offsets 4 and 6, end in the next one. */
  lemma SixFit(n: nat, q: nat, r: nat, position: nat, at: nat)
    requires r < 4 && position == 24 * q + 6 * r && position + 6 <= 8 * n && at == position / 8
    ensures at < n && at == 3 * q + (if r <= 1 then 0 else r - 1)
    ensures r == 0 || r == 3 ==> (position + 6) / 8 == at + if r == 0 then 0 else 1
    ensures r == 1 ==> (position + 2) / 8 == at + 1 < n && position % 8 == 6
    ensures r == 2 ==> (position + 4) / 8 == at + 1 < n && position % 8 == 4
    ensures (position % 8 == 0 <==> r == 0) && (position % 8 == 2 <==> r == 3)
  {
    BitPosition(q, r);
    if r == 0 {} else if r == 1 {} else if r == 2 {} else {}
  }

  /** The `switch` of the encoder: six whole bits from bit position `position`. */
  method TakeSix(data: seq<byte>, position0: nat, ghost q: nat, ghost r: nat) returns (x: nat, position: nat)
    requires r < 4 && position0 == 24 * q + 6 * r && position0 + 6 <= 8 * |data|
    ensures x == Sextet(data, q, r) && position == position0 + 6
  {
    SixFit(|data|, q, r, position0, position0 / 8);
    position := position0;
    if position % 8 == 0 {
      SixWhole(data, q);
      x := data[position / 8] / 4;
      position := position + 6;
    } else if position % 8 == 2 {
      SixWhole(data, q);
      x := data[position / 8] % 64;
      position := position + 6;
    } else if position % 8 == 4 {
      SixAcross(data, q);
      x := data[position / 8] % 16 * 4;
      position := position + 4;
      x := Or(x, data[position / 8] / 64);
      position := position + 2;
    } else {
      SixAcross(data, q);
      x := data[position / 8] % 4 * 16;
      position := position + 2;
      x := Or(x, data[position / 8] / 16);
      position := position + 4;
    }
  }

  lemma ShiftedOut(b: byte)
    ensures b as int * 16 % 64 == b % 4 * 16 && b as int * 4 % 64 == b % 16 * 4
  {
    DivModUnique(b as int * 16, 64, b as int / 4, b % 4 * 16);
    DivModUnique(b as int * 4, 64, b as int / 16, b % 16 * 4);
  }

  lemma TwoLeft(data: seq<byte>, q: nat)
    requires 24 * q + 6 + 2 == 8 * |data|
    ensures |data| == 3 * q + 1 && Shl(data[3 * q], 4) % 64 == Sextet(data, q, 1)
  {
    SextetsOf(data, q);
    SmallPowers();
    ShlIsProduct(data[3 * q], 4);
    ShiftedOut(data[3 * q]);
  }

  lemma FourLeft(data: seq<byte>, q: nat)
    requires 24 * q + 12 + 4 == 8 * |data|
    ensures |data| == 3 * q + 2 && Shl(data[3 * q + 1], 2) % 64 == Sextet(data, q, 2)
  {
    SextetsOf(data, q);
    SmallPowers();
    ShlIsProduct(data[3 * q + 1], 2);
    ShiftedOut(data[3 * q + 1]);
  }

  lemma LeftOver(n: nat, q: nat, r: nat, readed: nat)
    requires r < 4 && 24 * q + 6 * r + readed == 8 * n && 0 < readed < 6
    ensures (r == 1 && readed == 2) || (r == 2 && readed == 4)
  {
    var e := n - 3 * q;
    assert 6 * r + readed == 8 * e;
    if e == 1 {} else if e == 2 {} else {}
  }

  /** The two or four bits left at the end of the data, zeros added. */
  lemma TakeRest(data: seq<byte>, q: nat, r: nat, readed: nat)
    requires r < 4 && 24 * q + 6 * r + readed == 8 * |data| && 0 < readed < 6
    ensures (24 * q + 6 * r) / 8 == |data| - 1
    ensures Shl(data[|data| - 1], 6 - readed) % 64 == Sextet(data, q, r)
  {
    LeftOver(|data|, q, r, readed);
    if readed == 2 { TwoLeft(data, q); } else { FourLeft(data, q); }
  }

  /** The `while` loop of the encoder. */
  method EncodeLoop(data: seq<byte>) returns (text: seq<byte>)
    ensures |text| <= Sextets(|data|) && 6 * |text| >= 8 * |data|
    ensures forall k :: 0 <= k < |text| ==> text[k] == B64(Sextet(data, k / 4, k % 4))
  {
    ghost var q: nat, r: nat := 0, 0;
    text := [];
    var position: nat := 0;
    while position / 8 < |data|
      invariant r < 4 && |text| == 4 * q + r <= Sextets(|data|) && position == Min(6 * |text|, 8 * |data|)
      invariant forall k :: 0 <= k < |text| ==> text[k] == B64(Sextet(data, k / 4, k % 4))
      decreases 8 * |data| - position
    {
      assert 6 * |text| == 24 * q + 6 * r;
      var available := 8 * |data| - position;
      var x: nat;
      if available >= 6 {
        x, position := TakeSix(data, position, q, r);
      } else {
        TakeRest(data, q, r, available);
        x := Shl(data[position / 8], 6 - available) % 64;
        position := position + available;
      }
      QuarterOf(|text|, q, r);
      text := text + [B64(x)];
      q, r := if r == 3 then q + 1 else q, if r == 3 then 0 else r + 1;
    }
  }

  method Encode(data: seq<byte>) returns (text: seq<byte>)
    ensures text == Encoding(data)
  {
    var length := (|data| / 3 + if |data| % 3 != 0 then 1 else 0) * 4;
    text := EncodeLoop(data);
    PaddingCount(|data|, |text|);
    var padding := (3 - (8 * |data| % 6) / 2) % 3;
    text := text + seq(padding, _ => PAD);
    assert |text| == length;
    assert text == Encoding(data);
  }

  lemma PaddingCount(n: nat, i: nat)
    requires i <= Sextets(n) && 6 * i >= 8 * n
    ensures i == Sextets(n) && i + (3 - (8 * n % 6) / 2) % 3 == EncodedLength(n)
    ensures EncodedLength(n) == (n / 3 + if n % 3 != 0 then 1 else 0) * 4
  {
    Lengths(n);
    var g, r := n / 3, n % 3;
    assert n == 3 * g + r;
    if r == 0 {} else if r == 1 {} else {}
  }

  // --- the decoder ----------------------------------------------------------------------------------------

  /** What `temp` holds after `r` characters of a quad: the bits that no finished octet has taken. */
  function Pending(text: seq<byte>, q: nat, r: nat): nat {
    if r == 0 then 0
    else if r == 1 then DigitAt(text, 4 * q) * 4
    else if r == 2 then DigitAt(text, 4 * q + 1) % 16 * 16
    else DigitAt(text, 4 * q + 2) % 4 * 64
  }

  function StateOf(r: nat): nat {
    if r == 0 then 0 else if r == 1 then 6 else if r == 2 then 4 else 2
  }

  lemma FirstOctet(text: seq<byte>, q: nat)
    ensures var y := DigitAt(text, 4 * q + 1);
      Or(Pending(text, q, 1), y / 16) == Octet(text, q, 0) && y * 16 % 256 == Pending(text, q, 2)
  {
    var x, y := DigitAt(text, 4 * q), DigitAt(text, 4 * q + 1);
    OctetsOf(text, q, x, y, DigitAt(text, 4 * q + 2), DigitAt(text, 4 * q + 3));
    FirstParts(x, y);
  }

  lemma FirstParts(x: nat, y: nat)
    requires x < 64 && y < 64
    ensures Or(x * 4, y / 16) == 4 * x + y / 16 && y * 16 % 256 == y % 16 * 16
  {
    SmallPowers();
    OrParts(x * 4, y / 16, 2, 4);
    DivModUnique(y * 16, 256, y / 16, y % 16 * 16);
  }

  lemma SecondOctet(text: seq<byte>, q: nat)
    ensures var z := DigitAt(text, 4 * q + 2);
      Or(Pending(text, q, 2), z / 4) == Octet(text, q, 1) && z * 64 % 256 == Pending(text, q, 3)
  {
    var y, z := DigitAt(text, 4 * q + 1), DigitAt(text, 4 * q + 2);
    OctetsOf(text, q, DigitAt(text, 4 * q), y, z, DigitAt(text, 4 * q + 3));
    SecondParts(y, z);
  }

  lemma SecondParts(y: nat, z: nat)
    requires y < 64 && z < 64
    ensures Or(y % 16 * 16, z / 4) == y % 16 * 16 + z / 4 && z * 64 % 256 == z % 4 * 64
  {
    SmallPowers();
    OrParts(y % 16 * 16, z / 4, 4, 16);
    DivModUnique(z * 64, 256, z / 4, z % 4 * 64);
  }

  lemma ThirdOctet(text: seq<byte>, q: nat)
    ensures Or(Pending(text, q, 3), DigitAt(text, 4 * q + 3)) == Octet(text, q, 2)
  {
    var z, w := DigitAt(text, 4 * q + 2), DigitAt(text, 4 * q + 3);
    OctetsOf(text, q, DigitAt(text, 4 * q), DigitAt(text, 4 * q + 1), z, w);
    ThirdParts(z, w);
  }

  lemma ThirdParts(z: nat, w: nat)
    requires z < 64 && w < 64
    ensures Or(z % 4 * 64, w) == z % 4 * 64 + w
  {
    SmallPowers();
    OrParts(z % 4 * 64, w, 6, 64);
  }

  /** The `switch` of the decoder: the next state, and an octet if one is complete. */
  method DecodeStep(ghost text: seq<byte>, ghost q: nat, ghost r: nat, x: nat, temp0: nat, pos0: nat)
    returns (temp: nat, pos: nat, full: bool, octet: byte)
    requires r < 4 && x == DigitAt(text, 4 * q + r)
    requires temp0 == Pending(text, q, r) && pos0 == StateOf(r)
    ensures temp == (if r == 3 then 0 else Pending(text, q, r + 1)) && pos == StateOf((r + 1) % 4)
    ensures full <==> r != 0
    ensures full ==> octet == Octet(text, q, r - 1)
  {
    full, octet := false, 0;
    if pos0 == 0 {
      temp := x * 4;
      pos := 6;
    } else if pos0 == 2 {
      ThirdOctet(text, q);
      full, octet := true, Or(temp0, x);
      temp := 0;
      pos := 0;
    } else if pos0 == 4 {
      SecondOctet(text, q);
      full, octet := true, Or(temp0, x / 4);
      temp := x * 64 % 256;
      pos := 2;
    } else {
      FirstOctet(text, q);
      full, octet := true, Or(temp0, x / 16);
      temp := x * 16 % 256;
      pos := 4;
    }
  }

  predicate AreOctets(text: seq<byte>, output: seq<byte>) {
    forall t :: 0 <= t < |output| ==> output[t] == Octet(text, t / 3, t % 3)
  }

  lemma OctetsGrow(text: seq<byte>, output: seq<byte>, q: nat, i: nat, octet: byte)
    requires AreOctets(text, output) && i < 3 && |output| == 3 * q + i && octet == Octet(text, q, i)
    ensures AreOctets(text, output + [octet])
  {
    DivModUnique(|output|, 3, q, i);
  }

  method Decode(text: seq<byte>) returns (result: Option<seq<byte>>)
    ensures result == Decoding(text)
  {
    if |text| % 4 != 0 {
      return None;
    }
    var length := |text| / 4 * 3;
    var append := 0;
    if |text| > 0 && text[|text| - 1] == PAD {
      append := append + 1;
    }
    if |text| > 0 && text[|text| - 2] == PAD {
      append := append + 1;
    }
    length := length - append;
    var output: seq<byte>, temp: nat, pos: nat := [], 0, 0;
    ghost var q: nat, r: nat := 0, 0;
    for i := 0 to |text| - append
      invariant append == Appended(text) && length == |text| / 4 * 3 - append
      invariant forall k :: 0 <= k < i ==> Value(text[k]).Some?
      invariant r < 4 && i == 4 * q + r && temp == Pending(text, q, r) && pos == StateOf(r)
      invariant |output| == 3 * q + Max(r, 1) - 1
      invariant AreOctets(text, output)
    {
      var x := Value(text[i]);
      if x.None? {
        return None;
      }
      var full, octet;
      temp, pos, full, octet := DecodeStep(text, q, r, x.value, temp, pos);
      if full {
        OctetsGrow(text, output, q, r - 1, octet);
        output := output + [octet];
      }
      q, r := if r == 3 then q + 1 else q, if r == 3 then 0 else r + 1;
    }
    assert |output| == length;
    result := Some(output);
    assert output == Decoding(text).value;
  }
}
