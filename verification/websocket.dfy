/**
  CWS/src/WebSocket.cpp over Streaming/src/fully.cpp: frames of section 5.2 of RFC 6455 written to and read from a
  stream that transfers any positive number of bytes at a time, and messages of several frames (section 5.4).
*/
module WebSockets {
  import opened Words
  import opened ByteOrder

  // --- streams --------------------------------------------------------------------------------------------

  /** A connection: what is still to come in, and what has gone out. */
  class Stream {
    var pending: seq<byte>
    var sent: seq<byte>

    /** At least one byte and at most `n`; none when the peer has closed. */
    method Read(n: nat) returns (chunk: seq<byte>)
      requires n > 0
      modifies this`pending
      ensures old(pending) == chunk + pending && |chunk| <= n
      ensures old(pending) != [] ==> chunk != []
    {
      chunk := [];
      if pending != [] {
        var k :| 1 <= k <= n && k <= |pending|;
        chunk, pending := pending[..k], pending[k..];
      }
    }

    method Write(data: seq<byte>) returns (written: nat)
      requires data != []
      modifies this`sent
      ensures 1 <= written <= |data| && sent == old(sent) + data[..written]
    {
      written :| 1 <= written <= |data|;
      sent := sent + data[..written];
    }
  }

  /** `fully::read`: short transfers add up to exactly `length` bytes, unless the peer closes first. */
  method ReadFully(conn: Stream, length: nat) returns (ok: bool, buf: seq<byte>)
    modifies conn`pending
    ensures ok <==> length <= |old(conn.pending)|
    ensures ok ==> buf == old(conn.pending)[..length] && conn.pending == old(conn.pending)[length..]
  {
    buf := [];
    var left: nat := length;
    while left > 0
      invariant old(conn.pending) == buf + conn.pending && |buf| + left == length
    {
      var readed := conn.Read(left);
      if readed == [] {
        return false, buf;
      }
      buf := buf + readed;
      left := left - |readed|;
    }
    assert buf == old(conn.pending)[..length];
    ok := true;
  }

  /** `fully::write`: everything goes out once and in order. */
  method WriteFully(conn: Stream, data: seq<byte>)
    modifies conn`sent
    ensures conn.sent == old(conn.sent) + data
  {
    var i := 0;
    while i < |data|
      invariant 0 <= i <= |data| && conn.sent == old(conn.sent) + data[..i]
    {
      var written := conn.Write(data[i..]);
      assert data[..i] + data[i..][..written] == data[..i + written];
      i := i + written;
    }
  }

  // --- bytes ----------------------------------------------------------------------------------------------

  type Key = k: seq<byte> | |k| == 4 witness [0, 0, 0, 0]

  /** Byte `i` is combined with byte `i % 4` of the key. */
  function Masked(data: seq<byte>, key: Key): (out: seq<byte>)
    ensures |out| == |data|
  {
    seq(|data|, i requires 0 <= i < |data| => XorBytes(data[i], key[i % 4]))
  }

  /** Masking zeros shows the key, four bytes at a time. */
  lemma MaskedZeros(key: Key)
    ensures Masked([0, 0, 0, 0], key) == key
  {
    forall i | 0 <= i < 4 ensures Masked([0, 0, 0, 0], key)[i] == key[i] {
      assert Xor(0, key[i]) == key[i];
    }
  }

  lemma MaskedConcat(a: seq<byte>, b: seq<byte>, key: Key)
    requires |a| % 4 == 0
    ensures Masked(a + b, key) == Masked(a, key) + Masked(b, key)
  {
    forall i | 0 <= i < |b| ensures Masked(a + b, key)[|a| + i] == Masked(b, key)[i] {
      InTurn(|a|, i);
    }
  }

  lemma InTurn(m: nat, i: nat)
    requires m % 4 == 0
    ensures (m + i) % 4 == i % 4
  {
  }

  /** Each bit of the payload is combined with a bit of the key byte whose turn it is. */
  lemma MaskedAt(data: seq<byte>, key: Key, i: nat, k: nat)
    requires i < |data|
    ensures Bit(Masked(data, key)[i], k) <==> Bit(data[i], k) != Bit(key[i % 4], k)
  {
    BitwiseAt(data[i], key[i % 4], k);
  }

  lemma MaskedTwice(data: seq<byte>, key: Key)
    ensures Masked(Masked(data, key), key) == data
  {
    forall i | 0 <= i < |data| ensures Masked(Masked(data, key), key)[i] == data[i] {
      XorTwice(data[i], key[i % 4]);
    }
  }

  lemma MaskedZero(data: seq<byte>)
    ensures Masked(data, [0, 0, 0, 0]) == data
  {
    var key: Key := [0, 0, 0, 0];
    forall i | 0 <= i < |data| ensures Masked(data, key)[i] == data[i] {
      assert key[i % 4] == 0;
    }
  }

  /** Bytes as a number, highest first. */
  function Big(s: seq<byte>): nat {
    if s == [] then 0 else 256 * Big(s[..|s| - 1]) + s[|s| - 1]
  }

  lemma {:induction false} BigOfBytes(x: nat, n: nat)
    requires x < Pow2(8 * n)
    ensures Big(BigEndian(x, n)) == x
  {
    if n > 0 {
      Pow2Eight(8 * (n - 1));
      BigOfBytes(x / 256, n - 1);
      assert BigEndian(x, n)[..n - 1] == BigEndian(x / 256, n - 1);
    }
  }

  lemma Pow2Eight(k: nat)
    ensures Pow2(k + 8) == 256 * Pow2(k)
  {
    Pow2Add(8, k);
    assert Pow2(8) == 256;
  }

  // --- frames ---------------------------------------------------------------------------------------------

  datatype Message = Message(fin: byte, rsv: byte, msk: byte, opc: byte, context: seq<byte>)

  /** What reading a frame gives: its fields and what follows it. */
  datatype Received =
    | Frame(fin: byte, rsv: byte, opc: byte, payload: seq<byte>, rest: seq<byte>)
    | Oversized   // 2^32 bytes or more are announced: only part of the buffer would be filled
    | Closed      // the stream ends inside the frame

  function FirstByte(m: Message): byte {
    128 * (m.fin % 2) + 16 * (m.rsv % 8) + m.opc % 16
  }

  function LengthBytes(m: Message): seq<byte> {
    var mask, n := 128 * (m.msk % 2), |m.context|;
    if n < 126 then [mask + n]
    else if n < 65536 then [mask + 126] + BigEndian(n, 2)
    else [mask + 127] + BigEndian(n, 8)
  }

  function KeyBytes(m: Message, key: Key): seq<byte> {
    if m.msk != 0 then key else []
  }

  /** The bytes that are masked and sent: a 32-bit length is passed to the stream. */
  function SentPayload(m: Message, key: Key): (out: seq<byte>) {
    var data := if m.msk != 0 then Masked(m.context, key) else m.context;
    data[..|data| % TWO32]
  }

  /** A written frame. */
  function Written(m: Message, key: Key): seq<byte> {
    [FirstByte(m)] + (LengthBytes(m) + (KeyBytes(m, key) + SentPayload(m, key)))
  }

  /** Key and payload of a frame whose length is known. */
  function ParseBody(first: byte, masked: bool, length: nat, bytes: seq<byte>): Received {
    var k := if masked then 4 else 0;
    if |bytes| < k + length % TWO32 then Closed
    else if length >= TWO32 then Oversized
    else
      var data := bytes[k..k + length];
      Frame(first / 128, first / 16 % 8, first % 16,
            if masked then Masked(data, bytes[..4]) else data, bytes[k + length..])
  }

  function ParseLong(first: byte, masked: bool, n: nat, bytes: seq<byte>): Received {
    if |bytes| < n then Closed else ParseBody(first, masked, Big(bytes[..n]), bytes[n..])
  }

  /** A frame at the front of `bytes`. */
  function Parse(bytes: seq<byte>): Received {
    if |bytes| < 2 then Closed
    else
      var first, masked, length := bytes[0], bytes[1] >= 128, bytes[1] % 128;
      if length == 126 then ParseLong(first, masked, 2, bytes[2..])
      else if length == 127 then ParseLong(first, masked, 8, bytes[2..])
      else ParseBody(first, masked, length, bytes[2..])
  }

  lemma FirstParts(m: Message)
    ensures FirstByte(m) / 128 == m.fin % 2 && FirstByte(m) / 16 % 8 == m.rsv % 8 && FirstByte(m) % 16 == m.opc % 16
  {
    var f: nat, r: nat, o: nat := m.fin % 2, m.rsv % 8, m.opc % 16;
    DivModUnique(FirstByte(m), 128, f, 16 * r + o);
    DivModUnique(FirstByte(m), 16, 8 * f + r, o);
    DivModUnique(8 * f + r, 8, f, r);
  }

  lemma AfterTwo(a: byte, b: byte, more: seq<byte>, bytes: seq<byte>)
    requires bytes == [a] + ([b] + more)
    ensures |bytes| >= 2 && bytes[0] == a && bytes[1] == b && bytes[2..] == more
  {
  }

  lemma FrontAndTail(front: seq<byte>, tail: seq<byte>)
    ensures (front + tail)[..|front|] == front && (front + tail)[|front|..] == tail
  {
  }

  lemma LongWritten(m: Message, tail: seq<byte>, n: nat, code: nat)
    requires |m.context| < Pow2(8 * n) && ((code == 126 && n == 2) || (code == 127 && n == 8))
    requires LengthBytes(m) == [128 * (m.msk % 2) + code] + BigEndian(|m.context|, n)
    ensures Parse([FirstByte(m)] + (LengthBytes(m) + tail)) ==
            ParseBody(FirstByte(m), m.msk % 2 == 1, |m.context|, tail)
  {
    var bytes, field := [FirstByte(m)] + (LengthBytes(m) + tail), BigEndian(|m.context|, n);
    SecondByte(m.msk, code);
    BigOfBytes(|m.context|, n);
    assert bytes == [FirstByte(m)] + ([128 * (m.msk % 2) + code] + (field + tail));
    AfterTwo(FirstByte(m), 128 * (m.msk % 2) + code, field + tail, bytes);
    FrontAndTail(field, tail);
  }

  lemma ShortWritten(m: Message, tail: seq<byte>)
    requires |m.context| < 126
    ensures Parse([FirstByte(m)] + (LengthBytes(m) + tail)) ==
            ParseBody(FirstByte(m), m.msk % 2 == 1, |m.context|, tail)
  {
    SecondByte(m.msk, |m.context|);
    assert ([FirstByte(m)] + (LengthBytes(m) + tail))[2..] == tail;
  }

  /** The length field is read as the length, and masking as the low bit of MSK says. */
  lemma ParseWritten(m: Message, tail: seq<byte>)
    requires |m.context| < TWO64
    ensures Parse([FirstByte(m)] + (LengthBytes(m) + tail)) ==
            ParseBody(FirstByte(m), m.msk % 2 == 1, |m.context|, tail)
  {
    SmallPowers();
    if |m.context| < 126 {
      ShortWritten(m, tail);
    } else if |m.context| < 65536 {
      LongWritten(m, tail, 2, 126);
    } else {
      LongWritten(m, tail, 8, 127);
    }
  }

  lemma SmallPowers()
    ensures Pow2(16) == 65536 && Pow2(64) == TWO64
  {
    Pow2Words();
  }

  lemma SecondByte(msk: byte, n: nat)
    requires n < 128
    ensures (128 * (msk % 2) + n) % 128 == n && (128 * (msk % 2) + n >= 128 <==> msk % 2 == 1)
  {
    if msk % 2 == 0 { SmallRemainder(n, 128); } else { DivModUnique(128 + n, 128, 1, n); }
  }

  /** What a reader must see: the fields it can carry, the payload, and the rest untouched. */
  ghost predicate Intact(m: Message, key: Key, rest: seq<byte>) {
    Parse(Written(m, key) + rest) == Frame(m.fin % 2, m.rsv % 8, m.opc % 16, m.context, rest)
  }

  lemma WrittenParts(m: Message, key: Key, rest: seq<byte>)
    ensures Written(m, key) + rest ==
            [FirstByte(m)] + (LengthBytes(m) + (KeyBytes(m, key) + (SentPayload(m, key) + rest)))
  {
  }

  lemma MaskedBody(first: byte, data: seq<byte>, key: Key, rest: seq<byte>)
    requires |data| < TWO32
    ensures ParseBody(first, true, |data|, key + (Masked(data, key) + rest))
         == Frame(first / 128, first / 16 % 8, first % 16, data, rest)
  {
    var tail := key + (Masked(data, key) + rest);
    SmallRemainder(|data|, TWO32);
    MaskedTwice(data, key);
    assert tail[..4] == key && tail[4..4 + |data|] == Masked(data, key) && tail[4 + |data|..] == rest;
  }

  lemma BareBody(first: byte, data: seq<byte>, rest: seq<byte>)
    requires |data| < TWO32
    ensures ParseBody(first, false, |data|, [] + (data + rest))
         == Frame(first / 128, first / 16 % 8, first % 16, data, rest)
  {
    var tail := [] + (data + rest);
    SmallRemainder(|data|, TWO32);
    assert tail[0..0 + |data|] == data && tail[0 + |data|..] == rest;
  }

  lemma BodyIntact(m: Message, key: Key, rest: seq<byte>)
    requires |m.context| < TWO32 && (m.msk == 0 || m.msk % 2 == 1)
    ensures ParseBody(FirstByte(m), m.msk % 2 == 1, |m.context|, KeyBytes(m, key) + (SentPayload(m, key) + rest))
         == Frame(m.fin % 2, m.rsv % 8, m.opc % 16, m.context, rest)
  {
    FirstParts(m);
    WholePayload(m, key);
    if m.msk != 0 { MaskedBody(FirstByte(m), m.context, key, rest); } else { BareBody(FirstByte(m), m.context, rest); }
  }

  lemma WholePayload(m: Message, key: Key)
    requires |m.context| < TWO32
    ensures SentPayload(m, key) == if m.msk != 0 then Masked(m.context, key) else m.context
  {
    SmallRemainder(|m.context|, TWO32);
    var data := if m.msk != 0 then Masked(m.context, key) else m.context;
    assert data[..|data|] == data;
  }

  /** With an even non-zero MSK the key is sent but not announced: the frame is read four bytes short. */
  lemma BodyShort(m: Message, key: Key, rest: seq<byte>)
    requires |m.context| < TWO32 && m.msk != 0 && m.msk % 2 == 0
    ensures var p := ParseBody(FirstByte(m), false, |m.context|, KeyBytes(m, key) + (SentPayload(m, key) + rest));
      p.Frame? && |p.rest| == |rest| + 4
  {
    SmallRemainder(|m.context|, TWO32);
  }

  /** A written frame is read back whole, whatever follows, if and only if it is short enough and MSK is 0 or odd. */
  lemma IntactExactly(m: Message, key: Key, rest: seq<byte>)
    requires |m.context| < TWO64
    ensures Intact(m, key, rest) <==> |m.context| < TWO32 && (m.msk == 0 || m.msk % 2 == 1)
  {
    WrittenParts(m, key, rest);
    ParseWritten(m, KeyBytes(m, key) + (SentPayload(m, key) + rest));
    if |m.context| < TWO32 {
      if m.msk == 0 || m.msk % 2 == 1 { BodyIntact(m, key, rest); } else { BodyShort(m, key, rest); }
    }
  }

  // --- the examples of section 5.7 of RFC 6455 ------------------------------------------------------------

  /** "Hello" */
  const HELLO: seq<byte> := [0x48, 0x65, 0x6C, 0x6C, 0x6F]

  lemma ParsedBare(first: byte, data: seq<byte>, rest: seq<byte>, bytes: seq<byte>)
    requires |data| < 126 && bytes == [first] + ([|data|] + (data + rest))
    ensures Parse(bytes) == Frame(first / 128, first / 16 % 8, first % 16, data, rest)
  {
    AfterTwo(first, |data|, data + rest, bytes);
    ShortForm(bytes, first, |data|, data + rest);
    BareBody(first, data, rest);
    NothingBefore(data + rest);
  }

  lemma NothingBefore(s: seq<byte>)
    ensures [] + s == s
  {
  }

  lemma ShortForm(bytes: seq<byte>, first: byte, second: byte, more: seq<byte>)
    requires |bytes| >= 2 && bytes[0] == first && bytes[1] == second && bytes[2..] == more && second % 128 < 126
    ensures Parse(bytes) == ParseBody(first, second >= 128, second % 128, more)
  {
  }

  lemma LongForm(bytes: seq<byte>, first: byte, second: byte, more: seq<byte>, n: nat)
    requires |bytes| >= 2 && bytes[0] == first && bytes[1] == second && bytes[2..] == more
    requires (second == 126 && n == 2) || (second == 127 && n == 8)
    ensures Parse(bytes) == ParseLong(first, false, n, more)
  {
    var length := second % 128;
    assert length == second;
  }

  lemma ParsedMasked(first: byte, key: Key, data: seq<byte>, rest: seq<byte>, bytes: seq<byte>)
    requires |data| < 126 && bytes == [first] + ([128 + |data|] + (key + (Masked(data, key) + rest)))
    ensures Parse(bytes) == Frame(first / 128, first / 16 % 8, first % 16, data, rest)
  {
    var more := key + (Masked(data, key) + rest);
    MaskedBody(first, data, key, rest);
    MaskedForm(first, |data|, more, bytes);
  }

  lemma MaskedForm(first: byte, n: nat, more: seq<byte>, bytes: seq<byte>)
    requires n < 126 && bytes == [first] + ([128 + n] + more)
    ensures Parse(bytes) == ParseBody(first, true, n, more)
  {
    AfterTwo(first, 128 + n, more, bytes);
    SecondByte(1, n);
    ShortForm(bytes, first, 128 + n, more);
  }

  /** 0x37fa213d over "Hello". */
  lemma MaskedHello(key: Key)
    requires key == [0x37, 0xFA, 0x21, 0x3D]
    ensures Masked(HELLO, key) == [0x7F, 0x9F, 0x4D, 0x51, 0x58]
  {
    XorHel(HELLO[0], HELLO[1], HELLO[2], key[0], key[1], key[2]);
    XorLo(HELLO[3], HELLO[4], key[3], key[0]);
  }

  lemma XorHel(h: nat, e: nat, l: nat, a: nat, b: nat, c: nat)
    requires h == 0x48 && e == 0x65 && l == 0x6C && a == 0x37 && b == 0xFA && c == 0x21
    ensures Xor(h, a) == 0x7F && Xor(e, b) == 0x9F && Xor(l, c) == 0x4D
  {
    XorDigit(0, 0, 0, 0, 1, 0, 0, 0, 0, 1, 1, 0x4, 0x3, 0x7);
    XorDigit(0x4, 0x3, 0x7, 1, 0, 0, 0, 0, 1, 1, 1, 0x48, 0x37, 0x7F);
    XorDigit(0, 0, 0, 0, 1, 1, 0, 1, 1, 1, 1, 0x6, 0xF, 0x9);
    XorDigit(0x6, 0xF, 0x9, 0, 1, 0, 1, 1, 0, 1, 0, 0x65, 0xFA, 0x9F);
    XorDigit(0, 0, 0, 0, 1, 1, 0, 0, 0, 1, 0, 0x6, 0x2, 0x4);
    XorDigit(0x6, 0x2, 0x4, 1, 1, 0, 0, 0, 0, 0, 1, 0x6C, 0x21, 0x4D);
  }

  lemma XorLo(l: nat, o: nat, d: nat, a: nat)
    requires l == 0x6C && o == 0x6F && d == 0x3D && a == 0x37
    ensures Xor(l, d) == 0x51 && Xor(o, a) == 0x58
  {
    XorDigit(0, 0, 0, 0, 1, 1, 0, 0, 0, 1, 1, 0x6, 0x3, 0x5);
    XorDigit(0x6, 0x3, 0x5, 1, 1, 0, 0, 1, 1, 0, 1, 0x6C, 0x3D, 0x51);
    XorDigit(0, 0, 0, 0, 1, 1, 0, 0, 0, 1, 1, 0x6, 0x3, 0x5);
    XorDigit(0x6, 0x3, 0x5, 1, 1, 1, 1, 0, 1, 1, 1, 0x6F, 0x37, 0x58);
  }

  /** One more hexadecimal digit at the low end, from its bits. */
  lemma XorDigit(a: nat, b: nat, c: nat, p: nat, q: nat, r: nat, s: nat, t: nat, u: nat, v: nat, w: nat,
                 a': nat, b': nat, c': nat)
    requires Xor(a, b) == c && p < 2 && q < 2 && r < 2 && s < 2 && t < 2 && u < 2 && v < 2 && w < 2
    requires a' == 16 * a + 8 * p + 4 * q + 2 * r + s && b' == 16 * b + 8 * t + 4 * u + 2 * v + w
    requires c' == 16 * c + 8 * Unlike(p, t) + 4 * Unlike(q, u) + 2 * Unlike(r, v) + Unlike(s, w)
    ensures Xor(a', b') == c'
  {
    XorPair(a, p, q, b, t, u, c);
    XorPair(4 * a + 2 * p + q, r, s, 4 * b + 2 * t + u, v, w, 4 * c + 2 * Unlike(p, t) + Unlike(q, u));
  }

  lemma XorPair(a: nat, p: nat, q: nat, b: nat, t: nat, u: nat, c: nat)
    requires p < 2 && q < 2 && t < 2 && u < 2 && Xor(a, b) == c
    ensures Xor(4 * a + 2 * p + q, 4 * b + 2 * t + u) == 4 * c + 2 * Unlike(p, t) + Unlike(q, u)
  {
    XorMore(a, p, b, t, c);
    XorMore(2 * a + p, q, 2 * b + t, u, 2 * c + Unlike(p, t));
  }

  function Unlike(x: nat, y: nat): nat {
    if x == y then 0 else 1
  }

  lemma XorMore(a: nat, x: nat, b: nat, y: nat, c: nat)
    requires x < 2 && y < 2 && Xor(a, b) == c
    ensures Xor(2 * a + x, 2 * b + y) == 2 * c + Unlike(x, y)
  {
    XorHalves(2 * a + x, 2 * b + y);
    Halved(a, x);
    Halved(b, y);
  }

  lemma Halved(a: nat, x: nat)
    requires x < 2
    ensures (2 * a + x) / 2 == a && (2 * a + x) % 2 == x
  {
  }

  lemma ReadsHello(rest: seq<byte>)
    ensures Parse([0x81, 0x05, 0x48, 0x65, 0x6C, 0x6C, 0x6F] + rest) == Frame(1, 0, 1, HELLO, rest)
  {
    ParsedBare(0x81, HELLO, rest, [0x81, 0x05, 0x48, 0x65, 0x6C, 0x6C, 0x6F] + rest);
  }

  lemma ReadsMaskedHello(rest: seq<byte>)
    ensures Parse([0x81, 0x85, 0x37, 0xFA, 0x21, 0x3D, 0x7F, 0x9F, 0x4D, 0x51, 0x58] + rest)
         == Frame(1, 0, 1, HELLO, rest)
  {
    var key: Key := [0x37, 0xFA, 0x21, 0x3D];
    MaskedHello(key);
    ParsedMasked(0x81, key, HELLO, rest,
        [0x81, 0x85, 0x37, 0xFA, 0x21, 0x3D, 0x7F, 0x9F, 0x4D, 0x51, 0x58] + rest);
  }

  /** "Hel" and "lo" in two frames. */
  lemma ReadsFragments(rest: seq<byte>)
    ensures Collect([0x01, 0x03, 0x48, 0x65, 0x6C] + ([0x80, 0x02, 0x6C, 0x6F] + rest), true, 0, 0, [])
         == Whole(0, 1, HELLO, rest)
  {
    var second := [0x80, 0x02, 0x6C, 0x6F] + rest;
    ReadsHel(second);
    ReadsLo(rest);
    FirstFrame([0x01, 0x03, 0x48, 0x65, 0x6C] + second, HELLO[..3], second);
    LastFrame(second, HELLO[3..], rest, HELLO[..3]);
    assert HELLO[..3] + HELLO[3..] == HELLO;
  }

  lemma ReadsHel(rest: seq<byte>)
    ensures Parse([0x01, 0x03, 0x48, 0x65, 0x6C] + rest) == Frame(0, 0, 1, HELLO[..3], rest)
  {
    ParsedBare(0x01, HELLO[..3], rest, [0x01, 0x03, 0x48, 0x65, 0x6C] + rest);
  }

  lemma ReadsLo(rest: seq<byte>)
    ensures Parse([0x80, 0x02, 0x6C, 0x6F] + rest) == Frame(1, 0, 0, HELLO[3..], rest)
  {
    ParsedBare(0x80, HELLO[3..], rest, [0x80, 0x02, 0x6C, 0x6F] + rest);
  }

  lemma FirstFrame(bytes: seq<byte>, data: seq<byte>, rest: seq<byte>)
    requires Parse(bytes) == Frame(0, 0, 1, data, rest)
    ensures Collect(bytes, true, 0, 0, []) == Collect(rest, false, 0, 1, data)
  {
    NothingBefore(data);
  }

  lemma LastFrame(bytes: seq<byte>, data: seq<byte>, rest: seq<byte>, payload: seq<byte>)
    requires Parse(bytes) == Frame(1, 0, 0, data, rest)
    ensures Collect(bytes, false, 0, 1, payload) == Whole(0, 1, payload + data, rest)
  {
  }

  /** The same frames as they are written. */
  lemma WritesHello(key: Key)
    requires key == [0x37, 0xFA, 0x21, 0x3D]
    ensures Written(Message(1, 0, 0, 1, HELLO), key) == [0x81, 0x05, 0x48, 0x65, 0x6C, 0x6C, 0x6F]
    ensures Written(Message(1, 0, 1, 1, HELLO), key)
         == [0x81, 0x85, 0x37, 0xFA, 0x21, 0x3D, 0x7F, 0x9F, 0x4D, 0x51, 0x58]
  {
    MaskedHello(key);
    WrittenShort(Message(1, 0, 0, 1, HELLO), key, HELLO);
    WrittenShort(Message(1, 0, 1, 1, HELLO), key, [0x7F, 0x9F, 0x4D, 0x51, 0x58]);
  }

  lemma WrittenShort(m: Message, key: Key, sent: seq<byte>)
    requires |m.context| < 126 && sent == if m.msk != 0 then Masked(m.context, key) else m.context
    ensures Written(m, key) == [FirstByte(m), 128 * (m.msk % 2) + |m.context|] + KeyBytes(m, key) + sent
  {
    WholePayload(m, key);
  }

  /** The length takes as few bytes as it can (section 5.2 of RFC 6455). */
  lemma LengthShortest(m: Message)
    ensures |LengthBytes(m)| == if |m.context| <= 125 then 1 else if |m.context| <= 0xFFFF then 3 else 9
  {
  }

  /** A payload is cut to its size modulo 2^32. */
  lemma SentCut(m: Message, key: Key)
    ensures |SentPayload(m, key)| == |m.context| % TWO32
    ensures SentPayload(m, key) <= if m.msk != 0 then Masked(m.context, key) else m.context
  {
  }

  lemma BodyExactly(first: byte, masked: bool, length: nat, bytes: seq<byte>)
    ensures ParseBody(first, masked, length, bytes).Frame?
       <==> length < TWO32 && |bytes| >= length + if masked then 4 else 0
  {
    if length < TWO32 { SmallRemainder(length, TWO32); }
  }

  lemma ReadsPing(rest: seq<byte>)
    ensures Parse([0x89, 0x05, 0x48, 0x65, 0x6C, 0x6C, 0x6F] + rest) == Frame(1, 0, 9, HELLO, rest)
  {
    ParsedBare(0x89, HELLO, rest, [0x89, 0x05, 0x48, 0x65, 0x6C, 0x6C, 0x6F] + rest);
  }

  /** 256 bytes have their length in two bytes, 65536 in eight. */
  lemma ReadsLong(data: seq<byte>, rest: seq<byte>)
    ensures |data| == 256 ==> Parse([0x82, 0x7E, 0x01, 0x00] + (data + rest)) == Frame(1, 0, 2, data, rest)
    ensures |data| == 65536 ==>
      Parse([0x82, 0x7F, 0, 0, 0, 0, 0, 0x01, 0, 0] + (data + rest)) == Frame(1, 0, 2, data, rest)
  {
    LengthFields([0x01, 0x00], [0, 0, 0, 0, 0, 0x01, 0, 0]);
    if |data| == 256 {
      ParsedLong(0x82, 0x7E, [0x01, 0x00], data, rest, [0x82, 0x7E, 0x01, 0x00] + (data + rest));
    } else if |data| == 65536 {
      ParsedLong(0x82, 0x7F, [0, 0, 0, 0, 0, 0x01, 0, 0], data, rest,
          [0x82, 0x7F, 0, 0, 0, 0, 0, 0x01, 0, 0] + (data + rest));
    }
  }

  lemma LengthFields(two: seq<byte>, eight: seq<byte>)
    requires two == [1, 0] && eight == [0, 0, 0, 0, 0, 1, 0, 0]
    ensures Big(two) == 256 && Big(eight) == 65536
  {
    BigZeros(eight[..5]);
    BigOne(eight[..5], eight[..6], eight[..7], eight);
    BigZeros(two[..0]);
    BigMore(two[..0], two[..1], 1);
    BigMore(two[..1], two, 0);
  }

  lemma BigOne(s: seq<byte>, t: seq<byte>, u: seq<byte>, v: seq<byte>)
    requires Big(s) == 0 && t == s + [1] && u == t + [0] && v == u + [0]
    ensures Big(v) == 65536
  {
    BigMore(s, t, 1);
    BigMore(t, u, 0);
    BigMore(u, v, 0);
  }

  lemma BigMore(s: seq<byte>, t: seq<byte>, b: byte)
    requires t == s + [b]
    ensures Big(t) == 256 * Big(s) + b
  {
    assert t[..|t| - 1] == s;
  }

  lemma {:induction false} BigZeros(s: seq<byte>)
    requires forall i :: 0 <= i < |s| ==> s[i] == 0
    ensures Big(s) == 0
  {
    if s != [] { BigZeros(s[..|s| - 1]); }
  }

  lemma ParsedLong(first: byte, code: byte, field: seq<byte>, data: seq<byte>, rest: seq<byte>, bytes: seq<byte>)
    requires (code == 126 && |field| == 2) || (code == 127 && |field| == 8)
    requires bytes == [first] + ([code] + (field + (data + rest))) && |data| == Big(field) < TWO32
    ensures Parse(bytes) == Frame(first / 128, first / 16 % 8, first % 16, data, rest)
  {
    AfterTwo(first, code, field + (data + rest), bytes);
    LongForm(bytes, first, code, field + (data + rest), |field|);
    FrontAndTail(field, data + rest);
    BareBody(first, data, rest);
    NothingBefore(data + rest);
  }

  // --- messages of several frames -------------------------------------------------------------------------

  datatype Gathered = Whole(rsv: nat, opc: nat, payload: seq<byte>, rest: seq<byte>) | Broken

  predicate Smaller(r: Received, n: nat) {
    r.Frame? ==> |r.rest| < n && r.rsv < 8 && r.opc < 16
  }

  lemma BodyShrinks(first: byte, masked: bool, length: nat, bytes: seq<byte>)
    ensures Smaller(ParseBody(first, masked, length, bytes), |bytes| + 1)
  {
  }

  lemma LongShrinks(first: byte, masked: bool, n: nat, bytes: seq<byte>)
    ensures Smaller(ParseLong(first, masked, n, bytes), |bytes| + 1)
  {
    if |bytes| >= n { BodyShrinks(first, masked, Big(bytes[..n]), bytes[n..]); }
  }

  lemma ParseShrinks(bytes: seq<byte>)
    ensures Smaller(Parse(bytes), |bytes|)
  {
    if |bytes| >= 2 {
      var first, masked, length := bytes[0], bytes[1] >= 128, bytes[1] % 128;
      LongShrinks(first, masked, 2, bytes[2..]);
      LongShrinks(first, masked, 8, bytes[2..]);
      BodyShrinks(first, masked, length, bytes[2..]);
    }
  }

  /** Frames up to the first with FIN; reserved bits and opcode are those of the first frame. */
  function Collect(bytes: seq<byte>, first: bool, rsv: nat, opc: nat, payload: seq<byte>): Gathered
    decreases |bytes|
  {
    ParseShrinks(bytes);
    match Parse(bytes)
    case Frame(fin, r, o, data, rest) =>
      var rsv', opc' := if first then r else rsv, if first then o else opc;
      if fin != 0 then Whole(rsv', opc', payload + data, rest)
      else Collect(rest, false, rsv', opc', payload + data)
    case _ => Broken
  }

  predicate Sendable(m: Message) {
    |m.context| < TWO32 && (m.msk == 0 || m.msk % 2 == 1)
  }

  /** These are the frames that are read back whole. */
  lemma SendableExactly(m: Message, key: Key, rest: seq<byte>)
    requires |m.context| < TWO64
    ensures Sendable(m) <==> Intact(m, key, rest)
  {
    IntactExactly(m, key, rest);
  }

  /** Frames written one after the other. */
  function WrittenAll(ms: seq<Message>, keys: seq<Key>, k: nat): seq<byte>
    requires |ms| == |keys| && k <= |ms|
    decreases |ms| - k
  {
    if k == |ms| then [] else Written(ms[k], keys[k]) + WrittenAll(ms, keys, k + 1)
  }

  /** The contexts of the frames `k` to `n`. */
  function Contexts(ms: seq<Message>, k: nat, n: nat): seq<byte>
    requires k <= n <= |ms|
  {
    if n == k then [] else Contexts(ms, k, n - 1) + ms[n - 1].context
  }

  lemma CollectOne(ms: seq<Message>, keys: seq<Key>, k: nat, rest: seq<byte>, first: bool, rsv: nat, opc: nat,
      payload: seq<byte>)
    requires |ms| == |keys| && k < |ms| && Sendable(ms[k])
    ensures var rsv', opc' := if first then ms[k].rsv % 8 else rsv, if first then ms[k].opc % 16 else opc;
      var more := WrittenAll(ms, keys, k + 1) + rest;
      Collect(WrittenAll(ms, keys, k) + rest, first, rsv, opc, payload) ==
        if ms[k].fin % 2 != 0 then Whole(rsv', opc', payload + ms[k].context, more)
        else Collect(more, false, rsv', opc', payload + ms[k].context)
  {
    var more := WrittenAll(ms, keys, k + 1) + rest;
    assert WrittenAll(ms, keys, k) + rest == Written(ms[k], keys[k]) + more;
    IntactExactly(ms[k], keys[k], more);
  }

  /** Reading stops at the first frame with FIN, and everything behind it stays in the stream. */
  lemma {:induction false} CollectStops(ms: seq<Message>, keys: seq<Key>, k: nat, n: nat, rest: seq<byte>, rsv: nat,
      opc: nat)
    requires |ms| == |keys| && 0 < k <= n < |ms| && forall i :: k <= i <= n ==> Sendable(ms[i])
    requires ms[n].fin % 2 == 1 && forall i :: k <= i < n ==> ms[i].fin % 2 == 0
    ensures Collect(WrittenAll(ms, keys, k) + rest, false, rsv, opc, Contexts(ms, 0, k))
         == Whole(rsv, opc, Contexts(ms, 0, n + 1), WrittenAll(ms, keys, n + 1) + rest)
    decreases n - k
  {
    CollectOne(ms, keys, k, rest, false, rsv, opc, Contexts(ms, 0, k));
    if k < n { CollectStops(ms, keys, k + 1, n, rest, rsv, opc); }
  }

  lemma OneContext(ms: seq<Message>)
    requires ms != []
    ensures Contexts(ms, 0, 1) == ms[0].context == [] + ms[0].context
  {
    assert Contexts(ms, 0, 1) == Contexts(ms, 0, 0) + ms[0].context;
  }

  lemma CollectFirst(ms: seq<Message>, keys: seq<Key>, rest: seq<byte>, bytes: seq<byte>, first: bool, none: seq<byte>)
    requires |ms| == |keys| && 0 < |ms| && Sendable(ms[0])
    requires bytes == WrittenAll(ms, keys, 0) + rest && first && none == []
    ensures Collect(bytes, first, 0, 0, none) ==
      if ms[0].fin % 2 != 0 then
        Whole(ms[0].rsv % 8, ms[0].opc % 16, Contexts(ms, 0, 1), WrittenAll(ms, keys, 1) + rest)
      else
        Collect(WrittenAll(ms, keys, 1) + rest, false, ms[0].rsv % 8, ms[0].opc % 16, Contexts(ms, 0, 1))
  {
    CollectOne(ms, keys, 0, rest, first, 0, 0, none);
    OneContext(ms);
  }

  lemma CollectFrames(ms: seq<Message>, keys: seq<Key>, n: nat, rest: seq<byte>)
    requires |ms| == |keys| && n < |ms| && forall i :: 0 <= i <= n ==> Sendable(ms[i])
    requires ms[n].fin % 2 == 1 && forall i :: 0 <= i < n ==> ms[i].fin % 2 == 0
    ensures Collect(WrittenAll(ms, keys, 0) + rest, true, 0, 0, [])
         == Whole(ms[0].rsv % 8, ms[0].opc % 16, Contexts(ms, 0, n + 1), WrittenAll(ms, keys, n + 1) + rest)
  {
    CollectFirst(ms, keys, rest, WrittenAll(ms, keys, 0) + rest, true, []);
    if n > 0 { CollectStops(ms, keys, 1, n, rest, ms[0].rsv % 8, ms[0].opc % 16); }
  }

  /** A message cut into frames is received whole, with the fields of its first frame. */
  lemma ReceiveWhole(ms: seq<Message>, keys: seq<Key>, rest: seq<byte>)
    requires ms != [] && |ms| == |keys| && forall i :: 0 <= i < |ms| ==> Sendable(ms[i])
    requires forall i :: 0 <= i < |ms| ==> (ms[i].fin % 2 == 1 <==> i == |ms| - 1)
    ensures Collect(WrittenAll(ms, keys, 0) + rest, true, 0, 0, [])
         == Whole(ms[0].rsv % 8, ms[0].opc % 16, Contexts(ms, 0, |ms|), rest)
  {
    CollectFrames(ms, keys, |ms| - 1, rest);
    assert WrittenAll(ms, keys, |ms|) + rest == rest;
  }

  predicate Control(m: Message) {
    m.opc % 16 >= 8
  }

  /** The most significant bit of the four of the opcode (section 5.5 of RFC 6455). */
  lemma ControlBit(m: Message)
    ensures Control(m) <==> Bit(m.opc, 3)
  {
    BitIsShifted(m.opc, 3);
    ShrIsQuotient(m.opc, 3);
    assert Pow2(3) == 8;
  }

  /** Data frames of one message with whole control frames among them (section 5.4 of RFC 6455). */
  ghost predicate Interleaved(ms: seq<Message>) {
    && ms != [] && (forall i :: 0 <= i < |ms| ==> Sendable(ms[i]))
    && !Control(ms[|ms| - 1]) && ms[|ms| - 1].fin % 2 == 1
    && forall i :: 0 <= i < |ms| - 1 ==> (ms[i].fin % 2 == 1 <==> Control(ms[i]))
  }

  lemma {:induction false} FirstControl(ms: seq<Message>, n: nat) returns (k: nat)
    requires n <= |ms| && exists i :: 0 <= i < n && Control(ms[i])
    ensures k < n && Control(ms[k]) && forall i :: 0 <= i < k ==> !Control(ms[i])
  {
    if i :| 0 <= i < n - 1 && Control(ms[i]) { k := FirstControl(ms, n - 1); } else { k := n - 1; }
  }

  lemma {:induction false} WrittenLonger(ms: seq<Message>, keys: seq<Key>, k: nat)
    requires |ms| == |keys| && k < |ms|
    ensures |WrittenAll(ms, keys, k)| > 0
  {
  }

  /**
    Control frames are not told from data: a message is received to its end if and only if none comes among its
    frames.
  */
  lemma ReceiveExactly(ms: seq<Message>, keys: seq<Key>, rest: seq<byte>)
    requires |ms| == |keys| && Interleaved(ms)
    ensures var g := Collect(WrittenAll(ms, keys, 0) + rest, true, 0, 0, []);
      g.Whole? && (g.rest == rest <==> forall i :: 0 <= i < |ms| ==> !Control(ms[i]))
  {
    if exists i :: 0 <= i < |ms| && Control(ms[i]) {
      var k := FirstControl(ms, |ms|);
      CollectFrames(ms, keys, k, rest);
      WrittenLonger(ms, keys, k + 1);
    } else {
      ReceiveWhole(ms, keys, rest);
    }
  }

  lemma {:induction false} AndApart(a: nat, b: nat, k: nat)
    requires a < Pow2(k) && LowClear(b, k)
    ensures And(a, b) == 0
    decreases k
  {
    if k > 0 {
      AndApart(a / 2, b / 2, k - 1);
      AndHalves(a, b);
    }
  }

  /** The test for a control frame, `frame.OPC & 0x80`, is never true of a four-bit opcode. */
  lemma ControlNeverSeen(opc: nat)
    requires opc < 16
    ensures And(opc, 0x80) == 0
  {
    assert Pow2(4) == 16;
    LowClearMultiple(0x80, 4);
    AndApart(opc, 0x80, 4);
  }

  // --- the object -----------------------------------------------------------------------------------------

  /** `(a << 7) | (b << 4) | c` */
  lemma FirstByteOr(m: Message)
    ensures Or(Or(128 * (m.fin % 2), 16 * (m.rsv % 8)), m.opc % 16) == FirstByte(m)
  {
    assert Pow2(4) == 16;
    assert Pow2(7) == 8 * Pow2(4);
    LowClearMultiple(128 * (m.fin % 2), 7);
    OrDisjoint(128 * (m.fin % 2), 16 * (m.rsv % 8), 7);
    var high := 128 * (m.fin % 2) + 16 * (m.rsv % 8);
    assert high == 16 * (8 * (m.fin % 2) + m.rsv % 8);
    LowClearMultiple(high, 4);
    OrDisjoint(high, m.opc % 16, 4);
  }

  lemma MaskOr(msk: byte, n: nat)
    requires n < 128
    ensures Or(128 * (msk % 2), n) == 128 * (msk % 2) + n
  {
    assert Pow2(4) == 16;
    assert Pow2(7) == 8 * Pow2(4);
    LowClearMultiple(128 * (msk % 2), 7);
    OrDisjoint(128 * (msk % 2), n, 7);
  }

  /** The length loop of the writer: the most significant byte first. */
  method LengthPrefix(length: nat, n: nat) returns (out: seq<byte>)
    ensures out == BigEndian(length, n)
  {
    out := [];
    for i := 0 to n
      invariant |out| == i && forall j :: 0 <= j < i ==> out[j] == BigEndian(length, n)[j]
    {
      ByteOf(length, n, n - 1 - i);
      out := out + [Shr(length, 8 * (n - 1 - i)) % 256];
    }
    assert out == BigEndian(length, n);
  }

  /** The length loop of the reader. */
  method LengthOf(buf: seq<byte>) returns (length: nat)
    ensures length == Big(buf)
  {
    length := 0;
    for i := 0 to |buf|
      invariant length == Big(buf[..i])
    {
      assert buf[..i + 1][..i] == buf[..i];
      ShiftIn(length, buf[i]);
      length := Or(256 * length, buf[i]);
    }
    assert buf[..|buf|] == buf;
  }

  lemma ShiftIn(length: nat, b: byte)
    ensures Or(256 * length, b) == 256 * length + b
  {
    assert Pow2(8) == 256;
    LowClearMultiple(256 * length, 8);
    OrDisjoint(256 * length, b, 8);
  }

  method MaskLoop(data: seq<byte>, key: Key) returns (out: seq<byte>)
    ensures out == Masked(data, key)
  {
    out := data;
    for i := 0 to |data|
      invariant |out| == |data|
      invariant forall j :: 0 <= j < i ==> out[j] == XorBytes(data[j], key[j % 4])
      invariant forall j :: i <= j < |data| ==> out[j] == data[j]
    {
      out := out[i := XorBytes(out[i], key[i % 4])];
    }
    assert out == Masked(data, key);
  }

  /** The bytes before the key. */
  method Prefix(m: Message) returns (prefix: seq<byte>)
    ensures prefix == [FirstByte(m)] + LengthBytes(m)
  {
    var n := |m.context|;
    FirstByteOr(m);
    prefix := [Or(Or(128 * (m.fin % 2), 16 * (m.rsv % 8)), m.opc % 16)];
    MaskOr(m.msk, if n < 126 then n else if n < 65536 then 126 else 127);
    if n < 126 {
      prefix := prefix + [Or(128 * (m.msk % 2), n)];
    } else if n < 65536 {
      var bytes := LengthPrefix(n, 2);
      prefix := prefix + ([Or(128 * (m.msk % 2), 126)] + bytes);
    } else {
      var bytes := LengthPrefix(n, 8);
      prefix := prefix + ([Or(128 * (m.msk % 2), 127)] + bytes);
    }
  }

  class WebSocket {
    const connection: Stream
    var opening: bool

    constructor (connection: Stream)
      ensures this.connection == connection && opening
    {
      this.connection, opening := connection, true;
    }

    /** The first `frame`: what is read off the connection. */
    method ReadFrame() returns (ok: bool, fin: byte, rsv: byte, opc: byte, payload: seq<byte>)
      modifies connection`pending
      ensures ok <==> Parse(old(connection.pending)).Frame?
      ensures ok ==> Parse(old(connection.pending)) == Frame(fin, rsv, opc, payload, connection.pending)
    {
      ghost var bytes := connection.pending;
      var buf;
      fin, rsv, opc, payload := 0, 0, 0, [];
      ok, buf := ReadFully(connection, 1);
      if !ok {
        return;
      }
      var first := buf[0];
      ok, buf := ReadFully(connection, 1);
      if !ok {
        return;
      }
      assert bytes[1..][1..] == bytes[2..];
      var masked, length: nat := buf[0] >= 128, buf[0] % 128;
      if length == 126 || length == 127 {
        ok, buf := ReadFully(connection, if length == 126 then 2 else 8);
        if !ok {
          return;
        }
        length := LengthOf(buf);
      }
      ok, payload := ReadBody(first, masked, length);
      fin, rsv, opc := first / 128, first / 16 % 8, first % 16;
    }

    /** Key and payload; `ok == false` also where the buffer would be filled in part only. */
    method ReadBody(ghost first: byte, masked: bool, length: nat) returns (ok: bool, payload: seq<byte>)
      modifies connection`pending
      ensures ok <==> ParseBody(first, masked, length, old(connection.pending)).Frame?
      ensures ok ==> ParseBody(first, masked, length, old(connection.pending))
                     == Frame(first / 128, first / 16 % 8, first % 16, payload, connection.pending)
    {
      ghost var bytes := connection.pending;
      var key: seq<byte> := [0, 0, 0, 0];
      payload := [];
      if masked {
        ok, key := ReadFully(connection, 4);
        if !ok {
          return;
        }
      }
      ok, payload := ReadFully(connection, length % TWO32);
      if !ok {
        return;
      }
      if length >= TWO32 {
        return false, payload;
      }
      SmallRemainder(length, TWO32);
      if masked {
        assert bytes[4..][..length] == bytes[4..4 + length] && bytes[4..][length..] == bytes[4 + length..];
        payload := MaskLoop(payload, key);
      } else {
        assert bytes[..length] == bytes[0..0 + length];
      }
    }

    /** The second `frame`: the mask is the next random word; `ok == false` is the exception of a closed socket. */
    method WriteFrame(m: Message, mask: nat) returns (ok: bool)
      requires mask < TWO32
      modifies connection`sent
      ensures ok <==> opening
      ensures connection.sent ==
              old(connection.sent) + if opening then Written(m, LittleEndian(mask, 4)) else []
    {
      if !opening {
        return false;
      }
      ghost var before := connection.sent;
      var prefix := Prefix(m);
      WriteFully(connection, prefix);
      var key: Key := [0, 0, 0, 0];
      if m.msk != 0 {
        key := LittleEndian(mask, 4);
        WriteFully(connection, key);
      } else {
        MaskedZero(m.context);
      }
      var data := MaskLoop(m.context, key);
      WriteFully(connection, data[..|data| % TWO32]);
      JoinSent(before, [FirstByte(m)], LengthBytes(m), KeyBytes(m, LittleEndian(mask, 4)),
          data[..|data| % TWO32]);
      return true;
    }

    /** `send`: after a close frame nothing more goes out. */
    method Send(m: Message, mask: nat) returns (ok: bool)
      requires mask < TWO32
      modifies connection`sent, this`opening
      ensures ok <==> old(opening)
      ensures connection.sent == old(connection.sent) + if ok then Written(m, LittleEndian(mask, 4)) else []
      ensures opening <==> old(opening) && m.opc != 8
    {
      ok := WriteFrame(m, mask);
      if ok && m.opc == 8 {
        opening := false;
      }
    }

    /** `receive`; its branch for control frames is never entered (ControlNeverSeen) and is left out. */
    method Receive() returns (ok: bool, rsv: nat, opc: nat, payload: seq<byte>)
      modifies connection`pending
      ensures ok <==> Collect(old(connection.pending), true, 0, 0, []).Whole?
      ensures ok ==> Collect(old(connection.pending), true, 0, 0, []) == Whole(rsv, opc, payload, connection.pending)
    {
      ghost var bytes := connection.pending;
      var fin: byte := 0;
      rsv, opc, payload := 0xFF, 0xFF, [];
      while fin == 0
        invariant rsv == 0xFF <==> opc == 0xFF
        invariant fin == 0 ==>
          Collect(bytes, true, 0, 0, []) ==
          Collect(connection.pending, rsv == 0xFF,
                  if rsv == 0xFF then 0 else rsv, if rsv == 0xFF then 0 else opc, payload)
        invariant fin != 0 ==> Collect(bytes, true, 0, 0, []) == Whole(rsv, opc, payload, connection.pending)
        decreases if fin == 0 then |connection.pending| + 1 else 0
      {
        ParseShrinks(connection.pending);
        var got, f, r, o, data := ReadFrame();
        if !got {
          return false, rsv, opc, payload;
        }
        fin := f;
        rsv := if rsv == 0xFF then r else rsv;
        opc := if opc == 0xFF then o else opc;
        payload := payload + data;
      }
      ok := true;
    }
  }

  lemma JoinSent(before: seq<byte>, a: seq<byte>, b: seq<byte>, c: seq<byte>, d: seq<byte>)
    ensures ((before + (a + b)) + c) + d == before + (a + (b + (c + d)))
    ensures (before + (a + b)) + d == before + (a + (b + ([] + d)))
  {
  }
}