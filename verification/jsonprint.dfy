/**
  The printer of JSON/src/JSON.cpp and JSON/src/object.cpp as it runs, and what the reader makes of its text.
*/
module JsonPrinting {
  import opened Words
  import Decimals
  import opened Json

  // --- strings --------------------------------------------------------------------------------------------

  /** `HEX` */
  function HexChar(d: nat): byte
    requires d < 16
  {
    if d < 10 then 48 + d else 87 + d
  }

  /** `ESCAPE`, where it is not zero: the letter behind the backslash. */
  function EscapeLetter(b: byte): byte {
    if b == 8 then 98 else if b == 9 then 116 else if b == 10 then 110 else if b == 12 then 102
    else if b == 13 then 114 else if b == QUOTE then QUOTE else if b == BACKSLASH then BACKSLASH else 0
  }

  function EscapedByte(b: byte): (out: seq<byte>)
    ensures b >= 0x20 ==> |out| == if EscapeLetter(b) != 0 then 2 else 1
  {
    if EscapeLetter(b) != 0 then [BACKSLASH, EscapeLetter(b)]
    else if b < 0x20 then [BACKSLASH, 117, ZERO, ZERO, HexChar(b / 16), HexChar(b % 16)]
    else [b]
  }

  const ZERO: byte := 48

  function Escaped(s: seq<byte>): seq<byte> {
    if s == [] then [] else EscapedByte(s[0]) + Escaped(s[1..])
  }

  lemma {:induction false} EscapedSnoc(s: seq<byte>, b: byte)
    ensures Escaped(s + [b]) == Escaped(s) + EscapedByte(b)
  {
    if s == [] {
      assert [] + [b] == [b];
    } else {
      EscapedSnoc(s[1..], b);
      assert (s + [b])[1..] == s[1..] + [b];
    }
  }

  /** The bytes as the reader hands them out: each one is taken for a code point and written in UTF-8. */
  function Recoded(s: seq<byte>): seq<byte> {
    if s == [] then [] else Utf8(s[0]) + Recoded(s[1..])
  }

  predicate Ascii(s: seq<byte>) {
    forall i :: 0 <= i < |s| ==> s[i] < 0x80
  }

  lemma {:induction false} RecodedSize(s: seq<byte>)
    ensures |Recoded(s)| >= |s| && (|Recoded(s)| == |s| <==> Ascii(s)) && (Ascii(s) ==> Recoded(s) == s)
  {
    if s != [] {
      RecodedSize(s[1..]);
      assert Ascii(s) <==> s[0] < 0x80 && Ascii(s[1..]) by {
        assert forall i :: 0 <= i < |s[1..]| ==> s[1..][i] == s[i + 1];
        if s[0] < 0x80 && Ascii(s[1..]) {
          forall i | 0 <= i < |s| ensures s[i] < 0x80 { assert i > 0 ==> s[1..][i - 1] == s[i]; }
        }
      }
    }
  }

  lemma EscapedStep(s: seq<byte>, tail: seq<byte>, seen: seq<byte>)
    requires s != []
    ensures Escaped(s) + tail == EscapedByte(s[0]) + (Escaped(s[1..]) + tail)
    ensures seen + Recoded(s) == (seen + Utf8(s[0])) + Recoded(s[1..])
  {
    Associate(EscapedByte(s[0]), Escaped(s[1..]), tail);
    Associate(seen, Utf8(s[0]), Recoded(s[1..]));
  }

  lemma TextEnds(rest: seq<byte>, seen: seq<byte>)
    ensures Text([QUOTE] + rest, seen) == Parsed(seen, rest)
  {
    assert ([QUOTE] + rest)[1..] == rest;
  }

  /** Reading an escaped text gives its bytes, recoded. */
  lemma {:induction false} EscapedRecodes(s: seq<byte>, rest: seq<byte>, seen: seq<byte>)
    ensures Text(Escaped(s) + ([QUOTE] + rest), seen) == Parsed(seen + Recoded(s), rest)
  {
    if s == [] {
      TextEnds(rest, seen);
      assert Escaped(s) + ([QUOTE] + rest) == [QUOTE] + rest && seen + Recoded(s) == seen;
    } else {
      EscapedStep(s, [QUOTE] + rest, seen);
      OneEscape(s[0], Escaped(s[1..]) + ([QUOTE] + rest), seen);
      EscapedRecodes(s[1..], rest, seen + Utf8(s[0]));
    }
  }

  /** Reading the escaped text of bytes gives the bytes back if and only if they are below 0x80. */
  lemma EscapedReads(s: seq<byte>, rest: seq<byte>, seen: seq<byte>)
    ensures Text(Escaped(s) + ([QUOTE] + rest), seen) == Parsed(seen + s, rest) <==> Ascii(s)
  {
    EscapedRecodes(s, rest, seen);
    RecodedSize(s);
    assert |seen + Recoded(s)| == |seen + s| <==> Ascii(s);
  }

  lemma OneEscape(b: byte, tail: seq<byte>, seen: seq<byte>)
    ensures Text(EscapedByte(b) + tail, seen) == Text(tail, seen + Utf8(b))
  {
    var s := EscapedByte(b) + tail;
    if EscapeLetter(b) != 0 {
      assert s[1..] == [EscapeLetter(b)] + tail && s[1..][1..] == tail;
    } else if b < 0x20 {
      HexPair(b, s, tail);
    } else {
      assert s[1..] == tail;
    }
  }

  lemma HexStep(d: nat, more: seq<byte>, n: nat, x: nat)
    requires d < 16 && n > 0
    ensures Json.Hex([HexChar(d)] + more, n, x) == Json.Hex(more, n - 1, 16 * x + d)
  {
    assert ([HexChar(d)] + more)[1..] == more;
  }

  lemma HexFour(h: nat, l: nat, tail: seq<byte>)
    requires h < 16 && l < 16
    ensures Json.Hex([ZERO] + ([ZERO] + ([HexChar(h)] + ([HexChar(l)] + tail))), 4, 0) == Parsed(16 * h + l, tail)
  {
    HexStep(0, [ZERO] + ([HexChar(h)] + ([HexChar(l)] + tail)), 4, 0);
    HexStep(0, [HexChar(h)] + ([HexChar(l)] + tail), 3, 0);
    HexStep(h, [HexChar(l)] + tail, 2, 0);
    HexStep(l, tail, 1, h);
  }

  lemma UnicodeEscape(h: byte, l: byte, s: seq<byte>, tail: seq<byte>)
    requires s == [BACKSLASH, 117, ZERO, ZERO, h, l] + tail
    ensures s[0] == BACKSLASH && s[1] == 117 && s[1..][1..] == [ZERO] + ([ZERO] + ([h] + ([l] + tail)))
  {
  }

  lemma HexPair(b: byte, s: seq<byte>, tail: seq<byte>)
    requires b < 0x20 && s == [BACKSLASH, 117, ZERO, ZERO, HexChar(b / 16), HexChar(b % 16)] + tail
    ensures s[0] == BACKSLASH && Escape(s[1..]) == Parsed(b as int, tail)
  {
    UnicodeEscape(HexChar(b / 16), HexChar(b % 16), s, tail);
    HexFour(b / 16, b % 16, tail);
  }

  /** `Capacity`: the buffer is doubled once if it is too small; the new half holds whatever memory held. */
  method Capacity(buffer: array<byte>, wanted: nat) returns (buffer': array<byte>)
    ensures buffer' == buffer || fresh(buffer')
    ensures buffer'.Length == if wanted > buffer.Length then 2 * buffer.Length else buffer.Length
    ensures buffer'[..buffer.Length] == buffer[..]
  {
    buffer' := buffer;
    if wanted > buffer.Length {
      buffer' := new byte[2 * buffer.Length];
      for i := 0 to buffer.Length
        invariant buffer'[..i] == buffer[..i]
      {
        buffer'[i] := buffer[i];
      }
    }
  }

  method Put(buffer: array<byte>, len: nat, bytes: seq<byte>)
    requires len + |bytes| <= buffer.Length
    modifies buffer
    ensures buffer[..len + |bytes|] == old(buffer[..len]) + bytes
  {
    for i := 0 to |bytes|
      invariant buffer[..len + i] == old(buffer[..len]) + bytes[..i]
    {
      buffer[len + i] := bytes[i];
    }
  }

  /** What one more byte needs, with the closing quote. */
  function Need(b: byte): nat {
    |EscapedByte(b)| + 1
  }

  /** The size of the buffer after the first `i` bytes. */
  function Room(s: seq<byte>, i: nat): nat
    requires i <= |s|
  {
    if i == 0 then |s| + 2
    else
      var room := Room(s, i - 1);
      if 1 + |Escaped(s[..i - 1])| + Need(s[i - 1]) > room then 2 * room else room
  }

  /** Whether every write stays inside the buffer. */
  predicate Fits(s: seq<byte>, i: nat)
    requires i <= |s|
  {
    i == 0 || (Fits(s, i - 1) && 1 + |Escaped(s[..i - 1])| + Need(s[i - 1]) <= Room(s, i))
  }

  /** One turn of the loop: room is made, then the byte is written. */
  method PutByte(buf: array<byte>, len: nat, b: byte) returns (ok: bool, buf': array<byte>, len': nat)
    requires len < buf.Length
    modifies buf
    ensures buf' == buf || fresh(buf')
    ensures buf'.Length == if len + Need(b) > buf.Length then 2 * buf.Length else buf.Length
    ensures ok <==> len + Need(b) <= buf'.Length
    ensures ok ==> len' == len + |EscapedByte(b)| && buf'[..len'] == old(buf[..len]) + EscapedByte(b)
  {
    len' := len;
    buf' := Capacity(buf, len + Need(b));
    PrefixKept(buf[..], buf'[..buf.Length], buf'[..], len);
    ok := len + Need(b) <= buf'.Length;
    if ok {
      Put(buf', len, EscapedByte(b));
      len' := len + |EscapedByte(b)|;
    }
  }

  /** A text that can be returned for a string: the quoted string, and then what the buffer held. */
  predicate QuotedAs(s: seq<byte>, text: seq<byte>) {
    && |text| == Room(s, |s|) >= |Escaped(s)| + 2
    && text[..|Escaped(s)| + 2] == [QUOTE] + Escaped(s) + [QUOTE]
  }

  /** `JSON::stringify(str)`.  `ok == false`: the original writes behind its buffer. */
  method QuoteText(str: seq<byte>) returns (ok: bool, text: seq<byte>)
    ensures ok <==> Fits(str, |str|)
    ensures ok ==> QuotedAs(str, text)
  {
    var buf := new byte[|str| + 2];
    buf[0] := QUOTE;
    var len: nat := 1;
    assert str[..0] == [] && buf[..1] == [QUOTE] + [];
    for i := 0 to |str|
      invariant fresh(buf) && buf.Length == Room(str, i) && Fits(str, i)
      invariant len == 1 + |Escaped(str[..i])| < buf.Length
      invariant buf[..len] == [QUOTE] + Escaped(str[..i])
    {
      RoomStep(str, i);
      var fits;
      fits, buf, len := PutByte(buf, len, str[i]);
      if !fits {
        NotFits(str, i + 1, |str|);
        return false, [];
      }
      Associate([QUOTE], Escaped(str[..i]), EscapedByte(str[i]));
    }
    assert str[..|str|] == str;
    Put(buf, len, [QUOTE]);
    ok, text := true, buf[..];
    assert text[..len + 1] == buf[..len + 1];
  }

  lemma Associate(a: seq<byte>, b: seq<byte>, c: seq<byte>)
    ensures (a + b) + c == a + (b + c)
  {
  }

  lemma RoomStep(s: seq<byte>, i: nat)
    requires i < |s|
    ensures Escaped(s[..i + 1]) == Escaped(s[..i]) + EscapedByte(s[i])
    ensures Room(s, i + 1) ==
      if 1 + |Escaped(s[..i])| + Need(s[i]) > Room(s, i) then 2 * Room(s, i) else Room(s, i)
    ensures Fits(s, i + 1) <==> Fits(s, i) && 1 + |Escaped(s[..i])| + Need(s[i]) <= Room(s, i + 1)
  {
    EscapedSnoc(s[..i], s[i]);
    assert s[..i + 1] == s[..i] + [s[i]];
  }

  lemma PrefixKept(a: seq<byte>, b: seq<byte>, c: seq<byte>, n: nat)
    requires a == b && b <= c && n <= |a|
    ensures c[..n] == a[..n]
  {
  }

  lemma {:induction false} NotFits(s: seq<byte>, i: nat, n: nat)
    requires i <= n <= |s| && !Fits(s, i)
    ensures !Fits(s, n)
  {
    if i < n { NotFits(s, i, n - 1); }
  }

  // --- when the quoted text is right ----------------------------------------------------------------------

  /** How many of the first `i` bytes are written as two. */
  function Specials(s: seq<byte>, i: nat): nat
    requires i <= |s|
  {
    if i == 0 then 0 else Specials(s, i - 1) + if EscapeLetter(s[i - 1]) != 0 then 1 else 0
  }

  /** A byte that is written as six. */
  predicate Control(b: byte) {
    EscapeLetter(b) == 0 && b < 0x20
  }

  function Controls(s: seq<byte>, i: nat): nat
    requires i <= |s|
  {
    if i == 0 then 0 else Controls(s, i - 1) + if Control(s[i - 1]) then 1 else 0
  }

  /** By how much the first `i` bytes grow. */
  function Growth(s: seq<byte>, i: nat): nat
    requires i <= |s|
  {
    Specials(s, i) + 5 * Controls(s, i)
  }

  /** The length of what is written for the first `i` bytes. */
  function Written(s: seq<byte>, i: nat): nat
    requires i <= |s|
  {
    if i == 0 then 0 else Written(s, i - 1) + |EscapedByte(s[i - 1])|
  }

  lemma {:induction false} EscapedSize(s: seq<byte>, i: nat)
    requires i <= |s|
    ensures |Escaped(s[..i])| == Written(s, i)
  {
    if i == 0 {
      assert s[..0] == [];
    } else {
      EscapedSize(s, i - 1);
      RoomStep(s, i - 1);
    }
  }

  lemma {:induction false} WrittenSize(s: seq<byte>, i: nat)
    requires i <= |s|
    ensures Written(s, i) == i + Growth(s, i) && Specials(s, i) + Controls(s, i) <= i
  {
    if i > 0 { WrittenSize(s, i - 1); }
  }

  /** The sizes of the buffer for a text of `n` bytes. */
  predicate Doubled(room: nat, n: nat) {
    room == n + 2 || room == 2 * n + 4 || room == 4 * n + 8 || room == 8 * n + 16
  }

  /** While everything fits, the size is the first doubling that is enough for what is written and two quotes. */
  predicate Least(room: nat, n: nat, size: nat) {
    Doubled(room, n) && size + 2 <= room && (room == n + 2 || room < 2 * size + 4)
  }

  lemma LeastStep(room: nat, n: nat, size: nat, size': nat, room': nat)
    requires Least(room, n, size) && size <= size' <= 6 * n && size' + 2 <= room'
    requires room' == if size' + 2 > room then 2 * room else room
    ensures Least(room', n, size')
  {
  }

  /** One turn, in terms of the size written before and after it. */
  lemma RoomNext(s: seq<byte>, i: nat)
    requires i < |s|
    ensures Written(s, i) < Written(s, i + 1) <= Written(s, i) + 6
    ensures Control(s[i]) ==> Written(s, i + 1) == Written(s, i) + 6
    ensures !Control(s[i]) ==> Written(s, i + 1) <= Written(s, i) + 2
    ensures Room(s, i + 1) == if Written(s, i + 1) + 2 > Room(s, i) then 2 * Room(s, i) else Room(s, i)
    ensures Fits(s, i + 1) <==> Fits(s, i) && Written(s, i + 1) + 2 <= Room(s, i + 1)
  {
    EscapedSize(s, i);
    EscapedSize(s, i + 1);
    RoomStep(s, i);
  }

  lemma {:induction false} WrittenBound(s: seq<byte>, i: nat)
    requires i <= |s|
    ensures Written(s, i) <= 6 * i <= 6 * |s|
  {
    if i > 0 { WrittenBound(s, i - 1); }
  }

  lemma {:induction false} RoomLeast(s: seq<byte>, i: nat)
    requires i <= |s| && Fits(s, i)
    ensures Least(Room(s, i), |s|, Written(s, i))
  {
    if i > 0 {
      RoomLeast(s, i - 1);
      WrittenBound(s, i);
      RoomNext(s, i - 1);
      LeastStep(Room(s, i - 1), |s|, Written(s, i - 1), Written(s, i), Room(s, i));
    }
  }

  /** The doublings that are hit exactly; the fourth is more than the text can need. */
  lemma LeastIs(room: nat, n: nat, growth: nat)
    requires Least(room, n, n + growth) && growth <= 5 * n
    ensures room == n + growth + 2 <==> growth == 0 || growth == n + 2 || growth == 3 * (n + 2)
  {
  }

  /** A control character for which one doubling is not enough: the text is short, and has just filled the buffer. */
  predicate Overruns(s: seq<byte>, i: nat)
    requires i < |s|
  {
    Control(s[i]) && 2 * |s| - 4 < i + Growth(s, i) <= |s|
  }

  lemma LeastOverrun(room: nat, n: nat, size: nat)
    requires n > 0 && Least(room, n, size)
    ensures size + 8 > 2 * room <==> 2 * n - 4 < size <= n
  {
  }

  lemma FitsStep(s: seq<byte>, i: nat)
    requires i < |s| && Fits(s, i)
    ensures Fits(s, i + 1) <==> !Overruns(s, i)
  {
    RoomNext(s, i);
    RoomLeast(s, i);
    WrittenSize(s, i);
    LeastOverrun(Room(s, i), |s|, Written(s, i));
  }

  lemma {:induction false} FitsExactly(s: seq<byte>, n: nat)
    requires n <= |s|
    ensures Fits(s, n) <==> forall i :: 0 <= i < n ==> !Overruns(s, i)
  {
    if n > 0 {
      FitsExactly(s, n - 1);
      if Fits(s, n - 1) { FitsStep(s, n - 1); }
    }
  }

  /**
    For every string of `n` bytes: the writes stay inside the buffer if and only if no control character overruns it,
    which takes n < 4; and then the text returned has the right length if and only if it grows by 0, by n + 2 or by
    3 * (n + 2).
  */
  lemma QuoteExactly(s: seq<byte>)
    ensures Fits(s, |s|) <==> forall i :: 0 <= i < |s| ==> !Overruns(s, i)
    ensures |s| >= 4 ==> Fits(s, |s|)
    ensures var n, growth := |s|, Growth(s, |s|);
      Fits(s, n) ==>
        (Room(s, n) == |Escaped(s)| + 2 <==> growth == 0 || growth == n + 2 || growth == 3 * (n + 2))
  {
    FitsExactly(s, |s|);
    EscapedSize(s, |s|);
    assert s[..|s|] == s;
    if Fits(s, |s|) {
      RoomLeast(s, |s|);
      WrittenSize(s, |s|);
      LeastIs(Room(s, |s|), |s|, Growth(s, |s|));
    }
  }

  predicate NoControls(s: seq<byte>) {
    forall i :: 0 <= i < |s| ==> s[i] >= 0x20
  }

  predicate Special(s: seq<byte>) {
    QUOTE in s || BACKSLASH in s
  }

  lemma {:induction false} GrowthPlain(s: seq<byte>, i: nat)
    requires i <= |s| && NoControls(s)
    ensures Controls(s, i) == 0 && Growth(s, i) <= i && (Growth(s, i) == 0 <==> !Special(s[..i]))
  {
    if i > 0 {
      GrowthPlain(s, i - 1);
      assert s[..i] == s[..i - 1] + [s[i - 1]];
    }
  }

  /** Without control characters, if and only if nothing had to be escaped. */
  lemma QuoteNoControls(s: seq<byte>)
    requires NoControls(s)
    ensures Fits(s, |s|) && (Room(s, |s|) == |Escaped(s)| + 2 <==> !Special(s))
  {
    QuoteExactly(s);
    GrowthPlain(s, |s|);
    assert s[..|s|] == s;
  }

  lemma {:induction false} EscapedPlain(s: seq<byte>)
    requires NoControls(s) && !Special(s)
    ensures Escaped(s) == s
  {
    if s != [] {
      assert s[0] in s;
      EscapedPlain(s[1..]);
    }
  }

  lemma QuotedPlain(s: seq<byte>)
    requires Plain(s)
    ensures Fits(s, |s|) && Room(s, |s|) == |s| + 2 && [QUOTE] + Escaped(s) + [QUOTE] == Quoted(s)
  {
    assert NoControls(s) && !Special(s);
    QuoteNoControls(s);
    EscapedPlain(s);
  }

  /** A printed string is read back as itself if and only if its bytes are below 0x80. */
  lemma StrTripExactly(s: seq<byte>, text: seq<byte>)
    requires QuotedAs(s, text)
    ensures Json.Resolve(text).Parsed? && (Json.Resolve(text).value == Str(s) <==> Ascii(s))
  {
    var n := |Escaped(s)|;
    var rest := text[n + 2..];
    QuotedBehind(s, text, rest);
    EscapedRecodes(s, rest, []);
    RecodedSize(s);
    assert [] + Recoded(s) == Recoded(s);
  }

  lemma QuotedBehind(s: seq<byte>, text: seq<byte>, rest: seq<byte>)
    requires QuotedAs(s, text) && rest == text[|Escaped(s)| + 2..]
    ensures text != [] && text[0] == QUOTE && Skip(text) == text && text[1..] == Escaped(s) + ([QUOTE] + rest)
  {
    assert text == text[..|Escaped(s)| + 2] + rest;
    assert text[0] == text[..|Escaped(s)| + 2][0];
  }

  lemma QuotedAsPlain(s: seq<byte>, text: seq<byte>)
    requires Plain(s) && QuotedAs(s, text)
    ensures text == Quoted(s)
  {
    QuotedPlain(s);
    assert text == text[..|text|];
  }

  // --- values ---------------------------------------------------------------------------------------------

  /** The values whose printing comes to its end: all strings fit; FLOAT is not part of this model. */
  predicate CanPrint(v: Value) {
    match v
    case Float(_) => false
    case Str(s) => Fits(s, |s|)
    case Arr(items) => forall i :: 0 <= i < |items| ==> CanPrint(items[i])
    case Obj(members) => forall i :: 0 <= i < |members| ==> Fits(members[i].0, |members[i].0|) && CanPrint(members[i].1)
    case _ => true
  }

  /** Texts with commas between them. */
  function Joined(texts: seq<seq<byte>>): seq<byte> {
    if texts == [] then []
    else
      var n := |texts| - 1;
      Joined(texts[..n]) + CommaBefore(n) + texts[n]
  }

  function CommaBefore(i: nat): seq<byte> {
    if i > 0 then [COMMA] else []
  }

  /** The texts that can be printed for a value. */
  ghost predicate Prints(v: Value, text: seq<byte>)
    decreases v, 0
  {
    match v
    case Null => text == NULLTEXT
    case Bool(b) => text == if b then TRUETEXT else FALSETEXT
    case Int(n) => text == Decimals.SignedText(n)
    case Float(_) => false
    case Str(s) => QuotedAs(s, text)
    case Arr(items) =>
      exists texts: seq<seq<byte>> ::
        |texts| == |items| && PrintsItems(v, items, texts) && text == [OPEN] + Joined(texts) + [CLOSE]
    case Obj(members) =>
      exists texts: seq<seq<byte>> ::
        |texts| == |members| && PrintsMembers(v, members, texts) && text == [BEGIN] + Joined(texts) + [END]
  }

  ghost predicate PrintsItems(v: Value, items: seq<Value>, texts: seq<seq<byte>>)
    requires v == Arr(items) && |texts| <= |items|
    decreases v, 0, 0
  {
    forall i :: 0 <= i < |texts| ==> Prints(items[i], texts[i])
  }

  ghost predicate PrintsMember(m: (seq<byte>, Value), text: seq<byte>)
    decreases m.1, 1
  {
    exists name, value :: QuotedAs(m.0, name) && Prints(m.1, value) && text == name + ([COLON] + value)
  }

  ghost predicate PrintsMembers(v: Value, members: seq<(seq<byte>, Value)>, texts: seq<seq<byte>>)
    requires v == Obj(members) && |texts| <= |members|
    decreases v, 0, 0
  {
    forall i :: 0 <= i < |texts| ==> PrintsMember(members[i], texts[i])
  }

  lemma JoinedNext(texts: seq<seq<byte>>, text: seq<byte>)
    ensures Joined(texts + [text]) == Joined(texts) + CommaBefore(|texts|) + text
  {
    assert (texts + [text])[..|texts|] == texts;
  }

  /** `stringify()` of a value; the text of a FLOAT is not part of this model and counts as a failure. */
  method Stringify(v: Value) returns (ok: bool, text: seq<byte>)
    ensures ok <==> CanPrint(v)
    ensures ok ==> Prints(v, text)
    decreases v, 0
  {
    ok, text := true, [];
    match v
    case Null => text := NULLTEXT;
    case Bool(b) => text := if b then TRUETEXT else FALSETEXT;
    case Int(n) => text := Decimals.Stringify(n, true);
    case Float(_) => ok := false;
    case Str(s) => ok, text := QuoteText(s);
    case Arr(items) => ok, text := StringifyArray(v, items);
    case Obj(members) => ok, text := StringifyObject(v, members);
  }

  ghost predicate ItemsSoFar(v: Value, items: seq<Value>, texts: seq<seq<byte>>, str: seq<byte>)
    requires v == Arr(items)
  {
    && |texts| <= |items| && PrintsItems(v, items, texts) && str == [OPEN] + Joined(texts)
    && forall j :: 0 <= j < |texts| ==> CanPrint(items[j])
  }

  lemma ItemNext(v: Value, items: seq<Value>, texts: seq<seq<byte>>, str: seq<byte>, text: seq<byte>)
    requires v == Arr(items) && ItemsSoFar(v, items, texts, str) && |texts| < |items|
    requires CanPrint(items[|texts|]) && Prints(items[|texts|], text)
    ensures ItemsSoFar(v, items, texts + [text], str + CommaBefore(|texts|) + text)
  {
    JoinedNext(texts, text);
    AssociateTwice([OPEN], Joined(texts), CommaBefore(|texts|), text);
    forall j | 0 <= j < |texts| + 1 ensures Prints(items[j], (texts + [text])[j]) && CanPrint(items[j]) {
      if j < |texts| { assert Prints(items[j], texts[j]); }
    }
  }

  lemma AssociateTwice(a: seq<byte>, b: seq<byte>, c: seq<byte>, d: seq<byte>)
    ensures ((a + b) + c) + d == a + ((b + c) + d)
  {
  }

  lemma ItemsEnd(v: Value, items: seq<Value>, texts: seq<seq<byte>>, str: seq<byte>)
    requires v == Arr(items) && ItemsSoFar(v, items, texts, str) && |texts| == |items|
    ensures CanPrint(v) && Prints(v, str + [CLOSE])
  {
  }

  lemma ItemFails(v: Value, items: seq<Value>, i: nat)
    requires v == Arr(items) && i < |items| && !CanPrint(items[i])
    ensures !CanPrint(v)
  {
  }

  method StringifyArray(v: Value, items: seq<Value>) returns (ok: bool, str: seq<byte>)
    requires v == Arr(items)
    ensures ok <==> CanPrint(v)
    ensures ok ==> Prints(v, str)
    decreases v, 0, 0
  {
    str := [OPEN];
    var dot := false;
    ghost var texts: seq<seq<byte>> := [];
    assert str == [OPEN] + Joined(texts);
    for i := 0 to |items|
      invariant (dot <==> i > 0) && |texts| == i && ItemsSoFar(v, items, texts, str)
    {
      ghost var before := str;
      if dot {
        str := str + [COMMA];
      } else {
        assert str == str + [];
      }
      var text;
      ok, text := Stringify(items[i]);
      if !ok {
        ItemFails(v, items, i);
        return;
      }
      ItemNext(v, items, texts, before, text);
      str := str + text;
      dot := true;
      texts := texts + [text];
    }
    ItemsEnd(v, items, texts, str);
    str := str + [CLOSE];
    ok := true;
  }

  predicate CanPrintMember(m: (seq<byte>, Value)) {
    Fits(m.0, |m.0|) && CanPrint(m.1)
  }

  method StringifyMember(m: (seq<byte>, Value)) returns (ok: bool, str: seq<byte>)
    ensures ok <==> CanPrintMember(m)
    ensures ok ==> PrintsMember(m, str)
    decreases m
  {
    str := [];
    var name, value;
    ok, name := QuoteText(m.0);
    if ok {
      ok, value := Stringify(m.1);
      str := name + ([COLON] + value);
    }
  }

  ghost predicate MembersSoFar(v: Value, members: seq<(seq<byte>, Value)>, texts: seq<seq<byte>>, str: seq<byte>)
    requires v == Obj(members)
  {
    && |texts| <= |members| && PrintsMembers(v, members, texts) && str == [BEGIN] + Joined(texts)
    && forall j :: 0 <= j < |texts| ==> CanPrintMember(members[j])
  }

  lemma MemberNext(v: Value, members: seq<(seq<byte>, Value)>, texts: seq<seq<byte>>, str: seq<byte>, text: seq<byte>)
    requires v == Obj(members) && MembersSoFar(v, members, texts, str) && |texts| < |members|
    requires CanPrintMember(members[|texts|]) && PrintsMember(members[|texts|], text)
    ensures MembersSoFar(v, members, texts + [text], str + CommaBefore(|texts|) + text)
  {
    JoinedNext(texts, text);
    AssociateTwice([BEGIN], Joined(texts), CommaBefore(|texts|), text);
    forall j | 0 <= j < |texts| + 1
      ensures PrintsMember(members[j], (texts + [text])[j]) && CanPrintMember(members[j])
    {
      if j < |texts| { assert PrintsMember(members[j], texts[j]); }
    }
  }

  lemma MembersEnd(v: Value, members: seq<(seq<byte>, Value)>, texts: seq<seq<byte>>, str: seq<byte>)
    requires v == Obj(members) && MembersSoFar(v, members, texts, str) && |texts| == |members|
    ensures CanPrint(v) && Prints(v, str + [END])
  {
    forall j | 0 <= j < |members| ensures Fits(members[j].0, |members[j].0|) && CanPrint(members[j].1) {
      assert CanPrintMember(members[j]);
    }
  }

  lemma MemberFails(v: Value, members: seq<(seq<byte>, Value)>, i: nat)
    requires v == Obj(members) && i < |members| && !CanPrintMember(members[i])
    ensures !CanPrint(v)
  {
  }

  method StringifyObject(v: Value, members: seq<(seq<byte>, Value)>) returns (ok: bool, str: seq<byte>)
    requires v == Obj(members)
    ensures ok <==> CanPrint(v)
    ensures ok ==> Prints(v, str)
    decreases v, 0, 0
  {
    str := [BEGIN];
    var dot := false;
    ghost var texts: seq<seq<byte>> := [];
    assert str == [BEGIN] + Joined(texts);
    for i := 0 to |members|
      invariant (dot <==> i > 0) && |texts| == i && MembersSoFar(v, members, texts, str)
    {
      ghost var before := str;
      if dot {
        str := str + [COMMA];
      } else {
        assert str == str + [];
      }
      var text;
      ok, text := StringifyMember(members[i]);
      if !ok {
        MemberFails(v, members, i);
        return;
      }
      MemberNext(v, members, texts, before, text);
      str := str + text;
      dot := true;
      texts := texts + [text];
    }
    MembersEnd(v, members, texts, str);
    str := str + [END];
    ok := true;
  }

  // --- what is printed is read back -----------------------------------------------------------------------

  lemma {:induction false} PrintableCanPrint(v: Value)
    requires Printable(v)
    ensures CanPrint(v)
    decreases v
  {
    match v
    case Str(s) => QuotedPlain(s);
    case Arr(items) =>
      forall i | 0 <= i < |items| ensures CanPrint(items[i]) { PrintableCanPrint(items[i]); }
    case Obj(members) =>
      forall i | 0 <= i < |members| ensures Fits(members[i].0, |members[i].0|) && CanPrint(members[i].1) {
        QuotedPlain(members[i].0);
        PrintableCanPrint(members[i].1);
      }
    case _ =>
  }

  /** What is printed behind the first `k` items. */
  function ItemsTail(v: Value, items: seq<Value>, k: nat): seq<byte>
    requires v == Arr(items) && Printable(v) && k <= |items|
  {
    if k == |items| then [CLOSE] else CommaBefore(k) + PrintItems(v, items, k)
  }

  lemma ItemsTailStep(v: Value, items: seq<Value>, k: nat)
    requires v == Arr(items) && Printable(v) && k < |items|
    ensures ItemsTail(v, items, k) == CommaBefore(k) + (Print(items[k]) + ItemsTail(v, items, k + 1))
  {
  }

  lemma JoinedStep(texts: seq<seq<byte>>, k: nat)
    requires k < |texts|
    ensures Joined(texts[..k + 1]) == Joined(texts[..k]) + CommaBefore(k) + texts[k]
  {
    assert texts[..k + 1] == texts[..k] + [texts[k]];
    JoinedNext(texts[..k], texts[k]);
  }

  lemma TailStep(joined: seq<byte>, comma: seq<byte>, text: seq<byte>, tail: seq<byte>)
    ensures joined + (comma + (text + tail)) == ((joined + comma) + text) + tail
  {
  }

  lemma {:induction false} JoinedItems(v: Value, items: seq<Value>, texts: seq<seq<byte>>, k: nat)
    requires v == Arr(items) && Printable(v) && k <= |items| == |texts|
    requires forall i :: 0 <= i < |items| ==> texts[i] == Print(items[i])
    ensures Joined(texts[..k]) + ItemsTail(v, items, k) == Joined(texts) + [CLOSE]
    decreases |items| - k
  {
    if k == |items| {
      assert texts[..k] == texts;
    } else {
      JoinedItems(v, items, texts, k + 1);
      JoinedStep(texts, k);
      ItemsTailStep(v, items, k);
      TailStep(Joined(texts[..k]), CommaBefore(k), texts[k], ItemsTail(v, items, k + 1));
    }
  }

  function MembersTail(v: Value, members: seq<(seq<byte>, Value)>, k: nat): seq<byte>
    requires v == Obj(members) && Printable(v) && k <= |members|
  {
    if k == |members| then [END] else CommaBefore(k) + PrintMembers(v, members, k)
  }

  /** A member as it is printed. */
  function MemberText(m: (seq<byte>, Value)): seq<byte>
    requires Printable(m.1)
  {
    Quoted(m.0) + ([COLON] + Print(m.1))
  }

  lemma MemberParts(a: seq<byte>, b: seq<byte>, c: seq<byte>, d: seq<byte>)
    ensures a + (b + (c + d)) == (a + (b + c)) + d
  {
  }

  lemma MembersTailStep(v: Value, members: seq<(seq<byte>, Value)>, k: nat)
    requires v == Obj(members) && Printable(v) && k < |members|
    ensures MembersTail(v, members, k) == CommaBefore(k) + (MemberText(members[k]) + MembersTail(v, members, k + 1))
  {
    MemberParts(Quoted(members[k].0), [COLON], Print(members[k].1), MembersTail(v, members, k + 1));
  }

  lemma {:induction false} JoinedMembers(v: Value, members: seq<(seq<byte>, Value)>, texts: seq<seq<byte>>, k: nat)
    requires v == Obj(members) && Printable(v) && k <= |members| == |texts|
    requires forall i :: 0 <= i < |members| ==> texts[i] == MemberText(members[i])
    ensures Joined(texts[..k]) + MembersTail(v, members, k) == Joined(texts) + [END]
    decreases |members| - k
  {
    if k == |members| {
      assert texts[..k] == texts;
    } else {
      var tail := MembersTail(v, members, k + 1);
      JoinedMembers(v, members, texts, k + 1);
      JoinedStep(texts, k);
      MembersTailStep(v, members, k);
      TailStep(Joined(texts[..k]), CommaBefore(k), texts[k], tail);
    }
  }

  lemma ArrayText(v: Value, items: seq<Value>, texts: seq<seq<byte>>)
    requires v == Arr(items) && Printable(v) && |items| == |texts|
    requires forall i :: 0 <= i < |items| ==> texts[i] == Print(items[i])
    ensures [OPEN] + Joined(texts) + [CLOSE] == Print(v)
  {
    JoinedItems(v, items, texts, 0);
    Enclosed([OPEN], Joined(texts), [CLOSE], ItemsTail(v, items, 0));
    PrintedArray(v, items);
  }

  lemma PrintedArray(v: Value, items: seq<Value>)
    requires v == Arr(items) && Printable(v)
    ensures Print(v) == [OPEN] + ItemsTail(v, items, 0)
  {
    if items != [] { assert [] + PrintItems(v, items, 0) == PrintItems(v, items, 0); }
  }

  lemma PrintedObject(v: Value, members: seq<(seq<byte>, Value)>)
    requires v == Obj(members) && Printable(v)
    ensures Print(v) == [BEGIN] + MembersTail(v, members, 0)
  {
    if members != [] { assert [] + PrintMembers(v, members, 0) == PrintMembers(v, members, 0); }
  }

  lemma Enclosed(open: seq<byte>, inner: seq<byte>, close: seq<byte>, tail: seq<byte>)
    requires [] + tail == inner + close
    ensures open + inner + close == open + tail
  {
    Associate(open, inner, close);
    assert [] + tail == tail;
  }

  lemma ObjectText(v: Value, members: seq<(seq<byte>, Value)>, texts: seq<seq<byte>>)
    requires v == Obj(members) && Printable(v) && |members| == |texts|
    requires forall i :: 0 <= i < |members| ==> texts[i] == MemberText(members[i])
    ensures [BEGIN] + Joined(texts) + [END] == Print(v)
  {
    JoinedMembers(v, members, texts, 0);
    Enclosed([BEGIN], Joined(texts), [END], MembersTail(v, members, 0));
    PrintedObject(v, members);
  }

  lemma {:induction false} PrintsOnlyArray(v: Value, items: seq<Value>, text: seq<byte>)
    requires v == Arr(items) && Printable(v) && Prints(v, text)
    ensures text == Print(v)
    decreases v, 0
  {
    var texts: seq<seq<byte>> :|
      |texts| == |items| && PrintsItems(v, items, texts) && text == [OPEN] + Joined(texts) + [CLOSE];
    forall i | 0 <= i < |items| ensures texts[i] == Print(items[i]) { PrintsOnly(items[i], texts[i]); }
    ArrayText(v, items, texts);
  }

  lemma {:induction false} PrintsOnlyObject(v: Value, members: seq<(seq<byte>, Value)>, text: seq<byte>)
    requires v == Obj(members) && Printable(v) && Prints(v, text)
    ensures text == Print(v)
    decreases v, 0
  {
    var texts: seq<seq<byte>> :|
      |texts| == |members| && PrintsMembers(v, members, texts) && text == [BEGIN] + Joined(texts) + [END];
    forall i | 0 <= i < |members| ensures texts[i] == MemberText(members[i]) {
      PrintsOnlyMember(members[i], texts[i]);
    }
    ObjectText(v, members, texts);
  }

  /** A printable value has one text. */
  lemma {:induction false} PrintsOnly(v: Value, text: seq<byte>)
    requires Printable(v) && Prints(v, text)
    ensures text == Print(v)
    decreases v, 1
  {
    match v
    case Str(s) => QuotedAsPlain(s, text);
    case Arr(items) => PrintsOnlyArray(v, items, text);
    case Obj(members) => PrintsOnlyObject(v, members, text);
    case _ =>
  }

  lemma {:induction false} PrintsOnlyMember(m: (seq<byte>, Value), text: seq<byte>)
    requires Plain(m.0) && Printable(m.1) && PrintsMember(m, text)
    ensures text == MemberText(m)
    decreases m.1, 2
  {
    var name, value :| QuotedAs(m.0, name) && Prints(m.1, value) && text == name + ([COLON] + value);
    QuotedAsPlain(m.0, name);
    PrintsOnly(m.1, value);
  }

  /** Printing succeeds on every printable value, and `resolve` reads the text back as the value and to its end. */
  lemma PrintedReads(v: Value, text: seq<byte>)
    requires Printable(v)
    ensures CanPrint(v) && (Prints(v, text) ==> Json.Resolve(text) == Parsed(v, []))
  {
    PrintableCanPrint(v);
    if Prints(v, text) {
      PrintsOnly(v, text);
      RoundTrip(v, []);
      assert Print(v) + [] == Print(v);
    }
  }
}
