/**
  The reader of JSON/src/JSON.cpp and the content list of JSON/src/object.cpp as they run, with one cursor over the
  text, against the functions of module Json.
*/
module JsonText {
  import opened Words
  import Decimals
  import opened Json

  lemma DropOne(str: seq<byte>, pos: nat)
    requires pos < |str|
    ensures str[pos..] != [] && str[pos..][0] == str[pos] && str[pos..][1..] == str[pos + 1..]
  {
  }

  method Whitespace(str: seq<byte>, pos0: nat) returns (pos: nat)
    requires pos0 <= |str|
    ensures pos0 <= pos <= |str| && str[pos..] == Skip(str[pos0..])
    ensures pos < |str| ==> str[pos..] != [] && str[pos..][0] == str[pos]
  {
    pos := pos0;
    while pos < |str| && Blank(str[pos])
      invariant pos0 <= pos <= |str| && Skip(str[pos..]) == Skip(str[pos0..])
    {
      DropOne(str, pos);
      pos := pos + 1;
    }
    if pos < |str| { DropOne(str, pos); }
  }

  // --- strings --------------------------------------------------------------------------------------------

  /** `UTF8W`; code points here have at most 16 bits, so its wider results do not occur. */
  method Utf8Size(x0: nat) returns (size: nat)
    requires x0 < 0x1_0000
    ensures size == |Utf8(x0)|
  {
    var ret: nat, x: nat := 0, x0;
    while x != 0
      invariant ret + BitLength(x) == BitLength(x0)
    {
      x := x / 2;
      ret := ret + 1;
    }
    SizeOfBits(x0);
    size := if ret <= 7 then 1 else if ret <= 11 then 2 else 3;
  }

  lemma SizeOfBits(x: nat)
    requires x < 0x1_0000
    ensures (BitLength(x) <= 7 <==> x < 0x80) && (BitLength(x) <= 11 <==> x < 0x800) && BitLength(x) <= 16
  {
    var b := BitLength(x);
    BitLengthBounds(x);
    PowersOfTwo();
    if x < 0x80 { BitLengthBelow(x, 7); } else if b <= 7 { Pow2Monotone(b, 7); }
    if x < 0x800 { BitLengthBelow(x, 11); } else if b <= 11 { Pow2Monotone(b, 11); }
    BitLengthBelow(x, 16);
  }

  lemma PowersOfTwo()
    ensures Pow2(5) == 0x20 && Pow2(6) == 0x40 && Pow2(7) == 0x80 && Pow2(11) == 0x800 && Pow2(16) == 0x1_0000
  {
    assert Pow2(3) == 8;
    assert Pow2(9) == 0x200;
    assert Pow2(13) == 0x2000;
  }

  lemma LeadShift(x: nat)
    ensures Shr(x, 6) == x / 64 && Shr(x, 12) == x / 4096
  {
    PowersOfTwo();
    Pow2Add(6, 6);
    ShrIsQuotient(x, 6);
    ShrIsQuotient(x, 12);
  }

  lemma LeadOfTwo(x: nat)
    requires x < 0x800
    ensures Shl(Shl(1, 3) - 2, 5) >= 0 && Or(Shl(Shl(1, 3) - 2, 5), x / 64) == 192 + x / 64
  {
    PowersOfTwo();
    assert Shl(1, 3) == 8 && Shl(6, 5) == 192;
    LowClearMultiple(192, 5);
    OrDisjoint(192, x / 64, 5);
  }

  lemma LeadOfThree(x: nat)
    requires x < 0x1_0000
    ensures Shl(Shl(1, 4) - 2, 4) >= 0 && Or(Shl(Shl(1, 4) - 2, 4), x / 4096) == 224 + x / 4096
  {
    assert Shl(1, 4) == 16 && Shl(14, 4) == 224 && Pow2(4) == 16;
    LowClearMultiple(224, 4);
    OrDisjoint(224, x / 4096, 4);
  }

  /** The lead byte: `size` ones, a zero and the highest bits. */
  lemma LeadByte(x: nat, size: nat)
    requires x < 0x1_0000 && size == |Utf8(x)| && size > 1
    ensures Shl(Shl(1, size + 1) - 2, 7 - size) >= 0 && Shr(x, 6 * (size - 1)) >= 0
    ensures Or(Shl(Shl(1, size + 1) - 2, 7 - size), Shr(x, 6 * (size - 1))) == Utf8(x)[0]
  {
    LeadShift(x);
    if size == 2 { LeadOfTwo(x); } else { LeadOfThree(x); }
  }

  lemma LowSix(v: nat)
    ensures And(v, 0x3F) == v % 64
  {
    PowersOfTwo();
    AndMask(v, 6);
  }

  lemma TopBit(v: nat)
    requires v < 64
    ensures Or(0x80, v) == 0x80 + v
  {
    PowersOfTwo();
    LowClearMultiple(0x80, 6);
    OrDisjoint(0x80, v, 6);
  }

  lemma TrailByte(x: nat, k: nat)
    ensures Shr(x, 6 * k) >= 0 && Or(0x80, And(Shr(x, 6 * k), 0x3F)) == 0x80 + Shr(x, 6 * k) % 64
  {
    ShrNonNegative(x, 6 * k);
    LowSix(Shr(x, 6 * k));
    TopBit(Shr(x, 6 * k) % 64);
  }

  lemma TrailBytes(x: nat, k: nat)
    requires x < 0x1_0000 && k + 1 < |Utf8(x)|
    ensures Utf8(x)[|Utf8(x)| - 1 - k] == 0x80 + Shr(x, 6 * k) % 64
  {
    PowersOfTwo();
    if k == 1 { ShrIsQuotient(x, 6); } else { assert Shr(x, 0) == x; }
  }

  /** The UTF-8 encoder at the end of the loop in `ReadEscapeString`. */
  method EncodeUtf8(x: nat) returns (out: seq<byte>)
    requires x < 0x1_0000
    ensures out == Utf8(x)
  {
    var size: nat := Utf8Size(x);
    ghost var n := size;
    if size == 1 {
      out := [x];
    } else {
      LeadByte(x, size);
      out := [Or(Shl(Shl(1, size + 1) - 2, 7 - size), Shr(x, 6 * (size - 1)))];
    }
    size := size - 1;
    while size > 0
      invariant 0 <= size < n && out == Utf8(x)[..n - size]
    {
      TrailByte(x, size - 1);
      TrailBytes(x, size - 1);
      out := out + [Or(0x80, And(Shr(x, 6 * (size - 1)), 0x3F))];
      size := size - 1;
    }
  }

  /** Four hexadecimal digits. */
  method ReadHex(str: seq<byte>, pos: nat) returns (ok: bool, byt: nat)
    requires pos <= |str|
    ensures ok <==> Json.Hex(str[pos..], 4, 0).Parsed?
    ensures ok ==> pos + 4 <= |str| && Json.Hex(str[pos..], 4, 0) == Parsed(byt, str[pos + 4..])
  {
    byt := 0;
    var i := 0;
    while i < 4
      invariant 0 <= i <= 4 && pos + i <= |str|
      invariant Json.Hex(str[pos..], 4, 0) == Json.Hex(str[pos + i..], 4 - i, byt)
    {
      if pos + i >= |str| {
        return false, 0;
      }
      DropOne(str, pos + i);
      match HexDigit(str[pos + i])
      case None => return false, 0;
      case Some(d) =>
        byt := 16 * byt + d;
        i := i + 1;
    }
    ok := true;
  }

  /** The `switch` over the character behind a backslash. */
  method ReadEscape(str: seq<byte>, pos0: nat) returns (ok: bool, byt: nat, pos: nat)
    requires pos0 <= |str|
    ensures ok <==> Escape(str[pos0..]).Parsed?
    ensures ok ==> pos0 < pos <= |str| && byt < 0x1_0000 && Escape(str[pos0..]) == Parsed(byt, str[pos..])
  {
    ok, byt, pos := false, 0, pos0;
    if pos0 < |str| {
      DropOne(str, pos0);
      EscapeBound(str[pos0..]);
      var escaped := str[pos0];
      pos := pos0 + 1;
      if escaped == 98 { ok, byt := true, 8; }
      else if escaped == 116 { ok, byt := true, 9; }
      else if escaped == 110 { ok, byt := true, 10; }
      else if escaped == 102 { ok, byt := true, 12; }
      else if escaped == 114 { ok, byt := true, 13; }
      else if escaped == QUOTE || escaped == 39 || escaped == BACKSLASH { ok, byt := true, escaped; }
      else if escaped == 117 {
        ok, byt := ReadHex(str, pos);
        if ok { pos := pos + 4; }
      }
    }
  }

  /** One turn of the loop: a byte, or an escape. */
  method ReadChar(str: seq<byte>, pos0: nat, ghost seen: seq<byte>) returns (ok: bool, byt: nat, pos: nat)
    requires pos0 < |str| && str[pos0] != QUOTE
    ensures !ok ==> Text(str[pos0..], seen).Failed?
    ensures ok ==> pos0 < pos <= |str| && byt < 0x1_0000
    ensures ok ==> Text(str[pos0..], seen) == Text(str[pos..], seen + Utf8(byt))
  {
    DropOne(str, pos0);
    ok, byt, pos := true, str[pos0], pos0 + 1;
    if byt == BACKSLASH {
      ok, byt, pos := ReadEscape(str, pos);
    }
  }

  /** The cursor stands on the opening quote. */
  method ReadEscapeString(str: seq<byte>, pos0: nat) returns (ok: bool, text: seq<byte>, pos: nat)
    requires pos0 < |str| && str[pos0] == QUOTE
    ensures ok <==> Text(str[pos0 + 1..], []).Parsed?
    ensures ok ==> pos0 < pos <= |str| && Text(str[pos0 + 1..], []) == Parsed(text, str[pos..])
  {
    text, pos := [], pos0 + 1;
    while pos < |str| && str[pos] != QUOTE
      invariant pos0 < pos <= |str| && Text(str[pos0 + 1..], []) == Text(str[pos..], text)
      decreases |str| - pos
    {
      var byt;
      ok, byt, pos := ReadChar(str, pos, text);
      if !ok {
        return;
      }
      var bytes := EncodeUtf8(byt);
      text := text + bytes;
    }
    ok := pos < |str|;
    if ok {
      DropOne(str, pos);
      pos := pos + 1;
    }
  }

  // --- content lists --------------------------------------------------------------------------------------

  lemma {:induction false} AssignAt(members: seq<(seq<byte>, Value)>, key: seq<byte>, v: Value, i: nat)
    requires i <= |members| && forall j :: 0 <= j < i ==> members[j].0 != key
    requires i < |members| ==> members[i].0 == key
    ensures Assign(members, key, v) == if i < |members| then members[i := (key, v)] else members + [(key, v)]
  {
    if i > 0 {
      assert members[0].0 != key;
      forall j | 0 <= j < i - 1 ensures members[1..][j].0 != key { assert members[j + 1].0 != key; }
      AssignAt(members[1..], key, v, i - 1);
    }
  }

  /** `operator[](key)`: the search, and the new entry if it finds none; then the assignment. */
  method Store(content: seq<(seq<byte>, Value)>, key: seq<byte>, v: Value) returns (content': seq<(seq<byte>, Value)>)
    ensures content' == Assign(content, key, v)
  {
    var i := 0;
    while i < |content| && content[i].0 != key
      invariant 0 <= i <= |content| && forall j :: 0 <= j < i ==> content[j].0 != key
    {
      i := i + 1;
    }
    AssignAt(content, key, v, i);
    content' := if i < |content| then content[i := (key, v)] else content + [(key, v)];
  }

  /** The key is there afterwards, with the new value, every other entry keeps its value, and keys stay distinct. */
  lemma StoreFinds(content: seq<(seq<byte>, Value)>, key: seq<byte>, v: Value)
    requires DistinctKeys(content)
    ensures DistinctKeys(Assign(content, key, v)) && (key, v) in Assign(content, key, v)
    ensures forall m :: m in content && m.0 != key ==> m in Assign(content, key, v)
    ensures forall m :: m in Assign(content, key, v) ==> m == (key, v) || (m in content && m.0 != key)
  {
    if i :| 0 <= i < |content| && content[i].0 == key {
      AssignAt(content, key, v, i);
    } else {
      AssignAt(content, key, v, |content|);
    }
  }

  // --- values ---------------------------------------------------------------------------------------------

  ghost predicate Inside(str: seq<byte>, pos: nat, end: nat)
    requires end <= |str|
  {
    forall j :: pos <= j < end ==> !Delimiter(str[j])
  }

  lemma {:induction false} TokenStep(str: seq<byte>, pos: nat, end: nat)
    requires pos <= end <= |str| && Inside(str, pos, end)
    ensures TokenSize(str[pos..]) == end - pos + TokenSize(str[end..])
    decreases end - pos
  {
    if pos < end {
      DropOne(str, pos);
      TokenStep(str, pos + 1, end);
    }
  }

  lemma TokenEnd(str: seq<byte>, pos: nat, end: nat)
    requires pos <= end <= |str| && Inside(str, pos, end) && (end < |str| ==> Delimiter(str[end]))
    ensures TokenSize(str[pos..]) == end - pos
    ensures str[pos..][..end - pos] == str[pos..end] && str[pos..][end - pos..] == str[end..]
  {
    TokenStep(str, pos, end);
    if end < |str| { DropOne(str, end); }
  }

  /** The characters that keep the flag `digit` up. */
  ghost predicate Wholesome(str: seq<byte>, pos: nat, end: nat)
    requires end <= |str|
  {
    forall j :: pos <= j < end ==> str[j] >= 48 && str[pos] <= 57
  }

  lemma WholesomeToken(str: seq<byte>, pos: nat, end: nat)
    requires pos < end <= |str|
    ensures Wholesome(str, pos, end) <==> LooksWhole(str[pos..end])
  {
    var value := str[pos..end];
    if LooksWhole(value) {
      forall j | pos <= j < end ensures str[j] >= 48 && str[pos] <= 57 {
        assert value[j - pos] == str[j] && value[0] == str[pos];
      }
    }
  }

  method ClassifyToken(value: seq<byte>, digit: bool, ghost rest: seq<byte>) returns (ok: bool, v: Value)
    requires digit <==> LooksWhole(value)
    ensures ok <==> Classify(value, rest).Parsed?
    ensures ok ==> Classify(value, rest) == Parsed(v, rest)
  {
    ok, v := true, Null;
    if value == NULLTEXT {
      v := Null;
    } else if value == FALSETEXT {
      v := Bool(false);
    } else if value == TRUETEXT {
      v := Bool(true);
    } else if digit {
      var n := Decimals.ParseInteger(value);
      match n
      case None => ok := false;
      case Some(x) => v := Int(x);
    } else {
      ok := Decimals.ScanFloat(value);
      v := Float(value);
    }
  }

  /** The loop of the `default` branch: the end of the token, and the flag `digit`. */
  method ScanToken(str: seq<byte>, pos0: nat) returns (pos: nat, digit: bool)
    requires pos0 < |str|
    ensures pos0 <= pos <= |str| && TokenSize(str[pos0..]) == pos - pos0
    ensures str[pos0..][..pos - pos0] == str[pos0..pos] && str[pos0..][pos - pos0..] == str[pos..]
    ensures pos0 < pos ==> (digit <==> LooksWhole(str[pos0..pos]))
  {
    digit := true;
    pos := pos0;
    while pos < |str| && !Delimiter(str[pos])
      invariant pos0 <= pos <= |str| && Inside(str, pos0, pos) && (digit <==> Wholesome(str, pos0, pos))
    {
      digit := digit && str[pos] >= 48 && str[pos0] <= 57;
      pos := pos + 1;
    }
    TokenEnd(str, pos0, pos);
    if pos0 < pos { WholesomeToken(str, pos0, pos); }
  }

  /** The `default` branch: a word, an integer or a floating-point number up to the next delimiter. */
  method ReadToken(str: seq<byte>, pos0: nat) returns (ok: bool, v: Value, pos: nat)
    requires pos0 < |str|
    ensures ok <==> Token(str[pos0..]).Parsed?
    ensures ok ==> pos0 <= pos <= |str| && Token(str[pos0..]) == Parsed(v, str[pos..])
  {
    var digit;
    pos, digit := ScanToken(str, pos0);
    if pos == pos0 {
      return false, Null, pos;
    }
    assert Token(str[pos0..]) == Classify(str[pos0..pos], str[pos..]);
    ok, v := ClassifyToken(str[pos0..pos], digit, str[pos..]);
  }

  method ReadValue(str: seq<byte>, pos0: nat) returns (ok: bool, v: Value, pos: nat)
    requires pos0 <= |str|
    ensures ok <==> Json.Resolve(str[pos0..]).Parsed?
    ensures ok ==> pos0 <= pos <= |str| && Json.Resolve(str[pos0..]) == Parsed(v, str[pos..])
    decreases |str| - pos0, 0
  {
    v := Null;
    pos := Whitespace(str, pos0);
    if pos >= |str| {
      return true, Null, pos;
    }
    DropOne(str, pos);
    if str[pos] == BEGIN {
      pos := Whitespace(str, pos + 1);
      ok, v, pos := ReadObject(str, pos);
    } else if str[pos] == OPEN {
      pos := Whitespace(str, pos + 1);
      ok, v, pos := ReadArray(str, pos);
    } else if str[pos] == QUOTE {
      var text;
      ok, text, pos := ReadEscapeString(str, pos);
      v := Str(text);
    } else {
      ok, v, pos := ReadToken(str, pos);
    }
  }

  method ReadObject(str: seq<byte>, pos0: nat) returns (ok: bool, v: Value, pos: nat)
    requires pos0 <= |str|
    ensures ok <==> Object(str[pos0..]).Parsed?
    ensures ok ==> pos0 <= pos <= |str| && Object(str[pos0..]) == Parsed(v, str[pos..])
    decreases |str| - pos0, 2
  {
    if pos0 >= |str| {
      return false, Null, pos0;
    }
    DropOne(str, pos0);
    if str[pos0] == END {
      return true, Obj([]), pos0 + 1;
    }
    ok, v, pos := ReadMembers(str, pos0);
  }

  method ReadArray(str: seq<byte>, pos0: nat) returns (ok: bool, v: Value, pos: nat)
    requires pos0 <= |str|
    ensures ok <==> Array(str[pos0..]).Parsed?
    ensures ok ==> pos0 <= pos <= |str| && Array(str[pos0..]) == Parsed(v, str[pos..])
    decreases |str| - pos0, 2
  {
    if pos0 >= |str| {
      return false, Null, pos0;
    }
    DropOne(str, pos0);
    if str[pos0] == CLOSE {
      return true, Arr([]), pos0 + 1;
    }
    ok, v, pos := ReadItems(str, pos0);
  }

  method ReadSeparator(str: seq<byte>, pos0: nat, close: byte) returns (ok: bool, more: bool, pos: nat)
    requires pos0 <= |str|
    ensures pos0 <= pos <= |str| && (ok ==> pos0 < pos)
    ensures Separator(str[pos0..], close) == if !ok then Bad else if more then More(str[pos..]) else Done(str[pos..])
  {
    more := false;
    pos := Whitespace(str, pos0);
    if pos >= |str| {
      return false, false, pos;
    }
    DropOne(str, pos);
    var symbol := str[pos];
    pos := pos + 1;
    ok, more := symbol == close || symbol == COMMA, symbol != close;
  }

  /** The loop over the items of an array, up to and with the closing bracket. */
  method ReadItems(str: seq<byte>, pos0: nat) returns (ok: bool, v: Value, pos: nat)
    requires pos0 <= |str|
    ensures ok <==> Items(str[pos0..], []).Parsed?
    ensures ok ==> pos0 <= pos <= |str| && Items(str[pos0..], []) == Parsed(v, str[pos..])
    decreases |str| - pos0, 1
  {
    var items: seq<Value>, more := [], true;
    v, pos := Null, pos0;
    while more
      invariant pos0 <= pos <= |str|
      invariant more ==> Items(str[pos0..], []) == Items(str[pos..], items)
      invariant !more ==> Items(str[pos0..], []) == Parsed(Arr(items), str[pos..])
      decreases more, |str| - pos
    {
      var item;
      ok, item, pos := ReadValue(str, pos);
      if !ok {
        return;
      }
      items := items + [item];
      ok, more, pos := ReadSeparator(str, pos, CLOSE);
      if !ok {
        return;
      }
    }
    return true, Arr(items), pos;
  }

  /** The name of a member and the colon behind it. */
  method ReadName(str: seq<byte>, pos0: nat) returns (ok: bool, name: seq<byte>, pos: nat)
    requires pos0 <= |str|
    ensures ok <==> Name(str[pos0..]).Parsed?
    ensures ok ==> pos0 < pos <= |str| && Name(str[pos0..]) == Parsed(name, str[pos..])
  {
    name := [];
    pos := Whitespace(str, pos0);
    if pos >= |str| || str[pos] != QUOTE {
      return false, name, pos;
    }
    DropOne(str, pos);
    ok, name, pos := ReadEscapeString(str, pos);
    if !ok {
      return;
    }
    pos := Whitespace(str, pos);
    if pos >= |str| || str[pos] != COLON {
      return false, name, pos;
    }
    DropOne(str, pos);
    pos := pos + 1;
  }

  method ReadMember(str: seq<byte>, pos0: nat) returns (ok: bool, name: seq<byte>, value: Value, pos: nat)
    requires pos0 <= |str|
    ensures ok <==> Member(str[pos0..]).Parsed?
    ensures ok ==> pos0 < pos <= |str| && Member(str[pos0..]) == Parsed((name, value), str[pos..])
    decreases |str| - pos0, 0
  {
    value := Null;
    ok, name, pos := ReadName(str, pos0);
    if ok {
      ok, value, pos := ReadValue(str, pos);
    }
  }

  /** The loop over the members of an object, up to and with the closing brace. */
  method ReadMembers(str: seq<byte>, pos0: nat) returns (ok: bool, v: Value, pos: nat)
    requires pos0 <= |str|
    ensures ok <==> Members(str[pos0..], []).Parsed?
    ensures ok ==> pos0 <= pos <= |str| && Members(str[pos0..], []) == Parsed(v, str[pos..])
    decreases |str| - pos0, 1
  {
    var content: seq<(seq<byte>, Value)>, more := [], true;
    v, pos := Null, pos0;
    while more
      invariant pos0 <= pos <= |str|
      invariant more ==> Members(str[pos0..], []) == Members(str[pos..], content)
      invariant !more ==> Members(str[pos0..], []) == Parsed(Obj(content), str[pos..])
      decreases more, |str| - pos
    {
      var name, value;
      ok, name, value, pos := ReadMember(str, pos);
      if !ok {
        return;
      }
      content := Store(content, name, value);
      ok, more, pos := ReadSeparator(str, pos, END);
      if !ok {
        return;
      }
    }
    return true, Obj(content), pos;
  }

  /** `JSON::resolve`; what follows the value is not looked at. */
  method Resolve(str: seq<byte>) returns (ok: bool, v: Value)
    ensures ok <==> Json.Resolve(str).Parsed?
    ensures ok ==> Json.Resolve(str).value == v
  {
    assert str[0..] == str;
    var pos;
    ok, v, pos := ReadValue(str, 0);
  }
}
