/**
  JSON/src/JSON.cpp and JSON/src/object.cpp: reading and printing of JSON text.  Text is bytes; `char` is signed in
  the original, so that bytes from 0x80 on count as blank between tokens.
*/
module Json {
  import opened Words
  import Decimals

  datatype Value =
    | Null
    | Bool(b: bool)
    | Int(n: word)
    | Float(token: seq<byte>)                      // the text of a FLOAT; its value is not part of this model
    | Str(s: seq<byte>)
    | Arr(items: seq<Value>)
    | Obj(members: seq<(seq<byte>, Value)>)

  /** A value and the text behind it; `Failed` where the original throws, or reads outside the text. */
  datatype Parsed<T> = Parsed(value: T, rest: seq<byte>) | Failed

  const QUOTE: byte := 34
  const BACKSLASH: byte := 92
  const COMMA: byte := 44
  const COLON: byte := 58
  const OPEN: byte := 91
  const CLOSE: byte := 93
  const BEGIN: byte := 123
  const END: byte := 125
  const NULLTEXT: seq<byte> := [110, 117, 108, 108]
  const TRUETEXT: seq<byte> := [116, 114, 117, 101]
  const FALSETEXT: seq<byte> := [102, 97, 108, 115, 101]

  predicate Blank(c: byte) {
    c <= 0x20 || c >= 0x80
  }

  predicate Delimiter(c: byte) {
    c == COMMA || c == END || c == CLOSE || Blank(c)
  }

  function Skip(s: seq<byte>): (r: seq<byte>)
    ensures |r| <= |s|
  {
    if s != [] && Blank(s[0]) then Skip(s[1..]) else s
  }

  function TokenSize(s: seq<byte>): (n: nat)
    ensures n <= |s|
  {
    if s == [] || Delimiter(s[0]) then 0 else 1 + TokenSize(s[1..])
  }

  /** The test that sends a token to the integer parser: it looks at the first character only for the upper bound. */
  predicate LooksWhole(token: seq<byte>) {
    token != [] && token[0] <= 57 && forall i :: 0 <= i < |token| ==> token[i] >= 48
  }

  function Classify(token: seq<byte>, rest: seq<byte>): Parsed<Value> {
    if token == NULLTEXT then Parsed(Null, rest)
    else if token == FALSETEXT then Parsed(Bool(false), rest)
    else if token == TRUETEXT then Parsed(Bool(true), rest)
    else if !LooksWhole(token) then (if Decimals.FloatText(token) then Parsed(Float(token), rest) else Failed)
    else match Decimals.Integer(token)
         case Some(n) => Parsed(Int(n), rest)
         case None => Failed
  }

  /** A value that is neither bracketed nor quoted. */
  function Token(s: seq<byte>): (p: Parsed<Value>)
    ensures p.Parsed? ==> |p.rest| <= |s|
  {
    var n := TokenSize(s);
    if n == 0 then Failed else Classify(s[..n], s[n..])
  }

  // --- strings --------------------------------------------------------------------------------------------

  /** A code point of at most 16 bits in UTF-8. */
  function Utf8(x: nat): (out: seq<byte>)
    requires x < 0x1_0000
    ensures 1 <= |out| <= 3
  {
    if x < 0x80 then [x]
    else if x < 0x800 then [0xC0 + x / 64, 0x80 + x % 64]
    else [0xE0 + x / 4096, 0x80 + x / 64 % 64, 0x80 + x % 64]
  }

  /** The code point of a UTF-8 sequence as section 3 of RFC 3629 lays it out. */
  function CodePoint(s: seq<byte>): nat
    requires 1 <= |s| <= 3 && (|s| > 1 ==> s[0] >= 0xC0 && s[1] >= 0x80) && (|s| > 2 ==> s[0] >= 0xE0 && s[2] >= 0x80)
  {
    if |s| == 1 then s[0]
    else if |s| == 2 then (s[0] as int - 0xC0) * 64 + (s[1] as int - 0x80)
    else (s[0] as int - 0xE0) * 4096 + (s[1] as int - 0x80) * 64 + (s[2] as int - 0x80)
  }

  lemma Utf8Decodes(x: nat)
    requires x < 0x1_0000
    ensures CodePoint(Utf8(x)) == x
  {
    if x >= 0x800 {
      var h, m, l := x / 4096, x / 64 % 64, x % 64;
      DivModUnique(x / 64, 64, h, m) by { DivDiv(x); }
    }
  }

  lemma DivDiv(x: nat)
    ensures x / 64 == 64 * (x / 4096) + x / 64 % 64
  {
  }

  function HexDigit(c: byte): Option<nat> {
    if 48 <= c <= 57 then Some(c as int - 48)
    else if 65 <= c <= 70 then Some(c as int - 55)
    else if 97 <= c <= 102 then Some(c as int - 87)
    else None
  }

  /** The escapes after a backslash; `\/` is not among them. */
  function Escape(s: seq<byte>): Parsed<nat> {
    if s == [] then Failed
    else if s[0] == 98 then Parsed(8, s[1..])
    else if s[0] == 116 then Parsed(9, s[1..])
    else if s[0] == 110 then Parsed(10, s[1..])
    else if s[0] == 102 then Parsed(12, s[1..])
    else if s[0] == 114 then Parsed(13, s[1..])
    else if s[0] == QUOTE || s[0] == 39 || s[0] == BACKSLASH then Parsed(s[0], s[1..])
    else if s[0] == 117 then Hex(s[1..], 4, 0)
    else Failed
  }

  /** `n` more hexadecimal digits. */
  function Hex(s: seq<byte>, n: nat, x: nat): (p: Parsed<nat>)
    ensures p.Parsed? ==> |p.rest| <= |s|
  {
    if n == 0 then Parsed(x, s)
    else if s == [] || HexDigit(s[0]).None? then Failed
    else Hex(s[1..], n - 1, 16 * x + HexDigit(s[0]).value)
  }

  lemma {:induction false} HexBound(s: seq<byte>, n: nat, x: nat)
    requires n <= 4 && x < Pow2(16 - 4 * n)
    ensures Hex(s, n, x).Parsed? ==> Hex(s, n, x).value < 0x1_0000
  {
    if n == 0 {
      Pow2Words();
    } else if s != [] && HexDigit(s[0]).Some? {
      Pow2Add(4, 16 - 4 * n);
      assert Pow2(4) == 16;
      HexBound(s[1..], n - 1, 16 * x + HexDigit(s[0]).value);
    }
  }

  lemma EscapeBound(s: seq<byte>)
    ensures Escape(s).Parsed? ==> Escape(s).value < 0x1_0000 && |Escape(s).rest| < |s|
  {
    if s != [] && s[0] == 117 { HexBound(s[1..], 4, 0); }
  }

  /** A string behind its opening quote; every byte or escape is written as UTF-8. */
  function Text(s: seq<byte>, seen: seq<byte>): (p: Parsed<seq<byte>>)
    ensures p.Parsed? ==> |p.rest| < |s|
    decreases |s|
  {
    if s == [] then Failed
    else if s[0] == QUOTE then Parsed(seen, s[1..])
    else if s[0] == BACKSLASH then
      EscapeBound(s[1..]);
      match Escape(s[1..])
      case Failed => Failed
      case Parsed(x, rest) => Text(rest, seen + Utf8(x))
    else Text(s[1..], seen + Utf8(s[0]))
  }

  // --- values ---------------------------------------------------------------------------------------------

  /** `operator[](key)` and assignment: the value of a key that is there is replaced, a new key goes to the end. */
  function Assign(members: seq<(seq<byte>, Value)>, key: seq<byte>, v: Value): seq<(seq<byte>, Value)> {
    if members == [] then [(key, v)]
    else if members[0].0 == key then [(key, v)] + members[1..]
    else [members[0]] + Assign(members[1..], key, v)
  }

  /** `resolve` on the rest of the text. */
  function Resolve(s: seq<byte>): (p: Parsed<Value>)
    ensures p.Parsed? ==> |p.rest| <= |s|
    decreases |s|, 0
  {
    var t := Skip(s);
    if t == [] then Parsed(Null, [])
    else if t[0] == BEGIN then Object(Skip(t[1..]))
    else if t[0] == OPEN then Array(Skip(t[1..]))
    else if t[0] == QUOTE then
      match Text(t[1..], [])
      case Failed => Failed
      case Parsed(text, rest) => Parsed(Str(text), rest)
    else Token(t)
  }

  /** An object behind its brace and the blanks there. */
  function Object(s: seq<byte>): (p: Parsed<Value>)
    ensures p.Parsed? ==> |p.rest| <= |s|
    decreases |s|, 2
  {
    if s == [] then Failed else if s[0] == END then Parsed(Obj([]), s[1..]) else Members(s, [])
  }

  function Array(s: seq<byte>): (p: Parsed<Value>)
    ensures p.Parsed? ==> |p.rest| <= |s|
    decreases |s|, 2
  {
    if s == [] then Failed else if s[0] == CLOSE then Parsed(Arr([]), s[1..]) else Items(s, [])
  }

  /** What comes behind an item: a comma, the closing bracket, or something else. */
  datatype Separated = More(rest: seq<byte>) | Done(rest: seq<byte>) | Bad

  function Separator(s: seq<byte>, close: byte): (r: Separated)
    ensures !r.Bad? ==> |r.rest| < |s|
  {
    var t := Skip(s);
    if t == [] then Bad
    else if t[0] == close then Done(t[1..])
    else if t[0] == COMMA then More(t[1..])
    else Bad
  }

  function Items(s: seq<byte>, seen: seq<Value>): (p: Parsed<Value>)
    ensures p.Parsed? ==> |p.rest| <= |s|
    decreases |s|, 1
  {
    match Resolve(s)
    case Failed => Failed
    case Parsed(v, rest) =>
      match Separator(rest, CLOSE)
      case More(rest') => Items(rest', seen + [v])
      case Done(rest') => Parsed(Arr(seen + [v]), rest')
      case Bad => Failed
  }

  /** The name of a member and its colon. */
  function Name(s: seq<byte>): (p: Parsed<seq<byte>>)
    ensures p.Parsed? ==> |p.rest| < |s|
  {
    var t := Skip(s);
    if t == [] || t[0] != QUOTE then Failed
    else match Text(t[1..], [])
         case Failed => Failed
         case Parsed(name, rest) =>
           var u := Skip(rest);
           if u == [] || u[0] != COLON then Failed else Parsed(name, u[1..])
  }

  /** A name, a colon and a value. */
  function Member(s: seq<byte>): (p: Parsed<(seq<byte>, Value)>)
    ensures p.Parsed? ==> |p.rest| < |s|
    decreases |s|, 0
  {
    match Name(s)
    case Failed => Failed
    case Parsed(name, rest) =>
      match Resolve(rest)
      case Failed => Failed
      case Parsed(v, rest') => Parsed((name, v), rest')
  }

  function Members(s: seq<byte>, seen: seq<(seq<byte>, Value)>): (p: Parsed<Value>)
    ensures p.Parsed? ==> |p.rest| <= |s|
    decreases |s|, 1
  {
    match Member(s)
    case Failed => Failed
    case Parsed(m, rest) =>
      match Separator(rest, END)
      case More(rest') => Members(rest', Assign(seen, m.0, m.1))
      case Done(rest') => Parsed(Obj(Assign(seen, m.0, m.1)), rest')
      case Bad => Failed
  }

  // --- printing -------------------------------------------------------------------------------------------

  /** Bytes that `stringify` writes as they are and that are read as they are. */
  predicate Plain(s: seq<byte>) {
    forall i :: 0 <= i < |s| ==> 0x20 <= s[i] < 0x80 && s[i] != QUOTE && s[i] != BACKSLASH
  }

  predicate DistinctKeys(members: seq<(seq<byte>, Value)>) {
    forall i, j :: 0 <= i < j < |members| ==> members[i].0 != members[j].0
  }

  /** The values that the printer and the parser agree on. */
  predicate Printable(v: Value) {
    match v
    case Null => true
    case Bool(_) => true
    case Int(n) => n < TWO63
    case Float(_) => false
    case Str(s) => Plain(s)
    case Arr(items) => forall i :: 0 <= i < |items| ==> Printable(items[i])
    case Obj(members) =>
      DistinctKeys(members) && forall i :: 0 <= i < |members| ==> Plain(members[i].0) && Printable(members[i].1)
  }

  function Quoted(s: seq<byte>): seq<byte> {
    [QUOTE] + s + [QUOTE]
  }

  function Print(v: Value): seq<byte>
    requires Printable(v)
    decreases v, 0
  {
    match v
    case Null => NULLTEXT
    case Bool(b) => if b then TRUETEXT else FALSETEXT
    case Int(n) => Decimals.SignedText(n)
    case Str(s) => Quoted(s)
    case Arr(items) => if items == [] then [OPEN, CLOSE] else [OPEN] + PrintItems(v, items, 0)
    case Obj(members) => if members == [] then [BEGIN, END] else [BEGIN] + PrintMembers(v, members, 0)
  }

  /** The items from `k` on and the closing bracket. */
  function PrintItems(v: Value, items: seq<Value>, k: nat): seq<byte>
    requires v == Arr(items) && Printable(v) && k < |items|
    decreases v, 0, |items| - k
  {
    Print(items[k]) + if k + 1 == |items| then [CLOSE] else [COMMA] + PrintItems(v, items, k + 1)
  }

  function PrintMembers(v: Value, members: seq<(seq<byte>, Value)>, k: nat): seq<byte>
    requires v == Obj(members) && Printable(v) && k < |members|
    decreases v, 0, |members| - k
  {
    Quoted(members[k].0) + ([COLON] + (Print(members[k].1)
      + if k + 1 == |members| then [END] else [COMMA] + PrintMembers(v, members, k + 1)))
  }

  // --- what is printed is read back -----------------------------------------------------------------------

  /** What may follow a value so that a token ends there. */
  predicate Ends(rest: seq<byte>) {
    rest == [] || Delimiter(rest[0])
  }

  predicate Solid(token: seq<byte>) {
    forall i :: 0 <= i < |token| ==> !Delimiter(token[i])
  }

  lemma {:induction false} TokenEnds(token: seq<byte>, rest: seq<byte>)
    requires Solid(token) && Ends(rest)
    ensures TokenSize(token + rest) == |token|
  {
    if token == [] {
      assert token + rest == rest;
    } else {
      TokenEnds(token[1..], rest);
      assert (token + rest)[1..] == token[1..] + rest;
    }
  }

  lemma TokenTrip(token: seq<byte>, rest: seq<byte>)
    requires Solid(token) && Ends(rest) && token != [] && token[0] !in {BEGIN, OPEN, QUOTE}
    ensures Resolve(token + rest) == Classify(token, rest)
  {
    var s := token + rest;
    assert s[0] == token[0] && Skip(s) == s;
    TokenEnds(token, rest);
    assert s[..|token|] == token && s[|token|..] == rest;
  }

  lemma IntTrip(n: nat, rest: seq<byte>)
    requires n < TWO63 && Ends(rest)
    ensures Resolve(Decimals.SignedText(n) + rest) == Parsed(Int(n), rest)
  {
    var token := Decimals.SignedText(n);
    Decimals.NumberOfDigits(n);
    TokenTrip(token, rest);
    Decimals.RoundTripExactly(n);
    assert token[0] != NULLTEXT[0] && token[0] != TRUETEXT[0] && token[0] != FALSETEXT[0];
  }

  lemma SignedToken(digits: seq<byte>, token: seq<byte>)
    requires Decimals.AllDigits(digits) && token == [45] + digits
    ensures Solid(token) && !LooksWhole(token) && Decimals.FloatText(token)
  {
    Decimals.SignedIsFloat(digits);
    assert token[0] == 45;
    forall i | 0 <= i < |token| ensures !Delimiter(token[i]) {
      assert i > 0 ==> token[i] == digits[i - 1];
    }
  }

  lemma FloatTrip(token: seq<byte>, rest: seq<byte>)
    requires Solid(token) && Ends(rest) && token != [] && token[0] == 45
    requires !LooksWhole(token) && Decimals.FloatText(token)
    ensures Resolve(token + rest) == Parsed(Float(token), rest)
  {
    TokenTrip(token, rest);
  }

  /** A word from 2^63 on is printed with a sign, and a sign makes a FLOAT. */
  lemma NegativeTrip(n: nat, rest: seq<byte>)
    requires TWO63 <= n < TWO64 && Ends(rest)
    ensures Resolve(Decimals.SignedText(n) + rest) == Parsed(Float(Decimals.SignedText(n)), rest)
  {
    var m := (TWO64 - n) % TWO63;
    Decimals.NumberOfDigits(m);
    SignedToken(Decimals.Digits(m), Decimals.SignedText(n));
    FloatTrip(Decimals.SignedText(n), rest);
  }

  /** An integer comes back as itself if and only if it is below 2^63. */
  lemma IntTripExactly(n: nat, rest: seq<byte>)
    requires n < TWO64 && Ends(rest)
    ensures Resolve(Decimals.SignedText(n) + rest) == Parsed(Int(n), rest) <==> n < TWO63
  {
    if n < TWO63 { IntTrip(n, rest); } else { NegativeTrip(n, rest); }
  }

  lemma WordsTrip(rest: seq<byte>)
    requires Ends(rest)
    ensures Resolve(NULLTEXT + rest) == Parsed(Null, rest)
    ensures Resolve(TRUETEXT + rest) == Parsed(Bool(true), rest)
    ensures Resolve(FALSETEXT + rest) == Parsed(Bool(false), rest)
  {
    TokenTrip(NULLTEXT, rest);
    TokenTrip(TRUETEXT, rest);
    TokenTrip(FALSETEXT, rest);
  }

  lemma {:induction false} TextTrip(s: seq<byte>, rest: seq<byte>, seen: seq<byte>)
    requires Plain(s)
    ensures Text(s + ([QUOTE] + rest), seen) == Parsed(seen + s, rest)
  {
    var all := s + ([QUOTE] + rest);
    if s == [] {
      assert all == [QUOTE] + rest && all[1..] == rest && seen + s == seen;
    } else {
      assert all[1..] == s[1..] + ([QUOTE] + rest);
      TextTrip(s[1..], rest, seen + [s[0]]);
      assert (seen + [s[0]]) + s[1..] == seen + s;
    }
  }

  lemma QuotedParts(s: seq<byte>, rest: seq<byte>)
    ensures Quoted(s) + rest == [QUOTE] + (s + ([QUOTE] + rest))
  {
  }

  lemma StrTrip(s: seq<byte>, rest: seq<byte>)
    requires Plain(s)
    ensures Resolve(Quoted(s) + rest) == Parsed(Str(s), rest)
  {
    QuotedParts(s, rest);
    var all := Quoted(s) + rest;
    assert all[0] == QUOTE && all[1..] == s + ([QUOTE] + rest) && Skip(all) == all;
    TextTrip(s, rest, []);
    assert [] + s == s;
  }

  lemma NameTrip(s: seq<byte>, rest: seq<byte>)
    requires Plain(s)
    ensures Name(Quoted(s) + ([COLON] + rest)) == Parsed(s, rest)
  {
    var tail := [COLON] + rest;
    QuotedParts(s, tail);
    var all := Quoted(s) + tail;
    assert all[0] == QUOTE && all[1..] == s + ([QUOTE] + tail) && Skip(all) == all;
    TextTrip(s, tail, []);
    assert [] + s == s && Skip(tail) == tail && tail[1..] == rest;
  }

  /** The text of a value does not begin with a blank. */
  lemma Starts(v: Value)
    requires Printable(v)
    ensures Print(v) != [] && !Blank(Print(v)[0]) && !(Print(v)[0] in {CLOSE, END})
  {
    if v.Int? {
      Decimals.NumberOfDigits(v.n);
    }
  }

  /** The parser reads a printed value back, and consumes exactly its text. */
  lemma {:induction false} RoundTrip(v: Value, rest: seq<byte>)
    requires Printable(v) && Ends(rest)
    ensures Resolve(Print(v) + rest) == Parsed(v, rest)
    decreases v, 0
  {
    match v
    case Null => WordsTrip(rest);
    case Bool(_) => WordsTrip(rest);
    case Int(n) => IntTrip(n, rest);
    case Str(s) => StrTrip(s, rest);
    case Arr(items) => ArrTrip(v, items, rest);
    case Obj(members) => ObjTrip(v, members, rest);
  }

  lemma {:induction false} ArrTrip(v: Value, items: seq<Value>, rest: seq<byte>)
    requires v == Arr(items) && Printable(v)
    ensures Resolve(Print(v) + rest) == Parsed(v, rest)
    decreases v, 0, |items| + 1
  {
    var all := Print(v) + rest;
    if items == [] {
      assert all[1..] == [CLOSE] + rest && Skip(all[1..]) == all[1..] && all[1..][1..] == rest;
    } else {
      var inner := PrintItems(v, items, 0) + rest;
      assert all[1..] == inner;
      ItemsStart(v, items, 0, rest);
      ItemsTrip(v, items, 0, rest);
      assert items[..0] == [];
    }
  }

  lemma ItemsStart(v: Value, items: seq<Value>, k: nat, rest: seq<byte>)
    requires v == Arr(items) && Printable(v) && k < |items|
    ensures var s := PrintItems(v, items, k) + rest; s != [] && s[0] != CLOSE && Skip(s) == s
  {
    Starts(items[k]);
    assert (PrintItems(v, items, k) + rest)[0] == Print(items[k])[0];
  }

  lemma TakeOne<T>(xs: seq<T>, k: nat)
    requires k < |xs|
    ensures xs[..k + 1] == xs[..k] + [xs[k]] && (k + 1 == |xs| ==> xs[..k + 1] == xs)
  {
  }

  lemma BehindFirst(c: byte, more: seq<byte>, rest: seq<byte>)
    ensures (([c] + more) + rest)[0] == c && (([c] + more) + rest)[1..] == more + rest
    ensures more == [] ==> [c] + more == [c] && more + rest == rest
  {
  }

  lemma {:induction false} ItemsTrip(v: Value, items: seq<Value>, k: nat, rest: seq<byte>)
    requires v == Arr(items) && Printable(v) && k < |items|
    ensures Items(PrintItems(v, items, k) + rest, items[..k]) == Parsed(v, rest)
    decreases v, 0, |items| - k
  {
    var tail := (if k + 1 == |items| then [CLOSE] else [COMMA] + PrintItems(v, items, k + 1)) + rest;
    assert PrintItems(v, items, k) + rest == Print(items[k]) + tail;
    RoundTrip(items[k], tail);
    TakeOne(items, k);
    if k + 1 == |items| {
      BehindFirst(CLOSE, [], rest);
    } else {
      BehindFirst(COMMA, PrintItems(v, items, k + 1), rest);
      ItemsTrip(v, items, k + 1, rest);
    }
  }

  lemma {:induction false} AssignNew(members: seq<(seq<byte>, Value)>, key: seq<byte>, v: Value)
    requires forall i :: 0 <= i < |members| ==> members[i].0 != key
    ensures Assign(members, key, v) == members + [(key, v)]
  {
    if members != [] {
      assert members[0].0 != key;
      forall i | 0 <= i < |members[1..]| ensures members[1..][i].0 != key { assert members[i + 1].0 != key; }
      AssignNew(members[1..], key, v);
    }
  }

  lemma {:induction false} ObjTrip(v: Value, members: seq<(seq<byte>, Value)>, rest: seq<byte>)
    requires v == Obj(members) && Printable(v)
    ensures Resolve(Print(v) + rest) == Parsed(v, rest)
    decreases v, 0, |members| + 1
  {
    var all := Print(v) + rest;
    if members == [] {
      assert all[1..] == [END] + rest && Skip(all[1..]) == all[1..] && all[1..][1..] == rest;
    } else {
      var inner := PrintMembers(v, members, 0) + rest;
      assert all[1..] == inner && inner[0] == QUOTE && Skip(inner) == inner;
      MembersTrip(v, members, 0, rest);
      assert members[..0] == [];
    }
  }

  lemma MemberStep(key: seq<byte>, value: Value, mid: seq<byte>, tail: seq<byte>, seen: seq<(seq<byte>, Value)>)
    requires Plain(key) && Resolve(mid) == Parsed(value, tail) && tail != [] && (tail[0] == END || tail[0] == COMMA)
    ensures Members(Quoted(key) + ([COLON] + mid), seen) ==
      if tail[0] == END then Parsed(Obj(Assign(seen, key, value)), tail[1..])
      else Members(tail[1..], Assign(seen, key, value))
  {
    NameTrip(key, mid);
    assert Skip(tail) == tail;
  }

  lemma PrintMember(v: Value, members: seq<(seq<byte>, Value)>, k: nat, rest: seq<byte>)
    requires v == Obj(members) && Printable(v) && k < |members|
    ensures var tail := (if k + 1 == |members| then [END] else [COMMA] + PrintMembers(v, members, k + 1)) + rest;
      PrintMembers(v, members, k) + rest == Quoted(members[k].0) + ([COLON] + (Print(members[k].1) + tail))
  {
    var last := if k + 1 == |members| then [END] else [COMMA] + PrintMembers(v, members, k + 1);
    Regroup(Quoted(members[k].0), [COLON], Print(members[k].1), last, rest);
  }

  lemma Regroup(a: seq<byte>, b: seq<byte>, c: seq<byte>, d: seq<byte>, e: seq<byte>)
    ensures (a + (b + (c + d))) + e == a + (b + (c + (d + e)))
  {
  }

  lemma {:induction false} MembersTrip(v: Value, members: seq<(seq<byte>, Value)>, k: nat, rest: seq<byte>)
    requires v == Obj(members) && Printable(v) && k < |members|
    ensures Members(PrintMembers(v, members, k) + rest, members[..k]) == Parsed(v, rest)
    decreases v, 0, |members| - k
  {
    var key, value := members[k].0, members[k].1;
    var tail := (if k + 1 == |members| then [END] else [COMMA] + PrintMembers(v, members, k + 1)) + rest;
    PrintMember(v, members, k, rest);
    RoundTrip(value, tail);
    AssignNew(members[..k], key, value);
    MemberStep(key, value, Print(value) + tail, tail, members[..k]);
    TakeOne(members, k);
    if k + 1 == |members| {
      BehindFirst(END, [], rest);
    } else {
      BehindFirst(COMMA, PrintMembers(v, members, k + 1), rest);
      MembersTrip(v, members, k + 1, rest);
    }
  }
}
