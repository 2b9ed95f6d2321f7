/**
  What JSON/src/JSON.cpp reads and prints, character by character: the letters, digits and blanks of section 2 to 8 of
  RFC 8259 and where the original departs from them, the texts of numbers, and UTF-8.
*/
module JsonExamples {
  import opened Words
  import Decimals
  import opened Json
  import JsonPrinting

  type Ascii = s: string | forall i :: 0 <= i < |s| ==> s[i] as int < 0x80

  function Bytes(s: Ascii): (b: seq<byte>)
    ensures |b| == |s| && forall i :: 0 <= i < |s| ==> b[i] == s[i] as int
  {
    seq(|s|, i requires 0 <= i < |s| => s[i] as int)
  }

  // --- characters -----------------------------------------------------------------------------------------

  lemma Letters()
    ensures NULLTEXT == Bytes("null") && TRUETEXT == Bytes("true") && FALSETEXT == Bytes("false")
    ensures Decimals.NANTEXT == Bytes("NaN") && Decimals.INFINITYTEXT == Bytes("Infinity")
    ensures [QUOTE] == Bytes("\"") && [BACKSLASH] == Bytes("\\") && [COMMA, COLON] == Bytes(",:")
    ensures [OPEN, CLOSE] == Bytes("[]") && [BEGIN, END] == Bytes("{}")
  {
  }

  const LOWER: Ascii := "0123456789abcdef"
  const UPPER: Ascii := "0123456789ABCDEF"

  /** A byte is a hexadecimal digit if and only if it is a character of one of the two rows, and its value is where. */
  lemma HexDigitExactly(c: byte, d: nat)
    requires d < 16
    ensures HexDigit(c) == Some(d) <==> c == LOWER[d] as int || c == UPPER[d] as int
    ensures HexDigit(c).Some? ==> HexDigit(c).value < 16
  {
  }

  lemma HexCharIs(d: nat)
    requires d < 16
    ensures JsonPrinting.HexChar(d) == LOWER[d] as int
  {
  }

  const ESCAPES: Ascii := "btnfr\"'\\"
  const MEANINGS: seq<byte> := [0x08, 0x09, 0x0A, 0x0C, 0x0D, 0x22, 0x27, 0x5C]

  /** An escape of one letter. */
  lemma EscapeIs(i: nat, rest: seq<byte>)
    requires i < 8
    ensures Escape([ESCAPES[i] as int] + rest) == Parsed(MEANINGS[i] as int, rest)
  {
    assert ([ESCAPES[i] as int] + rest)[1..] == rest;
  }

  /** No other letter but `u` may stand behind a backslash. */
  lemma EscapeFails(c: byte, rest: seq<byte>)
    requires c != 'u' as int && forall i :: 0 <= i < 8 ==> c != ESCAPES[i] as int
    ensures Escape([c] + rest).Failed?
  {
    assert c != ESCAPES[0] as int && c != ESCAPES[1] as int && c != ESCAPES[2] as int && c != ESCAPES[3] as int;
    assert c != ESCAPES[4] as int && c != ESCAPES[5] as int && c != ESCAPES[6] as int && c != ESCAPES[7] as int;
  }

  /** The solidus, which RFC 8259 lets be escaped, is refused. */
  lemma SolidusFails(rest: seq<byte>)
    ensures Escape(['/' as int] + rest).Failed?
  {
    EscapeFails('/' as int, rest);
  }

  lemma HexMore(a: byte, d: nat, n: nat, x: nat, rest: seq<byte>)
    requires HexDigit(a) == Some(d) && n > 0
    ensures Json.Hex([a] + rest, n, x) == Json.Hex(rest, n - 1, 16 * x + d)
  {
    assert ([a] + rest)[1..] == rest;
  }

  /** `u` and four hexadecimal digits, the most significant first. */
  lemma UnicodeIs(a: byte, b: byte, c: byte, d: byte, p: nat, q: nat, r: nat, s: nat, rest: seq<byte>)
    requires HexDigit(a) == Some(p) && HexDigit(b) == Some(q) && HexDigit(c) == Some(r) && HexDigit(d) == Some(s)
    ensures Escape(['u' as int] + ([a] + ([b] + ([c] + ([d] + rest)))))
         == Parsed(4096 * p + 256 * q + 16 * r + s, rest)
  {
    var digits := [a] + ([b] + ([c] + ([d] + rest)));
    assert (['u' as int] + digits)[1..] == digits;
    HexMore(a, p, 4, 0, [b] + ([c] + ([d] + rest)));
    HexMore(b, q, 3, p, [c] + ([d] + rest));
    HexMore(c, r, 2, 16 * p + q, [d] + rest);
    HexMore(d, s, 1, 256 * p + 16 * q + r, rest);
  }

  /** The letters the printer writes are the ones the reader takes, except for the apostrophe. */
  lemma EscapeLetterIs(i: nat)
    requires i < 8
    ensures JsonPrinting.EscapeLetter(MEANINGS[i]) == if ESCAPES[i] == '\'' then 0 else ESCAPES[i] as int
  {
  }

  lemma NoEscapeLetter(b: byte)
    requires forall i :: 0 <= i < 8 ==> b != MEANINGS[i]
    ensures JsonPrinting.EscapeLetter(b) == 0
  {
    assert b != MEANINGS[0] && b != MEANINGS[1] && b != MEANINGS[2] && b != MEANINGS[3];
    assert b != MEANINGS[4] && b != MEANINGS[5] && b != MEANINGS[7];
  }

  // --- UTF-8 ----------------------------------------------------------------------------------------------

  /** The table of section 3 of RFC 3629: sizes, and the marks of the bytes. */
  lemma Utf8Shape(x: nat)
    requires x < 0x1_0000
    ensures |Utf8(x)| == 1 <==> x <= 0x7F
    ensures |Utf8(x)| == 2 <==> 0x80 <= x <= 0x7FF
    ensures |Utf8(x)| == 2 ==> 0xC0 <= Utf8(x)[0] < 0xE0
    ensures |Utf8(x)| == 3 ==> 0xE0 <= Utf8(x)[0] < 0xF0
    ensures forall i :: 0 < i < |Utf8(x)| ==> 0x80 <= Utf8(x)[i] < 0xC0
  {
  }

  /** The dollar, e with an acute accent, and the euro. */
  lemma Utf8Examples()
    ensures Utf8(0x24) == [0x24] && Utf8(0xE9) == [0xC3, 0xA9] && Utf8(0x20AC) == [0xE2, 0x82, 0xAC]
  {
  }

  // --- blanks ---------------------------------------------------------------------------------------------

  ghost predicate Blanks(s: seq<byte>) {
    forall i :: 0 <= i < |s| ==> Blank(s[i])
  }

  /** Up to the space, and, since characters have a sign, from 0x80 on. */
  lemma BlankExactly(c: byte)
    ensures !Blank(c) <==> '!' as int <= c <= 0x7F
    ensures Delimiter(c) <==> Blank(c) || [c] == Bytes(",") || [c] == Bytes("}") || [c] == Bytes("]")
  {
    Letters();
    assert [c][0] == c;
  }

  /** Blanks are skipped, and nothing else. */
  lemma {:induction false} SkipExactly(b: seq<byte>, t: seq<byte>)
    requires Blanks(b) && (t == [] || !Blank(t[0]))
    ensures Skip(b + t) == t
  {
    if b == [] {
      assert b + t == t;
    } else {
      assert (b + t)[1..] == b[1..] + t;
      forall i | 0 <= i < |b[1..]| ensures Blank(b[1..][i]) { assert b[1..][i] == b[i + 1]; }
      SkipExactly(b[1..], t);
    }
  }

  ghost predicate Visible(t: seq<byte>) {
    t != [] && !Blank(t[0])
  }

  /** Blanks before a value do not change what is read. */
  lemma ResolveBlanks(b: seq<byte>, t: seq<byte>)
    requires Blanks(b) && Visible(t)
    ensures Json.Resolve(b + t) == Json.Resolve(t)
  {
    SkipExactly(b, t);
    NothingSkipped(t);
  }

  lemma NothingSkipped(t: seq<byte>)
    requires t == [] || !Blank(t[0])
    ensures Skip(t) == t
  {
  }

  /** Nor do they before a comma or a closing bracket. */
  lemma SeparatorBlanks(b: seq<byte>, c: byte, rest: seq<byte>, close: byte)
    requires Blanks(b) && !Blank(c)
    ensures Separator(b + ([c] + rest), close) ==
      if c == close then Done(rest) else if c == COMMA then More(rest) else Bad
  {
    SkipExactly(b, [c] + rest);
    assert ([c] + rest)[1..] == rest;
  }

  /** Nor on either side of a name. */
  lemma NameBlanks(b: seq<byte>, s: seq<byte>, b': seq<byte>, rest: seq<byte>)
    requires Blanks(b) && Plain(s) && Blanks(b')
    ensures Name(b + (Quoted(s) + (b' + ([COLON] + rest)))) == Parsed(s, rest)
  {
    var tail := b' + ([COLON] + rest);
    QuotedParts(s, tail);
    var all := [QUOTE] + (s + ([QUOTE] + tail));
    SkipExactly(b, all);
    assert all[1..] == s + ([QUOTE] + tail);
    TextTrip(s, tail, []);
    assert [] + s == s;
    SkipExactly(b', [COLON] + rest);
    assert ([COLON] + rest)[1..] == rest;
  }

  /** `[ v , w ]` with any blanks between the brackets, the values and the comma. */
  lemma SpacedArray(v: Value, w: Value, b: seq<byte>, b': seq<byte>, c: seq<byte>, c': seq<byte>, rest: seq<byte>)
    requires Printable(v) && Printable(w) && Blanks(b) && Blanks(b') && Blanks(c) && Blanks(c')
    ensures Json.Resolve([OPEN] + (b + (Print(v) + (b' + ([COMMA] + (c + (Print(w) + (c' + ([CLOSE] + rest)))))))))
         == Parsed(Arr([v, w]), rest)
  {
    var last := c' + ([CLOSE] + rest);
    var second := c + (Print(w) + last);
    var mid := b' + ([COMMA] + second);
    SpacedItem(v, b, mid);
    SpacedItem(w, c, last);
    SeparatorBlanks(b', COMMA, second, CLOSE);
    SeparatorBlanks(c', CLOSE, rest, CLOSE);
    TwoItems(v, w, Print(v) + mid, second, rest);
    FirstItem(v, b, mid);
    var text := [OPEN] + (b + (Print(v) + mid));
    assert text[1..] == b + (Print(v) + mid);
    NothingSkipped(text);
  }

  lemma TwoItems(v: Value, w: Value, first: seq<byte>, second: seq<byte>, rest: seq<byte>)
    requires Json.Resolve(first).Parsed? && Json.Resolve(first).value == v && Json.Resolve(second).Parsed?
    requires Json.Resolve(second).value == w
    requires Separator(Json.Resolve(first).rest, CLOSE) == More(second)
    requires Separator(Json.Resolve(second).rest, CLOSE) == Done(rest)
    requires first != [] && first[0] != CLOSE
    ensures Json.Array(first) == Parsed(Arr([v, w]), rest)
  {
    assert [] + [v] == [v] && [v] + [w] == [v, w];
    assert Items(first, []) == Items(second, [v]);
  }

  lemma FirstItem(v: Value, b: seq<byte>, mid: seq<byte>)
    requires Printable(v) && Blanks(b)
    ensures Skip(b + (Print(v) + mid)) == Print(v) + mid && Print(v) + mid != [] && (Print(v) + mid)[0] != CLOSE
  {
    Starts(v);
    SkipExactly(b, Print(v) + mid);
  }

  lemma SpacedItem(v: Value, b: seq<byte>, tail: seq<byte>)
    requires Printable(v) && Blanks(b) && Ends(tail)
    ensures Json.Resolve(b + (Print(v) + tail)) == Json.Resolve(Print(v) + tail) == Parsed(v, tail)
  {
    Starts(v);
    ResolveBlanks(b, Print(v) + tail);
    RoundTrip(v, tail);
  }

  /** A text of blanks only, like an empty one, is read as null. */
  lemma EmptyIsNull(b: seq<byte>)
    requires Blanks(b)
    ensures Json.Resolve(b) == Parsed(Null, [])
  {
    SkipExactly(b, []);
    assert b + [] == b;
  }

  /** A comma must be followed by a value. */
  lemma TrailingCommaFails(v: Value, rest: seq<byte>)
    requires Printable(v)
    ensures Json.Resolve([OPEN] + (Print(v) + ([COMMA] + ([CLOSE] + rest)))).Failed?
  {
    var last := [CLOSE] + rest;
    var tail := [COMMA] + last;
    var text := [OPEN] + (Print(v) + tail);
    RoundTrip(v, tail);
    Starts(v);
    assert text[1..] == Print(v) + tail && tail[1..] == last;
    NothingSkipped(text);
    NothingSkipped(Print(v) + tail);
    NothingSkipped(tail);
    assert Items(Print(v) + tail, []) == Items(last, [v]) by { assert [] + [v] == [v]; }
    CloseIsNoValue(rest);
  }

  lemma CloseIsNoValue(rest: seq<byte>)
    ensures Json.Resolve([CLOSE] + rest).Failed?
  {
    var t := [CLOSE] + rest;
    NothingSkipped(t);
    assert t[0] == CLOSE && TokenSize(t) == 0;
    assert Token(t).Failed?;
  }

  /** Of two members with one name the second gives the value. */
  lemma DuplicateName(key: seq<byte>, v: Value, w: Value, rest: seq<byte>)
    requires Plain(key) && Printable(v) && Printable(w)
    ensures Members(Quoted(key) + ([COLON] + (Print(v) + ([COMMA] +
              (Quoted(key) + ([COLON] + (Print(w) + ([END] + rest))))))), []) == Parsed(Obj([(key, w)]), rest)
  {
    var last := [END] + rest;
    var second := Quoted(key) + ([COLON] + (Print(w) + last));
    var tail := [COMMA] + second;
    RoundTrip(v, tail);
    RoundTrip(w, last);
    assert tail[1..] == second && last[1..] == rest;
    AssignTwice(key, v, w);
    MemberStep(key, v, Print(v) + tail, tail, []);
    MemberStep(key, w, Print(w) + last, last, [(key, v)]);
  }

  lemma AssignTwice(key: seq<byte>, v: Value, w: Value)
    ensures Assign([], key, v) == [(key, v)] && Assign([(key, v)], key, w) == [(key, w)]
  {
    assert [(key, v)][1..] == [];
  }

  /** The strings that are printed as they are and below 0x80. */
  lemma {:induction false} PlainExactly(s: seq<byte>)
    ensures Plain(s) <==> JsonPrinting.Escaped(s) == s && JsonPrinting.Ascii(s)
  {
    if s != [] {
      var t := s[1..];
      PlainExactly(t);
      EscapedGrows(t);
      PlainSplits(s);
      var e := JsonPrinting.EscapedByte(s[0]);
      if |e| == 1 { assert (e + JsonPrinting.Escaped(t))[1..] == JsonPrinting.Escaped(t); }
      assert |JsonPrinting.Escaped(s)| == |e| + |JsonPrinting.Escaped(t)|;
      assert s == [s[0]] + t;
    }
  }

  lemma {:induction false} EscapedGrows(s: seq<byte>)
    ensures |JsonPrinting.Escaped(s)| >= |s|
  {
    if s != [] { EscapedGrows(s[1..]); }
  }

  lemma PlainSplits(s: seq<byte>)
    requires s != []
    ensures Plain(s) <==> Plain([s[0]]) && Plain(s[1..])
    ensures JsonPrinting.Ascii(s) <==> s[0] < 0x80 && JsonPrinting.Ascii(s[1..])
  {
    assert forall i :: 0 <= i < |s[1..]| ==> s[1..][i] == s[i + 1];
    assert forall i :: 0 < i < |s| ==> s[i] == s[1..][i - 1];
    assert [s[0]][0] == s[0];
  }

  // --- numbers --------------------------------------------------------------------------------------------

  /** What `floating` accepts: optional sign, digits, fraction and exponent, of which each may be empty. */
  ghost predicate FloatParts(sign: seq<byte>, whole: seq<byte>, fraction: seq<byte>, exponent: seq<byte>) {
    && OptionalSign(sign) && Decimals.AllDigits(whole)
    && (fraction == [] || (fraction[0] == '.' as int && Decimals.AllDigits(fraction[1..])))
    && ExponentPart(exponent)
  }

  ghost predicate OptionalSign(s: seq<byte>) {
    s == [] || s == Bytes("+") || s == Bytes("-")
  }

  /** A letter, a sign or none, and digits; behind the letter there is at least one character. */
  ghost predicate ExponentPart(s: seq<byte>) {
    s == [] || (|s| >= 2 && (s[0] == 'e' as int || s[0] == 'E' as int)
      && exists sign, digits :: s[1..] == sign + digits && OptionalSign(sign) && Decimals.AllDigits(digits))
  }

  lemma SignIs(c: byte)
    ensures Decimals.Sign(c) <==> OptionalSign([c])
  {
    assert [c][0] == c;
  }

  lemma {:induction false} DigitsTaken(digits: seq<byte>, t: seq<byte>)
    requires Decimals.AllDigits(digits) && (t == [] || !(48 <= t[0] <= 57))
    ensures Decimals.AfterDigits(digits + t) == t
  {
    if digits == [] {
      assert digits + t == t;
    } else {
      assert (digits + t)[1..] == digits[1..] + t;
      DigitsTaken(digits[1..], t);
    }
  }

  lemma {:induction false} TakenDigits(s: seq<byte>) returns (digits: seq<byte>)
    ensures Decimals.AllDigits(digits) && s == digits + Decimals.AfterDigits(s)
    ensures Decimals.AfterDigits(s) == [] || !(48 <= Decimals.AfterDigits(s)[0] <= 57)
  {
    if s != [] && 48 <= s[0] <= 57 {
      digits := TakenDigits(s[1..]);
      digits := [s[0]] + digits;
      assert s == [s[0]] + s[1..];
    } else {
      digits := [];
    }
  }

  lemma SignTaken(sign: seq<byte>, t: seq<byte>)
    requires OptionalSign(sign) && (t == [] || !Decimals.Sign(t[0]))
    ensures Decimals.AfterSign(sign + t) == t
  {
    if sign == [] { assert sign + t == t; } else { assert (sign + t)[1..] == t; }
  }

  lemma TakenSign(s: seq<byte>) returns (sign: seq<byte>)
    ensures OptionalSign(sign) && s == sign + Decimals.AfterSign(s)
  {
    if s != [] && Decimals.Sign(s[0]) {
      SignIs(s[0]);
      sign := [s[0]];
    } else {
      sign := [];
    }
  }

  lemma DigitsFirst(digits: seq<byte>)
    requires Decimals.AllDigits(digits)
    ensures digits == [] || !Decimals.Sign(digits[0])
  {
  }

  lemma ExponentExactly(s: seq<byte>)
    ensures Decimals.Exponent(s) <==> ExponentPart(s)
  {
    if s != [] && Decimals.Exponent(s) {
      var sign := TakenSign(s[1..]);
      var digits := TakenDigits(Decimals.AfterSign(s[1..]));
      assert digits + [] == digits;
      assert s[1..] == sign + digits;
    }
    if s != [] && ExponentPart(s) {
      var sign, digits :| s[1..] == sign + digits && OptionalSign(sign) && Decimals.AllDigits(digits);
      DigitsFirst(digits);
      SignTaken(sign, digits);
      Decimals.OnlyDigits(digits);
    }
  }

  lemma FractionTaken(fraction: seq<byte>, t: seq<byte>)
    requires fraction == [] || (fraction[0] == '.' as int && Decimals.AllDigits(fraction[1..]))
    requires t == [] || (!(48 <= t[0] <= 57) && t[0] != '.' as int)
    ensures Decimals.AfterFraction(fraction + t) == t
  {
    if fraction == [] {
      assert fraction + t == t;
    } else {
      assert (fraction + t)[1..] == fraction[1..] + t;
      DigitsTaken(fraction[1..], t);
    }
  }

  lemma TakenFraction(s: seq<byte>) returns (fraction: seq<byte>)
    ensures fraction == [] || (fraction[0] == '.' as int && Decimals.AllDigits(fraction[1..]))
    ensures s == fraction + Decimals.AfterFraction(s)
  {
    if s != [] && s[0] == '.' as int {
      var digits := TakenDigits(s[1..]);
      fraction := ['.' as int] + digits;
      assert fraction[1..] == digits && s == ['.' as int] + s[1..];
    } else {
      fraction := [];
    }
  }

  /** Every text of this form is taken for a number. */
  lemma FloatReads(sign: seq<byte>, whole: seq<byte>, fraction: seq<byte>, exponent: seq<byte>)
    requires FloatParts(sign, whole, fraction, exponent)
    ensures var s := sign + (whole + (fraction + exponent)); s != [] ==> Decimals.FloatText(s)
  {
    var body := whole + (fraction + exponent);
    FractionTaken(fraction, exponent);
    DigitsTaken(whole, fraction + exponent);
    ExponentExactly(exponent);
    assert body == [] || !Decimals.Sign(body[0]);
    SignTaken(sign, body);
  }

  /** And no other, but NaN and Infinity with or without a sign. */
  lemma FloatOnly(s: seq<byte>)
    returns (sign: seq<byte>, whole: seq<byte>, fraction: seq<byte>, exponent: seq<byte>)
    requires Decimals.FloatText(s)
    ensures OptionalSign(sign)
    ensures s == sign + Bytes("NaN") || s == sign + Bytes("Infinity")
      || (s == sign + (whole + (fraction + exponent)) && FloatParts(sign, whole, fraction, exponent))
  {
    Letters();
    sign := TakenSign(s);
    var t := Decimals.AfterSign(s);
    whole := TakenDigits(t);
    fraction := TakenFraction(Decimals.AfterDigits(t));
    exponent := Decimals.AfterFraction(Decimals.AfterDigits(t));
    ExponentExactly(exponent);
  }

  lemma WordsAreFloats(sign: seq<byte>, t: seq<byte>)
    requires OptionalSign(sign) && (t == Bytes("NaN") || t == Bytes("Infinity"))
    ensures Decimals.FloatText(sign + t)
  {
    Letters();
    SignTaken(sign, t);
  }

  ghost predicate IsWord(token: seq<byte>) {
    token == NULLTEXT || token == TRUETEXT || token == FALSETEXT
  }

  /** A run of digits is an integer. */
  lemma DigitsRead(token: seq<byte>, rest: seq<byte>)
    requires token != [] && Decimals.AllDigits(token) && Ends(rest)
    ensures Json.Resolve(token + rest) == Parsed(Int(Decimals.Number(token) % TWO64), rest)
  {
    assert 48 <= token[0] <= 57;
    TokenTrip(token, rest);
  }

  /**
    Any other token is read if and only if it is the text of a number with a character below the digits, or that begins
    behind them: 1.5, 1e+5, -1 and NaN are, 1e5 is not.
  */
  lemma NumberExactly(token: seq<byte>, rest: seq<byte>)
    requires token != [] && Solid(token) && token[0] !in {BEGIN, OPEN, QUOTE} && Ends(rest)
    requires !IsWord(token) && !Decimals.AllDigits(token)
    ensures Json.Resolve(token + rest) == (
      if Decimals.FloatText(token) && (token[0] > '9' as int || exists i :: 0 <= i < |token| && token[i] < '0' as int)
      then Parsed(Float(token), rest) else Failed)
  {
    TokenTrip(token, rest);
    if LooksWhole(token) { assert token[0] != Decimals.MINUS; }
  }

  lemma PlainExponentFails(rest: seq<byte>)
    requires Ends(rest)
    ensures Decimals.FloatText(Bytes("1e5")) && Json.Resolve(Bytes("1e5") + rest).Failed?
  {
    var token := Bytes("1e5");
    Exponent5(token);
    assert token[1] == 'e' as int;
    NumberExactly(token, rest);
  }

  lemma Exponent5(token: seq<byte>)
    requires token == Bytes("1e5")
    ensures Decimals.FloatText(token)
  {
    var e: seq<byte> := Bytes("e5");
    assert e[1..] == [] + Bytes("5");
    FloatReads([], Bytes("1"), [], e);
    assert [] + (Bytes("1") + ([] + e)) == token;
  }

  /** Numbers are printed without leading zeros. */
  lemma {:induction false} NoLeadingZero(n: nat)
    ensures n > 0 ==> Decimals.Digits(n)[0] != '0' as int
    ensures n == 0 ==> Decimals.Digits(n) == Bytes("0")
  {
    if n >= 10 { NoLeadingZero(n / 10); }
  }

  lemma NumberMore(s: seq<byte>, c: char)
    requires '0' <= c <= '9'
    ensures Decimals.Number(s + [c as int]) == 10 * Decimals.Number(s) + (c as int - '0' as int)
    ensures Decimals.Number([]) == 0
  {
    assert (s + [c as int])[..|s|] == s;
  }
}
