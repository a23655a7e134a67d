/** The grammar of RFC 8259 as syntax trees: how strings and numbers are spelled,
    and what each spelling denotes. Spelling is concatenation; nothing is parsed. */
module JsonText {
  import opened Bytes
  import opened Decimals
  import opened JsonSpec

  // ---- strings ----

  datatype Letter =
    | Plain(b: byte)
    | Short(letter: byte)
    | Unit(digits: Bytes)
    | Pair(high: Bytes, low: Bytes)

  predicate FourHex(d: Bytes) {
    |d| == 4 && forall i :: 0 <= i < 4 ==> HexValue(d[i]) >= 0
  }

  function HexNumber(d: Bytes): nat
    requires forall i :: 0 <= i < |d| ==> HexValue(d[i]) >= 0
  {
    if d == [] then 0 else HexNumber(d[..|d| - 1]) * 16 + HexValue(d[|d| - 1])
  }

  lemma FourHexNumber(d: Bytes)
    requires FourHex(d)
    ensures HexNumber(d) == ((HexValue(d[0]) * 16 + HexValue(d[1])) * 16 + HexValue(d[2])) * 16 + HexValue(d[3])
    ensures HexNumber(d) < 0x10000
  {
    var c, b, a := d[..3], d[..3][..2], d[..3][..2][..1];
    assert a == [d[0]] && b[1] == d[1] && c[2] == d[2];
    assert HexNumber(a) == HexNumber(a[..0]) * 16 + HexValue(d[0]);
    assert HexNumber(b) == HexNumber(a) * 16 + HexValue(d[1]);
    assert HexNumber(c) == HexNumber(b) * 16 + HexValue(d[2]);
  }

  predicate GoodLetter(c: Letter) {
    match c
    case Plain(b) => b >= 0x20 && b != QUOTE && b != BACKSLASH
    case Short(l) => ShortEscape(l).Some?
    case Unit(d) => FourHex(d) && !IsHigh(HexNumber(d)) && !IsLow(HexNumber(d))
    case Pair(h, l) => FourHex(h) && FourHex(l) && IsHigh(HexNumber(h)) && IsLow(HexNumber(l))
  }

  function SpellLetter(c: Letter): (r: Bytes)
    ensures |r| > 0
  {
    match c
    case Plain(b) => [b]
    case Short(l) => [BACKSLASH, l]
    case Unit(d) => [BACKSLASH, LOWER_U] + d
    case Pair(h, l) => [BACKSLASH, LOWER_U] + h + ([BACKSLASH, LOWER_U] + l)
  }

  function DenoteLetter(c: Letter): Bytes
    requires GoodLetter(c)
  {
    match c
    case Plain(b) => [b]
    case Short(l) => [ShortEscape(l).value]
    case Unit(d) => FourHexNumber(d); Utf8(HexNumber(d))
    case Pair(h, l) => Utf8(Combine(HexNumber(h), HexNumber(l)))
  }

  predicate GoodLetters(cs: seq<Letter>) { forall i :: 0 <= i < |cs| ==> GoodLetter(cs[i]) }

  function SpellLetters(cs: seq<Letter>): Bytes {
    if cs == [] then [] else SpellLetter(cs[0]) + SpellLetters(cs[1..])
  }

  function DenoteLetters(cs: seq<Letter>): Bytes
    requires GoodLetters(cs)
  {
    if cs == [] then [] else DenoteLetter(cs[0]) + DenoteLetters(cs[1..])
  }

  lemma CodeUnitHere(s: Bytes, at: nat, d: Bytes)
    requires at <= |s|
    ensures FourHex(d) && Holds(s, at, d) ==> CodeUnit(s, at) == Some(HexNumber(d))
    ensures CodeUnit(s, at).Some? ==> FourHex(s[at..at + 4]) && CodeUnit(s, at).value == HexNumber(s[at..at + 4])
  {
    if FourHex(d) && Holds(s, at, d) {
      FourHexNumber(d);
      assert s[at] == s[at..at + 4][0] && s[at + 1] == s[at..at + 4][1]
             && s[at + 2] == s[at..at + 4][2] && s[at + 3] == s[at..at + 4][3];
    }
    if CodeUnit(s, at).Some? {
      FourHexNumber(s[at..at + 4]);
    }
  }

  /** A letter spelled here is read here as what it denotes. */
  lemma LetterRead(s: Bytes, at: nat, c: Letter)
    requires GoodLetter(c) && Holds(s, at, SpellLetter(c))
    ensures at < |s| && s[at] != QUOTE
    ensures Character(s, at) == Some(ParsedText(DenoteLetter(c), at + |SpellLetter(c)|))
  {
    if c.Unit? || c.Pair? {
      hide UnicodeEscape, GoodLetter, DenoteLetter, SpellLetter, Holds;
      UnicodeRead(s, at, c);
    } else {
      var t := SpellLetter(c);
      assert s[at] == s[at..at + |t|][0] == t[0];
      if c.Short? {
        assert s[at + 1] == s[at..at + |t|][1] == t[1];
      }
    }
  }

  lemma UnicodeRead(s: Bytes, at: nat, c: Letter)
    requires (c.Unit? || c.Pair?) && GoodLetter(c) && Holds(s, at, SpellLetter(c))
    ensures at + 2 <= |s| && s[at] == BACKSLASH && s[at + 1] == LOWER_U
    ensures UnicodeEscape(s, at + 2) == Some(ParsedText(DenoteLetter(c), at + |SpellLetter(c)|))
  {
    hide CodeUnit, HexNumber, Utf8, Holds;
    var digits := if c.Unit? then c.digits else c.high;
    if c.Unit? {
      EscapeHeld(s, at, digits);
      FourHexNumber(digits);
    } else {
      HoldsConcat(s, at, [BACKSLASH, LOWER_U] + digits, [BACKSLASH, LOWER_U] + c.low);
      EscapeHeld(s, at, digits);
      EscapeHeld(s, at + 6, c.low);
      CodeUnitHere(s, at + 8, c.low);
    }
    CodeUnitHere(s, at + 2, digits);
  }

  lemma EscapeHeld(s: Bytes, at: nat, digits: Bytes)
    requires Holds(s, at, [BACKSLASH, LOWER_U] + digits)
    ensures at + 2 + |digits| <= |s| && s[at] == BACKSLASH && s[at + 1] == LOWER_U && Holds(s, at + 2, digits)
  {
    HoldsConcat(s, at, [BACKSLASH, LOWER_U], digits);
    assert s[at] == s[at..at + 2][0] && s[at + 1] == s[at..at + 2][1];
  }

  /** What is read as a character is some letter's spelling. */
  lemma LetterSpelled(s: Bytes, at: nat) returns (c: Letter)
    requires at < |s| && s[at] != QUOTE && Character(s, at).Some?
    ensures GoodLetter(c) && DenoteLetter(c) == Character(s, at).value.text
    ensures s[at..Character(s, at).value.end] == SpellLetter(c)
  {
    if s[at] != BACKSLASH {
      c := Plain(s[at]);
    } else if s[at + 1] != LOWER_U {
      c := Short(s[at + 1]);
    } else {
      hide UnicodeEscape, GoodLetter, DenoteLetter, SpellLetter;
      c := UnicodeSpelled(s, at);
    }
  }

  lemma UnicodeSpelled(s: Bytes, at: nat) returns (c: Letter)
    requires at + 2 <= |s| && s[at] == BACKSLASH && s[at + 1] == LOWER_U && UnicodeEscape(s, at + 2).Some?
    ensures GoodLetter(c) && DenoteLetter(c) == UnicodeEscape(s, at + 2).value.text
    ensures s[at..UnicodeEscape(s, at + 2).value.end] == SpellLetter(c)
  {
    hide CodeUnit, HexNumber, Utf8;
    CodeUnitHere(s, at + 2, []);
    var d := s[at + 2..at + 6];
    if IsHigh(HexNumber(d)) {
      CodeUnitHere(s, at + 8, []);
      var l := s[at + 8..at + 12];
      c := Pair(d, l);
      assert s[at..at + 12] == [BACKSLASH, LOWER_U] + d + ([BACKSLASH, LOWER_U] + l);
    } else {
      c := Unit(d);
      assert s[at..at + 6] == [BACKSLASH, LOWER_U] + d;
    }
  }

  lemma {:induction false} LettersRead(s: Bytes, at: nat, cs: seq<Letter>, read: Bytes)
    requires GoodLetters(cs) && Holds(s, at, SpellLetters(cs) + [QUOTE])
    ensures StringRest(s, at, read) == Some(ParsedText(read + DenoteLetters(cs), at + |SpellLetters(cs)| + 1))
    decreases |cs|
  {
    hide GoodLetter, SpellLetter, DenoteLetter, Character, Holds;
    if cs == [] {
      HoldsFirst(s, at, [] + [QUOTE]);
      assert read + [] == read;
    } else {
      var first, rest := SpellLetter(cs[0]), SpellLetters(cs[1..]);
      assert SpellLetters(cs) + [QUOTE] == first + (rest + [QUOTE]);
      HoldsConcat(s, at, first, rest + [QUOTE]);
      LetterRead(s, at, cs[0]);
      LettersRead(s, at + |first|, cs[1..], read + DenoteLetter(cs[0]));
      assert read + DenoteLetter(cs[0]) + DenoteLetters(cs[1..]) == read + DenoteLetters(cs);
    }
  }

  lemma {:induction false} LettersSpelled(s: Bytes, at: nat, read: Bytes) returns (cs: seq<Letter>)
    requires at <= |s| && StringRest(s, at, read).Some?
    ensures GoodLetters(cs) && StringRest(s, at, read).value.text == read + DenoteLetters(cs)
    ensures s[at..StringRest(s, at, read).value.end] == SpellLetters(cs) + [QUOTE]
    decreases |s| - at
  {
    hide SpellLetter, DenoteLetter, Character;
    if s[at] == QUOTE {
      cs := [];
      assert read + [] == read;
    } else {
      var c := LetterSpelled(s, at);
      var next := Character(s, at).value;
      var rest := LettersSpelled(s, next.end, read + next.text);
      cs := [c] + rest;
      assert cs[1..] == rest;
      var end := StringRest(s, at, read).value.end;
      assert s[at..end] == s[at..next.end] + s[next.end..end];
      assert SpellLetters(cs) + [QUOTE] == SpellLetter(c) + (SpellLetters(rest) + [QUOTE]);
      assert read + next.text + DenoteLetters(rest) == read + DenoteLetters(cs);
    }
  }

  // ---- UTF-8 ----

  /** Section 3 of RFC 3629 read backwards: the code point of one encoded character. */
  function CodePoint(b: Bytes): int
    requires 1 <= |b| <= 4
  {
    var a: int := b[0];
    if |b| == 1 then a
    else if |b| == 2 then (a - 0xc0) * 0x40 + Tail(b[1])
    else if |b| == 3 then ((a - 0xe0) * 0x40 + Tail(b[1])) * 0x40 + Tail(b[2])
    else (((a - 0xf0) * 0x40 + Tail(b[1])) * 0x40 + Tail(b[2])) * 0x40 + Tail(b[3])
  }

  function Tail(b: byte): int { b as int - 0x80 }

  /** The encoding loses nothing, and its bytes say how many there are. */
  lemma Utf8RoundTrip(codePoint: nat)
    requires codePoint < 0x110000
    ensures CodePoint(Utf8(codePoint)) == codePoint
    ensures var b := Utf8(codePoint);
            && (|b| == 1 <==> b[0] < 0x80)
            && (|b| == 2 <==> 0xc0 <= b[0] < 0xe0)
            && (|b| == 3 <==> 0xe0 <= b[0] < 0xf0)
            && (|b| == 4 <==> 0xf0 <= b[0] < 0xf8)
            && forall i :: 1 <= i < |b| ==> 0x80 <= b[i] < 0xc0
  {
    assert codePoint / 0x1000 == codePoint / 0x40 / 0x40;
    assert codePoint / 0x40000 == codePoint / 0x1000 / 0x40;
  }

  // ---- numbers ----

  datatype Exponent = Exponent(mark: byte, sign: Option<byte>, digits: Bytes)
  datatype Numeral = Numeral(minus: bool, whole: Bytes, fraction: Option<Bytes>, exponent: Option<Exponent>)

  predicate Digits(d: Bytes) { |d| > 0 && forall i :: 0 <= i < |d| ==> IsDigit(d[i]) }

  predicate GoodNumeral(n: Numeral) {
    && Digits(n.whole) && (n.whole[0] == 48 ==> |n.whole| == 1)
    && (n.fraction.Some? ==> Digits(n.fraction.value))
    && (n.exponent.Some? ==>
          && IsExponentMark(n.exponent.value.mark)
          && (n.exponent.value.sign.Some? ==> IsSign(n.exponent.value.sign.value))
          && Digits(n.exponent.value.digits))
  }

  function SpellInteger(n: Numeral): Bytes { (if n.minus then [MINUS] else []) + n.whole }

  function SpellFraction(f: Option<Bytes>): Bytes { if f.None? then [] else [DOT] + f.value }

  function SpellExponent(e: Option<Exponent>): Bytes {
    if e.None? then []
    else [e.value.mark] + (if e.value.sign.None? then [] else [e.value.sign.value]) + e.value.digits
  }

  function SpellNumeral(n: Numeral): Bytes {
    SpellInteger(n) + SpellFraction(n.fraction) + SpellExponent(n.exponent)
  }

  /** What a number must be followed by, so that none of it is missed. */
  predicate NumberStops(s: Bytes, at: nat) {
    at >= |s| || !(IsDigit(s[at]) || s[at] == DOT || IsExponentMark(s[at]))
  }

  lemma IntegerRead(s: Bytes, at: nat, n: Numeral)
    requires GoodNumeral(n) && Holds(s, at, SpellInteger(n))
    requires var end := at + |SpellInteger(n)|; end == |s| || !IsDigit(s[end])
    ensures IntegerEnd(s, at) == Some(at + |SpellInteger(n)|)
    ensures at < |s| && (s[at] == MINUS || IsDigit(s[at]))
  {
    HoldsConcat(s, at, if n.minus then [MINUS] else [], n.whole);
    var first := if n.minus then at + 1 else at;
    assert s[at] == s[at..at + |SpellInteger(n)|][0];
    assert s[first] == s[first..first + |n.whole|][0] == n.whole[0];
    DigitsRead(s, first, n.whole);
  }

  lemma FractionRead(s: Bytes, at: nat, f: Option<Bytes>)
    requires (f.Some? ==> Digits(f.value)) && Holds(s, at, SpellFraction(f))
    requires var end := at + |SpellFraction(f)|; end == |s| || (!IsDigit(s[end]) && (f.None? ==> s[end] != DOT))
    ensures FractionEnd(s, at) == Some(at + |SpellFraction(f)|)
  {
    if f.Some? {
      HoldsConcat(s, at, [DOT], f.value);
      assert s[at] == s[at..at + 1][0];
      DigitsRead(s, at + 1, f.value);
    }
  }

  lemma ExponentRead(s: Bytes, at: nat, e: Option<Exponent>)
    requires e.Some? ==> IsExponentMark(e.value.mark) && (e.value.sign.Some? ==> IsSign(e.value.sign.value)) && Digits(e.value.digits)
    requires Holds(s, at, SpellExponent(e))
    requires var end := at + |SpellExponent(e)|; end == |s| || (!IsDigit(s[end]) && (e.None? ==> !IsExponentMark(s[end])))
    ensures ExponentEnd(s, at) == Some(at + |SpellExponent(e)|)
  {
    if e.Some? {
      var sign := if e.value.sign.None? then [] else [e.value.sign.value];
      HoldsConcat(s, at, [e.value.mark] + sign, e.value.digits);
      HoldsConcat(s, at, [e.value.mark], sign);
      assert s[at] == s[at..at + 1][0];
      var first := at + 1 + |sign|;
      assert s[first] == s[first..first + |e.value.digits|][0];
      if e.value.sign.Some? {
        assert s[at + 1] == s[at + 1..at + 2][0];
      }
      DigitsRead(s, first, e.value.digits);
    }
  }

  /** A numeral spelled here, and properly ended, is read here whole. */
  lemma NumeralRead(s: Bytes, at: nat, n: Numeral)
    requires GoodNumeral(n) && Holds(s, at, SpellNumeral(n)) && NumberStops(s, at + |SpellNumeral(n)|)
    ensures NumberEnd(s, at) == Some(at + |SpellNumeral(n)|)
    ensures at < |s| && (s[at] == MINUS || IsDigit(s[at]))
  {
    hide IntegerEnd, FractionEnd, ExponentEnd, Holds, SpellInteger, SpellFraction, SpellExponent;
    NumeralParts(s, at, n);
    var f := at + |SpellInteger(n)|;
    IntegerRead(s, at, n);
    FractionRead(s, f, n.fraction);
    ExponentRead(s, f + |SpellFraction(n.fraction)|, n.exponent);
  }

  /** The parts of a numeral in place, each ended by the one after it. */
  lemma NumeralParts(s: Bytes, at: nat, n: Numeral)
    requires GoodNumeral(n) && Holds(s, at, SpellNumeral(n)) && NumberStops(s, at + |SpellNumeral(n)|)
    ensures var f := at + |SpellInteger(n)|;
            var e := f + |SpellFraction(n.fraction)|;
            && Holds(s, at, SpellInteger(n)) && Holds(s, f, SpellFraction(n.fraction))
            && Holds(s, e, SpellExponent(n.exponent)) && f <= e <= |s|
            && (f == |s| || (!IsDigit(s[f]) && (n.fraction.None? ==> s[f] != DOT)))
            && (e == |s| || (!IsDigit(s[e]) && (n.fraction.None? ==> s[e] != DOT)))
            && (e + |SpellExponent(n.exponent)| == |s| ||
                  (e + |SpellExponent(n.exponent)| < |s| && NumberStops(s, e + |SpellExponent(n.exponent)|)))
  {
    var whole, fraction, exponent := SpellInteger(n), SpellFraction(n.fraction), SpellExponent(n.exponent);
    HoldsConcat(s, at, whole + fraction, exponent);
    HoldsConcat(s, at, whole, fraction);
    hide Holds;
    var f, e := at + |whole|, at + |whole| + |fraction|;
    if fraction != [] {
      HoldsFirst(s, f, fraction);
    }
    if exponent != [] {
      HoldsFirst(s, e, exponent);
    }
    HoldsInside(s, e, exponent);
  }

  lemma HoldsInside(s: Bytes, at: nat, t: Bytes)
    requires Holds(s, at, t)
    ensures at + |t| <= |s|
  {}

  lemma IntegerSpelled(s: Bytes, at: nat) returns (minus: bool, whole: Bytes)
    requires at <= |s| && IntegerEnd(s, at).Some?
    ensures Digits(whole) && (whole[0] == 48 ==> |whole| == 1)
    ensures s[at..IntegerEnd(s, at).value] == (if minus then [MINUS] else []) + whole
  {
    minus := s[at] == MINUS;
    whole := s[if minus then at + 1 else at..IntegerEnd(s, at).value];
  }

  lemma FractionSpelled(s: Bytes, at: nat) returns (f: Option<Bytes>)
    requires at <= |s| && FractionEnd(s, at).Some?
    ensures (f.Some? ==> Digits(f.value)) && s[at..FractionEnd(s, at).value] == SpellFraction(f)
  {
    var end := FractionEnd(s, at).value;
    f := if end == at then None else Some(s[at + 1..end]);
  }

  lemma ExponentSpelled(s: Bytes, at: nat) returns (e: Option<Exponent>)
    requires at <= |s| && ExponentEnd(s, at).Some?
    ensures e.Some? ==> IsExponentMark(e.value.mark) && (e.value.sign.Some? ==> IsSign(e.value.sign.value)) && Digits(e.value.digits)
    ensures s[at..ExponentEnd(s, at).value] == SpellExponent(e)
  {
    var end := ExponentEnd(s, at).value;
    e := None;
    if end != at {
      var first := if IsSign(s[at + 1]) then at + 2 else at + 1;
      e := Some(Exponent(s[at], if IsSign(s[at + 1]) then Some(s[at + 1]) else None, s[first..end]));
      assert s[at..end] == s[at..first] + s[first..end];
    }
  }

  /** What is read as a number is some numeral's spelling. */
  lemma NumeralSpelled(s: Bytes, at: nat) returns (n: Numeral)
    requires at <= |s| && NumberEnd(s, at).Some?
    ensures GoodNumeral(n) && s[at..NumberEnd(s, at).value] == SpellNumeral(n)
  {
    hide IntegerEnd, FractionEnd, ExponentEnd, SpellFraction, SpellExponent;
    var whole := IntegerEnd(s, at).value;
    var fraction := FractionEnd(s, whole).value;
    var exponent := ExponentEnd(s, fraction).value;
    var minus, w := IntegerSpelled(s, at);
    var f := FractionSpelled(s, whole);
    var e := ExponentSpelled(s, fraction);
    n := Numeral(minus, w, f, e);
    assert s[at..exponent] == s[at..whole] + s[whole..fraction] + s[fraction..exponent];
  }
}
