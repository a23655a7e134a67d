/** What particular texts of RFC 8259 read as, said in code points and characters: escapes,
    surrogate pairs, words, brackets and the depth that is read (client/ncfg_json.c). */
module JsonLiterals {
  import opened Bytes
  import opened JsonSpec
  import opened JsonText
  import opened JsonGrammar

  // ---- hex digits ----

  /** The byte is this digit, in either case. */
  predicate SpellsDigit(b: byte, n: nat) {
    n < 16 && (b == Ascii("0123456789abcdef")[n] || b == Ascii("0123456789ABCDEF")[n])
  }

  /** The four bytes are this number, most significant digit first, in either case. */
  predicate SpellsUnit(d: Bytes, unit: nat) {
    && |d| == 4 && unit < 0x10000
    && SpellsDigit(d[0], unit / 4096) && SpellsDigit(d[1], unit / 256 % 16)
    && SpellsDigit(d[2], unit / 16 % 16) && SpellsDigit(d[3], unit % 16)
  }

  lemma DigitSays(b: byte, n: nat)
    requires n < 16
    ensures SpellsDigit(b, n) <==> HexValue(b) == n
  {}

  lemma UnitSays(d: Bytes, unit: nat)
    requires SpellsUnit(d, unit)
    ensures FourHex(d) && HexNumber(d) == unit
  {
    hide SpellsDigit, HexNumber;
    DigitSays(d[0], unit / 4096);
    DigitSays(d[1], unit / 256 % 16);
    DigitSays(d[2], unit / 16 % 16);
    DigitSays(d[3], unit % 16);
    FourHexNumber(d);
    assert unit / 256 == unit / 16 / 16 && unit / 4096 == unit / 256 / 16;
  }

  // ---- escapes ----

  /** The line is a string of these letters. */
  lemma LettersLine(cs: seq<Letter>)
    requires GoodLetters(cs)
    ensures ParseDocument(SpellString(cs)) == Some(String(DenoteLetters(cs)))
  {
    hide ParseDocument, SpellLetters, DenoteLetters, SpellString;
    var t := StringTree(cs);
    assert Spell(t) == SpellString(cs);
    assert SpellString(cs) == [] + (SpellString(cs) + []);
    SpelledIsRead(SpellString(cs), [], t, [], String(DenoteLetters(cs)));
  }

  lemma OneLetter(c: Letter)
    requires GoodLetter(c)
    ensures ParseDocument([QUOTE] + (SpellLetter(c) + [QUOTE])) == Some(String(DenoteLetter(c)))
  {
    hide ParseDocument, GoodLetter, SpellLetter, DenoteLetter;
    LettersLine([c]);
    assert [c][1..] == [] && SpellLetters([c]) == SpellLetter(c) + [] == SpellLetter(c);
    assert DenoteLetters([c]) == DenoteLetter(c) + [] == DenoteLetter(c);
  }

  /** An escape of any code point below U+10000 that is no surrogate, with digits of either
      case, reads as the UTF-8 text that decodes to that code point. */
  lemma EscapeRead(d: Bytes, c: nat) returns (text: Bytes)
    requires SpellsUnit(d, c) && !(0xd800 <= c <= 0xdfff)
    ensures ParseDocument([QUOTE, BACKSLASH, LOWER_U] + d + [QUOTE]) == Some(String(text))
    ensures 1 <= |text| <= 4 && CodePoint(text) == c
  {
    assert c < 0x10000;
    hide ParseDocument, SpellsUnit, HexNumber, FourHex;
    UnitSays(d, c);
    OneLetter(Unit(d));
    text := Utf8(c);
    Utf8RoundTrip(c);
    assert [QUOTE] + (([BACKSLASH, LOWER_U] + d) + [QUOTE]) == [QUOTE, BACKSLASH, LOWER_U] + d + [QUOTE];
  }

  /** The two halves of a code point from U+10000 up, as UTF-16 makes them, are it again. */
  lemma CombineExactly(c: nat)
    requires 0x10000 <= c < 0x110000
    ensures var high, low := 0xd800 + (c - 0x10000) / 0x400, 0xdc00 + (c - 0x10000) % 0x400;
            IsHigh(high) && IsLow(low) && Combine(high, low) == c
  {}

  /** The escaped surrogate pair of any code point from U+10000 up reads as the UTF-8 text
      that decodes to that code point. */
  lemma PairRead(h: Bytes, l: Bytes, c: nat) returns (text: Bytes)
    requires 0x10000 <= c < 0x110000
    requires SpellsUnit(h, 0xd800 + (c - 0x10000) / 0x400) && SpellsUnit(l, 0xdc00 + (c - 0x10000) % 0x400)
    ensures ParseDocument([QUOTE, BACKSLASH, LOWER_U] + h + [BACKSLASH, LOWER_U] + l + [QUOTE]) == Some(String(text))
    ensures |text| == 4 && CodePoint(text) == c
  {
    hide ParseDocument, SpellsUnit, HexNumber, FourHex, Combine;
    CombineExactly(c);
    UnitSays(h, 0xd800 + (c - 0x10000) / 0x400);
    UnitSays(l, 0xdc00 + (c - 0x10000) % 0x400);
    OneLetter(Pair(h, l));
    text := Utf8(c);
    Utf8RoundTrip(c);
    assert [QUOTE] + (([BACKSLASH, LOWER_U] + h + ([BACKSLASH, LOWER_U] + l)) + [QUOTE])
           == [QUOTE, BACKSLASH, LOWER_U] + h + [BACKSLASH, LOWER_U] + l + [QUOTE];
  }

  /** Half a pair, alone in a string, is refused. */
  lemma HalfIsRefused(d: Bytes, c: nat)
    requires SpellsUnit(d, c) && 0xd800 <= c <= 0xdfff
    ensures ParseDocument([QUOTE, BACKSLASH, LOWER_U] + d + [QUOTE]).None?
  {
    hide SpellsUnit, HexNumber, CodeUnit;
    var s := [QUOTE, BACKSLASH, LOWER_U] + d + [QUOTE];
    UnitSays(d, c);
    assert s[3..7] == d;
    CodeUnitHere(s, 3, d);
    assert s[7] == QUOTE && s[1] == BACKSLASH && s[2] == LOWER_U && s[0] == QUOTE;
    assert UnicodeEscape(s, 3).None?;
    assert Character(s, 1).None?;
    assert StringRest(s, 1, []).None?;
  }

  /** Each one-letter escape reads as its character. */
  lemma ShortRead(letter: byte, b: byte)
    requires (letter, b) in [(34, 34), (92, 92), (47, 47), (98, 8), (102, 12), (110, 10), (114, 13), (116, 9)]
    ensures ParseDocument([QUOTE, BACKSLASH, letter, QUOTE]) == Some(String([b]))
  {
    hide ParseDocument;
    OneLetter(Short(letter));
    assert [QUOTE] + ([BACKSLASH, letter] + [QUOTE]) == [QUOTE, BACKSLASH, letter, QUOTE];
  }

  // ---- words and brackets ----

  lemma WordRead(t: Tree)
    requires Good(t) && !t.Group?
    ensures ParseDocument(Spell(t)) == Some(Denote(t))
  {
    hide ParseDocument, Spell, Good, Denote;
    assert Spell(t) == [] + (Spell(t) + []);
    ScalarNests(t);
    SpelledIsRead(Spell(t), [], t, [], Denote(t));
  }

  lemma ScalarNests(t: Tree)
    requires !t.Group?
    ensures NestsWithin(t, 32)
  {}

  /** The three words. */
  lemma WordsRead()
    ensures ParseDocument(Ascii("true")) == Some(Bool(true))
    ensures ParseDocument(Ascii("false")) == Some(Bool(false))
    ensures ParseDocument(Ascii("null")) == Some(Null)
  {
    hide ParseDocument;
    WordRead(BoolTree(true));
    WordRead(BoolTree(false));
    WordRead(NullTree);
    assert Ascii("true") == TRUE_WORD && Ascii("false") == FALSE_WORD && Ascii("null") == NULL_WORD;
  }

  /** Brackets and comma. */
  lemma ListLine()
    ensures ParseDocument(Ascii("[true,null]")) == Some(Array([Entry(None, Bool(true)), Entry(None, Null)]))
  {
    hide ParseDocument;
    var first, second := Item(None, [], BoolTree(true), []), Item(None, [], NullTree, []);
    ItemBuilt(second, false, 31, []);
    assert [second] + [] == [second];
    ItemBuilt(first, false, 31, [second]);
    var items := [first] + [second];
    var t := Group(false, [], items);
    var line := Ascii("[true,null]");
    assert SpellItems([second]) == NULL_WORD;
    assert SpellItems(items) == TRUE_WORD + ([COMMA] + NULL_WORD);
    assert line == [] + (Spell(t) + []);
    assert DenoteItems([second], false) == [Entry(None, Null)];
    assert DenoteItems(items, false) == [Entry(None, Bool(true)), Entry(None, Null)];
    SpelledIsRead(line, [], t, [], Array([Entry(None, Bool(true)), Entry(None, Null)]));
  }

  /** Braces and colon. */
  lemma MemberLine()
    ensures ParseDocument(Ascii("{\"a\":true}")) == Some(Object([Entry(Some([97]), Bool(true))]))
  {
    hide ParseDocument;
    var name := Name([], [Plain(97)], []);
    var item := Item(Some(name), [], BoolTree(true), []);
    assert [Plain(97)][1..] == [] && SpellLetters([Plain(97)]) == [97] && DenoteLetters([Plain(97)]) == [97];
    ItemBuilt(item, true, 31, []);
    var items := [item] + [];
    var t := Group(true, [], items);
    var line := Ascii("{\"a\":true}");
    assert SpellName(Some(name)) == [QUOTE, 97, QUOTE, COLON];
    assert SpellItems(items) == [QUOTE, 97, QUOTE, COLON] + TRUE_WORD;
    assert line == [] + (Spell(t) + []);
    assert DenoteItems(items, true) == [Entry(Some([97]), Bool(true))];
    SpelledIsRead(line, [], t, [], Object([Entry(Some([97]), Bool(true))]));
  }

  // ---- depth ----

  /** So many arrays, one inside the other. */
  ghost function Nest(n: nat): Tree
    requires n > 0
  {
    Group(false, [], if n == 1 then [] else [Item(None, [], Nest(n - 1), [])])
  }

  lemma {:induction false} NestGood(n: nat, levels: nat)
    requires 0 < n <= levels
    ensures Good(Nest(n)) && NestsWithin(Nest(n), levels)
  {
    if n > 1 {
      NestGood(n - 1, levels - 1);
      var item := Item(None, [], Nest(n - 1), []);
      ItemBuilt(item, false, levels - 1, []);
      assert [item] + [] == [item];
    }
  }

  /** Thirty-two deep is read. */
  lemma DeepIsRead(n: nat)
    requires 0 < n <= 32
    ensures ParseDocument(Spell(Nest(n))).Some?
  {
    hide ParseDocument, Spell;
    NestGood(n, 32);
    var t := Nest(n);
    assert Spell(t) == [] + (Spell(t) + []);
    SpelledIsRead(Spell(t), [], t, [], Denote(t));
  }

  /** Thirty-three is not, whatever follows. */
  lemma {:induction false} DeeperIsRefused(s: Bytes, k: nat)
    requires |s| >= 33 && (forall i :: 0 <= i < 33 ==> s[i] == LBRACKET) && k <= 32
    ensures ParseValue(s, k, k).None?
    ensures k == 0 ==> ParseDocument(s).None?
    decreases 32 - k
  {
    assert SkipSpace(s, k) == k;
    if k < 32 {
      DeeperIsRefused(s, k + 1);
      assert SkipSpace(s, k + 1) == k + 1;
    }
  }
}
