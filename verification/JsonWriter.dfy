/** Writing JSON: quoting, and the fields a request is made of. The reader is
    proved to give back exactly what was written. */
module JsonWriter {
  import opened Bytes
  import opened Decimals
  import opened JsonSpec
  import opened JsonText
  import opened JsonGrammar

  /** What `ncfg_client_quote` writes for one byte. */
  function EscapeByte(b: byte): (r: Bytes)
    ensures 1 <= |r| <= 6
  {
    if b == QUOTE then [BACKSLASH, QUOTE]
    else if b == BACKSLASH then [BACKSLASH, BACKSLASH]
    else if b == 8 then [BACKSLASH, 98]
    else if b == 12 then [BACKSLASH, 102]
    else if b == 10 then [BACKSLASH, 110]
    else if b == 13 then [BACKSLASH, 114]
    else if b == 9 then [BACKSLASH, 116]
    else if b < 0x20 then [BACKSLASH, LOWER_U, 48, 48, HexDigit(b / 16), HexDigit(b % 16)]
    else [b]
  }

  function Escaped(t: Bytes): (r: Bytes)
    ensures |t| <= |r| <= 6 * |t|
  {
    if t == [] then [] else EscapeByte(t[0]) + Escaped(t[1..])
  }

  function Quoted(t: Bytes): (r: Bytes)
    ensures |t| + 2 <= |r| <= 6 * |t| + 2
  {
    [QUOTE] + (Escaped(t) + [QUOTE])
  }

  /** Text that quoting leaves alone. */
  predicate Unescaped(t: Bytes) {
    forall i :: 0 <= i < |t| ==> t[i] >= 0x20 && t[i] != QUOTE && t[i] != BACKSLASH
  }

  lemma {:induction false} UnescapedQuoted(t: Bytes)
    requires Unescaped(t)
    ensures Escaped(t) == t && Quoted(t) == [QUOTE] + (t + [QUOTE])
    decreases |t|
  {
    if t != [] {
      UnescapedQuoted(t[1..]);
      assert [t[0]] + t[1..] == t;
    }
  }

  // ---- quoting is spelling ----

  function LetterOf(b: byte): Letter {
    if |EscapeByte(b)| == 1 then Plain(b)
    else if |EscapeByte(b)| == 2 then Short(EscapeByte(b)[1])
    else Unit(EscapeByte(b)[2..])
  }

  /** Every byte is quoted as a letter that denotes that byte. */
  lemma LetterOfByte(b: byte)
    requires b != 0
    ensures GoodLetter(LetterOf(b)) && SpellLetter(LetterOf(b)) == EscapeByte(b) && DenoteLetter(LetterOf(b)) == [b]
    ensures forall i :: 0 <= i < |EscapeByte(b)| ==> EscapeByte(b)[i] >= 0x20
  {
    if |EscapeByte(b)| == 6 {
      var d := EscapeByte(b)[2..];
      assert d == [48, 48, HexDigit(b / 16), HexDigit(b % 16)];
      FourHexNumber(d);
    }
  }

  ghost function LettersOf(t: Bytes): seq<Letter> {
    if t == [] then [] else [LetterOf(t[0])] + LettersOf(t[1..])
  }

  lemma {:induction false} QuotedSpelled(t: CString)
    ensures GoodLetters(LettersOf(t)) && DenoteLetters(LettersOf(t)) == t
    ensures SpellString(LettersOf(t)) == Quoted(t) && SpellLetters(LettersOf(t)) == Escaped(t)
    decreases |t|
  {
    if t != [] {
      LetterOfByte(t[0]);
      QuotedSpelled(t[1..]);
      var cs := LettersOf(t);
      assert cs[0] == LetterOf(t[0]) && cs[1..] == LettersOf(t[1..]);
      assert [t[0]] + t[1..] == t;
    }
  }

  lemma {:induction false} EscapedPrintable(t: CString)
    ensures forall i :: 0 <= i < |Escaped(t)| ==> Escaped(t)[i] >= 0x20
    decreases |t|
  {
    if t != [] {
      LetterOfByte(t[0]);
      EscapedPrintable(t[1..]);
    }
  }

  /** Quoting and reading are inverse, for every text a C string can hold. */
  lemma QuoteRoundTrip(t: CString)
    ensures ParseDocument(Quoted(t)) == Some(String(t))
  {
    QuotedSpelled(t);
    var tree := StringTree(LettersOf(t));
    assert [] + (Quoted(t) + []) == Quoted(t);
    SpelledIsRead(Quoted(t), [], tree, [], String(t));
  }

  // ---- requests ----

  datatype FieldValue = Text(text: CString) | Yes | Count(n: nat) | List(texts: seq<CString>)
  datatype Field = Field(key: CString, value: FieldValue)

  function PrintList(ts: seq<CString>): Bytes {
    if ts == [] then [] else Quoted(ts[0]) + (if |ts| == 1 then [] else [COMMA] + PrintList(ts[1..]))
  }

  function PrintValue(v: FieldValue): Bytes {
    match v
    case Text(t) => Quoted(t)
    case Yes => TRUE_WORD
    case Count(n) => Decimal(n)
    case List(ts) => [LBRACKET] + (PrintList(ts) + [RBRACKET])
  }

  function PrintField(f: Field): Bytes { Quoted(f.key) + ([COLON] + PrintValue(f.value)) }

  function PrintFields(fs: seq<Field>): Bytes {
    if fs == [] then [] else PrintField(fs[0]) + (if |fs| == 1 then [] else [COMMA] + PrintFields(fs[1..]))
  }

  function PrintRequest(fs: seq<Field>): Bytes { [LBRACE] + (PrintFields(fs) + [RBRACE]) }

  /** What a reader is meant to find. */
  function ValueMeant(v: FieldValue): Json {
    match v
    case Text(t) => String(t)
    case Yes => Bool(true)
    case Count(n) => Number(Decimal(n))
    case List(ts) => Array(seq(|ts|, i requires 0 <= i < |ts| => Entry(None, String(ts[i]))))
  }

  function FieldMeant(f: Field): Entry { Entry(Some(f.key), ValueMeant(f.value)) }

  function RequestMeant(fs: seq<Field>): Json {
    Object(seq(|fs|, i requires 0 <= i < |fs| => FieldMeant(fs[i])))
  }

  ghost function TextItem(t: CString): Item { Item(None, [], StringTree(LettersOf(t)), []) }

  ghost function ListItems(ts: seq<CString>): seq<Item> {
    if ts == [] then [] else [TextItem(ts[0])] + ListItems(ts[1..])
  }

  ghost function ValueTree(v: FieldValue): Tree {
    match v
    case Text(t) => StringTree(LettersOf(t))
    case Yes => BoolTree(true)
    case Count(n) => NumberTree(Numeral(false, Decimal(n), None, None))
    case List(ts) => Group(false, [], ListItems(ts))
  }

  ghost function FieldItem(f: Field): Item {
    Item(Some(Name([], LettersOf(f.key), [])), [], ValueTree(f.value), [])
  }

  ghost function FieldItems(fs: seq<Field>): seq<Item> {
    if fs == [] then [] else [FieldItem(fs[0])] + FieldItems(fs[1..])
  }

  lemma {:induction false} ListSpelled(ts: seq<CString>)
    ensures var items := ListItems(ts);
            && |items| == |ts| && GoodItems(items, false) && SpellItems(items) == PrintList(ts)
            && (forall levels: nat :: ItemsNestWithin(items, levels))
            && DenoteItems(items, false) == seq(|ts|, i requires 0 <= i < |ts| => Entry(None, String(ts[i])))
    decreases |ts|
  {
    hide Quoted, LettersOf, SpellLetters, DenoteLetters, GoodLetters, SpellString;
    if ts != [] {
      var items, rest := ListItems(ts), ListItems(ts[1..]);
      ListSpelled(ts[1..]);
      QuotedSpelled(ts[0]);
      assert items[1..] == rest && items[0] == TextItem(ts[0]);
      ItemBuilt(items[0], false, 0, rest);
      NoName(None);
      var tail := if rest == [] then [] else [COMMA] + SpellItems(rest);
      assert [] + ([] + (Quoted(ts[0]) + ([] + tail))) == Quoted(ts[0]) + tail;
      forall levels: nat
        ensures ItemsNestWithin(items, levels)
      {
        ItemBuilt(items[0], false, levels, rest);
      }
    }
  }

  lemma ValueSpelled(v: FieldValue)
    ensures Good(ValueTree(v)) && NestsWithin(ValueTree(v), MAX_DEPTH - 1)
    ensures Spell(ValueTree(v)) == PrintValue(v) && Denote(ValueTree(v)) == ValueMeant(v)
  {
    match v
    case Text(t) => QuotedSpelled(t);
    case Yes =>
    case Count(n) =>
      assert SpellNumeral(Numeral(false, Decimal(n), None, None)) == Decimal(n);
    case List(ts) => ListSpelled(ts);
  }

  lemma {:induction false} FieldsSpelled(fs: seq<Field>)
    ensures var items := FieldItems(fs);
            && |items| == |fs| && GoodItems(items, true) && ItemsNestWithin(items, MAX_DEPTH - 1)
            && SpellItems(items) == PrintFields(fs)
            && DenoteItems(items, true) == RequestMeant(fs).entries
    decreases |fs|
  {
    hide GoodItems, ItemsNestWithin, SpellItems, DenoteItems, ValueTree, ValueMeant, PrintValue, LettersOf, Quoted,
         SpellLetters, Spell, Good, NestsWithin, Denote, DenoteLetters, GoodLetters, SpellString;
    if fs == [] {
      NoItems(FieldItems(fs), true);
      NoneNest(FieldItems(fs));
    } else {
      var items, rest, item := FieldItems(fs), FieldItems(fs[1..]), FieldItem(fs[0]);
      FieldsSpelled(fs[1..]);
      FieldSpelled(fs[0]);
      assert items == [item] + rest;
      ItemBuilt(item, true, MAX_DEPTH - 1, rest);
      var tail := if rest == [] then [] else [COMMA] + SpellItems(rest);
      var name, value := Quoted(fs[0].key) + [COLON], PrintValue(fs[0].value);
      assert name + ([] + (value + ([] + tail))) == (name + value) + tail;
      assert name + value == PrintField(fs[0]);
    }
  }

  lemma NoneNest(items: seq<Item>)
    requires items == []
    ensures ItemsNestWithin(items, MAX_DEPTH - 1) && SpellItems(items) == []
  {}

  lemma FieldSpelled(f: Field)
    ensures var item := FieldItem(f);
            && GoodName(item.name.value) && Good(item.value) && NestsWithin(item.value, MAX_DEPTH - 1)
            && SpellName(item.name) == Quoted(f.key) + [COLON] && Spell(item.value) == PrintValue(f.value)
            && ItemKey(item) == Some(f.key) && Denote(item.value) == ValueMeant(f.value)
  {
    hide ValueTree, Quoted, SpellLetters, LettersOf, Spell, Good, NestsWithin, Denote;
    QuotedSpelled(f.key);
    ValueSpelled(f.value);
    assert [] + (Quoted(f.key) + ([] + [COLON])) == Quoted(f.key) + [COLON];
  }

  /** A printed request reads back as exactly its fields, in order, each with
      exactly the caller's bytes: nothing in a name or a value can end it early
      or add to it. */
  lemma RequestRoundTrip(fs: seq<Field>)
    requires fs != []
    ensures ParseDocument(PrintRequest(fs)) == Some(RequestMeant(fs))
  {
    hide GoodItems, ItemsNestWithin, SpellItems, DenoteItems, PrintFields, FieldItems;
    FieldsSpelled(fs);
    var tree := Group(true, [], FieldItems(fs));
    assert [] + (PrintRequest(fs) + []) == PrintRequest(fs);
    SpelledIsRead(PrintRequest(fs), [], tree, [], RequestMeant(fs));
  }

  predicate OneLine(t: Bytes) { forall i :: 0 <= i < |t| ==> t[i] >= 0x20 }

  lemma QuotedOneLine(t: CString)
    ensures OneLine(Quoted(t))
  {
    EscapedPrintable(t);
  }

  lemma {:induction false} ListOneLine(ts: seq<CString>)
    ensures OneLine(PrintList(ts))
    decreases |ts|
  {
    if ts != [] {
      QuotedOneLine(ts[0]);
      ListOneLine(ts[1..]);
    }
  }

  lemma FieldOneLine(f: Field)
    ensures OneLine(PrintField(f))
  {
    QuotedOneLine(f.key);
    match f.value
    case Text(t) => QuotedOneLine(t);
    case Yes =>
    case Count(n) =>
    case List(ts) => ListOneLine(ts);
  }

  lemma {:induction false} FieldsOneLine(fs: seq<Field>)
    ensures OneLine(PrintFields(fs))
    decreases |fs|
  {
    if fs != [] {
      FieldOneLine(fs[0]);
      FieldsOneLine(fs[1..]);
    }
  }

  /** A printed request holds no control byte, so no newline can split it. */
  lemma RequestOneLine(fs: seq<Field>)
    ensures OneLine(PrintRequest(fs)) && NEWLINE !in PrintRequest(fs) && 0 !in PrintRequest(fs)
  {
    FieldsOneLine(fs);
    assert OneLine(PrintRequest(fs));
  }

  /** Adding a field at the end adds a comma and that field. */
  lemma {:induction false} FieldsSnoc(fs: seq<Field>, f: Field)
    ensures PrintFields(fs + [f]) == if fs == [] then PrintField(f) else PrintFields(fs) + ([COMMA] + PrintField(f))
    decreases |fs|
  {
    hide PrintField;
    if fs == [] {
      assert [] + [f] == [f];
      assert PrintField(f) + [] == PrintField(f);
    } else {
      FieldsSnoc(fs[1..], f);
      assert (fs + [f])[1..] == fs[1..] + [f];
      var head, last := PrintField(fs[0]), [COMMA] + PrintField(f);
      if |fs| == 1 {
        assert head + [] + last == head + last;
      } else {
        assert head + ([COMMA] + (PrintFields(fs[1..]) + last)) == head + ([COMMA] + PrintFields(fs[1..])) + last;
      }
    }
  }

  lemma {:induction false} ListSnoc(ts: seq<CString>, t: CString)
    ensures PrintList(ts + [t]) == if ts == [] then Quoted(t) else PrintList(ts) + ([COMMA] + Quoted(t))
    decreases |ts|
  {
    hide Quoted;
    if ts == [] {
      assert [] + [t] == [t];
      assert Quoted(t) + [] == Quoted(t);
    } else {
      ListSnoc(ts[1..], t);
      assert (ts + [t])[1..] == ts[1..] + [t];
      var head, last := Quoted(ts[0]), [COMMA] + Quoted(t);
      if |ts| == 1 {
        assert head + [] + last == head + last;
      } else {
        assert head + ([COMMA] + (PrintList(ts[1..]) + last)) == head + ([COMMA] + PrintList(ts[1..])) + last;
      }
    }
  }
}
