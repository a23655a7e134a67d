/** The grammar of RFC 8259 for values, and that reading and spelling are inverse:
    a line reads as a value exactly when some syntax tree, nested within the
    reader's cap, is spelled by that line and denotes that value. */
module JsonGrammar {
  import opened Bytes
  import opened JsonSpec
  import opened JsonText
  import JsonResume

  datatype Tree =
    | NullTree
    | BoolTree(flag: bool)
    | NumberTree(numeral: Numeral)
    | StringTree(letters: seq<Letter>)
    | Group(isObject: bool, gap: Bytes, items: seq<Item>)

  /** An entry with the space around its value. */
  datatype Item = Item(name: Option<Name>, before: Bytes, value: Tree, after: Bytes)
  datatype Name = Name(before: Bytes, letters: seq<Letter>, after: Bytes)

  predicate AllSpace(t: Bytes) { forall i :: 0 <= i < |t| ==> t[i] == 32 || t[i] == 9 || t[i] == 10 || t[i] == 13 }

  predicate GoodName(n: Name) { AllSpace(n.before) && GoodLetters(n.letters) && AllSpace(n.after) }

  ghost predicate Good(t: Tree)
    decreases t, 1
  {
    match t
    case NumberTree(n) => GoodNumeral(n)
    case StringTree(cs) => GoodLetters(cs)
    case Group(isObject, gap, items) => AllSpace(gap) && GoodItems(items, isObject)
    case _ => true
  }

  ghost predicate GoodItems(items: seq<Item>, isObject: bool)
    decreases items, 0
  {
    items == [] ||
    var item := items[0];
    assert (items decreases to item);
    && item.name.Some? == isObject && (isObject ==> GoodName(item.name.value))
    && AllSpace(item.before) && AllSpace(item.after) && Good(item.value)
    && GoodItems(items[1..], isObject)
  }

  /** Containers inside containers, at most `levels` deep. */
  ghost predicate NestsWithin(t: Tree, levels: nat)
    decreases t, 1
  {
    t.Group? ==> levels > 0 && ItemsNestWithin(t.items, levels - 1)
  }

  ghost predicate ItemsNestWithin(items: seq<Item>, levels: nat)
    decreases items, 0
  {
    items == [] ||
    var item := items[0];
    assert (items decreases to item);
    NestsWithin(item.value, levels) && ItemsNestWithin(items[1..], levels)
  }

  function SpellString(cs: seq<Letter>): Bytes { [QUOTE] + (SpellLetters(cs) + [QUOTE]) }

  function SpellName(n: Option<Name>): Bytes {
    if n.None? then [] else n.value.before + (SpellString(n.value.letters) + (n.value.after + [COLON]))
  }

  ghost function Spell(t: Tree): Bytes
    decreases t, 1
  {
    match t
    case NullTree => NULL_WORD
    case BoolTree(b) => if b then TRUE_WORD else FALSE_WORD
    case NumberTree(n) => SpellNumeral(n)
    case StringTree(cs) => SpellString(cs)
    case Group(isObject, gap, items) =>
      [Opener(isObject)] + ((if items == [] then gap else SpellItems(items)) + [Closer(isObject)])
  }

  ghost function SpellItems(items: seq<Item>): Bytes
    decreases items, 0
  {
    if items == [] then []
    else
      var item := items[0];
      assert (items decreases to item);
      SpellName(item.name) + (item.before + (Spell(item.value) + (item.after +
        (if |items| == 1 then [] else [COMMA] + SpellItems(items[1..])))))
  }

  ghost function Denote(t: Tree): Json
    requires Good(t)
    decreases t, 1
  {
    match t
    case NullTree => Null
    case BoolTree(b) => Bool(b)
    case NumberTree(n) => Number(SpellNumeral(n))
    case StringTree(cs) => String(DenoteLetters(cs))
    case Group(isObject, _, items) => Container(isObject, DenoteItems(items, isObject))
  }

  ghost function DenoteItems(items: seq<Item>, isObject: bool): seq<Entry>
    requires GoodItems(items, isObject)
    decreases items, 0
  {
    if items == [] then []
    else
      var item := items[0];
      assert (items decreases to item);
      [Entry(if isObject then Some(DenoteLetters(item.name.value.letters)) else None, Denote(item.value))]
      + DenoteItems(items[1..], isObject)
  }

  // ---- space ----

  lemma {:induction false} SpaceRead(s: Bytes, at: nat, w: Bytes)
    requires Holds(s, at, w) && AllSpace(w) && (at + |w| < |s| ==> !IsSpace(s[at + |w|]))
    ensures SkipSpace(s, at) == at + |w|
    decreases |w|
  {
    if w != [] {
      HoldsFirst(s, at, w);
      SpaceRead(s, at + 1, w[1..]);
    }
  }

  lemma ValueSkips(s: Bytes, at: nat, depth: nat)
    requires at <= |s|
    ensures ParseValue(s, at, depth) == ParseValue(s, SkipSpace(s, at), depth)
  {
    JsonResume.SkipTwice(s, at);
  }

  lemma EntriesSkip(s: Bytes, at: nat, depth: nat, isObject: bool, done: seq<Entry>)
    requires at <= |s|
    ensures ParseEntries(s, at, depth, isObject, done) == ParseEntries(s, SkipSpace(s, at), depth, isObject, done)
  {
    hide ParseKey, ParseValue;
    JsonResume.KeySkips(s, at);
    ValueSkips(s, at, depth);
  }

  // ---- what is spelled is read ----

  /** A byte that may follow a value. */
  predicate Stops(s: Bytes, at: nat) {
    at >= |s| || IsSpace(s[at]) || s[at] == COMMA || s[at] == RBRACE || s[at] == RBRACKET
  }

  /** A byte that a value or a name begins with. */
  predicate Begins(b: byte) {
    !IsSpace(b) && b != COMMA && b != RBRACE && b != RBRACKET
  }

  lemma SpellBegins(t: Tree)
    requires Good(t)
    ensures Spell(t) != [] && Begins(Spell(t)[0])
  {
    if t.NumberTree? {
      var n := t.numeral;
      assert SpellNumeral(n)[0] == SpellInteger(n)[0];
    }
  }

  /** What stands after the first item's value. */
  ghost function ItemsTail(items: seq<Item>): Bytes
    requires items != []
  {
    if |items| == 1 then [] else [COMMA] + SpellItems(items[1..])
  }

  lemma SpellItemsParts(items: seq<Item>)
    requires items != []
    ensures var item := items[0];
            SpellItems(items) ==
            SpellName(item.name) + (item.before + (Spell(item.value) + (item.after + ItemsTail(items))))
  {}

  /** In front of an item stand some space, and then what a name or a value begins with. */
  lemma ItemsLead(items: seq<Item>, isObject: bool) returns (lead: Bytes, rest: Bytes)
    requires items != [] && GoodItems(items, isObject)
    ensures SpellItems(items) == lead + rest && AllSpace(lead) && rest != [] && Begins(rest[0])
  {
    hide Spell, SpellItems, SpellLetters;
    var item := items[0];
    SpellItemsParts(items);
    var inner := Spell(item.value) + (item.after + ItemsTail(items));
    if isObject {
      var n := item.name.value;
      var name := SpellString(n.letters) + (n.after + [COLON]);
      lead, rest := n.before, name + (item.before + inner);
      Assoc(n.before, name, item.before + inner);
      assert rest[0] == name[0] == QUOTE;
    } else {
      NoName(item.name);
      SpellBegins(item.value);
      lead, rest := item.before, inner;
      assert [] + (item.before + inner) == item.before + inner;
      assert rest[0] == Spell(item.value)[0];
    }
  }

  /** Past the space in front of an item stands something no closing byte is. */
  lemma ItemsBegin(s: Bytes, at: nat, items: seq<Item>, isObject: bool)
    requires items != [] && GoodItems(items, isObject) && Holds(s, at, SpellItems(items))
    ensures SkipSpace(s, at) < |s| && Begins(s[SkipSpace(s, at)])
  {
    hide Holds, SpellItems, GoodItems, AllSpace;
    var lead, rest := ItemsLead(items, isObject);
    HoldsConcat(s, at, lead, rest);
    HoldsFirst(s, at + |lead|, rest);
    SpaceRead(s, at, lead);
  }

  lemma KeyRead(s: Bytes, at: nat, n: Name)
    requires GoodName(n) && Holds(s, at, SpellName(Some(n)))
    ensures ParseKey(s, at) == Some(ParsedText(DenoteLetters(n.letters), at + |SpellName(Some(n))|))
  {
    hide StringRest, SkipSpace, SpellLetters, DenoteLetters, Holds, AllSpace, GoodLetters;
    var quoted := SpellLetters(n.letters) + [QUOTE];
    HoldsConcat(s, at, n.before, SpellString(n.letters) + (n.after + [COLON]));
    var q := at + |n.before|;
    HoldsConcat(s, q, SpellString(n.letters), n.after + [COLON]);
    HoldsFirst(s, q, SpellString(n.letters));
    assert SpellString(n.letters)[1..] == quoted;
    SpaceRead(s, at, n.before);
    LettersRead(s, q + 1, n.letters, []);
    assert [] + DenoteLetters(n.letters) == DenoteLetters(n.letters);
    var c := q + |SpellString(n.letters)|;
    HoldsConcat(s, c, n.after, [COLON]);
    HoldsFirst(s, c + |n.after|, [COLON]);
    SpaceRead(s, c, n.after);
  }

  lemma ScalarRead(s: Bytes, at: nat, t: Tree)
    requires Good(t) && !t.Group? && Holds(s, at, Spell(t)) && Stops(s, at + |Spell(t)|)
    ensures at < |s| && s[at] != LBRACE && s[at] != LBRACKET
    ensures ParseScalar(s, at) == Some(Parsed(Denote(t), at + |Spell(t)|))
  {
    hide StringRest, NumberEnd, SpellLetters, DenoteLetters;
    SpellBegins(t);
    HoldsFirst(s, at, Spell(t));
    match t
    case NullTree =>
    case BoolTree(b) =>
      if !b && Holds(s, at, TRUE_WORD) {
        HoldsFirst(s, at, TRUE_WORD);
        assert false;
      }
    case NumberTree(n) =>
      NumeralRead(s, at, n);
    case StringTree(cs) =>
      assert Spell(t)[1..] == SpellLetters(cs) + [QUOTE];
      LettersRead(s, at + 1, cs, []);
      assert [] + DenoteLetters(cs) == DenoteLetters(cs);
  }

  /** A tree spelled here, shallow enough, is read here as what it denotes. */
  lemma {:induction false} TreeRead(s: Bytes, at: nat, t: Tree, depth: nat)
    requires Good(t) && depth <= MAX_DEPTH && NestsWithin(t, MAX_DEPTH - depth)
    requires Holds(s, at, Spell(t)) && Stops(s, at + |Spell(t)|)
    ensures ParseValue(s, at, depth) == Some(Parsed(Denote(t), at + |Spell(t)|))
    decreases t, 1
  {
    SpellBegins(t);
    HoldsFirst(s, at, Spell(t));
    assert SkipSpace(s, at) == at;
    if t.Group? {
      GroupRead(s, at, t, depth);
    } else {
      ScalarRead(s, at, t);
    }
  }

  lemma {:induction false} GroupRead(s: Bytes, at: nat, t: Tree, depth: nat)
    requires t.Group? && Good(t) && depth <= MAX_DEPTH && NestsWithin(t, MAX_DEPTH - depth)
    requires Holds(s, at, Spell(t)) && SkipSpace(s, at) == at
    ensures ParseValue(s, at, depth) == Some(Parsed(Denote(t), at + |Spell(t)|))
    decreases t, 0
  {
    hide ParseEntries, ParseScalar, SpellItems, GoodItems, ItemsNestWithin, Holds, AllSpace, SkipSpace;
    var inner := if t.items == [] then t.gap else SpellItems(t.items);
    HoldsFirst(s, at, Spell(t));
    assert Spell(t)[1..] == inner + [Closer(t.isObject)];
    if t.items == [] {
      HoldsConcat(s, at + 1, t.gap, [Closer(t.isObject)]);
      HoldsFirst(s, at + 1 + |t.gap|, [Closer(t.isObject)]);
      SpaceRead(s, at + 1, t.gap);
    } else {
      ItemsRead(s, at + 1, t.items, depth + 1, t.isObject, []);
      EntriesSkip(s, at + 1, depth + 1, t.isObject, []);
      HoldsConcat(s, at + 1, inner, [Closer(t.isObject)]);
      ItemsBegin(s, at + 1, t.items, t.isObject);
      assert [] + DenoteItems(t.items, t.isObject) == DenoteItems(t.items, t.isObject);
    }
  }

  /** The parts of the first item, in place. */
  lemma ItemParts(s: Bytes, at: nat, items: seq<Item>, isObject: bool)
    requires items != [] && Holds(s, at, SpellItems(items) + [Closer(isObject)])
    ensures var item := items[0];
            var v := at + |SpellName(item.name)| + |item.before|;
            var e := v + |Spell(item.value)|;
            var n := e + |item.after|;
            && Holds(s, at, SpellName(item.name)) && Holds(s, at + |SpellName(item.name)|, item.before)
            && Holds(s, v, Spell(item.value)) && Holds(s, e, item.after) && n < |s|
            && (if |items| == 1 then s[n] == Closer(isObject) && n == at + |SpellItems(items)|
                else s[n] == COMMA && Holds(s, n + 1, SpellItems(items[1..]) + [Closer(isObject)])
                     && n + 1 + |SpellItems(items[1..])| == at + |SpellItems(items)|)
  {
    hide SpellName, Spell, Holds, SpellItems;
    var item := items[0];
    var close := [Closer(isObject)];
    var tail := ItemsTail(items) + close;
    var name, before, value, after := SpellName(item.name), item.before, Spell(item.value), item.after;
    SpellItemsParts(items);
    Assoc(name, before + (value + (after + ItemsTail(items))), close);
    Assoc(before, value + (after + ItemsTail(items)), close);
    Assoc(value, after + ItemsTail(items), close);
    Assoc(after, ItemsTail(items), close);
    HoldsConcat(s, at, name, before + (value + (after + tail)));
    HoldsConcat(s, at + |name|, before, value + (after + tail));
    HoldsConcat(s, at + |name| + |before|, value, after + tail);
    HoldsConcat(s, at + |name| + |before| + |value|, after, tail);
    HoldsFirst(s, at + |name| + |before| + |value| + |after|, tail);
    if |items| > 1 {
      assert tail[1..] == SpellItems(items[1..]) + close;
    }
  }

  /** One entry of `ParseEntries`, its parts being known. */
  lemma EntriesStep(s: Bytes, at: nat, depth: nat, isObject: bool, done: seq<Entry>,
                    key: ParsedText, value: Parsed, next: nat)
    requires at <= |s| && key.end <= |s| && value.end <= |s| && next < |s|
    requires if isObject then ParseKey(s, at) == Some(key) else key == ParsedText([], at)
    requires ParseValue(s, key.end, depth) == Some(value) && SkipSpace(s, value.end) == next
    ensures var entries := done + [Entry(if isObject then Some(key.text) else None, value.value)];
            ParseEntries(s, at, depth, isObject, done) ==
            if s[next] == COMMA then ParseEntries(s, next + 1, depth, isObject, entries)
            else if s[next] == Closer(isObject) then Some(Parsed(Container(isObject, entries), next + 1))
            else None
  {
    hide ParseKey, ParseValue, SkipSpace;
  }

  /** The key an item gives its value. */
  ghost function ItemKey(item: Item): Option<Bytes>
    requires item.name.Some? ==> GoodName(item.name.value)
  {
    if item.name.Some? then Some(DenoteLetters(item.name.value.letters)) else None
  }

  lemma ItemsHead(items: seq<Item>, isObject: bool, levels: nat)
    requires items != [] && GoodItems(items, isObject) && ItemsNestWithin(items, levels)
    ensures var item := items[0];
            && item.name.Some? == isObject && (isObject ==> GoodName(item.name.value))
            && AllSpace(item.before) && AllSpace(item.after) && Good(item.value) && NestsWithin(item.value, levels)
            && GoodItems(items[1..], isObject) && ItemsNestWithin(items[1..], levels)
            && DenoteItems(items, isObject) == [Entry(ItemKey(item), Denote(item.value))] + DenoteItems(items[1..], isObject)
  {}

  lemma {:induction false} ItemsRead(s: Bytes, at: nat, items: seq<Item>, depth: nat, isObject: bool, done: seq<Entry>)
    requires items != [] && GoodItems(items, isObject)
    requires depth <= MAX_DEPTH && ItemsNestWithin(items, MAX_DEPTH - depth)
    requires Holds(s, at, SpellItems(items) + [Closer(isObject)])
    ensures ParseEntries(s, at, depth, isObject, done) ==
            Some(Parsed(Container(isObject, done + DenoteItems(items, isObject)), at + |SpellItems(items)| + 1))
    decreases items, 0
  {
    hide SpellName, Spell, Holds, SpellItems, ParseKey, ParseValue, ParseEntries, SkipSpace, AllSpace, Good, GoodItems,
         NestsWithin, ItemsNestWithin, Denote, DenoteItems, DenoteLetters;
    var item := items[0];
    assert (items decreases to item);
    ItemParts(s, at, items, isObject);
    ItemsHead(items, isObject, MAX_DEPTH - depth);
    var k := at + |SpellName(item.name)|;
    if isObject {
      KeyRead(s, at, item.name.value);
    } else {
      NoName(item.name);
    }
    ItemValueRead(s, k, item, depth);
    var end := k + |item.before| + |Spell(item.value)|;
    var e := Entry(ItemKey(item), Denote(item.value));
    EntriesStep(s, at, depth, isObject, done, ParsedText(if isObject then ItemKey(item).value else [], k),
                Parsed(Denote(item.value), end), end + |item.after|);
    Flatten(done, e, DenoteItems(items[1..], isObject));
    if |items| > 1 {
      ItemsRead(s, end + |item.after| + 1, items[1..], depth, isObject, done + [e]);
    } else {
      NoItems(items[1..], isObject);
      assert done + [e] + [] == done + [e];
    }
  }

  lemma Flatten(done: seq<Entry>, e: Entry, rest: seq<Entry>)
    ensures done + [e] + rest == done + ([e] + rest)
  {}

  lemma NoItems(items: seq<Item>, isObject: bool)
    requires items == []
    ensures GoodItems(items, isObject) && DenoteItems(items, isObject) == []
  {}

  lemma NoName(n: Option<Name>)
    requires n.None?
    ensures SpellName(n) == []
  {}

  /** An item's value with the space around it. */
  lemma {:induction false} ItemValueRead(s: Bytes, k: nat, item: Item, depth: nat)
    requires AllSpace(item.before) && AllSpace(item.after) && Good(item.value)
    requires depth <= MAX_DEPTH && NestsWithin(item.value, MAX_DEPTH - depth)
    requires Holds(s, k, item.before) && Holds(s, k + |item.before|, Spell(item.value))
    requires var e := k + |item.before| + |Spell(item.value)|;
             Holds(s, e, item.after) && e + |item.after| < |s| && !IsSpace(s[e + |item.after|]) && Stops(s, e + |item.after|)
    ensures var e := k + |item.before| + |Spell(item.value)|;
            ParseValue(s, k, depth) == Some(Parsed(Denote(item.value), e)) && SkipSpace(s, e) == e + |item.after|
    decreases item
  {
    hide Good, NestsWithin, Spell, ParseValue, SkipSpace, Holds, Denote;
    var v := k + |item.before|;
    var e := v + |Spell(item.value)|;
    SpellBegins(item.value);
    HoldsFirst(s, v, Spell(item.value));
    SpaceRead(s, k, item.before);
    SpaceRead(s, e, item.after);
    if item.after != [] {
      HoldsFirst(s, e, item.after);
    }
    ValueSkips(s, k, depth);
    TreeRead(s, v, item.value, depth);
  }

  // ---- what is read was spelled ----

  lemma Cut(s: Bytes, a: nat, b: nat, c: nat)
    requires a <= b <= c <= |s|
    ensures s[a..c] == s[a..b] + s[b..c]
  {}

  lemma SpaceSpelled(s: Bytes, at: nat)
    requires at <= |s|
    ensures AllSpace(s[at..SkipSpace(s, at)])
  {}

  lemma KeySpelled(s: Bytes, at: nat) returns (n: Name)
    requires at <= |s| && ParseKey(s, at).Some?
    ensures GoodName(n) && DenoteLetters(n.letters) == ParseKey(s, at).value.text
    ensures s[at..ParseKey(s, at).value.end] == SpellName(Some(n))
  {
    hide StringRest, SkipSpace, SpellLetters, DenoteLetters, AllSpace;
    var q := SkipSpace(s, at);
    var cs := LettersSpelled(s, q + 1, []);
    var c := StringRest(s, q + 1, []).value.end;
    var colon := SkipSpace(s, c);
    n := Name(s[at..q], cs, s[c..colon]);
    SpaceSpelled(s, at);
    SpaceSpelled(s, c);
    assert [] + DenoteLetters(cs) == DenoteLetters(cs);
    NameGlued(s, at, q, c, colon, SpellLetters(cs) + [QUOTE]);
  }

  lemma NameGlued(s: Bytes, at: nat, q: nat, c: nat, colon: nat, body: Bytes)
    requires at <= q < c <= colon < |s| && s[q] == QUOTE && s[colon] == COLON && s[q + 1..c] == body
    ensures s[at..colon + 1] == s[at..q] + (([QUOTE] + body) + (s[c..colon] + [COLON]))
  {
    Cut(s, at, q, colon + 1);
    Cut(s, q, q + 1, colon + 1);
    Cut(s, q + 1, c, colon + 1);
    Cut(s, c, colon, colon + 1);
    assert s[q..q + 1] == [QUOTE] && s[colon..colon + 1] == [COLON];
    Assoc([QUOTE], body, s[c..colon] + [COLON]);
  }

  lemma ScalarSpelled(s: Bytes, at: nat) returns (t: Tree)
    requires at < |s| && ParseScalar(s, at).Some? && s[at] != LBRACE && s[at] != LBRACKET
    ensures !t.Group? && Good(t) && Denote(t) == ParseScalar(s, at).value.value
    ensures forall levels: nat :: NestsWithin(t, levels)
    ensures s[at..ParseScalar(s, at).value.end] == Spell(t)
  {
    if s[at] == QUOTE {
      var cs := LettersSpelled(s, at + 1, []);
      t := StringTree(cs);
      var end := StringRest(s, at + 1, []).value.end;
      Cut(s, at, at + 1, end);
      assert s[at..at + 1] == [QUOTE];
      assert [] + DenoteLetters(cs) == DenoteLetters(cs);
    } else if s[at] == 116 || s[at] == 102 {
      t := BoolTree(Holds(s, at, TRUE_WORD));
    } else if s[at] == 110 {
      t := NullTree;
    } else {
      var n := NumeralSpelled(s, at);
      t := NumberTree(n);
    }
  }

  /** What is read as a value is some tree's spelling, after some space. */
  lemma {:induction false} TreeSpelled(s: Bytes, at: nat, depth: nat) returns (t: Tree)
    requires at <= |s| && depth <= MAX_DEPTH && ParseValue(s, at, depth).Some?
    ensures Good(t) && NestsWithin(t, MAX_DEPTH - depth) && Denote(t) == ParseValue(s, at, depth).value.value
    ensures SkipSpace(s, at) <= ParseValue(s, at, depth).value.end
    ensures s[SkipSpace(s, at)..ParseValue(s, at, depth).value.end] == Spell(t)
    decreases |s| - at, 1
  {
    hide SkipSpace, ParseValue, ParseEntries, ParseScalar, Good, NestsWithin, Denote, Spell;
    var first := SkipSpace(s, at);
    ValueStep(s, at, depth);
    if s[first] == LBRACE || s[first] == LBRACKET {
      var isObject := s[first] == LBRACE;
      var inside := SkipSpace(s, first + 1);
      if inside < |s| && s[inside] == Closer(isObject) {
        t := EmptySpelled(s, first, isObject);
      } else {
        t := FullSpelled(s, first, depth, isObject);
      }
    } else {
      t := ScalarSpelled(s, first);
    }
  }

  /** How a value is read, one level deep, once the space in front is passed. */
  lemma ValueStep(s: Bytes, at: nat, depth: nat)
    requires at <= |s|
    ensures var first := SkipSpace(s, at);
            && (first == |s| ==> ParseValue(s, at, depth).None?)
            && (first < |s| ==>
                  if s[first] != LBRACE && s[first] != LBRACKET then ParseValue(s, at, depth) == ParseScalar(s, first)
                  else
                    var isObject, inside := s[first] == LBRACE, SkipSpace(s, first + 1);
                    && s[first] == Opener(isObject)
                    && ParseValue(s, at, depth) ==
                       if depth >= MAX_DEPTH then None
                       else if inside < |s| && s[inside] == Closer(isObject)
                       then Some(Parsed(Container(isObject, []), inside + 1))
                       else ParseEntries(s, inside, depth + 1, isObject, []))
  {
    hide SkipSpace, ParseEntries, ParseScalar;
  }

  lemma EmptySpelled(s: Bytes, first: nat, isObject: bool) returns (t: Tree)
    requires first < |s| && s[first] == Opener(isObject)
    requires SkipSpace(s, first + 1) < |s| && s[SkipSpace(s, first + 1)] == Closer(isObject)
    ensures Good(t) && (forall levels: nat :: levels > 0 ==> NestsWithin(t, levels)) && Denote(t) == Container(isObject, [])
    ensures s[first..SkipSpace(s, first + 1) + 1] == Spell(t)
  {
    hide SkipSpace;
    var inside := SkipSpace(s, first + 1);
    t := Group(isObject, s[first + 1..inside], []);
    SpaceSpelled(s, first + 1);
    assert s[first..inside + 1] == [Opener(isObject)] + (s[first + 1..inside] + [Closer(isObject)]);
  }

  lemma {:induction false} FullSpelled(s: Bytes, first: nat, depth: nat, isObject: bool) returns (t: Tree)
    requires first < |s| && depth < MAX_DEPTH && s[first] == Opener(isObject)
    requires ParseEntries(s, SkipSpace(s, first + 1), depth + 1, isObject, []).Some?
    ensures var all := ParseEntries(s, SkipSpace(s, first + 1), depth + 1, isObject, []).value;
            Good(t) && NestsWithin(t, MAX_DEPTH - depth) && Denote(t) == all.value && s[first..all.end] == Spell(t)
    decreases |s| - first, 0
  {
    hide SkipSpace, ParseEntries, Good, NestsWithin, Denote, Spell, GoodItems, ItemsNestWithin, DenoteItems, SpellItems;
    EntriesSkip(s, first + 1, depth + 1, isObject, []);
    var end := ParseEntries(s, first + 1, depth + 1, isObject, []).value.end;
    var items := ItemsSpelled(s, first + 1, depth + 1, isObject, []);
    t := GroupSpelled(s, first, end, isObject, items, MAX_DEPTH - depth - 1);
  }

  lemma GroupSpelled(s: Bytes, first: nat, end: nat, isObject: bool, items: seq<Item>, levels: nat) returns (t: Tree)
    requires first < end <= |s| && s[first] == Opener(isObject) && items != []
    requires s[first + 1..end] == SpellItems(items) + [Closer(isObject)]
    requires GoodItems(items, isObject) && ItemsNestWithin(items, levels)
    ensures Good(t) && NestsWithin(t, levels + 1) && Denote(t) == Container(isObject, [] + DenoteItems(items, isObject))
    ensures s[first..end] == Spell(t)
  {
    hide SpellItems, GoodItems, ItemsNestWithin, DenoteItems;
    t := Group(isObject, [], items);
    assert [] + DenoteItems(items, isObject) == DenoteItems(items, isObject);
    assert s[first..first + 1] == [Opener(isObject)];
    Cut(s, first, first + 1, end);
  }

  /** One item from its parts. */
  lemma ItemBuilt(item: Item, isObject: bool, levels: nat, rest: seq<Item>)
    requires item.name.Some? == isObject && (isObject ==> GoodName(item.name.value))
    requires AllSpace(item.before) && AllSpace(item.after) && Good(item.value) && NestsWithin(item.value, levels)
    requires GoodItems(rest, isObject) && ItemsNestWithin(rest, levels)
    ensures var items := [item] + rest;
            && GoodItems(items, isObject) && ItemsNestWithin(items, levels)
            && DenoteItems(items, isObject) == [Entry(ItemKey(item), Denote(item.value))] + DenoteItems(rest, isObject)
            && SpellItems(items) == SpellName(item.name) + (item.before + (Spell(item.value) + (item.after +
                 (if rest == [] then [] else [COMMA] + SpellItems(rest)))))
  {
    assert ([item] + rest)[1..] == rest;
  }

  lemma {:induction false} ItemsSpelled(s: Bytes, at: nat, depth: nat, isObject: bool, done: seq<Entry>) returns (items: seq<Item>)
    requires at <= |s| && depth <= MAX_DEPTH && ParseEntries(s, at, depth, isObject, done).Some?
    ensures items != [] && GoodItems(items, isObject) && ItemsNestWithin(items, MAX_DEPTH - depth)
    ensures ParseEntries(s, at, depth, isObject, done).value.value == Container(isObject, done + DenoteItems(items, isObject))
    ensures s[at..ParseEntries(s, at, depth, isObject, done).value.end] == SpellItems(items) + [Closer(isObject)]
    decreases |s| - at, 2
  {
    hide SpellName, Spell, SpellItems, ParseKey, ParseValue, SkipSpace, AllSpace, Good, GoodItems, GoodName,
         NestsWithin, ItemsNestWithin, Denote, DenoteItems, DenoteLetters, Closer, Container;
    var key := if isObject then ParseKey(s, at).value else ParsedText([], at);
    var name := None;
    NoName(None);
    if isObject {
      var n := KeySpelled(s, at);
      name := Some(n);
    }
    assert s[at..key.end] == SpellName(name);
    var value := ParseValue(s, key.end, depth).value;
    var first, next := SkipSpace(s, key.end), SkipSpace(s, value.end);
    var tree := TreeSpelled(s, key.end, depth);
    var item := Item(name, s[key.end..first], tree, s[value.end..next]);
    SpaceSpelled(s, key.end);
    SpaceSpelled(s, value.end);
    var e := Entry(ItemKey(item), Denote(tree));
    EntriesStep(s, at, depth, isObject, done, key, value, next);
    var end := ParseEntries(s, at, depth, isObject, done).value.end;
    var rest := [];
    NoItems(rest, isObject);
    if s[next] == COMMA {
      rest := ItemsSpelled(s, next + 1, depth, isObject, done + [e]);
    }
    ItemBuilt(item, isObject, MAX_DEPTH - depth, rest);
    items := [item] + rest;
    Flatten(done, e, DenoteItems(rest, isObject));
    assert done + [e] + [] == done + [e];
    ItemsGlued(s, at, key.end, first, value.end, next, end, item, rest, Closer(isObject));
  }

  /** Slices of the line, put together, are the spelling of the items. */
  lemma ItemsGlued(s: Bytes, at: nat, k: nat, first: nat, v: nat, next: nat, end: nat, item: Item, rest: seq<Item>, close: byte)
    requires at <= k <= first <= v <= next < end <= |s|
    requires s[at..k] == SpellName(item.name) && s[k..first] == item.before
    requires s[first..v] == Spell(item.value) && s[v..next] == item.after
    requires if rest == [] then end == next + 1 && s[next] == close
             else s[next] == COMMA && s[next + 1..end] == SpellItems(rest) + [close]
    ensures s[at..end] == SpellName(item.name) + (item.before + (Spell(item.value) + (item.after +
              (if rest == [] then [] else [COMMA] + SpellItems(rest))))) + [close]
  {
    hide SpellName, Spell, SpellItems;
    var name, before, value, after := SpellName(item.name), item.before, Spell(item.value), item.after;
    var tail := if rest == [] then [] else [COMMA] + SpellItems(rest);
    Cut(s, at, k, end);
    Cut(s, k, first, end);
    Cut(s, first, v, end);
    Cut(s, v, next, end);
    Cut(s, next, next + 1, end);
    assert s[next..next + 1] == [s[next]];
    Assoc([COMMA], SpellItems(rest), [close]);
    assert s[next..end] == tail + [close];
    Assoc(name, before + (value + (after + tail)), [close]);
    Assoc(before, value + (after + tail), [close]);
    Assoc(value, after + tail, [close]);
    Assoc(after, tail, [close]);
  }

  // ---- the reading is the grammar ----

  /** The line spells the tree, with space around it, and the tree denotes `v`. */
  ghost predicate Spells(s: Bytes, before: Bytes, t: Tree, after: Bytes, v: Json) {
    && AllSpace(before) && AllSpace(after) && Good(t) && NestsWithin(t, 32)
    && s == before + (Spell(t) + after) && Denote(t) == v
  }

  /** A line the grammar makes is read as what it denotes. */
  lemma SpelledIsRead(s: Bytes, before: Bytes, t: Tree, after: Bytes, v: Json)
    requires Spells(s, before, t, after, v)
    ensures ParseDocument(s) == Some(v)
  {
    hide Spell, Good, NestsWithin, Denote, ParseValue, SkipSpace;
    var at := |before|;
    assert s[0..|s|] == s;
    HoldsConcat(s, 0, before, Spell(t) + after);
    HoldsConcat(s, at, Spell(t), after);
    SpellBegins(t);
    HoldsFirst(s, at, Spell(t));
    SpaceRead(s, 0, before);
    var end := at + |Spell(t)|;
    SpaceRead(s, end, after);
    if after != [] {
      HoldsFirst(s, end, after);
    }
    ValueSkips(s, 0, 0);
    TreeRead(s, at, t, 0);
  }

  /** A line that is read was made by the grammar. */
  lemma ReadIsSpelled(s: Bytes) returns (before: Bytes, t: Tree, after: Bytes)
    requires ParseDocument(s).Some?
    ensures Spells(s, before, t, after, ParseDocument(s).value)
  {
    hide Spell, Good, NestsWithin, Denote, ParseValue, SkipSpace;
    var first, end := SkipSpace(s, 0), ParseValue(s, 0, 0).value.end;
    t := TreeSpelled(s, 0, 0);
    before, after := s[0..first], s[end..|s|];
    SpaceSpelled(s, 0);
    SpaceSpelled(s, end);
    Cut(s, 0, first, |s|);
    Cut(s, first, end, |s|);
    assert s[0..|s|] == s;
  }

  /** The reader accepts exactly the texts of RFC 8259 nested within its cap,
      each as the one value that text denotes. */
  lemma ReadingIsGrammar(s: Bytes, v: Json)
    ensures ParseDocument(s) == Some(v) <==> exists before, t, after :: Spells(s, before, t, after, v)
  {
    if ParseDocument(s) == Some(v) {
      var before, t, after := ReadIsSpelled(s);
    }
    if before, t, after :| Spells(s, before, t, after, v) {
      SpelledIsRead(s, before, t, after, v);
    }
  }
}
