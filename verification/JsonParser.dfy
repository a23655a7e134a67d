/** The one-pass parser: a moving read index, a write head into one text buffer,
    a growing node array patched in place and a fixed stack of open containers.
    It is proved to answer exactly what the recursive reading answers. */
module JsonParser {
  import opened Bytes
  import opened Decimals
  import opened JsonSpec
  import opened JsonResume
  import opened JsonArena

  const UINT32_RANGE := 0x1_0000_0000

  /** A parsed line: the kept text, and the nodes that point into it. */
  datatype Document = Document(text: Bytes, nodes: seq<Node>)

  /** The document, read from its root, is the value `v` and nothing else. */
  ghost predicate Means(doc: Document, v: Json) {
    Represents(doc.nodes, doc.text, 0, v) && |doc.nodes| == Size(v)
    && doc.nodes[0].keyOffset == NONE && doc.nodes[0].nextSibling == NONE
  }

  lemma SliceOfConcat(before: Bytes, read: Bytes)
    ensures SliceIs(before + read, |before|, |read|, read)
  {}

  class Parser {
    const input: Bytes
    const text: array<byte>
    const stack: array<Slot>
    /** What the recursive reading says of `input`. */
    ghost const answer: Option<Json>
    var at: nat
    var out: nat
    var nodes: seq<Node>
    var capacity: nat
    var depth: nat
    var pendingOffset: nat
    var pendingLength: nat
    var havePending: bool

    /** Nothing written outruns what was read, so every index stays in its array. */
    ghost predicate Bounds()
      reads this
    {
      && |input| < 0x8000_0000
      && text.Length == |input| + 1
      && stack.Length == MAX_DEPTH
      && out <= at <= |input|
      && |nodes| <= |input|
      && depth <= MAX_DEPTH
      && |nodes| <= capacity
      && (capacity <= 32 || capacity <= 2 * |nodes|)
    }

    constructor (line: Bytes)
      requires |line| < 0x8000_0000
      ensures Bounds() && input == line && at == 0 && out == 0 && nodes == [] && depth == 0 && !havePending
      ensures fresh(text) && fresh(stack) && answer == ParseDocument(line)
    {
      input, answer := line, ParseDocument(line);
      text := new byte[|line| + 1];
      stack := new Slot[MAX_DEPTH](_ => Slot(0, 0, false));
      at, out, nodes, capacity, depth := 0, 0, [], 0, 0;
      pendingOffset, pendingLength, havePending := 0, 0, false;
    }

    // ---- bytes ----

    method PassSpace()
      requires Bounds()
      modifies this`at
      ensures at == SkipSpace(input, old(at)) && Bounds()
    {
      while at < |input| && IsSpace(input[at])
        invariant old(at) <= at && Bounds()
        invariant SkipSpace(input, at) == SkipSpace(input, old(at))
        decreases |input| - at
      {
        at := at + 1;
      }
    }

    method PassDigits()
      requires Bounds()
      modifies this`at
      ensures at == SkipDigits(input, old(at)) && Bounds()
    {
      while at < |input| && IsDigit(input[at])
        invariant old(at) <= at && Bounds()
        invariant SkipDigits(input, at) == SkipDigits(input, old(at))
        decreases |input| - at
      {
        at := at + 1;
      }
    }

    /** One `\uXXXX`'s digits as a code unit; -1, and no progress, otherwise. */
    method ReadCodeUnit() returns (unit: int)
      requires Bounds()
      modifies this`at
      ensures Bounds()
      ensures match CodeUnit(input, old(at))
              case None => unit == -1 && at == old(at)
              case Some(u) => unit == u && at == old(at) + 4
    {
      if |input| - at < 4 {
        return -1;
      }
      var value := 0;
      var i := 0;
      while i < 4
        invariant 0 <= i <= 4
        invariant forall j :: at <= j < at + i ==> HexValue(input[j]) >= 0
        invariant i == 0 ==> value == 0
        invariant i == 1 ==> value == HexValue(input[at])
        invariant i == 2 ==> value == HexValue(input[at]) * 16 + HexValue(input[at + 1])
        invariant i == 3 ==> value == (HexValue(input[at]) * 16 + HexValue(input[at + 1])) * 16 + HexValue(input[at + 2])
        invariant i == 4 ==> CodeUnit(input, at) == Some(value)
      {
        var nibble := HexValue(input[at + i]);
        if nibble < 0 {
          return -1;
        }
        value := value * 16 + nibble;
        i := i + 1;
      }
      at := at + 4;
      return value;
    }

    method Put(b: byte)
      requires text.Length == |input| + 1 && out <= |input|
      modifies this`out, text
      ensures out == old(out) + 1 && text[..out] == old(text[..out]) + [b]
    {
      text[out] := b;
      out := out + 1;
    }

    method WriteUtf8(codePoint: nat)
      requires codePoint < 0x110000
      requires text.Length == |input| + 1 && out + |Utf8(codePoint)| <= |input|
      modifies this`out, text
      ensures out == old(out) + |Utf8(codePoint)| && text[..out] == old(text[..out]) + Utf8(codePoint)
    {
      if codePoint < 0x80 {
        Put(codePoint);
      } else if codePoint < 0x800 {
        Put(0xc0 + codePoint / 0x40);
        Put(0x80 + codePoint % 0x40);
      } else if codePoint < 0x10000 {
        Put(0xe0 + codePoint / 0x1000);
        Put(0x80 + codePoint / 0x40 % 0x40);
        Put(0x80 + codePoint % 0x40);
      } else {
        Put(0xf0 + codePoint / 0x40000);
        Put(0x80 + codePoint / 0x1000 % 0x40);
        Put(0x80 + codePoint / 0x40 % 0x40);
        Put(0x80 + codePoint % 0x40);
      }
    }

    /** A `\u` escape, its `\u` already read. */
    method ReadUnicodeEscape() returns (ok: bool)
      requires Bounds() && out + 2 <= at
      modifies this`at, this`out, text
      ensures Bounds()
      ensures match UnicodeEscape(input, old(at))
              case None => !ok
              case Some(p) => ok && at == p.end && text[..out] == old(text[..out]) + p.text
    {
      hide Utf8, CodeUnit;
      var unit := ReadCodeUnit();
      if unit < 0 {
        return false;
      }
      var codePoint := unit;
      if IsHigh(unit) {
        if |input| - at < 2 || input[at] != BACKSLASH || input[at + 1] != LOWER_U {
          return false;
        }
        at := at + 2;
        var low := ReadCodeUnit();
        if low < 0xdc00 || low > 0xdfff {
          return false;
        }
        codePoint := 0x10000 + (unit - 0xd800) * 0x400 + (low - 0xdc00);
      } else if IsLow(unit) {
        return false;
      }
      WriteUtf8(codePoint);
      return true;
    }

    /** One character of a string that is not its closing quote. */
    method ReadCharacter() returns (ok: bool)
      requires Bounds() && at < |input|
      modifies this`at, this`out, text
      ensures Bounds()
      ensures match Character(input, old(at))
              case None => !ok
              case Some(p) => ok && at == p.end && text[..out] == old(text[..out]) + p.text
    {
      var c := input[at];
      if c < 0x20 {
        return false;
      }
      if c != BACKSLASH {
        Put(c);
        at := at + 1;
        return true;
      }
      at := at + 1;
      if at >= |input| {
        return false;
      }
      var escape := input[at];
      at := at + 1;
      if escape == LOWER_U {
        ok := ReadUnicodeEscape();
        return;
      }
      var short := ShortEscape(escape);
      if short.None? {
        return false;
      }
      Put(short.value);
      return true;
    }

    /** A string, its opening quote read, unescaped at the write head. */
    method ReadString() returns (ok: bool, offset: nat, length: nat)
      requires Bounds()
      modifies this`at, this`out, text
      ensures Bounds()
      ensures match StringRest(input, old(at), [])
              case None => !ok
              case Some(p) =>
                && ok && at == p.end && offset == old(out) && length == |p.text|
                && text[..out] == old(text[..out]) + p.text
    {
      offset, length := out, 0;
      ghost var before, read := text[..out], [];
      while true
        invariant Bounds() && old(at) <= at && offset <= out
        invariant text[..out] == before + read && |before| == offset
        invariant StringRest(input, old(at), []) == StringRest(input, at, read)
        decreases |input| - at
      {
        if at >= |input| {
          return false, offset, 0;
        }
        if input[at] == QUOTE {
          at := at + 1;
          length := out - offset;
          return true, offset, length;
        }
        ghost var character := Character(input, at);
        var fine := ReadCharacter();
        if !fine {
          return false, offset, 0;
        }
        assert text[..out] == before + (read + character.value.text);
        read := read + character.value.text;
      }
    }

    /** A number, its text kept as it stands. */
    method ReadNumber() returns (ok: bool, offset: nat, length: nat)
      requires Bounds()
      modifies this`at, this`out, text
      ensures Bounds()
      ensures match NumberEnd(input, old(at))
              case None => !ok
              case Some(end) =>
                && ok && at == end && offset == old(out) && length == end - old(at)
                && text[..out] == old(text[..out]) + input[old(at)..end]
    {
      hide IntegerEnd, FractionEnd, ExponentEnd;
      var start := at;
      offset, length := out, 0;
      ok := PassInteger();
      if !ok {
        return;
      }
      ok := PassFraction();
      if !ok {
        return;
      }
      ok := PassExponent();
      if !ok {
        return;
      }
      length := at - start;
      forall i | 0 <= i < length {
        text[out + i] := input[start + i];
      }
      assert text[..out + length] == old(text[..out]) + input[start..at];
      out := out + length;
    }

    method PassInteger() returns (ok: bool)
      requires Bounds()
      modifies this`at
      ensures Bounds()
      ensures match IntegerEnd(input, old(at)) case None => !ok case Some(end) => ok && at == end
    {
      if at < |input| && input[at] == MINUS {
        at := at + 1;
      }
      if at >= |input| {
        return false;
      }
      if input[at] == 48 {
        at := at + 1;
      } else if 49 <= input[at] <= 57 {
        PassDigits();
      } else {
        return false;
      }
      return true;
    }

    method PassFraction() returns (ok: bool)
      requires Bounds()
      modifies this`at
      ensures Bounds()
      ensures match FractionEnd(input, old(at)) case None => !ok case Some(end) => ok && at == end
    {
      if at < |input| && input[at] == DOT {
        at := at + 1;
        var first := at;
        PassDigits();
        return at > first;
      }
      return true;
    }

    method PassExponent() returns (ok: bool)
      requires Bounds()
      modifies this`at
      ensures Bounds()
      ensures match ExponentEnd(input, old(at)) case None => !ok case Some(end) => ok && at == end
    {
      if at < |input| && IsExponentMark(input[at]) {
        at := at + 1;
        if at < |input| && IsSign(input[at]) {
          at := at + 1;
        }
        var first := at;
        PassDigits();
        return at > first;
      }
      return true;
    }

    method PassWord(word: Bytes) returns (ok: bool)
      requires Bounds()
      modifies this`at
      ensures Bounds()
      ensures ok == Holds(input, old(at), word)
      ensures at == if ok then old(at) + |word| else old(at)
    {
      if |input| - at < |word| || input[at..at + |word|] != word {
        return false;
      }
      at := at + |word|;
      return true;
    }

    // ---- nodes ----

    /** Room for one more node: doubling never wraps for a line this reads. */
    method Reserve() returns (ok: bool)
      requires Bounds()
      modifies this`capacity
      ensures Bounds() && ok && |nodes| < capacity
    {
      if |nodes| < capacity {
        return true;
      }
      var next := if capacity != 0 then (capacity * 2) % UINT32_RANGE else 32;
      if next < capacity {
        return false;
      }
      capacity := next;
      return true;
    }

    method NewNode(kind: Kind) returns (index: nat)
      requires Bounds() && |nodes| < |input|
      modifies this`nodes, this`capacity
      ensures Bounds()
      ensures index == old(|nodes|) && index != NONE && nodes == old(nodes) + [FreshNode(kind)]
    {
      var room := Reserve();
      if !room {
        return NONE;
      }
      index := |nodes|;
      nodes := nodes + [FreshNode(kind)];
    }

    /** What `ReadItem` must have done with the byte at `was`. */
    ghost predicate ItemRead(was: nat, before: seq<Node>, ok: bool)
      requires Bounds() && was < |input|
      reads this, text
    {
      if input[was] == LBRACE || input[was] == LBRACKET then
        && ok == (depth < MAX_DEPTH)
        && (ok ==> at == was + 1 && nodes == before + [FreshNode(ContainerKind(input[was] == LBRACE))])
      else match ParseScalar(input, was)
        case None => !ok
        case Some(p) =>
          && ok && at == p.end && |nodes| == |before| + 1 && nodes[..|before|] == before
          && nodes[|before|].nextSibling == NONE && nodes[|before|].keyOffset == NONE
          && Represents(nodes, text[..out], |before|, p.value)
    }

    /** One value's own bytes, and a node for it: all of a scalar, or a container's opening. */
    method ReadItem() returns (ok: bool)
      requires Bounds() && at < |input| && |nodes| <= at
      modifies this`at, this`out, this`nodes, this`capacity, text
      ensures Bounds() && ItemRead(old(at), old(nodes), ok)
      ensures ok ==> |nodes| <= at && old(text[..out]) <= text[..out]
    {
      hide StringRest, NumberEnd, Children, SizeSum;
      var c := input[at];
      if c == LBRACE || c == LBRACKET {
        if depth >= MAX_DEPTH {
          return false;
        }
        at := at + 1;
        var index := NewNode(ContainerKind(c == LBRACE));
        return true;
      } else if c == QUOTE {
        ok := ReadStringItem();
      } else if c == 116 || c == 102 {
        var index := NewNode(BoolKind);
        var yes := PassWord(TRUE_WORD);
        if yes {
          nodes := nodes[index := nodes[index].(boolValue := true)];
          return true;
        }
        ok := PassWord(FALSE_WORD);
      } else if c == 110 {
        var index := NewNode(NullKind);
        ok := PassWord(NULL_WORD);
      } else {
        ok := ReadNumberItem();
      }
    }

    method ReadStringItem() returns (ok: bool)
      requires Bounds() && at < |input| && |nodes| <= at && input[at] == QUOTE
      modifies this`at, this`out, this`nodes, this`capacity, text
      ensures Bounds() && ItemRead(old(at), old(nodes), ok)
      ensures ok ==> |nodes| <= at && old(text[..out]) <= text[..out]
    {
      hide StringRest, Children, SizeSum;
      at := at + 1;
      var index := NewNode(StringKind);
      var offset, length;
      ok, offset, length := ReadString();
      if ok {
        nodes := nodes[index := nodes[index].(valueOffset := offset, valueLength := length)];
      }
    }

    method ReadNumberItem() returns (ok: bool)
      requires Bounds() && at < |input| && |nodes| <= at
      requires input[at] !in [LBRACE, LBRACKET, QUOTE, 116, 102, 110]
      modifies this`at, this`out, this`nodes, this`capacity, text
      ensures Bounds() && ItemRead(old(at), old(nodes), ok)
      ensures ok ==> |nodes| <= at && old(text[..out]) <= text[..out]
    {
      var index := NewNode(NumberKind);
      var offset, length;
      ok, offset, length := ReadNumber();
      if ok {
        nodes := nodes[index := nodes[index].(valueOffset := offset, valueLength := length)];
      }
    }

    // ---- the stack of open containers ----

    /** The name read for the value that comes next is the one its frame waits with. */
    ghost predicate Named(open: seq<Frame>)
      requires Bounds()
      reads this, text
    {
      && havePending == (open != [] && open[|open| - 1].isObject)
      && (open != [] ==>
            if havePending
            then open[|open| - 1].key.Some? && SliceIs(text[..out], pendingOffset, pendingLength, open[|open| - 1].key.value)
            else open[|open| - 1].key.None?)
    }

    /** The name pending, if one is, goes to the newest node. */
    method NameNewest(ghost open: seq<Frame>)
      requires Bounds() && Named(open) && |nodes| > 0 && nodes[|nodes| - 1].keyOffset == NONE
      modifies this`nodes, this`havePending
      ensures Bounds() && !havePending && |nodes| == old(|nodes|)
      ensures nodes == old(nodes)[|nodes| - 1 := nodes[|nodes| - 1]]
      ensures SameBody(nodes[|nodes| - 1], old(nodes[|nodes| - 1]))
      ensures nodes[|nodes| - 1].nextSibling == old(nodes[|nodes| - 1].nextSibling)
      ensures open == [] ==> nodes == old(nodes)
      ensures open != [] ==> KeyIs(text[..out], nodes[|nodes| - 1], open[|open| - 1].key)
    {
      var index := |nodes| - 1;
      if havePending {
        nodes := nodes[index := nodes[index].(keyOffset := pendingOffset, keyLength := pendingLength)];
        havePending := false;
      }
    }

    /** The newest node hangs under the innermost open container. */
    method HangNewest(ghost open: seq<Frame>, ghost before: seq<Node>, ghost textBefore: Bytes)
      requires Bounds() && |open| == depth && |nodes| == |before| + 1 && nodes == before + [nodes[|before|]]
      requires nodes[|before|].nextSibling == NONE
      requires if open == [] then nodes[|before|].keyOffset == NONE
               else KeyIs(text[..out], nodes[|before|], open[|open| - 1].key)
      requires textBefore <= text[..out] && Ready(before, textBefore, stack[..depth], open)
      modifies this`nodes, stack
      ensures Bounds() && |nodes| == old(|nodes|)
      ensures Under(nodes, text[..out], stack[..depth], open, |before|)
      ensures nodes[|before|] == old(nodes[|before|])
    {
      hide Represents, Children, Under, SizeSum, Attach;
      var index := |nodes| - 1;
      if depth > 0 {
        ghost var slots := stack[..depth];
        AttachStep(before, textBefore, nodes[index], text[..out], slots, open);
        var frame := stack[depth - 1];
        nodes := Attach(nodes, frame, index);
        stack[depth - 1] := frame.(lastChild := index);
        assert stack[..depth] == slots[depth - 1 := frame.(lastChild := index)];
      } else {
        assert before == [] && nodes == [nodes[0]] && stack[..depth] == [] && open == [];
        RootStep(nodes[index], text[..out]);
      }
    }

    /** The name of an object's next member, up to its colon. */
    method ReadKey() returns (ok: bool)
      requires Bounds()
      modifies this`at, this`out, this`pendingOffset, this`pendingLength, this`havePending, text
      ensures Bounds() && (ok ==> old(text[..out]) <= text[..out])
      ensures match ParseKey(input, old(at))
              case None => !ok
              case Some(p) =>
                && ok && at == p.end && havePending
                && SliceIs(text[..out], pendingOffset, pendingLength, p.text)
    {
      hide StringRest, SkipSpace;
      PassSpace();
      if at >= |input| || input[at] != QUOTE {
        return false;
      }
      at := at + 1;
      ghost var before := text[..out];
      ok, pendingOffset, pendingLength := ReadString();
      if !ok {
        return;
      }
      ghost var name := StringRest(input, SkipSpace(input, old(at)) + 1, []).value.text;
      SliceOfConcat(before, name);
      PassSpace();
      if at >= |input| || input[at] != COLON {
        return false;
      }
      at := at + 1;
      havePending := true;
    }

    // ---- the loop ----

    /** About to read a value: nothing the steps so far did changed the answer. */
    ghost predicate Reading(open: seq<Frame>)
      reads this, text, stack
    {
      && Bounds() && |open| == depth && |nodes| <= at
      && Named(open)
      && Ready(nodes, text[..out], stack[..depth], open)
      && answer == ReadIn(input, at, open)
    }

    /** A value `v`, at node `tip`, has just been finished. */
    ghost predicate Finished(open: seq<Frame>, tip: nat, v: Json)
      reads this, text, stack
    {
      && Bounds() && |open| == depth && |nodes| <= at && !havePending
      && Under(nodes, text[..out], stack[..depth], open, tip)
      && Represents(nodes, text[..out], tip, v) && |nodes| == tip + Size(v)
      && answer == Resume(input, at, open, v)
    }

    /** Read one item where a value is due: a scalar is then finished, a container open. */
    method ReadAndHang(ghost open: seq<Frame>) returns (ok: bool)
      requires Reading(open) && at < |input| && !IsSpace(input[at])
      modifies this`at, this`out, this`nodes, this`capacity, this`havePending, text, stack
      ensures !ok ==> answer == None
      ensures ok ==> Bounds() && |nodes| == old(|nodes|) + 1 <= at && old(at) < at && !havePending
      ensures ok ==> Under(nodes, text[..out], stack[..depth], open, old(|nodes|))
      ensures ok && !(input[old(at)] == LBRACE || input[old(at)] == LBRACKET) ==>
                var p := ParseScalar(input, old(at));
                p.Some? && Finished(open, old(|nodes|), p.value.value)
      ensures ok && (input[old(at)] == LBRACE || input[old(at)] == LBRACKET) ==>
                && depth < MAX_DEPTH && at == old(at) + 1
                && SameBody(nodes[old(|nodes|)], FreshNode(ContainerKind(input[old(at)] == LBRACE)))
    {
      hide Under, Ready, Children, ParseValue, ParseEntries, ReadIn, Resume, NextEntry, ParseScalar, Represents, SizeSum, Size;
      ghost var was, before, textBefore := at, nodes, text[..out];
      if input[at] == LBRACE || input[at] == LBRACKET {
        if depth >= MAX_DEPTH {
          TooDeepStep(input, at, open);
        }
      } else {
        ScalarStep(input, at, open);
      }
      ok := ReadItem();
      if !ok {
        return;
      }
      ghost var read := nodes;
      NameNewest(open);
      assert nodes == before + [nodes[|before|]];
      HangNewest(open, before, textBefore);
      if !(input[was] == LBRACE || input[was] == LBRACKET) {
        ghost var value := ParseScalar(input, was).value.value;
        ScalarSize(value);
        RepresentsStable(read, text[..out], nodes, text[..out], |before|, value);
      }
    }

    /** What `expect_key` leads to: the next entry's name, if it has one, is read. */
    method Expect(isObject: bool, ghost rest: seq<Frame>, ghost done: seq<Entry>) returns (ok: bool, ghost open: seq<Frame>)
      requires Bounds() && |rest| + 1 == depth && |nodes| <= at && !havePending
      requires Ready(nodes, text[..out], stack[..depth], rest + [Frame(isObject, done, None)])
      requires answer == NextEntry(input, at, rest, isObject, done)
      modifies this`at, this`out, this`pendingOffset, this`pendingLength, this`havePending, text
      ensures if ok then Reading(open) else answer == None
      ensures ok ==> at >= old(at)
    {
      open := rest + [Frame(isObject, done, None)];
      if isObject {
        ghost var textBefore, key := text[..out], ParseKey(input, at);
        ok := ReadKey();
        if ok {
          open := rest + [Frame(isObject, done, Some(key.value.text))];
          ReadyRenamed(nodes, textBefore, stack[..depth], rest, isObject, done, key.value.text);
          ReadyStable(nodes, textBefore, text[..out], stack[..depth], open);
        }
        return;
      }
      ok := true;
    }

    /** Past the space after a value. */
    method PassSpaceAfter(ghost open: seq<Frame>, ghost tip: nat, ghost v: Json)
      requires Finished(open, tip, v)
      modifies this`at
      ensures Finished(open, tip, v) && at >= old(at) && (at < |input| ==> !IsSpace(input[at]))
    {
      ResumeSkips(input, at, open, v);
      PassSpace();
    }

    /** A comma: the value is an entry of the innermost container, and another follows. */
    method TakeComma(ghost open: seq<Frame>, ghost tip: nat, ghost v: Json) returns (ok: bool, ghost open': seq<Frame>)
      requires Finished(open, tip, v) && depth > 0 && at < |input| && input[at] == COMMA
      modifies this`at, this`out, this`pendingOffset, this`pendingLength, this`havePending, text
      ensures if ok then Reading(open') && at > old(at) else answer == None
    {
      hide Under, Ready, Represents, Children, Size, SizeSum, ParseValue, ParseEntries, ReadIn, Resume, NextEntry;
      ghost var rest, top := open[..|open| - 1], open[|open| - 1];
      assert open == rest + [top];
      ResumeTop(input, at, rest, top, v);
      EntryStep(nodes, text[..out], stack[..depth], open, tip, v, None);
      var frame := stack[depth - 1];
      assert stack[..depth][depth - 1] == frame;
      at := at + 1;
      ok, open' := Expect(frame.isObject, rest, top.done + [Entry(top.key, v)]);
    }

    /** A closing byte: the innermost container is now the finished value. */
    method TakeClose(ghost open: seq<Frame>, ghost tip: nat, ghost v: Json)
      returns (ghost open': seq<Frame>, ghost tip': nat, ghost v': Json)
      requires Finished(open, tip, v) && depth > 0 && at < |input|
      requires input[at] == Closer(stack[depth - 1].isObject)
      modifies this`at, this`depth
      ensures Finished(open', tip', v') && at == old(at) + 1 && depth == old(depth) - 1
    {
      hide Ready, Represents, Children, Size, SizeSum, ParseValue, ParseEntries, ReadIn, Resume, NextEntry;
      ghost var rest, top, slots := open[..|open| - 1], open[|open| - 1], stack[..depth];
      assert open == rest + [top] && slots[|slots| - 1] == stack[depth - 1];
      ResumeTop(input, at, rest, top, v);
      CloseStep(nodes, text[..out], slots, open, tip, v);
      at := at + 1;
      depth := depth - 1;
      assert stack[..depth] == slots[..|slots| - 1];
      open', tip', v' := rest, stack[depth].node, Container(top.isObject, top.done + [Entry(top.key, v)]);
    }

    /** Close every container that ends here; then there is another entry to read, or the end. */
    method CloseFinished(ghost open0: seq<Frame>, ghost tip0: nat, ghost v0: Json)
      returns (next: Next, ghost open: seq<Frame>, ghost v: Json)
      requires Finished(open0, tip0, v0)
      modifies this`at, this`out, this`depth, this`pendingOffset, this`pendingLength, this`havePending, text
      ensures next.More? ==> Reading(open) && at > old(at)
      ensures next.Refused? ==> answer == None
      ensures next.Whole? ==> Bounds() && answer == Some(v) && Means(Document(text[..out], nodes), v)
    {
      hide Ready, Represents, Children, Size, SizeSum, ParseValue, ParseEntries, ReadIn, Resume, NextEntry;
      ghost var tip := tip0;
      open, v := open0, v0;
      while true
        invariant Finished(open, tip, v) && at >= old(at)
        decreases depth
      {
        PassSpaceAfter(open, tip, v);
        if depth == 0 {
          EndStep(input, at, v);
          next := if at != |input| then Refused else Whole;
          return;
        }
        assert open == open[..|open| - 1] + [open[|open| - 1]];
        ResumeTop(input, at, open[..|open| - 1], open[|open| - 1], v);
        assert stack[..depth][depth - 1] == stack[depth - 1];
        if at >= |input| {
          return Refused, open, v;
        }
        if input[at] == COMMA {
          var ok;
          ok, open := TakeComma(open, tip, v);
          next := if ok then More else Refused;
          return;
        }
        if input[at] != Closer(stack[depth - 1].isObject) {
          return Refused, open, v;
        }
        open, tip, v := TakeClose(open, tip, v);
      }
    }

    method Push(slot: Slot)
      requires Bounds() && depth < MAX_DEPTH
      modifies this`depth, stack
      ensures Bounds() && depth == old(depth) + 1 && stack[..depth] == old(stack[..depth]) + [slot]
      ensures stack[..old(depth)] == old(stack[..depth])
    {
      stack[depth] := slot;
      depth := depth + 1;
    }

    /** A container's opening byte has been read: it is empty and finished, or its first entry is due. */
    method TakeOpen(isObject: bool, ghost open: seq<Frame>, ghost tip: nat)
      returns (next: Next, ghost open': seq<Frame>)
      requires Bounds() && |open| == depth < MAX_DEPTH && |nodes| == tip + 1 <= at && !havePending
      requires Under(nodes, text[..out], stack[..depth], open, tip)
      requires SameBody(nodes[tip], FreshNode(ContainerKind(isObject)))
      requires input[at - 1] == Opener(isObject) && answer == ReadIn(input, at - 1, open)
      modifies this`at, this`out, this`depth, this`pendingOffset, this`pendingLength, this`havePending, text, stack
      ensures next.More? ==> Reading(open') && at >= old(at)
      ensures next.Refused? ==> answer == None
      ensures next.Whole? ==> open' == open && Finished(open, tip, Container(isObject, [])) && at > old(at)
    {
      hide Under, Represents, Children, Size, SizeSum, ParseValue, ParseEntries, ReadIn, Resume, NextEntry, SkipSpace, Ready;
      OpenStep(input, at - 1, open);
      ghost var slots := stack[..depth];
      Push(Slot(|nodes| - 1, NONE, isObject));
      PushStep(nodes, text[..out], slots, open, isObject, None);
      PassSpace();
      if at < |input| && input[at] == Closer(isObject) {
        at := at + 1;
        depth := depth - 1;
        assert stack[..depth] == slots;
        EmptyStep(nodes, text[..out], tip, isObject);
        return Whole, open;
      }
      var ok;
      ok, open' := Expect(isObject, open, []);
      next := if ok then More else Refused;
    }
  }

  datatype Next = More | Whole | Refused

  lemma ReadyRenamed(nodes: seq<Node>, text: Bytes, slots: seq<Slot>, rest: seq<Frame>, isObject: bool, done: seq<Entry>, key: Bytes)
    requires Ready(nodes, text, slots, rest + [Frame(isObject, done, None)])
    ensures Ready(nodes, text, slots, rest + [Frame(isObject, done, Some(key))])
  {
    var a, b := rest + [Frame(isObject, done, None)], rest + [Frame(isObject, done, Some(key))];
    assert a[..|a| - 1] == rest == b[..|b| - 1];
  }

  /** `ncfg_json_parse`: a document exactly where the recursive reading finds a
      value, and its arena says that value. */
  method Parse(line: Bytes) returns (r: Option<Document>)
    requires |line| < 0x8000_0000
    ensures match ParseDocument(line) case None => r.None? case Some(v) => r.Some? && Means(r.value, v)
    ensures r.Some? ==> |r.value.nodes| <= |line| && |r.value.text| <= |line|
  {
    hide Under, Ready, Represents, Children, Size, SizeSum, ParseValue, ParseEntries, ReadIn, Resume, NextEntry, ParseDocument, ParseScalar;
    var p := new Parser(line);
    ghost var open: seq<Frame>, answer := [], p.answer;
    StartStep(line);
    StartReady();
    p.PassSpace();
    ReadSkips(line, 0, []);
    if p.at >= |line| {
      NothingStep(line, []);
      return None;
    }
    while true
      invariant p.input == line && p.answer == answer && fresh(p) && fresh(p.text) && fresh(p.stack) && p.Reading(open)
      decreases |line| - p.at
    {
      ReadSkips(line, p.at, open);
      p.PassSpace();
      if p.at >= |line| {
        NothingStep(line, open);
        return None;
      }
      var c := line[p.at];
      ghost var tip, first := |p.nodes|, p.at;
      ghost var v := Null;
      var ok := p.ReadAndHang(open);
      if !ok {
        return None;
      }
      if c == LBRACE || c == LBRACKET {
        var started;
        started, open := p.TakeOpen(c == LBRACE, open, tip);
        if started.Refused? {
          return None;
        }
        if started.More? {
          continue;
        }
        v := Container(c == LBRACE, []);
      } else {
        v := ParseScalar(line, first).value.value;
      }
      var next;
      next, open, v := p.CloseFinished(open, tip, v);
      if next.Refused? {
        return None;
      }
      if next.Whole? {
        return Some(Document(p.text[..p.out], p.nodes));
      }
    }
  }
}
