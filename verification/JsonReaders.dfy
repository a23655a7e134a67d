/** Reading a parsed document: member lookup, position, count and integers, each
    a walk over sibling links or digits, stated against the value the node holds. */
module JsonReaders {
  import opened Bytes
  import opened JsonSpec
  import opened JsonArena
  import opened JsonParser
  import opened Decimals

  type uint64 = x: int | 0 <= x < 0x1_0000_0000_0000_0000
  type int64 = x: int | -0x8000_0000_0000_0000 <= x < 0x8000_0000_0000_0000

  const UINT64_MAX: uint64 := 0xffff_ffff_ffff_ffff
  const INT64_MAX: int64 := 0x7fff_ffff_ffff_ffff
  const INT64_MIN: int64 := -0x8000_0000_0000_0000

  /** Every member of every object has a name. */
  ghost predicate Keyed(v: Json)
    decreases v, 1
  {
    (v.Array? || v.Object? ==> KeyedAll(v.entries, v.Object?))
  }

  ghost predicate KeyedAll(es: seq<Entry>, isObject: bool)
    decreases es, 0
  {
    es == [] ||
    var last := es[|es| - 1];
    assert (es decreases to last);
    last.key.Some? == isObject && Keyed(last.value) && KeyedAll(es[..|es| - 1], isObject)
  }

  /** Every node of the document holds a value, which is what parsing leaves. */
  ghost predicate Sound(d: Document) {
    && |d.nodes| < 0x8000_0000
    && forall i :: 0 <= i < |d.nodes| ==> HoldsValue(d, i)
  }

  ghost predicate HoldsValue(d: Document, i: nat) {
    exists v :: Represents(d.nodes, d.text, i, v) && Keyed(v)
  }

  /** The value node `i` holds; nothing for an index that is no node. */
  ghost function ValueOf(d: Document, i: nat): (r: Option<Json>)
    requires Sound(d)
    ensures r.Some? <==> i < |d.nodes|
    ensures r.Some? ==> Represents(d.nodes, d.text, i, r.value) && Keyed(r.value)
  {
    if i >= |d.nodes| then None
    else
      assert HoldsValue(d, i);
      var v :| Represents(d.nodes, d.text, i, v) && Keyed(v);
      Some(v)
  }

  /** A document that means a value is sound: each of its nodes holds a part of it. */
  lemma MeansSound(d: Document, v: Json)
    requires Means(d, v) && Keyed(v) && |d.nodes| < 0x8000_0000
    ensures Sound(d) && ValueOf(d, 0) == Some(v)
  {
    forall i | 0 <= i < |d.nodes|
      ensures HoldsValue(d, i)
    {
      PartHolds(d, 0, v, i);
    }
    OneValue(d.nodes, d.text, 0, v, ValueOf(d, 0).value);
  }

  lemma {:induction false} PartHolds(d: Document, at: nat, v: Json, i: nat)
    requires Represents(d.nodes, d.text, at, v) && Keyed(v) && at <= i < at + Size(v)
    ensures HoldsValue(d, i)
    decreases v, 1
  {
    if i > at {
      PartOfChildren(d, at + 1, v.entries, NONE, v.Object?, i);
    }
  }

  lemma {:induction false} PartOfChildren(d: Document, first: nat, es: seq<Entry>, next: nat, isObject: bool, i: nat)
    requires Children(d.nodes, d.text, first, es, next) && KeyedAll(es, isObject)
    requires first <= i < first + SizeSum(es)
    ensures HoldsValue(d, i)
    decreases es, 0
  {
    var init, last := es[..|es| - 1], es[|es| - 1];
    assert (es decreases to last);
    if i < first + SizeSum(init) {
      PartOfChildren(d, first, init, first + SizeSum(init), isObject, i);
    } else {
      PartHolds(d, first + SizeSum(init), last.value, i);
    }
  }

  /** A link leads further on and stays in the arena, or there is none. */
  predicate Onward(link: nat, i: nat, limit: nat) { link == NONE || i < link < limit }

  /** Child and sibling links only ever increase, so every walk along them ends. */
  lemma LinksIncrease(d: Document, v: Json, i: nat)
    requires Means(d, v) && i < |d.nodes|
    ensures Onward(d.nodes[i].firstChild, i, |d.nodes|)
    ensures Onward(d.nodes[i].nextSibling, i, |d.nodes|)
  {
    LinksWithin(d, 0, v, i);
  }

  lemma {:induction false} LinksWithin(d: Document, at: nat, v: Json, i: nat)
    requires Represents(d.nodes, d.text, at, v) && at <= i < at + Size(v) <= |d.nodes|
    ensures Onward(d.nodes[i].firstChild, i, |d.nodes|)
    ensures i > at ==> Onward(d.nodes[i].nextSibling, i, |d.nodes|)
    decreases v, 1
  {
    if i > at {
      LinksOfChildren(d, at + 1, v.entries, NONE, i);
    }
  }

  lemma {:induction false} LinksOfChildren(d: Document, first: nat, es: seq<Entry>, next: nat, i: nat)
    requires Children(d.nodes, d.text, first, es, next) && first <= i < first + SizeSum(es) <= |d.nodes|
    requires Onward(next, first + SizeSum(es) - 1, |d.nodes|)
    ensures Onward(d.nodes[i].firstChild, i, |d.nodes|) && Onward(d.nodes[i].nextSibling, i, |d.nodes|)
    decreases es, 0
  {
    var init, last := es[..|es| - 1], es[|es| - 1];
    assert (es decreases to last);
    var at := first + SizeSum(init);
    if i < at {
      LinksOfChildren(d, first, init, at, i);
    } else {
      LinksWithin(d, at, last.value, i);
    }
  }

  /** Every value a line spells has names where names belong. */
  lemma {:induction false} ParsedKeyed(s: Bytes, at: nat, depth: nat)
    requires at <= |s|
    ensures var p := ParseValue(s, at, depth); p.Some? ==> Keyed(p.value.value)
    decreases |s| - at, 0
  {
    hide ParseEntries, StringRest, NumberEnd, Holds;
    var first := SkipSpace(s, at);
    if first < |s| && (s[first] == LBRACE || s[first] == LBRACKET) && depth < MAX_DEPTH {
      EntriesKeyed(s, SkipSpace(s, first + 1), depth + 1, s[first] == LBRACE, []);
    }
  }

  lemma KeyedMore(done: seq<Entry>, isObject: bool, e: Entry)
    requires KeyedAll(done, isObject) && e.key.Some? == isObject && Keyed(e.value)
    ensures KeyedAll(done + [e], isObject) && Keyed(Container(isObject, done + [e]))
  {
    assert (done + [e])[..|done|] == done;
  }

  lemma {:induction false} EntriesKeyed(s: Bytes, at: nat, depth: nat, isObject: bool, done: seq<Entry>)
    requires at <= |s| && KeyedAll(done, isObject)
    ensures var p := ParseEntries(s, at, depth, isObject, done); p.Some? ==> Keyed(p.value.value)
    decreases |s| - at, 1
  {
    hide ParseKey, ParseValue, Keyed, KeyedAll, Container;
    var key := if isObject then ParseKey(s, at) else Some(ParsedText([], at));
    if key.Some? {
      ParsedKeyed(s, key.value.end, depth);
      var value := ParseValue(s, key.value.end, depth);
      if value.Some? {
        var e := Entry(if isObject then Some(key.value.text) else None, value.value.value);
        KeyedMore(done, isObject, e);
        var next := SkipSpace(s, value.value.end);
        if next < |s| && s[next] == COMMA {
          EntriesKeyed(s, next + 1, depth, isObject, done + [e]);
        }
      }
    }
  }

  /** Parse a line into a document the readers below may be asked of. */
  method Read(line: Bytes) returns (r: Option<Document>)
    requires |line| < 0x8000_0000
    ensures match ParseDocument(line)
            case None => r.None?
            case Some(v) => r.Some? && Sound(r.value) && ValueOf(r.value, 0) == Some(v)
  {
    r := Parse(line);
    if r.Some? {
      ParsedKeyed(line, 0, 0);
      MeansSound(r.value, ParseDocument(line).value);
    }
  }

  /** A node holds one value only. */
  lemma {:induction false} OneValue(nodes: seq<Node>, text: Bytes, i: nat, v: Json, w: Json)
    requires Represents(nodes, text, i, v) && Represents(nodes, text, i, w)
    requires Keyed(v) && Keyed(w)
    ensures v == w
    decreases v, 1
  {
    if v.Array? || v.Object? {
      OneChildren(nodes, text, i + 1, v.entries, w.entries, v.Object?);
    }
  }

  /** Two lists of as many entries that stand from one node on are one list. */
  lemma {:induction false} OneChildren(nodes: seq<Node>, text: Bytes, first: nat, es: seq<Entry>, fs: seq<Entry>, isObject: bool)
    requires Children(nodes, text, first, es, NONE) && Children(nodes, text, first, fs, NONE)
    requires KeyedAll(es, isObject) && KeyedAll(fs, isObject) && |es| == |fs|
    ensures es == fs
    decreases es, 0
  {
    OnePrefix(nodes, text, first, es, fs, isObject, |es|);
    assert es[..|es|] == es && fs[..|fs|] == fs;
  }

  lemma {:induction false} OnePrefix(nodes: seq<Node>, text: Bytes, first: nat, es: seq<Entry>, fs: seq<Entry>, isObject: bool, k: nat)
    requires Children(nodes, text, first, es, NONE) && Children(nodes, text, first, fs, NONE)
    requires KeyedAll(es, isObject) && KeyedAll(fs, isObject) && |es| == |fs| && k <= |es|
    ensures es[..k] == fs[..k]
    decreases es, 0, k
  {
    hide Children, Represents, KeyedAll, Keyed, SizeSum;
    if k > 0 {
      OnePrefix(nodes, text, first, es, fs, isObject, k - 1);
      ChildAt(nodes, text, first, es, NONE, k - 1);
      ChildAt(nodes, text, first, fs, NONE, k - 1);
      KeyedAt(es, isObject, k - 1);
      KeyedAt(fs, isObject, k - 1);
      var e, f := es[k - 1], fs[k - 1];
      assert (es decreases to e);
      OneValue(nodes, text, first + SizeSum(es[..k - 1]), e.value, f.value);
      assert es[..k] == es[..k - 1] + [e] && fs[..k] == fs[..k - 1] + [f];
    }
  }

  lemma {:induction false} KeyedAt(es: seq<Entry>, isObject: bool, k: nat)
    requires KeyedAll(es, isObject) && k < |es|
    ensures es[k].key.Some? == isObject && Keyed(es[k].value)
    decreases es
  {
    if k < |es| - 1 {
      KeyedAt(es[..|es| - 1], isObject, k);
    }
  }

  /** Entry `k` stands where the sizes before it say, and links to entry `k + 1`. */
  lemma {:induction false} ChildAt(nodes: seq<Node>, text: Bytes, first: nat, es: seq<Entry>, next: nat, k: nat)
    requires Children(nodes, text, first, es, next) && k < |es|
    ensures var at := first + SizeSum(es[..k]);
            && at < |nodes|
            && Represents(nodes, text, at, es[k].value)
            && KeyIs(text, nodes[at], es[k].key)
            && nodes[at].nextSibling == if k == |es| - 1 then next else first + SizeSum(es[..k + 1])
    decreases |es|
  {
    var init := es[..|es| - 1];
    if k < |es| - 1 {
      ChildAt(nodes, text, first, init, first + SizeSum(init), k);
      assert init[..k] == es[..k] && init[..k + 1] == es[..k + 1];
    }
  }

  /** Where a walk over the entries of node `i` stands after `k` links. */
  ghost function ChildIndex(i: nat, es: seq<Entry>, k: nat): nat
    requires k <= |es|
  {
    if k == |es| then NONE else i + 1 + SizeSum(es[..k])
  }

  /** One link further along the entries of a container. */
  lemma Walk(d: Document, i: nat, v: Json, k: nat)
    requires Sound(d) && Represents(d.nodes, d.text, i, v) && Keyed(v) && (v.Array? || v.Object?) && k < |v.entries|
    ensures d.nodes[i].firstChild == ChildIndex(i, v.entries, 0)
    ensures var at := ChildIndex(i, v.entries, k);
            && at < |d.nodes|
            && ValueOf(d, at) == Some(v.entries[k].value)
            && KeyIs(d.text, d.nodes[at], v.entries[k].key)
            && v.entries[k].key.Some? == v.Object?
            && d.nodes[at].nextSibling == ChildIndex(i, v.entries, k + 1)
  {
    ChildAt(d.nodes, d.text, i + 1, v.entries, NONE, k);
    KeyedAt(v.entries, v.Object?, k);
    var at := ChildIndex(i, v.entries, k);
    OneValue(d.nodes, d.text, at, ValueOf(d, at).value, v.entries[k].value);
    assert v.entries[..0] == [];
  }

  /** The first entry of that name. */
  ghost function FirstNamed(es: seq<Entry>, name: Bytes, from: nat): (r: Option<nat>)
    requires from <= |es|
    ensures r.Some? ==> from <= r.value < |es| && es[r.value].key == Some(name)
    ensures forall j :: from <= j < (if r.Some? then r.value else |es|) ==> es[j].key != Some(name)
    decreases |es| - from
  {
    if from == |es| then None
    else if es[from].key == Some(name) then Some(from)
    else FirstNamed(es, name, from + 1)
  }

  /** The value of the first member of that name, where `v` is an object that has one. */
  ghost function NamedIn(v: Option<Json>, name: Bytes): (r: Option<Json>)
    ensures r.Some? <==> v.Some? && v.value.Object? && exists k :: 0 <= k < |v.value.entries| && v.value.entries[k].key == Some(name)
  {
    if v.None? || !v.value.Object? then None
    else
      var k := FirstNamed(v.value.entries, name, 0);
      if k.None? then None else Some(v.value.entries[k.value].value)
  }

  /** `ncfg_json_member`: the first member of that name, for objects only. */
  method Member(d: Document, holder: nat, name: Bytes) returns (r: nat)
    requires Sound(d)
    ensures match NamedIn(ValueOf(d, holder), name)
            case Some(v) => r < |d.nodes| && ValueOf(d, r) == Some(v)
            case None => r == NONE
  {
    if holder >= |d.nodes| || d.nodes[holder].kind != ObjectKind {
      return NONE;
    }
    ghost var es := ValueOf(d, holder).value.entries;
    ghost var k := 0;
    var child := d.nodes[holder].firstChild;
    if es != [] {
      Walk(d, holder, ValueOf(d, holder).value, 0);
    }
    while child != NONE
      invariant k <= |es| && child == ChildIndex(holder, es, k)
      invariant k < |es| ==> child < |d.nodes|
      invariant FirstNamed(es, name, 0) == FirstNamed(es, name, k)
      decreases |es| - k
    {
      Walk(d, holder, ValueOf(d, holder).value, k);
      var member := d.nodes[child];
      if member.keyLength == |name| && d.text[member.keyOffset..member.keyOffset + member.keyLength] == name {
        return child;
      }
      if k + 1 < |es| {
        Walk(d, holder, ValueOf(d, holder).value, k + 1);
      }
      child := member.nextSibling;
      k := k + 1;
    }
    return NONE;
  }

  /** `ncfg_json_at`: entry `index` of an array or an object, and none past the last. */
  method At(d: Document, holder: nat, index: nat) returns (r: nat)
    requires Sound(d)
    ensures match ValueOf(d, holder)
            case Some(v) =>
              if (v.Array? || v.Object?) && index < |v.entries|
              then r < |d.nodes| && ValueOf(d, r) == Some(v.entries[index].value)
              else r == NONE
            case None => r == NONE
  {
    if holder >= |d.nodes| || (d.nodes[holder].kind != ArrayKind && d.nodes[holder].kind != ObjectKind) {
      return NONE;
    }
    ghost var v := ValueOf(d, holder).value;
    ghost var k := 0;
    var child, left := d.nodes[holder].firstChild, index;
    if v.entries != [] {
      Walk(d, holder, v, 0);
    }
    while child != NONE && left > 0
      invariant k <= |v.entries| && child == ChildIndex(holder, v.entries, k)
      invariant k < |v.entries| ==> child < |d.nodes|
      invariant k + left == index
      decreases |v.entries| - k
    {
      Walk(d, holder, v, k);
      if k + 1 < |v.entries| {
        Walk(d, holder, v, k + 1);
      }
      child, left, k := d.nodes[child].nextSibling, left - 1, k + 1;
    }
    if child != NONE {
      Walk(d, holder, v, k);
    }
    return child;
  }

  /** `ncfg_json_count`: as many as `At` answers for. */
  method Count(d: Document, index: nat) returns (n: nat)
    requires Sound(d)
    ensures match ValueOf(d, index)
            case Some(v) => n == if v.Array? || v.Object? then |v.entries| else 0
            case None => n == 0
  {
    if index >= |d.nodes| {
      return 0;
    }
    return d.nodes[index].childCount;
  }

  // ---- integers ----

  function Magnitude(t: Bytes): Bytes {
    if t != [] && t[0] == MINUS then t[1..] else t
  }

  /** An integer literal: a sign or none, and digits only. */
  predicate Integral(t: Bytes) {
    Magnitude(t) != [] && AllDigits(Magnitude(t))
  }

  function IntegerValue(t: Bytes): int
    requires Integral(t)
  {
    if t[0] == MINUS then -(DigitsValue(Magnitude(t)) as int) else DigitsValue(t)
  }

  /** `ncfg_json_int`: the exact value of an integer literal that a signed 64-bit
      number can hold, both ends included, and the fallback for all else. The
      accumulator's type says that nothing on the way overflows. */
  method Int(d: Document, index: nat, fallback: int64) returns (r: int64)
    requires Sound(d)
    ensures match ValueOf(d, index)
            case Some(Number(t)) =>
              r == if Integral(t) && INT64_MIN <= IntegerValue(t) <= INT64_MAX then IntegerValue(t) else fallback
            case _ => r == fallback
  {
    if index >= |d.nodes| || d.nodes[index].kind != NumberKind || d.nodes[index].valueLength == 0 {
      return fallback;
    }
    assert ValueOf(d, index).value.Number?;
    var node := d.nodes[index];
    var text := d.text[node.valueOffset..node.valueOffset + node.valueLength];
    r := IntOfText(text, fallback);
  }

  method IntOfText(text: Bytes, fallback: int64) returns (r: int64)
    requires text != []
    ensures r == if Integral(text) && INT64_MIN <= IntegerValue(text) <= INT64_MAX then IntegerValue(text) else fallback
  {
    var at := 0;
    var negative := false;
    if text[0] == MINUS {
      negative, at := true, 1;
    }
    if at >= |text| {
      return fallback;
    }
    ghost var start, magnitude := at, Magnitude(text);
    var value: uint64 := 0;
    while at < |text|
      invariant start <= at <= |text| && magnitude == text[start..]
      invariant AllDigits(magnitude[..at - start]) && value == DigitsValue(magnitude[..at - start])
    {
      if text[at] < 48 || text[at] > 57 {
        assert magnitude[at - start] == text[at];
        return fallback;
      }
      var digit: uint64 := text[at] - 48;
      ghost var longer := magnitude[..at - start + 1];
      assert longer[..at - start] == magnitude[..at - start] && longer[at - start] == text[at];
      if value > (UINT64_MAX - digit) / 10 {
        assert value * 10 + digit > UINT64_MAX;
        if AllDigits(magnitude) {
          DigitsGrow(magnitude, at - start + 1);
        }
        return fallback;
      }
      value := value * 10 + digit;
      at := at + 1;
    }
    assert magnitude[..at - start] == magnitude;
    if negative {
      if value > INT64_MAX + 1 {
        return fallback;
      }
      if value == INT64_MAX + 1 {
        return INT64_MIN;
      }
      return -(value as int);
    }
    if value > INT64_MAX {
      return fallback;
    }
    return value;
  }
}
