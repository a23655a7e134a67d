/** The flat node array a document is kept in, and what it says about a value.
    Nodes are numbered as they are met, so a value's nodes are contiguous: its
    own first, then its entries' one after another. */
module JsonArena {
  import opened Bytes
  import opened JsonSpec
  import opened JsonResume

  const NONE: nat := 0xffff_ffff

  datatype Kind = NullKind | BoolKind | NumberKind | StringKind | ArrayKind | ObjectKind

  datatype Node = Node(
    kind: Kind,
    keyOffset: nat, keyLength: nat,
    valueOffset: nat, valueLength: nat,
    boolValue: bool,
    firstChild: nat, childCount: nat,
    nextSibling: nat)

  function FreshNode(kind: Kind): Node {
    Node(kind, NONE, 0, 0, 0, false, NONE, 0, NONE)
  }

  /** The parser's record of an open container. */
  datatype Slot = Slot(node: nat, lastChild: nat, isObject: bool)

  function ContainerKind(isObject: bool): Kind { if isObject then ObjectKind else ArrayKind }

  ghost function Size(v: Json): (n: nat)
    ensures n > 0
    decreases v, 1
  {
    if v.Array? || v.Object? then 1 + SizeSum(v.entries) else 1
  }

  ghost function SizeSum(es: seq<Entry>): nat
    decreases es, 0
  {
    if es == [] then 0
    else
      var last := es[|es| - 1];
      assert (es decreases to last);
      SizeSum(es[..|es| - 1]) + Size(last.value)
  }

  predicate SliceIs(text: Bytes, offset: nat, length: nat, t: Bytes) {
    offset + length <= |text| && text[offset..offset + length] == t
  }

  predicate KeyIs(text: Bytes, node: Node, key: Option<Bytes>) {
    match key
    case None => node.keyOffset == NONE
    case Some(k) => node.keyOffset != NONE && SliceIs(text, node.keyOffset, node.keyLength, k)
  }

  /** Node `i` and those right after it hold the value `v`. */
  ghost predicate Represents(nodes: seq<Node>, text: Bytes, i: nat, v: Json)
    decreases v, 1
  {
    i < |nodes| &&
    var n := nodes[i];
    match v
    case Null => n.kind == NullKind && Family(n, i, [])
    case Bool(b) => n.kind == BoolKind && n.boolValue == b && Family(n, i, [])
    case Number(t) => n.kind == NumberKind && SliceIs(text, n.valueOffset, n.valueLength, t) && Family(n, i, [])
    case String(t) => n.kind == StringKind && SliceIs(text, n.valueOffset, n.valueLength, t) && Family(n, i, [])
    case Array(es) => n.kind == ArrayKind && Family(n, i, es) && Children(nodes, text, i + 1, es, NONE)
    case Object(es) => n.kind == ObjectKind && Family(n, i, es) && Children(nodes, text, i + 1, es, NONE)
  }

  /** What a container's own node says about its entries. */
  ghost predicate Family(n: Node, i: nat, es: seq<Entry>) {
    n.childCount == |es| && n.firstChild == (if es == [] then NONE else i + 1)
  }

  /** The entries `es` stand from node `first` on, each linked to the one after
      it and the last one to `next`. */
  ghost predicate Children(nodes: seq<Node>, text: Bytes, first: nat, es: seq<Entry>, next: nat)
    decreases es, 0
  {
    es == [] ||
    var init, last := es[..|es| - 1], es[|es| - 1];
    var at := first + SizeSum(init);
    assert (es decreases to last);
    && at < |nodes|
    && Represents(nodes, text, at, last.value)
    && KeyIs(text, nodes[at], last.key)
    && nodes[at].nextSibling == next
    && Children(nodes, text, first, init, at)
  }

  /** Where the last of `es` stands. */
  ghost function LastAt(first: nat, es: seq<Entry>): nat
    requires es != []
  {
    first + SizeSum(es[..|es| - 1])
  }

  /** Every container in `open` has, last of its children, the value being
      read: for the innermost that is node `tip`. */
  ghost predicate Under(nodes: seq<Node>, text: Bytes, slots: seq<Slot>, open: seq<Frame>, tip: nat)
    decreases |open|
  {
    && |slots| == |open|
    && tip < |nodes|
    && nodes[tip].nextSibling == NONE
    && if open == [] then tip == 0 && nodes[tip].keyOffset == NONE
       else
         var slot, top := slots[|slots| - 1], open[|open| - 1];
         && tip == slot.node + 1 + SizeSum(top.done)
         && slot == Slot(slot.node, tip, top.isObject)
         && nodes[slot.node].kind == ContainerKind(top.isObject)
         && nodes[slot.node].firstChild == slot.node + 1
         && nodes[slot.node].childCount == |top.done| + 1
         && Children(nodes, text, slot.node + 1, top.done, tip)
         && KeyIs(text, nodes[tip], top.key)
         && Under(nodes, text, slots[..|slots| - 1], open[..|open| - 1], slot.node)
  }

  /** The containers in `open` are waiting for a value that has no node yet. */
  ghost predicate Ready(nodes: seq<Node>, text: Bytes, slots: seq<Slot>, open: seq<Frame>) {
    && |slots| == |open|
    && if open == [] then nodes == []
       else
         var slot, top := slots[|slots| - 1], open[|open| - 1];
         && |nodes| == slot.node + 1 + SizeSum(top.done)
         && slot == Slot(slot.node, if top.done == [] then NONE else LastAt(slot.node + 1, top.done), top.isObject)
         && nodes[slot.node].kind == ContainerKind(top.isObject)
         && Family(nodes[slot.node], slot.node, top.done)
         && Children(nodes, text, slot.node + 1, top.done, NONE)
         && Under(nodes, text, slots[..|slots| - 1], open[..|open| - 1], slot.node)
  }

  /** `nodes` with node `index` made the newest child of `slot`'s container. */
  function Attach(nodes: seq<Node>, slot: Slot, index: nat): (r: seq<Node>)
    requires slot.node < |nodes| && (slot.lastChild == NONE || slot.lastChild < |nodes|)
    ensures |r| == |nodes|
  {
    var linked :=
      if slot.lastChild == NONE then nodes[slot.node := nodes[slot.node].(firstChild := index)]
      else nodes[slot.lastChild := nodes[slot.lastChild].(nextSibling := index)];
    linked[slot.node := linked[slot.node].(childCount := linked[slot.node].childCount + 1)]
  }

  // ---- what may change around a value without touching it ----

  /** Same but for the links a parent and a reader of names look at. */
  predicate SameBody(a: Node, b: Node) {
    a == b.(nextSibling := a.nextSibling, keyOffset := a.keyOffset, keyLength := a.keyLength)
  }

  lemma {:induction false} RepresentsStable(nodes: seq<Node>, text: Bytes, nodes': seq<Node>, text': Bytes, i: nat, v: Json)
    requires Represents(nodes, text, i, v)
    requires |nodes'| >= |nodes| && SameBody(nodes'[i], nodes[i])
    requires forall j :: i < j < i + Size(v) && j < |nodes| ==> nodes'[j] == nodes[j]
    requires text <= text'
    ensures Represents(nodes', text', i, v)
    decreases v, 1
  {
    if v.Array? || v.Object? {
      ChildrenStable(nodes, text, nodes', text', i + 1, v.entries, NONE);
    }
  }

  lemma {:induction false} ChildrenStable(nodes: seq<Node>, text: Bytes, nodes': seq<Node>, text': Bytes,
                                          first: nat, es: seq<Entry>, next: nat)
    requires Children(nodes, text, first, es, next)
    requires |nodes'| >= |nodes|
    requires forall j :: first <= j < first + SizeSum(es) && j < |nodes| ==> nodes'[j] == nodes[j]
    requires text <= text'
    ensures Children(nodes', text', first, es, next)
    decreases es, 0
  {
    if es != [] {
      var init, last := es[..|es| - 1], es[|es| - 1];
      assert (es decreases to last);
      RepresentsStable(nodes, text, nodes', text', first + SizeSum(init), last.value);
      ChildrenStable(nodes, text, nodes', text', first, init, first + SizeSum(init));
    }
  }

  /** Only the last sibling's link need move for another to follow. */
  lemma ChildrenRelink(nodes: seq<Node>, text: Bytes, nodes': seq<Node>, text': Bytes,
                       first: nat, es: seq<Entry>, next: nat, next': nat)
    requires es != [] && Children(nodes, text, first, es, next)
    requires |nodes'| >= |nodes|
    requires nodes'[LastAt(first, es)] == nodes[LastAt(first, es)].(nextSibling := next')
    requires forall j :: first <= j < first + SizeSum(es) && j < |nodes| && j != LastAt(first, es) ==> nodes'[j] == nodes[j]
    requires text <= text'
    ensures Children(nodes', text', first, es, next')
  {
    var init, last := es[..|es| - 1], es[|es| - 1];
    var at := first + SizeSum(init);
    RepresentsStable(nodes, text, nodes', text', at, last.value);
    ChildrenStable(nodes, text, nodes', text', first, init, at);
  }

  lemma {:induction false} UnderStable(nodes: seq<Node>, text: Bytes, nodes': seq<Node>, text': Bytes,
                                       slots: seq<Slot>, open: seq<Frame>, tip: nat)
    requires Under(nodes, text, slots, open, tip)
    requires |nodes'| >= |nodes|
    requires forall j :: 0 <= j < tip ==> nodes'[j] == nodes[j]
    requires nodes'[tip].nextSibling == NONE
    requires nodes'[tip].keyOffset == nodes[tip].keyOffset && nodes'[tip].keyLength == nodes[tip].keyLength
    requires text <= text'
    ensures Under(nodes', text', slots, open, tip)
    decreases |open|
  {
    if open != [] {
      var slot, top := slots[|slots| - 1], open[|open| - 1];
      ChildrenStable(nodes, text, nodes', text', slot.node + 1, top.done, tip);
      UnderStable(nodes, text, nodes', text', slots[..|slots| - 1], open[..|open| - 1], slot.node);
    }
  }

  /** Text read since leaves a waiting arena waiting. */
  lemma ReadyStable(nodes: seq<Node>, text: Bytes, text': Bytes, slots: seq<Slot>, open: seq<Frame>)
    requires Ready(nodes, text, slots, open) && text <= text'
    ensures Ready(nodes, text', slots, open)
  {
    if open != [] {
      var slot, top := slots[|slots| - 1], open[|open| - 1];
      ChildrenStable(nodes, text, nodes, text', slot.node + 1, top.done, NONE);
      UnderStable(nodes, text, nodes, text', slots[..|slots| - 1], open[..|open| - 1], slot.node);
    }
  }

  // ---- the parser's steps on the arena ----

  /** Which nodes attaching changes, and how. */
  lemma AttachShape(nodes: seq<Node>, node: Node, slot: Slot)
    requires slot.node < |nodes| && (slot.lastChild == NONE || slot.node < slot.lastChild < |nodes|)
    ensures var r := Attach(nodes + [node], slot, |nodes|);
            && r[|nodes|] == node
            && r[slot.node] == nodes[slot.node].(
                 childCount := nodes[slot.node].childCount + 1,
                 firstChild := if slot.lastChild == NONE then |nodes| else nodes[slot.node].firstChild)
            && (slot.lastChild != NONE ==> r[slot.lastChild] == nodes[slot.lastChild].(nextSibling := |nodes|))
            && forall j :: 0 <= j < |nodes| && j != slot.node && j != slot.lastChild ==> r[j] == nodes[j]
  {}

  /** A new node, attached, is the value being read by every open container. */
  lemma AttachStep(nodes: seq<Node>, text: Bytes, node: Node, text': Bytes, slots: seq<Slot>, open: seq<Frame>)
    requires open != [] && Ready(nodes, text, slots, open)
    requires text <= text' && |nodes| < NONE
    requires node.nextSibling == NONE && KeyIs(text', node, open[|open| - 1].key)
    ensures var slot := slots[|slots| - 1];
            && slot.node < |nodes| && (slot.lastChild == NONE || slot.lastChild < |nodes|)
            && Under(Attach(nodes + [node], slot, |nodes|), text',
                     slots[|slots| - 1 := slot.(lastChild := |nodes|)], open, |nodes|)
            && Attach(nodes + [node], slot, |nodes|)[|nodes|] == node
  {
    hide Represents, Attach;
    var slot, top := slots[|slots| - 1], open[|open| - 1];
    assert top.done != [] ==> LastAt(slot.node + 1, top.done) < |nodes|;
    AttachShape(nodes, node, slot);
    var nodes' := Attach(nodes + [node], slot, |nodes|);
    assert Children(nodes', text', slot.node + 1, top.done, |nodes|) by {
      if top.done != [] {
        ChildrenRelink(nodes, text, nodes', text', slot.node + 1, top.done, NONE, |nodes|);
      }
    }
    UnderStable(nodes, text, nodes', text', slots[..|slots| - 1], open[..|open| - 1], slot.node);
    var slots' := slots[|slots| - 1 := slot.(lastChild := |nodes|)];
    assert slots'[..|slots'| - 1] == slots[..|slots| - 1];
  }

  /** The first node of all has nothing to be attached to. */
  lemma RootStep(node: Node, text: Bytes)
    requires node.nextSibling == NONE && node.keyOffset == NONE
    ensures Under([node], text, [], [], 0)
  {}

  /** A container just opened is waiting for its first entry. */
  lemma PushStep(nodes: seq<Node>, text: Bytes, slots: seq<Slot>, open: seq<Frame>, isObject: bool, key: Option<Bytes>)
    requires |nodes| > 0 && Under(nodes, text, slots, open, |nodes| - 1)
    requires nodes[|nodes| - 1].kind == ContainerKind(isObject) && Family(nodes[|nodes| - 1], |nodes| - 1, [])
    ensures Ready(nodes, text, slots + [Slot(|nodes| - 1, NONE, isObject)], open + [Frame(isObject, [], key)])
  {
    var slots', open' := slots + [Slot(|nodes| - 1, NONE, isObject)], open + [Frame(isObject, [], key)];
    assert slots'[..|slots'| - 1] == slots && open'[..|open'| - 1] == open;
  }

  lemma AppendEntry(done: seq<Entry>, e: Entry)
    ensures SizeSum(done + [e]) == SizeSum(done) + Size(e.value)
    ensures (done + [e])[..|done|] == done && (done + [e])[|done|] == e
  {
    assert (done + [e])[..|done|] == done;
  }

  /** A finished value becomes the last finished entry of its container. */
  lemma EntryStep(nodes: seq<Node>, text: Bytes, slots: seq<Slot>, open: seq<Frame>, tip: nat, v: Json, key: Option<Bytes>)
    requires open != [] && Under(nodes, text, slots, open, tip)
    requires Represents(nodes, text, tip, v) && |nodes| == tip + Size(v)
    ensures var rest, top := open[..|open| - 1], open[|open| - 1];
            Ready(nodes, text, slots, rest + [Frame(top.isObject, top.done + [Entry(top.key, v)], key)])
  {
    var rest, top, slot := open[..|open| - 1], open[|open| - 1], slots[|slots| - 1];
    AppendEntry(top.done, Entry(top.key, v));
    var done := top.done + [Entry(top.key, v)];
    var open' := rest + [Frame(top.isObject, done, key)];
    assert open'[..|open'| - 1] == rest;
    assert Children(nodes, text, slot.node + 1, done, NONE);
  }

  /** A container whose last entry is finished is itself a finished value. */
  lemma CloseStep(nodes: seq<Node>, text: Bytes, slots: seq<Slot>, open: seq<Frame>, tip: nat, v: Json)
    requires open != [] && Under(nodes, text, slots, open, tip)
    requires Represents(nodes, text, tip, v) && |nodes| == tip + Size(v)
    ensures var rest, top, slot := open[..|open| - 1], open[|open| - 1], slots[|slots| - 1];
            var whole := Container(top.isObject, top.done + [Entry(top.key, v)]);
            && Under(nodes, text, slots[..|slots| - 1], rest, slot.node)
            && Represents(nodes, text, slot.node, whole)
            && |nodes| == slot.node + Size(whole)
  {
    var top, slot := open[|open| - 1], slots[|slots| - 1];
    AppendEntry(top.done, Entry(top.key, v));
    assert Children(nodes, text, slot.node + 1, top.done + [Entry(top.key, v)], NONE);
  }

  /** A container without entries is finished as soon as it is open. */
  lemma EmptyStep(nodes: seq<Node>, text: Bytes, tip: nat, isObject: bool)
    requires tip < |nodes| && SameBody(nodes[tip], FreshNode(ContainerKind(isObject)))
    ensures Represents(nodes, text, tip, Container(isObject, [])) && Size(Container(isObject, [])) == 1
  {}

  lemma StartReady()
    ensures Ready([], [], [], [])
  {}

  lemma ScalarSize(v: Json)
    requires !v.Array? && !v.Object?
    ensures Size(v) == 1
  {}
}
