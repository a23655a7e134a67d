/** Which labels a network of the join menu can get, over every order in which a scan
    may report the access points it heard (client/ncfg_client.c), and exactly which
    scans leave no choice. */
module MenuLabels {
  import opened Bytes
  import opened Menus

  // ---- what a label can be ----

  ghost predicate NamedAs(points: seq<AccessPoint>, id: CString, name: CString) {
    exists p :: p in points && Names(p, id) && HeardName(p) == name
  }

  /** `id` is heard, and under no other name than this. */
  ghost predicate OnlyNamed(points: seq<AccessPoint>, id: CString, name: CString) {
    NamedAs(points, id, name) && forall p :: p in points && Names(p, id) ==> HeardName(p) == name
  }

  /** Heard first as `name`, network `id` can be labelled so: bare, where nobody else
      has to be heard as that; with its id, where somebody else can be. */
  ghost predicate MayRead(points: seq<AccessPoint>, id: CString, text: CString, name: CString) {
    NamedAs(points, id, name) &&
    ((text == name && forall other: CString :: other != id ==> !OnlyNamed(points, other, name)) ||
     (text == Decorated(name, id) && exists other: CString :: other != id && NamedAs(points, other, name)))
  }

  ghost predicate Possible(points: seq<AccessPoint>, id: CString, text: CString) {
    exists name: CString :: MayRead(points, id, text, name)
  }

  /** The same access points, each as often, in any order. */
  ghost predicate Reordered(points: seq<AccessPoint>, points': seq<AccessPoint>) {
    multiset(points) == multiset(points')
  }

  // ---- an order that puts some access points first ----

  function Kept(points: seq<AccessPoint>, good: AccessPoint -> bool): (r: seq<AccessPoint>) {
    if points == [] then []
    else if good(points[0]) then [points[0]] + Kept(points[1..], good) else Kept(points[1..], good)
  }

  function Others(points: seq<AccessPoint>, good: AccessPoint -> bool): (r: seq<AccessPoint>) {
    if points == [] then []
    else if good(points[0]) then Others(points[1..], good) else [points[0]] + Others(points[1..], good)
  }

  lemma {:induction false} KeptAndOthers(points: seq<AccessPoint>, good: AccessPoint -> bool)
    ensures Reordered(points, Kept(points, good) + Others(points, good))
    ensures forall p :: p in Kept(points, good) <==> p in points && good(p)
  {
    if points != [] {
      KeptAndOthers(points[1..], good);
      assert points == [points[0]] + points[1..];
    }
  }

  lemma {:induction false} HeardInFront(front: seq<AccessPoint>, back: seq<AccessPoint>, id: CString)
    requires exists p :: p in front && Names(p, id)
    ensures Heard(front + back, id) == Heard(front, id)
  {
    assert (front + back)[0] == front[0] && (front + back)[1..] == front[1..] + back;
    if !Names(front[0], id) {
      assert forall p :: p in front <==> p == front[0] || p in front[1..];
      HeardInFront(front[1..], back, id);
    }
  }

  /** With the good ones first, a network that has a good one is heard under its name. */
  lemma HeardFirst(points: seq<AccessPoint>, good: AccessPoint -> bool, id: CString, p: AccessPoint)
    returns (q: AccessPoint)
    requires p in points && Names(p, id) && good(p)
    ensures q in points && Names(q, id) && good(q)
    ensures Heard(Kept(points, good) + Others(points, good), id) == HeardName(q)
  {
    var front := Kept(points, good);
    KeptAndOthers(points, good);
    assert p in front;
    HeardInFront(front, Others(points, good), id);
    HeardIs(front, id);
    q :| q in front && Names(q, id) && HeardName(q) == Heard(front, id);
  }

  // ---- possible is what some order makes ----

  lemma BareReached(points: seq<AccessPoint>, id: CString, name: CString) returns (points': seq<AccessPoint>)
    requires NamedAs(points, id, name)
    requires forall other: CString :: other != id ==> !OnlyNamed(points, other, name)
    ensures Reordered(points, points') && Label(points', id) == name
  {
    hide OnlyNamed, Heard;
    var good := (p: AccessPoint) => (p.configured == Some(id)) == (HeardName(p) == name);
    points' := Kept(points, good) + Others(points, good);
    KeptAndOthers(points, good);
    SameElements(points, points');
    var p :| p in points && Names(p, id) && HeardName(p) == name;
    var q := HeardFirst(points, good, id, p);
    forall o | o in points' && o.configured.Some? && Names(o, o.configured.value) && o.configured.value != id
      ensures Heard(points', o.configured.value) != name
    {
      var other := o.configured.value;
      var p' := AnotherName(points, other, name, o);
      var q' := HeardFirst(points, good, other, p');
    }
  }

  lemma AnotherName(points: seq<AccessPoint>, id: CString, name: CString, o: AccessPoint) returns (p: AccessPoint)
    requires o in points && Names(o, id) && !OnlyNamed(points, id, name)
    ensures p in points && Names(p, id) && HeardName(p) != name
  {
    if HeardName(o) != name {
      p := o;
    } else {
      p :| p in points && Names(p, id) && HeardName(p) != name;
    }
  }

  lemma DecoratedReached(points: seq<AccessPoint>, id: CString, name: CString, other: CString)
    returns (points': seq<AccessPoint>)
    requires NamedAs(points, id, name) && other != id && NamedAs(points, other, name)
    ensures Reordered(points, points') && Label(points', id) == Decorated(name, id)
  {
    hide Heard;
    var good := (p: AccessPoint) => HeardName(p) == name;
    points' := Kept(points, good) + Others(points, good);
    KeptAndOthers(points, good);
    SameElements(points, points');
    var p :| p in points && Names(p, id) && HeardName(p) == name;
    var q := HeardFirst(points, good, id, p);
    var o :| o in points && Names(o, other) && HeardName(o) == name;
    var r := HeardFirst(points, good, other, o);
    assert o in points' && o.configured.value == other;
  }

  /** What any order makes of a label is possible. */
  lemma MadeIsPossible(points: seq<AccessPoint>, points': seq<AccessPoint>, id: CString)
    requires Reordered(points, points') && exists p :: p in points && Names(p, id)
    ensures Possible(points, id, Label(points', id))
  {
    SameElements(points, points');
    var name := Heard(points', id);
    var p :| p in points && Names(p, id);
    assert p in points';
    HeardIs(points', id);
    assert NamedAs(points, id, name);
    if Shared(points', id) {
      var o :| o in points' && o.configured.Some? && Names(o, o.configured.value)
            && o.configured.value != id && Heard(points', o.configured.value) == name;
      HeardIs(points', o.configured.value);
      assert NamedAs(points, o.configured.value, name);
    } else {
      forall other: CString | other != id ensures !OnlyNamed(points, other, name) {
        if OnlyNamed(points, other, name) {
          var o :| o in points && Names(o, other);
          assert o in points' && o.configured.value == other;
          HeardIs(points', other);
          assert false;
        }
      }
    }
    assert MayRead(points, id, Label(points', id), name);
  }

  /** A network can be given a label by some order of the scan exactly when the names
      its access points and the others' are heard under allow it. */
  lemma PossibleExactly(points: seq<AccessPoint>, id: CString, text: CString)
    requires exists p :: p in points && Names(p, id)
    ensures Possible(points, id, text) <==> exists points' :: Reordered(points, points') && Label(points', id) == text
  {
    hide Label, OnlyNamed, Reordered;
    if name: CString :| MayRead(points, id, text, name) {
      var points' := Reached(points, id, text, name);
    }
    if points' :| Reordered(points, points') && Label(points', id) == text {
      MadeIsPossible(points, points', id);
    }
  }

  lemma Reached(points: seq<AccessPoint>, id: CString, text: CString, name: CString) returns (points': seq<AccessPoint>)
    requires MayRead(points, id, text, name)
    ensures Reordered(points, points') && Label(points', id) == text
  {
    hide Label, OnlyNamed, Reordered;
    if text == name && forall other: CString :: other != id ==> !OnlyNamed(points, other, name) {
      points' := BareReached(points, id, name);
    } else {
      var other: CString :| other != id && NamedAs(points, other, name);
      points' := DecoratedReached(points, id, name, other);
    }
  }

  // ---- every scan has a menu ----

  lemma {:induction false} OrderedExists<T(!new)>(s: seq<T>, leq: (T, T) -> bool) returns (r: seq<T>)
    requires Total(leq) && Transitive(leq)
    ensures Ordered(r, leq) && multiset(r) == multiset(s)
  {
    if s == [] {
      r := [];
    } else {
      var init, x := s[..|s| - 1], s[|s| - 1];
      assert s == init + [x];
      var rest := OrderedExists(init, leq);
      var k := Place(rest, x, leq, 0);
      InsertOrdered(rest, k, x, leq);
      InsertAdds(rest, k, x);
      r := Inserted(rest, k, x);
    }
  }

  lemma {:induction false} Place<T(!new)>(r: seq<T>, x: T, leq: (T, T) -> bool, from: nat) returns (k: nat)
    requires Total(leq) && from <= |r| && forall j :: 0 <= j < from ==> leq(r[j], x)
    ensures k <= |r| && (forall j :: 0 <= j < k ==> leq(r[j], x)) && (k < |r| ==> leq(x, r[k]))
    decreases |r| - from
  {
    if from == |r| || leq(x, r[from]) {
      k := from;
    } else {
      k := Place(r, x, leq, from + 1);
    }
  }

  lemma {:induction false} TallyExists(points: seq<AccessPoint>, current: Option<CString>)
    returns (found: seq<JoinChoice>, heard: seq<CString>)
    ensures Tallied(points, current, found, heard)
    decreases |points|
  {
    if points == [] {
      found, heard := [], [];
    } else {
      var init, p := points[..|points| - 1], points[|points| - 1];
      assert points == init + [p];
      found, heard := TallyExists(init, current);
      hide Tallied;
      if p.configured.None? || p.configured.value == [] {
        TallySkips(init, p, current, found, heard);
      } else if at: nat :| at < |found| && found[at].network == p.configured.value {
        var found' := found[at := found[at].(signal := if p.signal > found[at].signal then p.signal
                                                       else found[at].signal)];
        TallyRaises(init, p, current, found, heard, at, found');
        found := found';
      } else {
        var c := JoinChoice(p.configured.value, [], p.signal, IsCurrent(current, p.configured.value));
        TallyAdds(init, p, current, found, heard, c);
        found, heard := found + [c], heard + [HeardName(p)];
      }
    }
  }

  lemma MenuExists(points: seq<AccessPoint>, current: Option<CString>) returns (menu: seq<JoinChoice>)
    ensures IsJoinMenu(points, current, menu)
  {
    var found, heard := TallyExists(points, current);
    var labelled := seq(|found|, k requires 0 <= k < |found| => found[k].(caption := Label(points, found[k].network)));
    LabelledTallied(points, current, found, heard, labelled);
    JoinOrder();
    menu := OrderedExists(labelled, JoinLeq);
    JoinPermutes(points, labelled, menu);
    SameElements(labelled, menu);
  }

  // ---- when the menu does not depend on the order of the scan ----

  /** Every order of the scan gives the same menu, labels and all. */
  ghost predicate Settled(points: seq<AccessPoint>, current: Option<CString>) {
    forall one, other, menu, menu' | Reordered(points, one) && Reordered(points, other) ::
      IsJoinMenu(one, current, menu) && IsJoinMenu(other, current, menu') ==> menu == menu'
  }

  /** No network has two possible labels. */
  ghost predicate OneLabelEach(points: seq<AccessPoint>) {
    forall id: CString, text: CString, text': CString ::
      Possible(points, id, text) && Possible(points, id, text') ==> text == text'
  }

  lemma OneLabelSettles(points: seq<AccessPoint>, current: Option<CString>, one: seq<AccessPoint>,
                        other: seq<AccessPoint>, menu: seq<JoinChoice>, menu': seq<JoinChoice>)
    requires OneLabelEach(points) && Reordered(points, one) && Reordered(points, other)
    requires IsJoinMenu(one, current, menu) && IsJoinMenu(other, current, menu')
    ensures menu == menu'
  {
    hide Label, Possible;
    SameElements(points, one);
    SameElements(points, other);
    ScanOrderIsImmaterial(one, other, current, menu, menu');
    assert |menu| == |Plain(menu)| == |Plain(menu')| == |menu'|;
    forall k | 0 <= k < |menu| ensures menu[k] == menu'[k] {
      assert Plain(menu)[k] == Plain(menu')[k];
      assert menu[k] in menu && menu'[k] in menu';
      assert Tells(one, current, menu[k]);
      MadeIsPossible(points, one, menu[k].network);
      MadeIsPossible(points, other, menu[k].network);
    }
  }

  /** Two possible labels of one network are in two menus. */
  lemma TwoLabelsTwoMenus(points: seq<AccessPoint>, current: Option<CString>, id: CString, text: CString, text': CString)
    requires Settled(points, current) && Possible(points, id, text) && Possible(points, id, text')
    ensures text == text'
  {
    hide Label, OnlyNamed;
    var name: CString :| MayRead(points, id, text, name);
    var name': CString :| MayRead(points, id, text', name');
    var one := Reached(points, id, text, name);
    var other := Reached(points, id, text', name');
    var menu := MenuExists(one, current);
    var menu' := MenuExists(other, current);
    assert menu == menu';
    var p :| p in points && Names(p, id);
    SameElements(points, one);
    assert p in one && Lists(menu, id);
    var k :| 0 <= k < |menu| && menu[k].network == id;
    assert menu[k] in menu && menu[k].caption == text && menu[k].caption == text';
  }

  /** The menu does not depend on the order of the scan if and only if the names heard
      leave every network one possible label. */
  lemma SettledExactly(points: seq<AccessPoint>, current: Option<CString>)
    ensures Settled(points, current) <==> OneLabelEach(points)
  {
    hide Possible, IsJoinMenu;
    if OneLabelEach(points) {
      forall one, other, menu, menu' | Reordered(points, one) && Reordered(points, other)
        && IsJoinMenu(one, current, menu) && IsJoinMenu(other, current, menu')
        ensures menu == menu'
      {
        OneLabelSettles(points, current, one, other, menu, menu');
      }
    }
    if Settled(points, current) {
      forall id: CString, text: CString, text': CString | Possible(points, id, text) && Possible(points, id, text')
        ensures text == text'
      {
        TwoLabelsTwoMenus(points, current, id, text, text');
      }
    }
  }

  // ---- both happen ----

  /** A network heard as "x" and as "y" is labelled either way. */
  lemma MenuMayFollowTheScan(current: Option<CString>)
    ensures !Settled([Saved([120], [97]), Saved([121], [97])], current)
  {
    var x: CString, y: CString, a: CString := [120], [121], [97];
    var p, q := Saved(x, a), Saved(y, a);
    var points := [p, q];
    assert p in points && q in points;
    assert forall o :: o in points ==> o.configured == Some(a);
    assert MayRead(points, a, x, x) && MayRead(points, a, y, y);
    assert Possible(points, a, x) && Possible(points, a, y) && x[0] != y[0];
    SettledExactly(points, current);
  }

  /** Two names do not always make two labels: network `a` heard as "x" and as "x  (a)",
      among two others heard as "x", reads "x  (a)" either way. */
  lemma TwoNamesMaySettle(current: Option<CString>)
    ensures var points := [Saved([120], [97]), Saved([120, 32, 32, 40, 97, 41], [97]), Saved([120], [98]), Saved([120], [99])];
            !OneName(points) && Settled(points, current)
  {
    var x: CString, y: CString := [120], [120, 32, 32, 40, 97, 41];
    var a: CString, b: CString, c: CString := [97], [98], [99];
    var p, q, r, s := Saved(x, a), Saved(y, a), Saved(x, b), Saved(x, c);
    var points := [p, q, r, s];
    assert p in points && q in points && r in points && s in points;
    assert HeardName(p) == x && HeardName(q) == y && HeardName(r) == x && HeardName(s) == x;
    assert a[0] != b[0] && a[0] != c[0] && b[0] != c[0] && |x| != |y|;
    assert OnlyNamed(points, b, x) && OnlyNamed(points, c, x);
    assert Decorated(x, a) == y;
    forall id: CString, name: CString | NamedAs(points, id, name)
      ensures (name == x && (id == a || id == b || id == c)) || (name == y && id == a)
    {}
    hide NamedAs, OnlyNamed, Decorated, HeardName;
    forall id: CString, text: CString | Possible(points, id, text) ensures text == Decorated(x, id) {
      OnlyDecorated(points, id, text, x, y, a, b, c);
    }
    SettledExactly(points, current);
  }

  lemma OnlyDecorated(points: seq<AccessPoint>, id: CString, text: CString, x: CString, y: CString,
                      a: CString, b: CString, c: CString)
    requires Possible(points, id, text) && Decorated(x, a) == y && b != c
    requires OnlyNamed(points, b, x) && OnlyNamed(points, c, x)
    requires forall i: CString, name: CString :: NamedAs(points, i, name) ==>
               (name == x && (i == a || i == b || i == c)) || (name == y && i == a)
    ensures text == Decorated(x, id)
  {
    hide NamedAs, OnlyNamed, Decorated;
    var name: CString :| MayRead(points, id, text, name);
    if name == x {
      var other := if id == b then c else b;
      assert other != id && OnlyNamed(points, other, x);
    } else {
      assert forall other: CString :: NamedAs(points, other, y) && y != x ==> other == a;
    }
  }
}
