/** The two lists a tray offers under "connect to" (client/ncfg_client.c): the
    saved networks a scan heard, and the networks it heard that nothing names
    yet. Both are one pass that keeps the strongest access point of each network,
    then a sort.

    C leaves `qsort` free in how it works and in what it does with ties, so
    nothing here relies on more than its contract: an ordered permutation. */
module Menus {
  import opened Bytes

  /** The fields of `ncfg_access_point_t` the menus read. */
  datatype AccessPoint = AccessPoint(
    ssid: Option<CString>, name: Option<CString>, named: bool, configured: Option<CString>,
    signal: int, secured: bool, enterprise: bool, owe: bool)

  datatype JoinChoice = JoinChoice(network: CString, caption: CString, signal: int, current: bool)

  datatype NewChoice = NewChoice(
    ssid: CString, caption: CString, signal: int, secured: bool, enterprise: bool, owe: bool)

  // ---- strcmp and qsort ----

  /** `strcmp(a, b) <= 0`. */
  predicate StrLeq(a: CString, b: CString) {
    a == [] || (b != [] && (a[0] < b[0] || (a[0] == b[0] && StrLeq(a[1..], b[1..]))))
  }

  lemma {:induction false} StrTotal(a: CString, b: CString)
    ensures StrLeq(a, b) || StrLeq(b, a)
  {
    if a != [] && b != [] && a[0] == b[0] { StrTotal(a[1..], b[1..]); }
  }

  lemma {:induction false} StrAntisymmetric(a: CString, b: CString)
    requires StrLeq(a, b) && StrLeq(b, a)
    ensures a == b
  {
    if a != [] && b != [] {
      StrAntisymmetric(a[1..], b[1..]);
      assert a == [a[0]] + a[1..] && b == [b[0]] + b[1..];
    }
  }

  lemma {:induction false} StrTransitive(a: CString, b: CString, c: CString)
    requires StrLeq(a, b) && StrLeq(b, c)
    ensures StrLeq(a, c)
  {
    if a != [] && a[0] == b[0] == c[0] { StrTransitive(a[1..], b[1..], c[1..]); }
  }

  /** What `join_choice_stronger` and `new_choice_stronger` agree on: stronger
      first, equal strengths by a text. */
  predicate Stronger(signal: int, text: CString, signal': int, text': CString) {
    if signal != signal' then signal > signal' else StrLeq(text, text')
  }

  predicate JoinLeq(a: JoinChoice, b: JoinChoice) { Stronger(a.signal, a.network, b.signal, b.network) }
  predicate NewLeq(a: NewChoice, b: NewChoice) { Stronger(a.signal, a.caption, b.signal, b.caption) }

  ghost predicate Total<T(!new)>(leq: (T, T) -> bool) { forall a, b :: leq(a, b) || leq(b, a) }
  ghost predicate Transitive<T(!new)>(leq: (T, T) -> bool) {
    forall a, b, c :: leq(a, b) && leq(b, c) ==> leq(a, c)
  }
  ghost predicate Ordered<T>(s: seq<T>, leq: (T, T) -> bool) {
    forall i, j :: 0 <= i < j < |s| ==> leq(s[i], s[j])
  }

  lemma StrongerOrder(s: int, a: CString, s': int, b: CString, s'': int, c: CString)
    ensures Stronger(s, a, s', b) || Stronger(s', b, s, a)
    ensures Stronger(s, a, s', b) && Stronger(s', b, s'', c) ==> Stronger(s, a, s'', c)
    ensures Stronger(s, a, s', b) && Stronger(s', b, s, a) ==> s == s' && a == b
  {
    StrTotal(a, b);
    if StrLeq(a, b) && StrLeq(b, c) { StrTransitive(a, b, c); }
    if StrLeq(a, b) && StrLeq(b, a) { StrAntisymmetric(a, b); }
  }

  lemma JoinOrder()
    ensures Total(JoinLeq) && Transitive(JoinLeq)
  {
    forall a: JoinChoice, b: JoinChoice, c: JoinChoice
      ensures JoinLeq(a, b) || JoinLeq(b, a)
      ensures JoinLeq(a, b) && JoinLeq(b, c) ==> JoinLeq(a, c)
    {
      StrongerOrder(a.signal, a.network, b.signal, b.network, c.signal, c.network);
    }
  }

  lemma NewOrder()
    ensures Total(NewLeq) && Transitive(NewLeq)
  {
    forall a: NewChoice, b: NewChoice, c: NewChoice
      ensures NewLeq(a, b) || NewLeq(b, a)
      ensures NewLeq(a, b) && NewLeq(b, c) ==> NewLeq(a, c)
    {
      StrongerOrder(a.signal, a.caption, b.signal, b.caption, c.signal, c.caption);
    }
  }

  function Inserted<T>(r: seq<T>, k: nat, x: T): (s: seq<T>)
    requires k <= |r|
    ensures |s| == |r| + 1
    ensures forall i :: 0 <= i < |s| ==> s[i] == if i < k then r[i] else if i == k then x else r[i - 1]
  {
    r[..k] + [x] + r[k..]
  }

  lemma InsertOrdered<T(!new)>(r: seq<T>, k: nat, x: T, leq: (T, T) -> bool)
    requires k <= |r| && Ordered(r, leq) && Transitive(leq)
    requires forall j :: 0 <= j < k ==> leq(r[j], x)
    requires k < |r| ==> leq(x, r[k])
    ensures Ordered(Inserted(r, k, x), leq)
  {
    var s := Inserted(r, k, x);
    forall j | k <= j < |r| ensures leq(x, r[j]) {
      assert j > k ==> leq(r[k], r[j]);
    }
    forall i, j | 0 <= i < j < |s| ensures leq(s[i], s[j]) {
      assert s[i] == if i < k then r[i] else if i == k then x else r[i - 1];
      assert s[j] == if j < k then r[j] else if j == k then x else r[j - 1];
    }
  }

  lemma InsertAdds<T>(r: seq<T>, k: nat, x: T)
    requires k <= |r|
    ensures multiset(Inserted(r, k, x)) == multiset(r) + multiset{x}
  {
    assert r == r[..k] + r[k..];
  }

  /** Stands for `qsort`. */
  method Sort<T(!new)>(s: seq<T>, leq: (T, T) -> bool) returns (r: seq<T>)
    requires Total(leq) && Transitive(leq)
    ensures Ordered(r, leq)
    ensures multiset(r) == multiset(s)
  {
    r := [];
    for i := 0 to |s|
      invariant Ordered(r, leq)
      invariant multiset(r) == multiset(s[..i])
    {
      var k := 0;
      while k < |r| && !leq(s[i], r[k])
        invariant k <= |r|
        invariant forall j :: 0 <= j < k ==> leq(r[j], s[i])
      {
        k := k + 1;
      }
      InsertOrdered(r, k, s[i], leq);
      InsertAdds(r, k, s[i]);
      assert s[..i + 1] == s[..i] + [s[i]];
      r := Inserted(r, k, s[i]);
    }
    assert s[..|s|] == s;
  }

  // ---- what the join menu is ----

  /** The access point is one the saved network `id` names. */
  predicate Names(p: AccessPoint, id: CString) { p.configured == Some(id) && id != [] }

  /** `signal` is the strongest any access point of `id` was heard at. */
  ghost predicate Strongest(points: seq<AccessPoint>, id: CString, signal: int) {
    && (exists p :: p in points && Names(p, id) && p.signal == signal)
    && (forall p :: p in points && Names(p, id) ==> p.signal <= signal)
  }

  /** The name an access point is heard under: its text name, or the id. */
  function HeardName(p: AccessPoint): (name: CString) {
    if p.named && p.name.Some? && p.name.value != [] then p.name.value
    else if p.configured.Some? then p.configured.value else []
  }

  /** The name of the first access point of `id` in the scan. */
  function Heard(points: seq<AccessPoint>, id: CString): (name: CString) {
    if points == [] then []
    else if Names(points[0], id) then HeardName(points[0])
    else Heard(points[1..], id)
  }

  predicate IsCurrent(current: Option<CString>, id: CString) {
    current.Some? && current.value != [] && current.value == id
  }

  const GAP: CString := [32, 32, 40]
  const SHUT: CString := [41]

  /** `"%s  (%s)"`. */
  function Decorated(name: CString, id: CString): (caption: CString) { name + GAP + id + SHUT }

  /** Another network of the scan is heard under the same name. */
  ghost predicate Shared(points: seq<AccessPoint>, id: CString) {
    exists p :: p in points && p.configured.Some? && Names(p, p.configured.value)
             && p.configured.value != id && Heard(points, p.configured.value) == Heard(points, id)
  }

  ghost function Label(points: seq<AccessPoint>, id: CString): (caption: CString) {
    if Shared(points, id) then Decorated(Heard(points, id), id) else Heard(points, id)
  }

  ghost predicate Distinct(s: seq<JoinChoice>) {
    forall i, j :: 0 <= i < j < |s| ==> s[i].network != s[j].network
  }

  ghost predicate Lists(s: seq<JoinChoice>, id: CString) {
    exists k :: 0 <= k < |s| && s[k].network == id
  }

  /** Every network the scan names is among the choices. */
  ghost predicate Covers(points: seq<AccessPoint>, s: seq<JoinChoice>) {
    forall p :: p in points && p.configured.Some? && p.configured.value != [] ==>
      Lists(s, p.configured.value)
  }

  /** The choice says of its network what the scan says, its label aside. */
  ghost predicate Tells(points: seq<AccessPoint>, current: Option<CString>, c: JoinChoice) {
    Strongest(points, c.network, c.signal) && c.current == IsCurrent(current, c.network)
  }

  /** What the tray's list is: exactly the named networks, each once, at its
      strongest, labelled by the rule, strictly ordered by strength then id. */
  ghost predicate IsJoinMenu(points: seq<AccessPoint>, current: Option<CString>, menu: seq<JoinChoice>) {
    && Covers(points, menu)
    && (forall c :: c in menu ==> Tells(points, current, c) && c.caption == Label(points, c.network))
    && Distinct(menu)
    && Ordered(menu, JoinLeq)
  }

  // ---- the join menu's method ----

  method Find(found: seq<JoinChoice>, id: CString) returns (at: nat)
    ensures at <= |found|
    ensures at < |found| ==> found[at].network == id
    ensures forall k :: 0 <= k < at ==> found[k].network != id
  {
    at := 0;
    while at < |found| && found[at].network != id
      invariant at <= |found|
      invariant forall k :: 0 <= k < at ==> found[k].network != id
    {
      at := at + 1;
    }
  }

  ghost predicate Tallied(points: seq<AccessPoint>, current: Option<CString>,
                          found: seq<JoinChoice>, heard: seq<CString>)
  {
    && |heard| == |found|
    && Covers(points, found)
    && (forall c :: c in found ==> Tells(points, current, c))
    && (forall k :: 0 <= k < |found| ==> heard[k] == Heard(points, found[k].network))
    && Distinct(found)
  }

  lemma {:induction false} HeardSnoc(points: seq<AccessPoint>, p: AccessPoint, id: CString)
    ensures (exists q :: q in points && Names(q, id)) ==> Heard(points + [p], id) == Heard(points, id)
    ensures !(exists q :: q in points && Names(q, id)) && Names(p, id) ==>
              Heard(points + [p], id) == HeardName(p)
  {
    if points != [] {
      assert (points + [p])[1..] == points[1..] + [p];
      HeardSnoc(points[1..], p, id);
      assert forall q :: q in points <==> q == points[0] || q in points[1..];
    } else {
      assert points + [p] == [p];
    }
  }

  lemma StrongestSnoc(points: seq<AccessPoint>, p: AccessPoint, id: CString, signal: int)
    requires Strongest(points, id, signal)
    ensures !Names(p, id) ==> Strongest(points + [p], id, signal)
    ensures Names(p, id) ==> Strongest(points + [p], id, if p.signal > signal then p.signal else signal)
  {
    var q :| q in points && Names(q, id) && q.signal == signal;
    assert q in points + [p] && p in points + [p];
  }

  lemma HeardStays(points: seq<AccessPoint>, p: AccessPoint, id: CString, signal: int)
    requires Strongest(points, id, signal)
    ensures Heard(points + [p], id) == Heard(points, id)
  {
    HeardSnoc(points, p, id);
  }

  lemma StrongestNew(points: seq<AccessPoint>, p: AccessPoint, id: CString)
    requires Names(p, id) && forall q :: q in points ==> !Names(q, id)
    ensures Strongest(points + [p], id, p.signal)
  {
    assert p in points + [p];
  }

  /** An access point no network names changes nothing. */
  lemma TallySkips(points: seq<AccessPoint>, p: AccessPoint, current: Option<CString>,
                   found: seq<JoinChoice>, heard: seq<CString>)
    requires Tallied(points, current, found, heard)
    requires p.configured.None? || p.configured.value == []
    ensures Tallied(points + [p], current, found, heard)
  {
    forall k | 0 <= k < |found|
      ensures Tells(points + [p], current, found[k]) && heard[k] == Heard(points + [p], found[k].network)
    {
      assert found[k] in found && Tells(points, current, found[k]);
      StrongestSnoc(points, p, found[k].network, found[k].signal);
      HeardStays(points, p, found[k].network, found[k].signal);
    }
  }

  /** An access point of a network already in the list can only raise its signal. */
  lemma TallyRaises(points: seq<AccessPoint>, p: AccessPoint, current: Option<CString>,
                    found: seq<JoinChoice>, heard: seq<CString>, at: nat, found': seq<JoinChoice>)
    requires Tallied(points, current, found, heard)
    requires at < |found| && Names(p, found[at].network)
    requires found' == found[at := found[at].(signal := if p.signal > found[at].signal then p.signal
                                                        else found[at].signal)]
    ensures Tallied(points + [p], current, found', heard)
  {
    hide Heard, Strongest;
    forall k | 0 <= k < |found|
      ensures Tells(points + [p], current, found'[k])
      ensures heard[k] == Heard(points + [p], found'[k].network)
    {
      assert found[k] in found && Tells(points, current, found[k]);
      assert k != at ==> found[k].network != found[at].network;
      StrongestSnoc(points, p, found[k].network, found[k].signal);
      HeardStays(points, p, found[k].network, found[k].signal);
    }
    forall id | Lists(found, id) ensures Lists(found', id) {
      var k :| 0 <= k < |found| && found[k].network == id;
      assert found'[k].network == id;
    }
    assert found'[at].network == found[at].network;
  }

  /** The first access point of a network adds it. */
  lemma TallyAdds(points: seq<AccessPoint>, p: AccessPoint, current: Option<CString>,
                  found: seq<JoinChoice>, heard: seq<CString>, c: JoinChoice)
    requires Tallied(points, current, found, heard)
    requires Names(p, c.network) && c.signal == p.signal && c.current == IsCurrent(current, c.network)
    requires forall k :: 0 <= k < |found| ==> found[k].network != c.network
    ensures Tallied(points + [p], current, found + [c], heard + [HeardName(p)])
  {
    hide Heard, Strongest;
    forall q | q in points ensures !Names(q, c.network) {
      assert Names(q, c.network) ==> Lists(found, c.network);
    }
    StrongestNew(points, p, c.network);
    HeardSnoc(points, p, c.network);
    forall k | 0 <= k < |found|
      ensures Tells(points + [p], current, found[k]) && heard[k] == Heard(points + [p], found[k].network)
    {
      assert found[k] in found && Tells(points, current, found[k]);
      StrongestSnoc(points, p, found[k].network, found[k].signal);
      HeardStays(points, p, found[k].network, found[k].signal);
    }
    var found' := found + [c];
    forall id | Lists(found, id) ensures Lists(found', id) {
      var k :| 0 <= k < |found| && found[k].network == id;
      assert found'[k].network == id;
    }
    assert found'[|found|].network == c.network;
  }

  /** The pass over the scan. */
  method Tally(points: seq<AccessPoint>, current: Option<CString>)
    returns (found: seq<JoinChoice>, heard: seq<CString>)
    ensures Tallied(points, current, found, heard)
  {
    found, heard := [], [];
    for i := 0 to |points|
      invariant Tallied(points[..i], current, found, heard)
    {
      hide Tallied;
      var p := points[i];
      assert points[..i + 1] == points[..i] + [p];
      if p.configured.None? || p.configured.value == [] {
        TallySkips(points[..i], p, current, found, heard);
        continue;
      }
      var id := p.configured.value;
      var at := Find(found, id);
      if at < |found| {
        ghost var was := found;
        if p.signal > found[at].signal {
          found := found[at := found[at].(signal := p.signal)];
        }
        TallyRaises(points[..i], p, current, was, heard, at, found);
        continue;
      }
      var c := JoinChoice(id, [], p.signal, IsCurrent(current, id));
      TallyAdds(points[..i], p, current, found, heard, c);
      found, heard := found + [c], heard + [HeardName(p)];
    }
    assert points[..|points|] == points;
  }

  /** Counts, as the source does, the names equal to the one at `i`. */
  method IsShared(heard: seq<CString>, i: nat) returns (shared: bool)
    requires i < |heard|
    ensures shared <==> exists j :: 0 <= j < |heard| && j != i && heard[j] == heard[i]
  {
    var same := 0;
    ghost var others := 0;
    for j := 0 to |heard|
      invariant others >= 0 && same == others + (if i < j then 1 else 0)
      invariant others > 0 <==> exists k :: 0 <= k < j && k != i && heard[k] == heard[i]
    {
      if heard[j] == heard[i] {
        same := same + 1;
        if j != i { others := others + 1; }
      }
    }
    return same > 1;
  }

  lemma SharedIs(points: seq<AccessPoint>, current: Option<CString>,
                 found: seq<JoinChoice>, heard: seq<CString>, i: nat)
    requires Tallied(points, current, found, heard) && i < |found|
    ensures Shared(points, found[i].network) <==>
              exists j :: 0 <= j < |heard| && j != i && heard[j] == heard[i]
  {
    if Shared(points, found[i].network) {
      var p :| p in points && p.configured.Some? && Names(p, p.configured.value)
            && p.configured.value != found[i].network
            && Heard(points, p.configured.value) == Heard(points, found[i].network);
      assert Lists(found, p.configured.value);
      var j :| 0 <= j < |found| && found[j].network == p.configured.value;
      assert heard[j] == heard[i];
    }
    if j :| 0 <= j < |heard| && j != i && heard[j] == heard[i] {
      assert found[j].network != found[i].network;
      assert found[j] in found && Tells(points, current, found[j]);
      var p :| p in points && Names(p, found[j].network);
    }
  }

  ghost predicate Labelled(points: seq<AccessPoint>, c: JoinChoice, was: JoinChoice) {
    c == was.(caption := Label(points, was.network))
  }

  /** The labels, counted over the names as heard. */
  method WriteLabels(ghost points: seq<AccessPoint>, ghost current: Option<CString>,
                     found: seq<JoinChoice>, heard: seq<CString>) returns (r: seq<JoinChoice>)
    requires Tallied(points, current, found, heard)
    ensures |r| == |found| && forall k :: 0 <= k < |r| ==> Labelled(points, r[k], found[k])
  {
    r := [];
    for i := 0 to |found|
      invariant |r| == i && forall k :: 0 <= k < i ==> Labelled(points, r[k], found[k])
    {
      var shared := IsShared(heard, i);
      SharedIs(points, current, found, heard, i);
      var c := found[i].(caption := if shared then Decorated(heard[i], found[i].network) else heard[i]);
      r := r + [c];
    }
  }

  lemma LabelledTallied(points: seq<AccessPoint>, current: Option<CString>,
                        found: seq<JoinChoice>, heard: seq<CString>, r: seq<JoinChoice>)
    requires Tallied(points, current, found, heard)
    requires |r| == |found| && forall k :: 0 <= k < |r| ==> Labelled(points, r[k], found[k])
    ensures Covers(points, r) && Distinct(r)
    ensures forall c :: c in r ==> Tells(points, current, c) && c.caption == Label(points, c.network)
  {
    forall p | p in points && p.configured.Some? && p.configured.value != []
      ensures Lists(r, p.configured.value)
    {
      var k :| 0 <= k < |found| && found[k].network == p.configured.value;
      assert Labelled(points, r[k], found[k]);
    }
    forall c | c in r ensures Tells(points, current, c) && c.caption == Label(points, c.network) {
      var k :| 0 <= k < |r| && r[k] == c;
      assert found[k] in found;
    }
  }

  lemma SameElements<T>(a: seq<T>, b: seq<T>)
    requires multiset(a) == multiset(b)
    ensures |a| == |b| && forall x :: x in a <==> x in b
  {
    assert |multiset(a)| == |multiset(b)|;
    forall x ensures x in a <==> x in b {
      assert x in a <==> x in multiset(a);
      assert x in b <==> x in multiset(b);
    }
  }

  /** Keys that differ go on differing in any rearrangement. */
  lemma DistinctPermutes<T>(a: seq<T>, b: seq<T>, key: T -> CString, i: nat, j: nat)
    requires multiset(a) == multiset(b) && i < j < |b|
    requires forall k, l :: 0 <= k < l < |a| ==> key(a[k]) != key(a[l])
    ensures key(b[i]) != key(b[j])
  {
    if key(b[i]) == key(b[j]) {
      SameElements(a, b);
      assert b[i] in b && b[j] in b;
      var k :| 0 <= k < |a| && a[k] == b[i];
      var l :| 0 <= l < |a| && a[l] == b[j];
      Once(a, key, k);
      Twice(b, i, j);
      assert false;
    }
  }

  lemma Once<T>(a: seq<T>, key: T -> CString, k: nat)
    requires k < |a| && forall i, j :: 0 <= i < j < |a| ==> key(a[i]) != key(a[j])
    ensures multiset(a)[a[k]] == 1
  {
    var x, front, back := a[k], a[..k], a[k + 1..];
    assert a == front + [x] + back;
    assert x !in front && x !in back;
    assert multiset(a) == multiset(front) + multiset{x} + multiset(back);
  }

  lemma Twice<T>(b: seq<T>, i: nat, j: nat)
    requires i < j < |b| && b[i] == b[j]
    ensures multiset(b)[b[i]] >= 2
  {
    assert b == b[..j] + [b[j]] + b[j + 1..];
    assert b[..j][i] == b[i];
    assert multiset(b) == multiset(b[..j]) + multiset{b[j]} + multiset(b[j + 1..]);
    assert b[i] in b[..j];
  }

  lemma JoinPermutes(points: seq<AccessPoint>, a: seq<JoinChoice>, b: seq<JoinChoice>)
    requires multiset(a) == multiset(b) && Distinct(a) && Covers(points, a)
    ensures Distinct(b) && Covers(points, b)
  {
    SameElements(a, b);
    forall i, j | 0 <= i < j < |b| ensures b[i].network != b[j].network {
      DistinctPermutes(a, b, (c: JoinChoice) => c.network, i, j);
    }
    forall id | Lists(a, id) ensures Lists(b, id) {
      var k :| 0 <= k < |a| && a[k].network == id;
      assert a[k] in b;
    }
  }

  /** `ncfg_join_choices`. */
  method JoinChoices(points: seq<AccessPoint>, current: Option<CString>) returns (menu: seq<JoinChoice>)
    ensures IsJoinMenu(points, current, menu)
  {
    var found, heard := Tally(points, current);
    var labelled := WriteLabels(points, current, found, heard);
    LabelledTallied(points, current, found, heard, labelled);
    JoinOrder();
    menu := Sort(labelled, JoinLeq);
    JoinPermutes(points, labelled, menu);
    SameElements(labelled, menu);
  }

  // ---- what the join menu's users may rely on ----

  /** Two orderings of one set of things, neither repeating any, are the same. */
  lemma {:induction false} OrderedUnique<T(!new)>(a: seq<T>, b: seq<T>, less: (T, T) -> bool)
    requires Ordered(a, less) && Ordered(b, less)
    requires forall x, y :: less(x, y) ==> !less(y, x)
    requires forall x :: x in a <==> x in b
    ensures a == b
  {
    if a == [] {
      assert forall k :: 0 <= k < |b| ==> b[k] in a;
    } else {
      assert a[0] in b;
      assert b[0] in a;
      assert a[0] == b[0];
      TailElements(a, less);
      TailElements(b, less);
      OrderedUnique(a[1..], b[1..], less);
      assert a == [a[0]] + a[1..] && b == [b[0]] + b[1..];
    }
  }

  lemma TailElements<T(!new)>(a: seq<T>, less: (T, T) -> bool)
    requires a != [] && Ordered(a, less)
    requires forall x, y :: less(x, y) ==> !less(y, x)
    ensures forall x :: x in a[1..] <==> x in a && x != a[0]
  {
    forall x ensures x in a[1..] <==> x in a && x != a[0] {
      if x in a[1..] {
        var k :| 0 <= k < |a| - 1 && a[1..][k] == x;
        assert a[k + 1] == x && less(a[0], a[k + 1]);
      }
    }
  }

  predicate JoinLess(a: JoinChoice, b: JoinChoice) { JoinLeq(a, b) && !JoinLeq(b, a) }

  /** The order is strict: by strength, then by id, and never a tie. */
  lemma StrictlyOrdered(points: seq<AccessPoint>, current: Option<CString>, menu: seq<JoinChoice>)
    requires IsJoinMenu(points, current, menu)
    ensures Ordered(menu, JoinLess)
  {
    forall i, j | 0 <= i < j < |menu| ensures JoinLess(menu[i], menu[j]) {
      StrongerOrder(menu[i].signal, menu[i].network, menu[j].signal, menu[j].network, 0, []);
    }
  }

  /** The menu without its labels. */
  function Plain(menu: seq<JoinChoice>): (r: seq<JoinChoice>)
    ensures |r| == |menu|
    ensures forall k :: 0 <= k < |menu| ==> r[k] == menu[k].(caption := [])
  {
    seq(|menu|, k requires 0 <= k < |menu| => menu[k].(caption := []))
  }

  ghost predicate SameScan(p: seq<AccessPoint>, q: seq<AccessPoint>) {
    forall x :: x in p <==> x in q
  }

  lemma StrongestOne(points: seq<AccessPoint>, points': seq<AccessPoint>, id: CString, s: int, s': int)
    requires SameScan(points, points')
    requires Strongest(points, id, s) && Strongest(points', id, s')
    ensures s == s'
  {
    var p :| p in points && Names(p, id) && p.signal == s;
    var p' :| p' in points' && Names(p', id) && p'.signal == s';
    assert p in points' && p' in points;
  }

  lemma MenuWithin(points: seq<AccessPoint>, points': seq<AccessPoint>, current: Option<CString>,
                   menu: seq<JoinChoice>, menu': seq<JoinChoice>, c: JoinChoice) returns (c': JoinChoice)
    requires SameScan(points, points')
    requires IsJoinMenu(points, current, menu) && IsJoinMenu(points', current, menu')
    requires c in menu
    ensures c' in menu' && c'.network == c.network && c'.signal == c.signal && c'.current == c.current
  {
    hide Label, Ordered, Distinct;
    assert Tells(points, current, c);
    var p :| p in points && Names(p, c.network);
    assert p in points';
    assert Lists(menu', c.network);
    var k :| 0 <= k < |menu'| && menu'[k].network == c.network;
    c' := menu'[k];
    assert c' in menu' && Tells(points', current, c');
    StrongestOne(points, points', c.network, c.signal, c'.signal);
  }

  lemma PlainWithin(points: seq<AccessPoint>, points': seq<AccessPoint>, current: Option<CString>,
                    menu: seq<JoinChoice>, menu': seq<JoinChoice>, x: JoinChoice)
    requires SameScan(points, points')
    requires IsJoinMenu(points, current, menu) && IsJoinMenu(points', current, menu')
    requires x in Plain(menu)
    ensures x in Plain(menu')
  {
    hide IsJoinMenu;
    var k :| 0 <= k < |menu| && Plain(menu)[k] == x;
    var c' := MenuWithin(points, points', current, menu, menu', menu[k]);
    var l :| 0 <= l < |menu'| && menu'[l] == c';
    assert Plain(menu')[l] == x;
  }

  /** The ids, signals and marks offered, and their order, depend on which access
      points were heard and on nothing else: not on the order of the scan, not on
      how often one was reported, not on how `qsort` works. */
  lemma ScanOrderIsImmaterial(points: seq<AccessPoint>, points': seq<AccessPoint>,
                              current: Option<CString>, menu: seq<JoinChoice>, menu': seq<JoinChoice>)
    requires SameScan(points, points')
    requires IsJoinMenu(points, current, menu) && IsJoinMenu(points', current, menu')
    ensures Plain(menu) == Plain(menu')
  {
    hide IsJoinMenu;
    StrictlyOrdered(points, current, menu);
    StrictlyOrdered(points', current, menu');
    forall x ensures x in Plain(menu) <==> x in Plain(menu') {
      if x in Plain(menu) { PlainWithin(points, points', current, menu, menu', x); }
      if x in Plain(menu') { PlainWithin(points', points, current, menu', menu, x); }
    }
    OrderedUnique(Plain(menu), Plain(menu'), JoinLess);
  }

  /** Each network is heard under one name throughout the scan. */
  ghost predicate OneName(points: seq<AccessPoint>) {
    forall p, q | p in points && q in points && p.configured.Some? && p.configured.value != [] ::
      p.configured == q.configured ==> HeardName(p) == HeardName(q)
  }

  lemma {:induction false} HeardIs(points: seq<AccessPoint>, id: CString)
    requires exists p :: p in points && Names(p, id)
    ensures exists p :: p in points && Names(p, id) && HeardName(p) == Heard(points, id)
  {
    if Names(points[0], id) {
      assert points[0] in points;
    } else {
      assert forall q :: q in points <==> q == points[0] || q in points[1..];
      HeardIs(points[1..], id);
      var p :| p in points[1..] && Names(p, id) && HeardName(p) == Heard(points[1..], id);
      assert p in points;
    }
  }

  lemma HeardSame(points: seq<AccessPoint>, points': seq<AccessPoint>, id: CString)
    requires SameScan(points, points') && OneName(points)
    requires exists p :: p in points && Names(p, id)
    ensures Heard(points, id) == Heard(points', id)
  {
    var p :| p in points && Names(p, id);
    assert p in points';
    HeardIs(points, id);
    HeardIs(points', id);
  }

  lemma LabelSame(points: seq<AccessPoint>, points': seq<AccessPoint>, id: CString)
    requires SameScan(points, points') && OneName(points)
    requires exists p :: p in points && Names(p, id)
    ensures Label(points, id) == Label(points', id)
  {
    HeardSame(points, points', id);
    forall p | p in points && p.configured.Some? && Names(p, p.configured.value)
      ensures Heard(points, p.configured.value) == Heard(points', p.configured.value)
    {
      HeardSame(points, points', p.configured.value);
    }
  }

  /** Where each network is heard under one name, the labels are settled too. */
  lemma LabelsAreSettled(points: seq<AccessPoint>, points': seq<AccessPoint>,
                         current: Option<CString>, menu: seq<JoinChoice>, menu': seq<JoinChoice>)
    requires SameScan(points, points') && OneName(points)
    requires IsJoinMenu(points, current, menu) && IsJoinMenu(points', current, menu')
    ensures menu == menu'
  {
    ScanOrderIsImmaterial(points, points', current, menu, menu');
    assert |menu| == |Plain(menu)| == |Plain(menu')| == |menu'|;
    forall k | 0 <= k < |menu| ensures menu[k] == menu'[k] {
      assert Plain(menu)[k] == Plain(menu')[k];
      assert menu[k] in menu && menu'[k] in menu';
      assert Tells(points, current, menu[k]);
      LabelSame(points, points', menu[k].network);
    }
  }

  lemma SharedWith(points: seq<AccessPoint>, current: Option<CString>, c: JoinChoice, d: JoinChoice)
    requires Tells(points, current, d) && c.network != d.network
    requires Heard(points, c.network) == Heard(points, d.network)
    ensures Shared(points, c.network)
  {
    var p :| p in points && Names(p, d.network);
    assert p.configured.value == d.network;
  }

  /** Two networks heard under one name are told apart. */
  lemma SameNameDifferentLabels(points: seq<AccessPoint>, current: Option<CString>, menu: seq<JoinChoice>,
                                i: nat, j: nat)
    requires IsJoinMenu(points, current, menu) && i < |menu| && j < |menu| && i != j
    requires Heard(points, menu[i].network) == Heard(points, menu[j].network)
    ensures menu[i].caption != menu[j].caption
  {
    var a, b, name := menu[i].network, menu[j].network, Heard(points, menu[i].network);
    assert menu[i] in menu && menu[j] in menu && a != b;
    SharedWith(points, current, menu[i], menu[j]);
    SharedWith(points, current, menu[j], menu[i]);
    assert menu[i].caption == Decorated(name, a) && menu[j].caption == Decorated(name, b);
    DecoratedMeets(name, a, name, b);
  }

  /** Name `m` goes on where `n` ends, by a text that is also the front of id `a`. */
  predicate NestedBy(n: CString, a: CString, m: CString, b: CString, w: CString) {
    m == n + GAP + w && a == w + GAP + b
  }

  ghost predicate Nested(n: CString, a: CString, m: CString, b: CString) {
    exists w: CString :: NestedBy(n, a, m, b, w)
  }

  /** Two decorated names are one text exactly when they are one name and one id, or
      one pair nests in the other. */
  lemma DecoratedMeets(n: CString, a: CString, m: CString, b: CString)
    ensures Decorated(n, a) == Decorated(m, b) <==> (n == m && a == b) || Nested(n, a, m, b) || Nested(m, b, n, a)
  {
    if Decorated(n, a) == Decorated(m, b) {
      if |n| <= |m| { DecoratedNests(n, a, m, b); } else { DecoratedNests(m, b, n, a); }
    }
    forall w | NestedBy(n, a, m, b, w) ensures Decorated(n, a) == Decorated(m, b) { NestedIsOne(n, a, m, b, w); }
    forall w | NestedBy(m, b, n, a, w) ensures Decorated(n, a) == Decorated(m, b) { NestedIsOne(m, b, n, a, w); }
  }

  lemma NestedIsOne(n: CString, a: CString, m: CString, b: CString, w: CString)
    requires NestedBy(n, a, m, b, w)
    ensures Decorated(n, a) == Decorated(m, b)
  {
    assert n + GAP + (w + GAP + b) + SHUT == (n + GAP + w) + GAP + b + SHUT;
  }

  lemma DecoratedNests(n: CString, a: CString, m: CString, b: CString)
    requires Decorated(n, a) == Decorated(m, b) && |n| <= |m|
    ensures (n == m && a == b) || Nested(n, a, m, b)
  {
    var d := Decorated(n, a);
    assert d[..|n|] == n && d[..|m|] == m;
    assert d[|n| + 3..|d| - 1] == a && d[|m| + 3..|d| - 1] == b;
    if |n| < |m| {
      assert d[|n|..|n| + 3] == GAP && d[|m|..|m| + 3] == GAP;
      assert d[|n| + 2] == GAP[2] && d[|m|] == GAP[0] && d[|m| + 1] == GAP[1];
      var w: CString := m[|n| + 3..];
      assert m == d[..|n|] + d[|n|..|n| + 3] + w;
      assert w == d[|n| + 3..|m|];
      assert a == d[|n| + 3..|m|] + d[|m|..|m| + 3] + d[|m| + 3..|d| - 1];
      assert NestedBy(n, a, m, b, w);
    }
  }

  /** Exactly when two entries of a menu read alike: one is heard under the very
      text the other was given to tell it apart; or both were given such a text, and
      one's name and id nest in the other's. */
  lemma LabelsMeetExactly(points: seq<AccessPoint>, current: Option<CString>, menu: seq<JoinChoice>,
                          i: nat, j: nat)
    requires IsJoinMenu(points, current, menu) && i < |menu| && j < |menu| && i != j
    ensures menu[i].caption == menu[j].caption <==>
              || MistakenFor(points, menu[i].network, menu[j].network)
              || MistakenFor(points, menu[j].network, menu[i].network)
              || Entangled(points, menu[i].network, menu[j].network)
              || Entangled(points, menu[j].network, menu[i].network)
  {
    hide Shared, Nested;
    assert menu[i] in menu && menu[j] in menu;
    var a, b := menu[i].network, menu[j].network;
    assert a != b;
    if Heard(points, a) == Heard(points, b) { SameNameDifferentLabels(points, current, menu, i, j); }
    DecoratedMeets(Heard(points, a), a, Heard(points, b), b);
  }

  ghost predicate MistakenFor(points: seq<AccessPoint>, a: CString, b: CString) {
    && Shared(points, a) && !Shared(points, b)
    && Heard(points, b) == Decorated(Heard(points, a), a)
  }

  ghost predicate Entangled(points: seq<AccessPoint>, a: CString, b: CString) {
    Shared(points, a) && Shared(points, b) && Nested(Heard(points, a), a, Heard(points, b), b)
  }

  function Saved(name: CString, id: CString): (p: AccessPoint) {
    AccessPoint(Some([48]), Some(name), true, Some(id), -40, true, false, false)
  }

  /** It does happen: labels are compared as heard, not as written, so a network
      named "x  (a)" reads like network `a` of two heard as "x". */
  lemma LabelsMayMeet()
    ensures var points := [Saved([120], [97]), Saved([120], [98]), Saved([120, 32, 32, 40, 97, 41], [99])];
            Label(points, [97]) == Label(points, [99])
  {
    var x: CString, y: CString := [120], [120, 32, 32, 40, 97, 41];
    var p, q, r := Saved(x, [97]), Saved(x, [98]), Saved(y, [99]);
    var points := [p, q, r];
    assert points[1..] == [q, r] && [q, r][1..] == [r];
    assert Heard(points, [97]) == x;
    assert Heard(points, [98]) == Heard([q, r], [98]) == x;
    assert Heard(points, [99]) == Heard([q, r], [99]) == Heard([r], [99]) == y;
    assert q in points && Names(q, q.configured.value);
    assert Shared(points, [97]);
    assert Decorated(x, [97]) == y;
  }

  /** The other way happens too: of two networks heard as "x" and two heard as
      "x  (y)", the ids "y)  (z" and "z" make one label of two. */
  lemma DecoratedMayMeet()
    ensures var a: CString, b: CString := [121, 41, 32, 32, 40, 122], [122];
            var x: CString, y: CString := [120], [120, 32, 32, 40, 121, 41];
            var points := [Saved(x, a), Saved(x, [49]), Saved(y, b), Saved(y, [50])];
            Shared(points, a) && Shared(points, b) && Label(points, a) == Label(points, b)
  {
    var a: CString, b: CString, c: CString, d: CString := [121, 41, 32, 32, 40, 122], [122], [49], [50];
    var x: CString, y: CString := [120], [120, 32, 32, 40, 121, 41];
    var p, q, r, s := Saved(x, a), Saved(x, c), Saved(y, b), Saved(y, d);
    var points := [p, q, r, s];
    assert points[1..] == [q, r, s] && [q, r, s][1..] == [r, s] && [r, s][1..] == [s];
    assert Heard(points, a) == x && Heard(points, c) == Heard([q, r, s], c) == x;
    assert Heard(points, b) == Heard([q, r, s], b) == Heard([r, s], b) == y;
    assert Heard(points, d) == Heard([q, r, s], d) == Heard([r, s], d) == Heard([s], d) == y;
    assert q in points && Names(q, q.configured.value) && s in points && Names(s, s.configured.value);
    var w: CString := [121, 41];
    assert NestedBy(x, a, y, b, w);
    NestedIsOne(x, a, y, b, w);
  }

  // ---- what the new-network menu is ----

  /** The access point carries this SSID and a network names it. */
  predicate SavedUnder(p: AccessPoint, ssid: CString) {
    p.ssid == Some(ssid) && p.configured.Some? && p.configured.value != []
  }

  ghost predicate IsSaved(points: seq<AccessPoint>, ssid: CString) {
    exists p :: p in points && SavedUnder(p, ssid)
  }

  predicate ReadsAsText(p: AccessPoint) {
    p.ssid.Some? && p.ssid.value != [] && p.named && p.name.Some? && p.name.value != []
  }

  /** `p` may be offered as new in a scan of `all`. */
  ghost predicate Offers(all: seq<AccessPoint>, p: AccessPoint, ssid: CString) {
    ReadsAsText(p) && p.ssid.value == ssid && !IsSaved(all, ssid)
  }

  /** The access point an entry's signal and flags are those of: the earliest of
      the strongest. */
  ghost predicate Speaks(all: seq<AccessPoint>, points: seq<AccessPoint>, c: NewChoice, k: nat) {
    && k < |points| && Offers(all, points[k], c.ssid)
    && c.signal == points[k].signal && c.secured == points[k].secured
    && c.enterprise == points[k].enterprise && c.owe == points[k].owe
    && (forall j :: 0 <= j < |points| && Offers(all, points[j], c.ssid) ==>
          if j < k then points[j].signal < c.signal else points[j].signal <= c.signal)
  }

  /** The label is the text of the first access point of the SSID. */
  ghost predicate FirstText(all: seq<AccessPoint>, points: seq<AccessPoint>, c: NewChoice, k: nat) {
    && k < |points| && Offers(all, points[k], c.ssid) && c.caption == points[k].name.value
    && (forall j :: 0 <= j < k ==> !Offers(all, points[j], c.ssid))
  }

  ghost predicate Describes(all: seq<AccessPoint>, points: seq<AccessPoint>, c: NewChoice) {
    (exists k :: Speaks(all, points, c, k)) && (exists k :: FirstText(all, points, c, k))
  }

  ghost predicate OncePerSsid(s: seq<NewChoice>) {
    forall i, j :: 0 <= i < j < |s| ==> s[i].ssid != s[j].ssid
  }

  ghost predicate ListsNew(s: seq<NewChoice>, ssid: CString) {
    exists k :: 0 <= k < |s| && s[k].ssid == ssid
  }

  ghost predicate CoversNew(all: seq<AccessPoint>, points: seq<AccessPoint>, s: seq<NewChoice>) {
    forall p, ssid :: p in points && Offers(all, p, ssid) ==> ListsNew(s, ssid)
  }

  ghost predicate NewFound(all: seq<AccessPoint>, points: seq<AccessPoint>, s: seq<NewChoice>) {
    && CoversNew(all, points, s) && OncePerSsid(s)
    && (forall c :: c in s ==> Describes(all, points, c))
  }

  /** What the list is: every unsaved SSID heard as text, once, at its strongest. */
  ghost predicate IsNewMenu(points: seq<AccessPoint>, menu: seq<NewChoice>) {
    NewFound(points, points, menu) && Ordered(menu, NewLeq)
  }

  // ---- its method ----

  /** `ssid_is_saved`. */
  method SsidIsSaved(points: seq<AccessPoint>, ssid: CString) returns (saved: bool)
    ensures saved <==> IsSaved(points, ssid)
  {
    for i := 0 to |points|
      invariant forall k :: 0 <= k < i ==> !SavedUnder(points[k], ssid)
    {
      if SavedUnder(points[i], ssid) { return true; }
    }
    return false;
  }

  method FindSsid(found: seq<NewChoice>, ssid: CString) returns (at: nat)
    ensures at <= |found|
    ensures at < |found| ==> found[at].ssid == ssid
    ensures forall k :: 0 <= k < at ==> found[k].ssid != ssid
  {
    at := 0;
    while at < |found| && found[at].ssid != ssid
      invariant at <= |found|
      invariant forall k :: 0 <= k < at ==> found[k].ssid != ssid
    {
      at := at + 1;
    }
  }

  /** What an entry becomes when another access point is heard. */
  function Louder(c: NewChoice, p: AccessPoint): (r: NewChoice) {
    if p.signal > c.signal
    then c.(signal := p.signal, secured := p.secured, enterprise := p.enterprise, owe := p.owe)
    else c
  }

  lemma DescribesSnoc(all: seq<AccessPoint>, points: seq<AccessPoint>, p: AccessPoint, c: NewChoice)
    requires Describes(all, points, c)
    ensures !Offers(all, p, c.ssid) ==> Describes(all, points + [p], c)
    ensures Offers(all, p, c.ssid) ==> Describes(all, points + [p], Louder(c, p))
  {
    hide IsSaved;
    var k :| Speaks(all, points, c, k);
    var f :| FirstText(all, points, c, f);
    var points', c' := points + [p], if Offers(all, p, c.ssid) then Louder(c, p) else c;
    assert forall j :: 0 <= j < |points| ==> points'[j] == points[j];
    assert points'[|points|] == p;
    assert FirstText(all, points', c', f);
    if Offers(all, p, c.ssid) && p.signal > c.signal {
      assert Speaks(all, points', c', |points|);
    } else {
      assert Speaks(all, points', c', k);
    }
  }

  lemma DescribesNew(all: seq<AccessPoint>, points: seq<AccessPoint>, p: AccessPoint, c: NewChoice)
    requires Offers(all, p, c.ssid) && forall q :: q in points ==> !Offers(all, q, c.ssid)
    requires c == NewChoice(c.ssid, p.name.value, p.signal, p.secured, p.enterprise, p.owe)
    ensures Describes(all, points + [p], c)
  {
    hide IsSaved;
    var points' := points + [p];
    assert forall j :: 0 <= j < |points| ==> points'[j] == points[j] && points[j] in points;
    assert points'[|points|] == p;
    assert Speaks(all, points', c, |points|);
    assert FirstText(all, points', c, |points|);
  }

  lemma NewSkips(all: seq<AccessPoint>, points: seq<AccessPoint>, p: AccessPoint, found: seq<NewChoice>)
    requires NewFound(all, points, found)
    requires forall ssid :: !Offers(all, p, ssid)
    ensures NewFound(all, points + [p], found)
  {
    hide Offers, Describes;
    forall c | c in found ensures Describes(all, points + [p], c) {
      DescribesSnoc(all, points, p, c);
    }
  }

  lemma NewRaises(all: seq<AccessPoint>, points: seq<AccessPoint>, p: AccessPoint,
                  found: seq<NewChoice>, at: nat)
    requires NewFound(all, points, found)
    requires at < |found| && Offers(all, p, found[at].ssid)
    ensures NewFound(all, points + [p], found[at := Louder(found[at], p)])
  {
    hide Describes, IsSaved;
    var found' := found[at := Louder(found[at], p)];
    forall k | 0 <= k < |found| ensures Describes(all, points + [p], found'[k]) {
      assert found[k] in found;
      assert k != at ==> found[k].ssid != found[at].ssid;
      DescribesSnoc(all, points, p, found[k]);
    }
    forall ssid | ListsNew(found, ssid) ensures ListsNew(found', ssid) {
      var k :| 0 <= k < |found| && found[k].ssid == ssid;
      assert found'[k].ssid == ssid;
    }
    assert found'[at].ssid == found[at].ssid;
  }

  lemma NewAdds(all: seq<AccessPoint>, points: seq<AccessPoint>, p: AccessPoint,
                found: seq<NewChoice>, c: NewChoice)
    requires NewFound(all, points, found)
    requires Offers(all, p, c.ssid) && forall k :: 0 <= k < |found| ==> found[k].ssid != c.ssid
    requires c == NewChoice(c.ssid, p.name.value, p.signal, p.secured, p.enterprise, p.owe)
    ensures NewFound(all, points + [p], found + [c])
  {
    hide Describes, IsSaved;
    forall q | q in points ensures !Offers(all, q, c.ssid) {
      assert Offers(all, q, c.ssid) ==> ListsNew(found, c.ssid);
    }
    DescribesNew(all, points, p, c);
    forall d | d in found ensures Describes(all, points + [p], d) {
      DescribesSnoc(all, points, p, d);
    }
    var found' := found + [c];
    forall ssid | ListsNew(found, ssid) ensures ListsNew(found', ssid) {
      var k :| 0 <= k < |found| && found[k].ssid == ssid;
      assert found'[k].ssid == ssid;
    }
    assert found'[|found|].ssid == c.ssid;
  }

  /** The pass over the scan. */
  method GatherNew(points: seq<AccessPoint>) returns (found: seq<NewChoice>)
    ensures NewFound(points, points, found)
  {
    found := [];
    for i := 0 to |points|
      invariant NewFound(points, points[..i], found)
    {
      hide NewFound, IsSaved;
      var p := points[i];
      assert points[..i + 1] == points[..i] + [p];
      if !ReadsAsText(p) {
        NewSkips(points, points[..i], p, found);
        continue;
      }
      var ssid := p.ssid.value;
      var saved := SsidIsSaved(points, ssid);
      if saved {
        NewSkips(points, points[..i], p, found);
        continue;
      }
      var at := FindSsid(found, ssid);
      if at < |found| {
        NewRaises(points, points[..i], p, found, at);
        if p.signal > found[at].signal {
          found := found[at := found[at].(signal := p.signal, secured := p.secured,
                                          enterprise := p.enterprise, owe := p.owe)];
        } else {
          assert found[at := found[at]] == found;
        }
        continue;
      }
      var c := NewChoice(ssid, p.name.value, p.signal, p.secured, p.enterprise, p.owe);
      NewAdds(points, points[..i], p, found, c);
      found := found + [c];
    }
    assert points[..|points|] == points;
  }

  lemma NewPermutes(points: seq<AccessPoint>, a: seq<NewChoice>, b: seq<NewChoice>)
    requires multiset(a) == multiset(b) && NewFound(points, points, a)
    ensures NewFound(points, points, b)
  {
    hide Describes, Offers;
    SameElements(a, b);
    forall i, j | 0 <= i < j < |b| ensures b[i].ssid != b[j].ssid {
      DistinctPermutes(a, b, (c: NewChoice) => c.ssid, i, j);
    }
    forall ssid | ListsNew(a, ssid) ensures ListsNew(b, ssid) {
      var k :| 0 <= k < |a| && a[k].ssid == ssid;
      assert a[k] in b;
    }
  }

  /** `ncfg_new_choices`. */
  method NewChoices(points: seq<AccessPoint>) returns (menu: seq<NewChoice>)
    ensures IsNewMenu(points, menu)
  {
    var found := GatherNew(points);
    NewOrder();
    menu := Sort(found, NewLeq);
    NewPermutes(points, found, menu);
  }

  // ---- the two menus together ----

  /** Every network heard as text is offered in one of the two menus, and never
      in both: under its saved ids, or as new. */
  lemma MenusPartition(points: seq<AccessPoint>, current: Option<CString>,
                       saved: seq<JoinChoice>, unsaved: seq<NewChoice>, p: AccessPoint)
    requires IsJoinMenu(points, current, saved) && IsNewMenu(points, unsaved)
    requires p in points && ReadsAsText(p)
    ensures ListsNew(unsaved, p.ssid.value) <==>
            !exists q, k :: 0 <= k < |saved| && q in points && q.ssid == p.ssid && Names(q, saved[k].network)
  {
    var ssid := p.ssid.value;
    hide Ordered, Label, Tells;
    if q :| q in points && SavedUnder(q, ssid) {
      assert Lists(saved, q.configured.value);
      var k :| 0 <= k < |saved| && saved[k].network == q.configured.value;
      assert q.ssid == p.ssid && Names(q, saved[k].network);
      forall k | 0 <= k < |unsaved| ensures unsaved[k].ssid != ssid {
        assert unsaved[k] in unsaved && Describes(points, points, unsaved[k]);
      }
    } else {
      assert Offers(points, p, ssid);
      assert forall q, id :: q in points && q.ssid == p.ssid && Names(q, id) ==> SavedUnder(q, ssid);
    }
  }
}
