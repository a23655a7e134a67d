/** What the two menus say, in the words a tray would use: which end comes first, who is
    in them, and how each entry is marked and called (client/ncfg_client.c). */
module MenuOrder {
  import opened Bytes
  import opened Menus

  /** In a dictionary `a` stands before `b`, or is `b`: it is where they first differ that
      the smaller byte decides, and a text stands before what it is the front of. */
  ghost predicate Precedes(a: CString, b: CString) { a <= b || exists k :: SmallerAt(a, b, k) }

  ghost predicate SmallerAt(a: CString, b: CString, k: int) {
    0 <= k < |a| && k < |b| && a[..k] == b[..k] && a[k] < b[k]
  }

  lemma SmallerBehind(a: CString, b: CString, k: int)
    requires a != [] && b != [] && a[0] == b[0]
    ensures SmallerAt(a[1..], b[1..], k - 1) <==> SmallerAt(a, b, k)
  {
    if 1 <= k <= |a| && k <= |b| {
      assert a[..k] == [a[0]] + a[1..][..k - 1] && b[..k] == [b[0]] + b[1..][..k - 1];
      assert a[..k][1..] == a[1..][..k - 1] && b[..k][1..] == b[1..][..k - 1];
    }
  }

  lemma PrecedesBehind(a: CString, b: CString)
    requires a != [] && b != [] && a[0] == b[0]
    ensures Precedes(a, b) <==> Precedes(a[1..], b[1..])
  {
    hide SmallerAt;
    assert a == [a[0]] + a[1..] && b == [b[0]] + b[1..];
    if k :| SmallerAt(a, b, k) { SmallerBehind(a, b, k); }
    if k :| SmallerAt(a[1..], b[1..], k) { SmallerBehind(a, b, k + 1); }
  }

  /** `strcmp` is the order of a dictionary. */
  lemma {:induction false} StrLeqExactly(a: CString, b: CString)
    ensures StrLeq(a, b) <==> Precedes(a, b)
  {
    if a != [] && b != [] {
      if a[0] == b[0] {
        hide Precedes;
        PrecedesBehind(a, b);
        StrLeqExactly(a[1..], b[1..]);
      } else if a[0] < b[0] {
        assert SmallerAt(a, b, 0);
      } else {
        assert forall k :: 0 < k < |a| && k < |b| ==> a[..k][0] == a[0] && b[..k][0] == b[0];
      }
    }
  }

  /** The join menu: strongest first, and by id in the order of a dictionary among equals. */
  lemma JoinStrongestFirst(points: seq<AccessPoint>, current: Option<CString>, menu: seq<JoinChoice>, i: nat, j: nat)
    requires IsJoinMenu(points, current, menu) && i < j < |menu|
    ensures menu[i].signal >= menu[j].signal
    ensures menu[i].signal == menu[j].signal ==>
              Precedes(menu[i].network, menu[j].network) && menu[i].network != menu[j].network
  {
    StrLeqExactly(menu[i].network, menu[j].network);
    assert JoinLeq(menu[i], menu[j]);
  }

  /** The new-network menu: strongest first, and by name among equals. */
  lemma NewStrongestFirst(points: seq<AccessPoint>, menu: seq<NewChoice>, i: nat, j: nat)
    requires IsNewMenu(points, menu) && i < j < |menu|
    ensures menu[i].signal >= menu[j].signal
    ensures menu[i].signal == menu[j].signal ==> Precedes(menu[i].caption, menu[j].caption)
  {
    hide NewFound;
    StrLeqExactly(menu[i].caption, menu[j].caption);
    assert NewLeq(menu[i], menu[j]);
  }

  /** A network is in the join menu if and only if some access point is configured for it;
      it is marked if and only if it is the current one; and it stands at the strongest
      signal it was heard at. */
  lemma JoinMenuSays(points: seq<AccessPoint>, current: Option<CString>, menu: seq<JoinChoice>, id: CString)
    requires IsJoinMenu(points, current, menu)
    ensures (exists k :: 0 <= k < |menu| && menu[k].network == id) <==>
            id != [] && exists p :: p in points && p.configured == Some(id)
    ensures forall k :: 0 <= k < |menu| ==> (menu[k].current <==> current == Some(menu[k].network))
    ensures forall k, p :: 0 <= k < |menu| && p in points && p.configured == Some(menu[k].network) ==>
              p.signal <= menu[k].signal
    ensures forall k :: 0 <= k < |menu| ==>
              exists p :: p in points && p.configured == Some(menu[k].network) && p.signal == menu[k].signal
  {
    hide Label, Ordered, Distinct;
    forall k | 0 <= k < |menu|
      ensures menu[k].network != [] && (menu[k].current <==> current == Some(menu[k].network))
      ensures forall p :: p in points && p.configured == Some(menu[k].network) ==> p.signal <= menu[k].signal
      ensures exists p :: p in points && p.configured == Some(menu[k].network) && p.signal == menu[k].signal
    {
      assert menu[k] in menu && Tells(points, current, menu[k]);
    }
    if p :| p in points && p.configured == Some(id) && id != [] {
      assert Lists(menu, id);
    }
  }

  /** A network goes by the text name of its first access point, where that sent one, and
      by its id otherwise. */
  lemma {:induction false} HeardSays(before: seq<AccessPoint>, p: AccessPoint, after: seq<AccessPoint>, id: CString)
    requires id != [] && p.configured == Some(id) && forall q :: q in before ==> q.configured != Some(id)
    ensures var name := Heard(before + [p] + after, id);
            if p.named && p.name.Some? && p.name.value != [] then name == p.name.value else name == id
    decreases |before|
  {
    var all := before + [p] + after;
    if before == [] {
      assert all[0] == p;
    } else {
      assert all[0] == before[0] && before[0] in before && all[1..] == before[1..] + [p] + after;
      HeardSays(before[1..], p, after, id);
    }
  }

  /** Where a name is shared, two spaces and the id in parentheses stand behind it. */
  lemma DecoratedSays(name: CString, id: CString)
    ensures Decorated(name, id) == name + Ascii("  (") + id + Ascii(")")
  {
    assert Ascii("  (") == GAP && Ascii(")") == SHUT;
  }

  /** The access point is heard as text under this SSID. */
  ghost predicate HeardAsText(p: AccessPoint, ssid: CString) {
    p.ssid == Some(ssid) && ssid != [] && p.named && p.name.Some? && p.name.value != []
  }

  /** An SSID is in the new-network menu if and only if some access point is heard as text
      under it and no access point that carries it is configured. Its entry has the
      strongest signal of those heard as text, and that access point's flags. */
  lemma NewMenuSays(points: seq<AccessPoint>, menu: seq<NewChoice>, ssid: CString)
    requires IsNewMenu(points, menu)
    ensures (exists k :: 0 <= k < |menu| && menu[k].ssid == ssid) <==>
            && (exists p :: p in points && HeardAsText(p, ssid))
            && (forall p :: p in points && p.ssid == Some(ssid) ==> p.configured.None? || p.configured.value == [])
    ensures forall k, p :: 0 <= k < |menu| && p in points && HeardAsText(p, menu[k].ssid) ==>
              p.signal <= menu[k].signal
    ensures forall k :: 0 <= k < |menu| ==>
              exists p :: p in points && HeardAsText(p, menu[k].ssid) && Flags(menu[k], p)
  {
    hide Ordered, FirstText;
    forall k | 0 <= k < |menu|
      ensures forall p :: p in points && p.ssid == Some(menu[k].ssid) ==> p.configured.None? || p.configured.value == []
      ensures forall p :: p in points && HeardAsText(p, menu[k].ssid) ==> p.signal <= menu[k].signal
      ensures exists p :: p in points && HeardAsText(p, menu[k].ssid) && Flags(menu[k], p)
    {
      EntrySays(points, menu[k], menu);
    }
    if forall q :: q in points && q.ssid == Some(ssid) ==> q.configured.None? || q.configured.value == [] {
      assert !IsSaved(points, ssid);
      assert forall p :: p in points && HeardAsText(p, ssid) ==> Offers(points, p, ssid);
    }
    if !IsSaved(points, ssid) && exists p :: p in points && Offers(points, p, ssid) {
      assert ListsNew(menu, ssid);
    }
  }

  ghost predicate Flags(c: NewChoice, p: AccessPoint) {
    p.signal == c.signal && p.secured == c.secured && p.enterprise == c.enterprise && p.owe == c.owe
  }

  lemma EntrySays(points: seq<AccessPoint>, c: NewChoice, menu: seq<NewChoice>)
    requires IsNewMenu(points, menu) && c in menu
    ensures forall p :: p in points && p.ssid == Some(c.ssid) ==> p.configured.None? || p.configured.value == []
    ensures forall p :: p in points && HeardAsText(p, c.ssid) ==> p.signal <= c.signal
    ensures exists p :: p in points && HeardAsText(p, c.ssid) && Flags(c, p)
  {
    hide Ordered, FirstText;
    assert Describes(points, points, c);
    var k: nat :| Speaks(points, points, c, k);
    assert points[k] in points && HeardAsText(points[k], c.ssid) && Flags(c, points[k]);
    forall p | p in points && p.ssid == Some(c.ssid) ensures p.configured.None? || p.configured.value == [] {
      assert !SavedUnder(p, c.ssid);
    }
    forall p | p in points && HeardAsText(p, c.ssid) ensures p.signal <= c.signal {
      var j :| 0 <= j < |points| && points[j] == p;
      assert Offers(points, points[j], c.ssid);
    }
  }
}
