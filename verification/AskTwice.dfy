/** How often one request is asked over fuzznet. The daemon may run a request each time
    it is asked from offset 0. The control socket is kept out of that by `AskHere`; but
    a gathering itself begins again from 0, and this says exactly when, and how often. */
module AskTwice {
  import opened Bytes
  import opened Decimals
  import opened Fnv
  import opened Pages
  import opened Snapshot
  import opened AskHere
  import Escape
  import Upload

  /** One page asked: from where, and what came back if it was a page. */
  datatype Look = Look(from: nat, page: Option<Pages.Page>)

  // ---- the pages asked ----

  /** The pages of the rest of one gathering. */
  ghost function GatherLooks<W>(ask: Ask<W>, w: W, got: Bytes, first: Option<Pages.Page>): seq<Look>
    requires if first.None? then got == [] else 0 < |got| < first.value.total
    decreases if first.None? then 1 else 0, if first.None? then 0 else first.value.total - |got|
  {
    var (next, reply) := ask(w, |got|);
    var page := if reply.None? then None else PageRead(reply.value);
    [Look(|got|, page)] +
    if page.None? then []
    else
      var one := page.value;
      var head := if first.None? then one else first.value;
      if one.digest == head.digest && one.total == head.total && one.from == |got|
         && one.bytes != [] && |got + one.bytes| < head.total
      then GatherLooks(ask, next, got + one.bytes, Some(head))
      else []
  }

  /** The pages of a join: gathering after gathering. */
  ghost function JoinLooks<W>(ask: Ask<W>, w: W, left: nat): seq<Look> {
    if left == 0 then []
    else
      var one := Gather(ask, w, [], None);
      GatherLooks(ask, w, [], None) + if one.Moved? then JoinLooks(ask, one.world, left - 1) else []
  }

  /** The pages of a whole request: join after join, while the answer says "working". */
  ghost function WorkLooks(fate: Fate, request: Bytes, w: World, looks: nat): seq<Look>
    requires looks <= WORK_LOOKS
    decreases WORK_LOOKS - looks
  {
    var one := Join(Asking(fate, request), w);
    JoinLooks(Asking(fate, request), w, ATTEMPTS) +
    if one.status.Some? && StillWorking(one.status.value) && looks < WORK_LOOKS
    then WorkLooks(fate, request, one.world, looks + 1)
    else []
  }

  // ---- when a gathering begins again ----

  /** This page names another total or digest than `head` does. */
  predicate Differs(look: Look, head: Pages.Page) {
    look.page.Some? && (look.page.value.total != head.total || look.page.value.digest != head.digest)
  }

  /** Some page names another total or digest than the first page does. */
  ghost predicate Disagree(looks: seq<Look>) {
    looks != [] && looks[0].page.Some? && exists i :: 0 <= i < |looks| && Differs(looks[i], looks[0].page.value)
  }

  lemma {:induction false} MovesOn<W>(ask: Ask<W>, w: W, got: Bytes, head: Pages.Page)
    requires 0 < |got| < head.total
    ensures var looks := GatherLooks(ask, w, got, Some(head));
            && (Gather(ask, w, got, Some(head)).Moved? <==> exists i :: 0 <= i < |looks| && Differs(looks[i], head))
            && forall i :: 0 <= i < |looks| ==> looks[i].from > 0
    decreases head.total - |got|
  {
    hide PageRead, Digest, Gather;
    GatherStep(ask, w, got, Some(head));
    var (next, reply) := ask(w, |got|);
    var page := if reply.None? then None else PageRead(reply.value);
    var looks := GatherLooks(ask, w, got, Some(head));
    assert looks[0] == Look(|got|, page);
    if page.Some? && !Differs(looks[0], head) && page.value.from == |got|
       && page.value.bytes != [] && |got + page.value.bytes| < head.total {
      MovesOn(ask, next, got + page.value.bytes, head);
      var rest := GatherLooks(ask, next, got + page.value.bytes, Some(head));
      assert looks == [looks[0]] + rest;
      assert forall i :: 0 <= i < |rest| ==> rest[i] == looks[i + 1];
    }
  }

  /** A gathering asks from 0 first and never again, and sees the answer move exactly
      when two of its pages disagree. */
  lemma MovesFrom<W>(ask: Ask<W>, w: W)
    ensures var looks := GatherLooks(ask, w, [], None);
            && looks != [] && looks[0].from == 0
            && (forall i :: 0 < i < |looks| ==> looks[i].from > 0)
            && (Gather(ask, w, [], None).Moved? <==> Disagree(looks))
  {
    hide PageRead, Digest, Gather;
    GatherStep(ask, w, [], None);
    var (next, reply) := ask(w, 0);
    var page := if reply.None? then None else PageRead(reply.value);
    var looks := GatherLooks(ask, w, [], None);
    assert looks[0] == Look(0, page);
    if page.Some? && page.value.from == 0 && page.value.bytes != [] && |[] + page.value.bytes| < page.value.total {
      assert [] + page.value.bytes == page.value.bytes;
      MovesOn(ask, next, page.value.bytes, page.value);
      var rest := GatherLooks(ask, next, page.value.bytes, Some(page.value));
      assert looks == [looks[0]] + rest;
      assert forall i :: 0 <= i < |rest| ==> rest[i] == looks[i + 1];
      assert Differs(looks[0], page.value) == false;
    }
  }

  // ---- when a request is asked from 0 again ----

  ghost predicate StartsAgain(looks: seq<Look>) { exists i :: 0 < i < |looks| && looks[i].from == 0 }

  lemma StartsBehind(first: seq<Look>, rest: seq<Look>)
    requires first != [] && (forall i :: 0 < i < |first| ==> first[i].from > 0)
    requires rest != [] ==> rest[0].from == 0
    ensures StartsAgain(first + rest) <==> rest != []
  {
    var all := first + rest;
    if rest != [] {
      assert all[|first|] == rest[0];
    }
  }

  lemma JoinStarts<W>(ask: Ask<W>, w: W, left: nat)
    ensures left > 0 ==> JoinLooks(ask, w, left) != [] && JoinLooks(ask, w, left)[0].from == 0
    ensures left > 1 ==> (StartsAgain(JoinLooks(ask, w, left)) <==> Disagree(GatherLooks(ask, w, [], None)))
  {
    hide Gather, GatherLooks, Disagree, StartsAgain;
    if left > 0 {
      MovesFrom(ask, w);
      var one := Gather(ask, w, [], None);
      var rest := if one.Moved? then JoinLooks(ask, one.world, left - 1) else [];
      if left > 1 {
        JoinBegins(ask, one.world, left - 1);
        StartsBehind(GatherLooks(ask, w, [], None), rest);
      }
    }
  }

  lemma JoinBegins<W>(ask: Ask<W>, w: W, left: nat)
    requires left > 0
    ensures JoinLooks(ask, w, left) != [] && JoinLooks(ask, w, left)[0].from == 0
  {
    hide Gather, GatherLooks, Disagree;
    MovesFrom(ask, w);
  }

  /** A request is asked from 0 again if and only if two pages of its first gathering name
      different totals or digests, or its answer says "working". */
  lemma AskedAgainExactly(fate: Fate, request: Bytes, w: World)
    ensures var ask := Asking(fate, request);
            var answer := Join(ask, w).status;
            StartsAgain(WorkLooks(fate, request, w, 0)) <==>
              Disagree(GatherLooks(ask, w, [], None)) || (answer.Some? && StillWorking(answer.value))
  {
    hide GatherLooks, Disagree, JoinLooks, Join, StillWorking;
    var ask := Asking(fate, request);
    var one := Join(ask, w);
    var first := JoinLooks(ask, w, ATTEMPTS);
    JoinStarts(ask, w, ATTEMPTS);
    if one.status.Some? && StillWorking(one.status.value) {
      var rest := WorkLooks(fate, request, one.world, 1);
      WorkBegins(fate, request, one.world, 1);
      assert WorkLooks(fate, request, w, 0)[|first|] == rest[0];
    } else {
      assert WorkLooks(fate, request, w, 0) == first + [] == first;
    }
  }

  lemma WorkBegins(fate: Fate, request: Bytes, w: World, looks: nat)
    requires looks <= WORK_LOOKS
    ensures WorkLooks(fate, request, w, looks) != [] && WorkLooks(fate, request, w, looks)[0].from == 0
  {
    hide GatherLooks, Disagree, JoinLooks, Join, StillWorking;
    JoinStarts(Asking(fate, request), w, ATTEMPTS);
  }

  // ---- how often at most ----

  ghost function Starts(looks: seq<Look>): nat {
    if looks == [] then 0 else (if looks[0].from == 0 then 1 else 0) + Starts(looks[1..])
  }

  lemma {:induction false} StartsAdd(a: seq<Look>, b: seq<Look>)
    ensures Starts(a + b) == Starts(a) + Starts(b)
    decreases |a|
  {
    if a == [] {
      assert a + b == b;
    } else {
      assert (a + b)[1..] == a[1..] + b;
      StartsAdd(a[1..], b);
    }
  }

  lemma {:induction false} NoStarts(looks: seq<Look>)
    requires forall i :: 0 <= i < |looks| ==> looks[i].from > 0
    ensures Starts(looks) == 0
  {
    if looks != [] { NoStarts(looks[1..]); }
  }

  lemma {:induction false} JoinStartsBounded<W>(ask: Ask<W>, w: W, left: nat)
    ensures Starts(JoinLooks(ask, w, left)) <= left
  {
    hide Gather, GatherLooks, Disagree;
    if left > 0 {
      MovesFrom(ask, w);
      var first, one := GatherLooks(ask, w, [], None), Gather(ask, w, [], None);
      NoStarts(first[1..]);
      var rest := if one.Moved? then JoinLooks(ask, one.world, left - 1) else [];
      StartsAdd(first, rest);
      JoinStartsBounded(ask, one.world, left - 1);
    }
  }

  /** However the other side answers, a request is asked from 0 at most four times for
      each of at most 151 answers. */
  lemma {:induction false} StartsBounded(fate: Fate, request: Bytes, w: World, looks: nat)
    requires looks <= WORK_LOOKS
    ensures Starts(WorkLooks(fate, request, w, looks)) <= ATTEMPTS * (WORK_LOOKS + 1 - looks)
    decreases WORK_LOOKS - looks
  {
    hide JoinLooks, Join, StillWorking;
    var ask := Asking(fate, request);
    var one, first := Join(ask, w), JoinLooks(ask, w, ATTEMPTS);
    JoinStartsBounded(ask, w, ATTEMPTS);
    if one.status.Some? && StillWorking(one.status.value) && looks < WORK_LOOKS {
      StartsAdd(first, WorkLooks(fate, request, one.world, looks + 1));
      StartsBounded(fate, request, one.world, looks + 1);
    } else {
      assert WorkLooks(fate, request, w, looks) == first + [] == first;
    }
  }

  // ---- it happens ----

  /** fuzznet's reply that carries this page. */
  function Carrying(p: Pages.Page): (r: Bytes) { OK + Escape.Escaped(PagePrinted(p)) }

  lemma CarriedWord(p: Pages.Page)
    ensures 0 !in Carrying(p) && !(BUSY <= Carrying(p)) && OK <= Carrying(p)
  {
    hide PagePrinted, Escape.Escaped;
    var t := Escape.Escaped(PagePrinted(p));
    Escape.EscapedWord(PagePrinted(p));
    assert forall i :: 0 <= i < |t| ==> t[i] != 0;
    assert Carrying(p)[0] == OK[0] != BUSY[0];
  }

  /** One line that comes back with a page. */
  lemma CarriedPage(fate: Fate, request: Bytes, w: World, from: nat, p: Pages.Page)
    requires LineFits(from, request) && |PagePrinted(p)| <= PAGE_CAP
    requires var o := fate(|w.log|, AskLine(from, request)); o.Reply? && o.text == Carrying(p)
    ensures var line := AskLine(from, request);
            var o := fate(|w.log|, line);
            && MayHaveRun(o)
            && Asking(fate, request)(w, from) == (World(w.log + [Exchange(line, o)], true), Some(PagePrinted(p)))
  {
    hide PagePrinted, Escape.Escaped, Escape.Unescaped, LineFits, AskLine;
    CarriedWord(p);
    var t := Escape.Escaped(PagePrinted(p));
    assert Carrying(p)[3..] == t;
    Escape.EscapeRoundTrip(PagePrinted(p));
  }

  /** A first page and then a page of anything else, such as the daemon's refusal to make
      the next page of an answer it no longer keeps: each may have run the request, and it
      is asked from 0 again. */
  lemma OtherPageAsksAgain(fate: Fate, request: Bytes, p: Pages.Page, q: Pages.Page)
    requires WellCut(p) && WellCut(q) && |PagePrinted(p)| <= PAGE_CAP && |PagePrinted(q)| <= PAGE_CAP
    requires p.from == 0 && 0 < |p.bytes| < p.total && (q.total != p.total || q.digest != p.digest)
    requires LineFits(0, request) && LineFits(|p.bytes|, request)
    requires var o := fate(0, AskLine(0, request)); o.Reply? && o.text == Carrying(p)
    requires var o := fate(1, AskLine(|p.bytes|, request)); o.Reply? && o.text == Carrying(q)
    ensures MayHaveRun(fate(0, AskLine(0, request))) && MayHaveRun(fate(1, AskLine(|p.bytes|, request)))
    ensures StartsAgain(WorkLooks(fate, request, START, 0))
  {
    hide PagePrinted, Carrying, LineFits, AskLine, WorkLooks, StillWorking, Join, WellCut, FetchPage, MayHaveRun;
    var line := AskLine(0, request);
    var v := World([] + [Exchange(line, fate(0, line))], true);
    CarriedPage(fate, request, START, 0, p);
    CarriedPage(fate, request, v, |p.bytes|, q);
    PageRoundTrip(p);
    PageRoundTrip(q);
    var ask := Asking(fate, request);
    var rest := GatherLooks(ask, v, p.bytes, Some(p));
    assert rest[0] == Look(|p.bytes|, Some(q));
    assert [] + p.bytes == p.bytes;
    var looks := GatherLooks(ask, START, [], None);
    assert looks == [Look(0, Some(p))] + rest;
    assert looks[1] == rest[0] && Differs(looks[1], p);
    assert Disagree(looks);
    AskedAgainExactly(fate, request, START);
  }
}
