/** What a gathered status is, whoever answers: pages without a gap, of one digest,
    that the digest fits. And what it is when the other side is honest about the
    status it holds at each ask, however that status moves: one it really held. */
module SnapshotSafety {
  import opened Bytes
  import opened Fnv
  import opened Pages
  import opened Snapshot

  // ---- against anybody ----

  /** The worlds the pages of a gathering are asked in. */
  ghost function Asked<W>(ask: Ask<W>, w: W, got: Bytes, first: Option<Page>): seq<W>
    requires if first.None? then got == [] else 0 < |got| < first.value.total
    decreases if first.None? then 1 else 0, if first.None? then 0 else first.value.total - |got|
  {
    var (next, reply) := ask(w, |got|);
    var page := if reply.None? then None else PageRead(reply.value);
    [w] +
    if page.None? then []
    else
      var one := page.value;
      var head := if first.None? then one else first.value;
      if one.digest == head.digest && one.total == head.total && one.from == |got|
         && one.bytes != [] && |got + one.bytes| < head.total
      then Asked(ask, next, got + one.bytes, Some(head))
      else []
  }

  /** `pages` are the replies, one in each world, that follow each other from `from` on. */
  ghost predicate Chain<W>(ask: Ask<W>, worlds: seq<W>, pages: seq<Page>, from: nat, total: nat, digest: Hash)
    decreases |pages|
  {
    && |worlds| == |pages|
    && (pages != [] ==>
          var one, (next, reply) := pages[0], ask(worlds[0], from);
          && reply.Some? && PageRead(reply.value) == Some(one)
          && one.from == from && one.total == total && one.digest == digest
          && (|pages| > 1 ==> one.bytes != [] && worlds[1] == next)
          && Chain(ask, worlds[1..], pages[1..], from + |one.bytes|, total, digest))
  }

  ghost function Joint(pages: seq<Page>): Bytes {
    if pages == [] then [] else pages[0].bytes + Joint(pages[1..])
  }

  /** A gathered status is the gap-free concatenation of pages that all name one
      total and one digest, is that long, and has that digest: against any answers. */
  lemma {:induction false} GatheredPages<W>(ask: Ask<W>, w: W, got: Bytes, first: Option<Page>) returns (pages: seq<Page>)
    requires if first.None? then got == [] else 0 < |got| < first.value.total
    requires Gather(ask, w, got, first).Whole?
    ensures pages != []
    ensures var total, digest := pages[0].total, pages[0].digest;
            var status := Gather(ask, w, got, first).status;
            && (first.Some? ==> total == first.value.total && digest == first.value.digest)
            && Chain(ask, Asked(ask, w, got, first), pages, |got|, total, digest)
            && status == got + Joint(pages) && |status| == total && Digest(status) == digest
    decreases if first.None? then 1 else 0, if first.None? then 0 else first.value.total - |got|
  {
    hide PageRead, Digest;
    GatherStep(ask, w, got, first);
    var (next, reply) := ask(w, |got|);
    var one := PageRead(reply.value).value;
    var head := if first.None? then one else first.value;
    var more := got + one.bytes;
    if |more| < head.total {
      assert one.bytes != [];
      var rest := GatheredPages(ask, next, more, Some(head));
      pages := [one] + rest;
      var worlds := Asked(ask, w, got, first);
      assert worlds[1..] == Asked(ask, next, more, Some(head)) && pages[1..] == rest;
      assert worlds[1] == next;
      assert more + Joint(rest) == got + Joint(pages);
    } else {
      pages := [one];
      assert one.bytes + [] == one.bytes && Joint(pages[1..]) == [];
      assert Asked(ask, w, got, first) == [w];
    }
  }

  /** The length of the status the first page is a page of; 0 where there is none. */
  ghost function FirstTotal<W>(ask: Ask<W>, w: W): nat {
    var reply := ask(w, 0).1;
    if reply.None? || PageRead(reply.value).None? then 0 else PageRead(reply.value).value.total
  }

  /** A gathering asks no more pages than the status, as its first page gives it, has
      bytes; and one page of a status that has none, or of whatever is no page. */
  lemma {:induction false} AsksBounded<W>(ask: Ask<W>, w: W, got: Bytes, first: Option<Page>)
    requires if first.None? then got == [] else 0 < |got| < first.value.total
    ensures |Asked(ask, w, got, first)| <=
            if first.Some? then first.value.total - |got|
            else if FirstTotal(ask, w) == 0 then 1 else FirstTotal(ask, w)
    decreases if first.None? then 1 else 0, if first.None? then 0 else first.value.total - |got|
  {
    hide PageRead;
    var (next, reply) := ask(w, |got|);
    var page := if reply.None? then None else PageRead(reply.value);
    if page.Some? {
      var one := page.value;
      var head := if first.None? then one else first.value;
      if one.digest == head.digest && one.total == head.total && one.from == |got|
         && one.bytes != [] && |got + one.bytes| < head.total {
        AsksBounded(ask, next, got + one.bytes, Some(head));
      }
    }
  }

  /** The world after `n` gatherings that each saw the status move. */
  ghost function AfterMoves<W>(ask: Ask<W>, w: W, n: nat): Option<W> {
    if n == 0 then Some(w)
    else
      var one := Gather(ask, w, [], None);
      if one.Moved? then AfterMoves(ask, one.world, n - 1) else None
  }

  /** A status joined is the status of a last gathering, which came after fewer
      moves than there are attempts. */
  lemma {:induction false} LastAttempt<W>(ask: Ask<W>, w: W, left: nat) returns (n: nat, start: W)
    requires Retry(ask, w, left).status.Some?
    ensures n < left && AfterMoves(ask, w, n) == Some(start)
    ensures Gather(ask, start, [], None) == Whole(Retry(ask, w, left).world, Retry(ask, w, left).status.value)
    decreases left
  {
    hide Gather;
    var one := Gather(ask, w, [], None);
    if one.Moved? {
      n, start := LastAttempt(ask, one.world, left - 1);
      n := n + 1;
    } else {
      n, start := 0, w;
    }
  }

  // ---- against somebody honest ----

  /** The page is cut from this status. */
  ghost predicate CutOf(p: Page, status: Bytes) {
    && p.total == |status| && p.digest == Digest(status)
    && p.from + |p.bytes| <= |status| && p.bytes == status[p.from..p.from + |p.bytes|]
  }

  ghost predicate HonestReply(reply: Option<Bytes>, status: Bytes) {
    reply.Some? && PageRead(reply.value).Some? ==> CutOf(PageRead(reply.value).value, status)
  }

  /** Every page is cut from the status held when it is asked; it may be any cut, or
      no page at all. */
  ghost predicate Honest<W(!new)>(ask: Ask<W>, held: W -> Bytes) {
    forall w, from: nat :: HonestReply(ask(w, from).1, held(w))
  }

  /** No two statuses held in these worlds share both a length and a digest. */
  ghost predicate Distinguished<W>(held: W -> Bytes, worlds: seq<W>) {
    forall i, j :: 0 <= i < |worlds| && 0 <= j < |worlds| && SameName(held(worlds[i]), held(worlds[j]))
      ==> held(worlds[i]) == held(worlds[j])
  }

  ghost predicate SameName(a: Bytes, b: Bytes) { |a| == |b| && Digest(a) == Digest(b) }

  lemma {:induction false} SameThroughout<W(!new)>(ask: Ask<W>, held: W -> Bytes, w: W, got: Bytes, first: Option<Page>, status: Bytes)
    requires if first.None? then got == [] && held(w) == status
             else 0 < |got| < first.value.total && first.value.total == |status| && first.value.digest == Digest(status)
    requires Honest(ask, held) && |got| <= |status| && got == status[..|got|]
    requires forall i :: 0 <= i < |Asked(ask, w, got, first)| && SameName(held(Asked(ask, w, got, first)[i]), status)
               ==> held(Asked(ask, w, got, first)[i]) == status
    requires Gather(ask, w, got, first).Whole?
    ensures Gather(ask, w, got, first).status == status
    ensures forall i :: 0 <= i < |Asked(ask, w, got, first)| ==> held(Asked(ask, w, got, first)[i]) == status
    decreases if first.None? then 1 else 0, if first.None? then 0 else first.value.total - |got|
  {
    hide PageRead, Digest, Gather;
    GatherStep(ask, w, got, first);
    var worlds := Asked(ask, w, got, first);
    assert worlds[0] == w;
    var (next, reply) := ask(w, |got|);
    var one := PageRead(reply.value).value;
    assert HonestReply(ask(w, |got|).1, held(w));
    assert SameName(held(w), status);
    assert held(worlds[0]) == status;
    var more := got + one.bytes;
    assert more == status[..|more|];
    var head := if first.None? then one else first.value;
    if |more| < head.total {
      assert one.bytes != [];
      assert worlds[1..] == Asked(ask, next, more, Some(head));
      assert forall i :: 0 <= i < |worlds[1..]| ==> worlds[1..][i] == worlds[i + 1];
      SameThroughout(ask, held, next, more, Some(head), status);
      forall i | 0 <= i < |worlds|
        ensures held(worlds[i]) == status
      {
        if i > 0 {
          assert worlds[i] == worlds[1..][i - 1];
        }
      }
    } else {
      assert worlds == [w];
    }
  }

  /** No torn snapshot. A joined status is, byte for byte, the one held at every ask
      of the last gathering, though it may have moved any number of times before:
      given only that no two statuses held during that gathering share both a
      length and a digest. */
  lemma NoTornSnapshot<W(!new)>(ask: Ask<W>, held: W -> Bytes, w: W) returns (n: nat, start: W)
    requires Honest(ask, held) && Join(ask, w).status.Some?
    ensures n < ATTEMPTS && AfterMoves(ask, w, n) == Some(start)
    ensures var worlds := Asked(ask, start, [], None);
            && worlds != [] && worlds[0] == start
            && (Distinguished(held, worlds) ==>
                  forall i :: 0 <= i < |worlds| ==> held(worlds[i]) == Join(ask, w).status.value)
  {
    hide Gather, PageRead, Digest;
    n, start := LastAttempt(ask, w, ATTEMPTS);
    var worlds := Asked(ask, start, [], None);
    assert worlds[0] == start;
    if Distinguished(held, worlds) {
      forall i | 0 <= i < |worlds| && SameName(held(worlds[i]), held(start))
        ensures held(worlds[i]) == held(start)
      {
        assert SameName(held(worlds[i]), held(worlds[0]));
      }
      SameThroughout(ask, held, start, [], None, held(start));
    }
  }

  /** Somebody honest who always answers with the page asked, and some of what is left. */
  ghost predicate Forthcoming<W(!new)>(ask: Ask<W>, held: W -> Bytes) {
    forall w, from: nat :: from <= |held(w)| ==> FullReply(ask(w, from).1, held(w), from)
  }

  ghost predicate FullReply(reply: Option<Bytes>, status: Bytes, from: nat) {
    reply.Some? && PageRead(reply.value).Some? &&
    var p := PageRead(reply.value).value;
    CutOf(p, status) && p.from == from && (from < |status| ==> p.bytes != [])
  }

  /** A status that stays still through one gathering is gathered. */
  lemma {:induction false} StillIsGathered<W(!new)>(ask: Ask<W>, held: W -> Bytes, w: W, got: Bytes, first: Option<Page>, status: Bytes)
    requires if first.None? then got == []
             else 0 < |got| < first.value.total && first.value.total == |status| && first.value.digest == Digest(status)
    requires Forthcoming(ask, held) && |got| <= |status| && got == status[..|got|]
    requires forall i :: 0 <= i < |Asked(ask, w, got, first)| ==> held(Asked(ask, w, got, first)[i]) == status
    ensures Gather(ask, w, got, first).Whole? && Gather(ask, w, got, first).status == status
    decreases if first.None? then 1 else 0, if first.None? then 0 else first.value.total - |got|
  {
    hide PageRead, Digest, Gather;
    GatherStep(ask, w, got, first);
    var worlds := Asked(ask, w, got, first);
    assert worlds[0] == w;
    var (next, reply) := ask(w, |got|);
    assert FullReply(ask(w, |got|).1, held(w), |got|);
    var one := PageRead(reply.value).value;
    var head := if first.None? then one else first.value;
    var more := got + one.bytes;
    assert more == status[..|more|];
    if |more| < head.total {
      assert worlds[1..] == Asked(ask, next, more, Some(head));
      forall i | 0 <= i < |worlds[1..]|
        ensures held(worlds[1..][i]) == status
      {
        assert worlds[1..][i] == worlds[i + 1];
      }
      StillIsGathered(ask, held, next, more, Some(head), status);
    } else {
      assert more == status;
    }
  }

  /** Somebody honest and forthcoming is never refused for what they sent: one
      gathering ends with a status or with a status seen to move. */
  lemma {:induction false} NeverBroken<W(!new)>(ask: Ask<W>, held: W -> Bytes, w: W, got: Bytes, first: Option<Page>, status: Bytes)
    requires if first.None? then got == [] && held(w) == status
             else 0 < |got| < first.value.total && first.value.total == |status| && first.value.digest == Digest(status)
    requires Forthcoming(ask, held) && Honest(ask, held) && |got| <= |status| && got == status[..|got|]
    requires forall i :: 0 <= i < |Asked(ask, w, got, first)| && SameName(held(Asked(ask, w, got, first)[i]), status)
               ==> held(Asked(ask, w, got, first)[i]) == status
    requires forall v, from: nat :: ask(v, from).1.Some? && PageRead(ask(v, from).1.value).Some?
    ensures !Gather(ask, w, got, first).Broken?
    decreases if first.None? then 1 else 0, if first.None? then 0 else first.value.total - |got|
  {
    hide PageRead, Digest, Gather;
    GatherStep(ask, w, got, first);
    var worlds := Asked(ask, w, got, first);
    assert worlds[0] == w;
    var (next, reply) := ask(w, |got|);
    assert HonestReply(ask(w, |got|).1, held(w));
    var one := PageRead(reply.value).value;
    var head := if first.None? then one else first.value;
    if one.digest == head.digest && one.total == head.total {
      assert SameName(held(w), status);
      assert held(worlds[0]) == status;
      assert FullReply(ask(w, |got|).1, held(w), |got|);
      var more := got + one.bytes;
      assert more == status[..|more|];
      if |more| < head.total {
        assert worlds[1..] == Asked(ask, next, more, Some(head));
        assert forall i :: 0 <= i < |worlds[1..]| ==> worlds[1..][i] == worlds[i + 1];
        NeverBroken(ask, held, next, more, Some(head), status);
      } else {
        assert more == status;
      }
    }
  }

  /** The status held at some ask of a gathering begun at `w` is not the one held at `w`. */
  ghost predicate Moves<W>(ask: Ask<W>, held: W -> Bytes, w: W) {
    var worlds := Asked(ask, w, [], None);
    exists i :: 0 <= i < |worlds| && held(worlds[i]) != held(w)
  }

  /** A gathering of an honest and forthcoming other side sees the status move exactly
      when it does, and has it otherwise. */
  lemma MovedExactly<W(!new)>(ask: Ask<W>, held: W -> Bytes, w: W)
    requires Honest(ask, held) && Forthcoming(ask, held) && Distinguished(held, Asked(ask, w, [], None))
    requires forall v, from: nat :: ask(v, from).1.Some? && PageRead(ask(v, from).1.value).Some?
    ensures Gather(ask, w, [], None).Moved? <==> Moves(ask, held, w)
    ensures !Moves(ask, held, w) ==> Gather(ask, w, [], None).Whole? && Gather(ask, w, [], None).status == held(w)
  {
    hide PageRead, Digest, Gather;
    var worlds := Asked(ask, w, [], None);
    assert worlds[0] == w;
    forall i | 0 <= i < |worlds| && SameName(held(worlds[i]), held(w))
      ensures held(worlds[i]) == held(w)
    {
      assert SameName(held(worlds[i]), held(worlds[0]));
    }
    NeverBroken(ask, held, w, [], None, held(w));
    if !Moves(ask, held, w) {
      StillIsGathered(ask, held, w, [], None, held(w));
    } else if Gather(ask, w, [], None).Whole? {
      SameThroughout(ask, held, w, [], None, held(w));
    }
  }

  /** The status moves during each of `n` gatherings, one begun where the last ended. */
  ghost predicate MovesThroughout<W>(ask: Ask<W>, held: W -> Bytes, w: W, n: nat) {
    n == 0 || (Moves(ask, held, w) && MovesThroughout(ask, held, Gather(ask, w, [], None).world, n - 1))
  }

  /** The statuses held during each gathering of a join can be told apart. */
  ghost predicate AlwaysDistinguished<W>(ask: Ask<W>, held: W -> Bytes, w: W, left: nat) {
    left > 0 ==>
      && Distinguished(held, Asked(ask, w, [], None))
      && (Moves(ask, held, w) ==> AlwaysDistinguished(ask, held, Gather(ask, w, [], None).world, left - 1))
  }

  /** Of an honest and forthcoming other side, a status is missed if and only if it moved
      during every one of the attempts. */
  lemma {:induction false} FailsOnlyMoving<W(!new)>(ask: Ask<W>, held: W -> Bytes, w: W, left: nat)
    requires Honest(ask, held) && Forthcoming(ask, held) && AlwaysDistinguished(ask, held, w, left)
    requires forall v, from: nat :: ask(v, from).1.Some? && PageRead(ask(v, from).1.value).Some?
    ensures Retry(ask, w, left).status.None? <==> MovesThroughout(ask, held, w, left)
    decreases left
  {
    hide PageRead, Digest, Gather, Moves;
    if left > 0 {
      MovedExactly(ask, held, w);
      var one := Gather(ask, w, [], None);
      if one.Moved? {
        FailsOnlyMoving(ask, held, one.world, left - 1);
      }
    }
  }
}
