/** A read of the event log is paged like the status, and the log may grow between two
    pages. What is joined is nevertheless the daemon's one answer, to a log it really had
    at some time during the read: what the reader of events takes it for. */
module EventPages {
  import opened Bytes
  import opened Pages
  import opened Snapshot
  import opened SnapshotSafety
  import opened PageServer
  import opened Events

  /** `log(t)` is the log at the `t`-th ask. Events are only ever added. */
  ghost predicate Grows(log: nat -> seq<Bytes>) {
    forall s: nat, t: nat :: s <= t ==> log(s) <= log(t)
  }

  /** What the daemon cuts the pages of one read from. */
  ghost function Telling(log: nat -> seq<Bytes>, cursor: int): nat -> Bytes {
    (t: nat) => SinceText(log(t), cursor)
  }

  // ---- time passes ----

  lemma {:induction false} GatherEndsLater(held: nat -> Bytes, cap: nat, escapedCap: nat, t: nat, got: Bytes, first: Option<Page>)
    requires if first.None? then got == [] else 0 < |got| < first.value.total
    ensures Gather<nat>(Serve(held, cap, escapedCap), t, got, first).world > t
    decreases if first.None? then 1 else 0, if first.None? then 0 else first.value.total - |got|
  {
    hide PageOf, PageRead, Fnv.Digest, Gather;
    var ask := Serve(held, cap, escapedCap);
    GatherStep(ask, t, got, first);
    var (next, reply) := ask(t, |got|);
    assert next == t + 1;
    var page := if reply.None? then None else PageRead(reply.value);
    if page.Some? {
      var one := page.value;
      var head := if first.None? then one else first.value;
      if one.digest == head.digest && one.total == head.total && one.from == |got|
         && one.bytes != [] && |got + one.bytes| < head.total {
        GatherEndsLater(held, cap, escapedCap, next, got + one.bytes, Some(head));
      }
    }
  }

  /** The last gathering begins after the read does, and before it ends. */
  lemma {:induction false} BegunWithin(held: nat -> Bytes, cap: nat, escapedCap: nat, t: nat, n: nat, left: nat, start: nat)
    requires n < left && AfterMoves<nat>(Serve(held, cap, escapedCap), t, n) == Some(start)
    ensures t <= start < Retry<nat>(Serve(held, cap, escapedCap), t, left).world
    decreases n
  {
    hide Gather;
    var ask := Serve(held, cap, escapedCap);
    var one := Gather<nat>(ask, t, [], None);
    GatherEndsLater(held, cap, escapedCap, t, [], None);
    if n > 0 {
      BegunWithin(held, cap, escapedCap, one.world, n - 1, left - 1, start);
    } else if one.Moved? {
      RetryEndsLater(held, cap, escapedCap, one.world, left - 1);
    }
  }

  lemma {:induction false} RetryEndsLater(held: nat -> Bytes, cap: nat, escapedCap: nat, t: nat, left: nat)
    ensures Retry<nat>(Serve(held, cap, escapedCap), t, left).world >= t
    decreases left
  {
    hide Gather;
    if left > 0 {
      var one := Gather<nat>(Serve(held, cap, escapedCap), t, [], None);
      GatherEndsLater(held, cap, escapedCap, t, [], None);
      if one.Moved? {
        RetryEndsLater(held, cap, escapedCap, one.world, left - 1);
      }
    }
  }

  // ---- what a read of the log reads ----

  /** The joined text of a read begun at `t0` answers the cursor as the log stood at some
      time `t` of the read, whatever was told before, during and after it: given only
      that no two answers of the last gathering share both a length and a digest. */
  lemma ReadIsOfHeldLog(log: nat -> seq<Bytes>, cursor: int, cap: nat, escapedCap: nat, t0: nat, now: nat)
    returns (t: nat)
    requires Grows(log) && cursor <= |log(t0)|
    requires Join(Serve(Telling(log, cursor), cap, escapedCap), t0).status.Some?
    requires now >= Join(Serve(Telling(log, cursor), cap, escapedCap), t0).world
    ensures var ask := Serve(Telling(log, cursor), cap, escapedCap);
            && t0 <= t < Join(ask, t0).world
            && |log(t0)| <= |log(t)| <= |log(now)|
            && (Distinguished(Telling(log, cursor), Asked(ask, t, [], None)) ==>
                  Answered(Join(ask, t0).status, log(now), cursor, |log(t)|))
  {
    hide Asked, Distinguished, AfterMoves, Retry, SinceText;
    var held := Telling(log, cursor);
    var n, start := JoinedWasHeld(held, cap, escapedCap, t0);
    t := start;
    BegunWithin(held, cap, escapedCap, t0, n, ATTEMPTS, start);
    assert log(t0) <= log(t) <= log(now);
    if Distinguished(held, Asked(Serve(held, cap, escapedCap), t, [], None)) {
      assert held(t) == Join(Serve(held, cap, escapedCap), t0).status.value;
      assert log(now)[..|log(t)|] == log(t);
    }
  }
}
