/** The other side of a gathering: how the daemon cuts a page from the status it
    holds when it is asked. It is honest, and forthcoming where it has any room. */
module PageServer {
  import opened Bytes
  import opened Decimals
  import opened Fnv
  import opened Pages
  import opened Snapshot
  import opened SnapshotSafety
  import Escape

  /** How many of the next `count` bytes fit `room` once escaped: `FittingFits` says that
      they do, and `FittingMost` that one more would not. */
  function Fitting(status: Bytes, at: nat, count: nat, room: nat): (n: nat)
    requires at + count <= |status|
    ensures n <= count
    ensures count > 0 && room >= 3 ==> n > 0
    decreases count
  {
    if count == 0 || |Escape.EscapeByte(status[at])| > room then 0
    else 1 + Fitting(status, at + 1, count - 1, room - |Escape.EscapeByte(status[at])|)
  }

  lemma {:induction false} FittingFits(status: Bytes, at: nat, count: nat, room: nat)
    requires at + count <= |status|
    ensures |Escape.Escaped(status[at..at + Fitting(status, at, count, room)])| <= room
    decreases count
  {
    if count > 0 && |Escape.EscapeByte(status[at])| <= room {
      var left := room - |Escape.EscapeByte(status[at])|;
      var rest := Fitting(status, at + 1, count - 1, left);
      assert status[at..at + 1 + rest][1..] == status[at + 1..at + 1 + rest];
      FittingFits(status, at + 1, count - 1, left);
    }
  }

  lemma FittingStep(status: Bytes, at: nat, count: nat, room: nat)
    requires at + count <= |status| && count > 0
    ensures var one := |Escape.EscapeByte(status[at])|;
            Fitting(status, at, count, room) == if one > room then 0 else 1 + Fitting(status, at + 1, count - 1, room - one)
  {}

  lemma {:induction false} FittingMost(status: Bytes, at: nat, count: nat, room: nat)
    requires at + count <= |status|
    ensures var n := Fitting(status, at, count, room);
            n < count ==> |Escape.Escaped(status[at..at + n + 1])| > room
    decreases count
  {
    if count > 0 {
      var n := Fitting(status, at, count, room);
      EscapedFirst(status[at..at + 1]);
      if n < count {
        EscapedFirst(status[at..at + n + 1]);
        assert status[at..at + n + 1][0] == status[at];
      }
      if |Escape.EscapeByte(status[at])| <= room {
        assert n < count ==> status[at..at + n + 1][1..] == status[at + 1..at + 1 + n];
        FittingMost(status, at + 1, count - 1, room - |Escape.EscapeByte(status[at])|);
      }
    }
  }

  lemma EscapedFirst(t: Bytes)
    requires t != []
    ensures Escape.Escaped(t) == Escape.EscapeByte(t[0]) + Escape.Escaped(t[1..])
  {}

  function Smaller(a: nat, b: nat): nat { if a < b then a else b }

  /** A page of `status` from `from` that fits `cap`, and `escapedCap` once escaped
      where that is not 0; none where not even its header would. */
  function PageOf(status: Bytes, from: nat, cap: nat, escapedCap: nat): Option<Bytes> {
    var at := Smaller(from, |status|);
    if HeaderFits(status, at, cap, escapedCap)
    then Some(Printed(status, at, CutCount(status, at, cap, escapedCap)))
    else None
  }

  function Printed(status: Bytes, at: nat, count: nat): Bytes
    requires at + count <= |status|
  {
    PagePrinted(Page(|status|, at, Digest(status), status[at..at + count]))
  }

  /** The header at its longest, which is the one a page is sized by. */
  function Longest(status: Bytes, at: nat): Bytes { PageHeader(|status|, at, |status|, Digest(status)) }

  predicate HeaderFits(status: Bytes, at: nat, cap: nat, escapedCap: nat) {
    |Longest(status, at)| < cap && (escapedCap != 0 ==> |Escape.Escaped(Longest(status, at))| < escapedCap)
  }

  /** How many bytes the page takes. */
  function CutCount(status: Bytes, at: nat, cap: nat, escapedCap: nat): (count: nat)
    requires at <= |status| && HeaderFits(status, at, cap, escapedCap)
    ensures at + count <= |status|
  {
    var most := Smaller(|status| - at, cap - |Longest(status, at)|);
    if escapedCap == 0 then most else Fitting(status, at, most, escapedCap - |Escape.Escaped(Longest(status, at))|)
  }

  /** The loop that takes bytes while they fit. */
  method TakeFitting(status: Bytes, from: nat, count: nat, space: nat) returns (take: nat)
    requires from + count <= |status|
    ensures take == Fitting(status, from, count, space) <= count
    ensures |Escape.Escaped(status[from..from + take])| <= space
    ensures take < count ==> |Escape.Escaped(status[from..from + take + 1])| > space
  {
    hide Escape.EscapeByte, Escape.Escaped, Fitting;
    FittingFits(status, from, count, space);
    FittingMost(status, from, count, space);
    var room := space;
    take := 0;
    while take < count
      invariant 0 <= take <= count
      invariant 0 <= room && Fitting(status, from, count, space) == take + Fitting(status, from + take, count - take, room)
    {
      FittingStep(status, from + take, count - take, room);
      var one := |Escape.EscapeByte(status[from + take])|;
      if one > room {
        return;
      }
      room := room - one;
      take := take + 1;
    }
  }

  /** `page_of`. */
  method CutPage(status: Bytes, asked: nat, cap: nat, escapedCap: nat) returns (r: Option<Bytes>)
    ensures r == PageOf(status, asked, cap, escapedCap)
    ensures r.Some? ==> |r.value| <= cap && (escapedCap != 0 ==> |Escape.Escaped(r.value)| <= escapedCap)
  {
    hide PageHeader, Digest, Escape.Escaped, Fitting;
    PageFits(status, asked, cap, escapedCap);
    var from := if asked > |status| then |status| else asked;
    var digest := ComputeDigest(status);
    var header := PageHeader(|status|, from, |status|, digest);
    if |header| >= cap || (escapedCap != 0 && |Escape.Escaped(header)| >= escapedCap) {
      return None;
    }
    var count := |status| - from;
    if count > cap - |header| {
      count := cap - |header|;
    }
    if escapedCap != 0 {
      count := TakeFitting(status, from, count, escapedCap - |Escape.Escaped(header)|);
    }
    assert |status[from..from + count]| == count;
    return Some(PageHeader(|status|, from, count, digest) + status[from..from + count]);
  }

  // ---- a page fits what it was cut to fit ----

  lemma {:induction false} EscapedConcat(a: Bytes, b: Bytes)
    ensures Escape.Escaped(a + b) == Escape.Escaped(a) + Escape.Escaped(b)
    decreases |a|
  {
    hide Escape.EscapeByte;
    if a == [] {
      assert a + b == b && [] + Escape.Escaped(b) == Escape.Escaped(b);
    } else {
      EscapedConcat(a[1..], b);
      assert (a + b)[0] == a[0] && (a + b)[1..] == a[1..] + b;
      Assoc(Escape.EscapeByte(a[0]), Escape.Escaped(a[1..]), Escape.Escaped(b));
    }
  }

  lemma {:induction false} EscapedPlain(t: Bytes)
    requires forall i :: 0 <= i < |t| ==> !Escape.NeedsEscape(t[i])
    ensures |Escape.Escaped(t)| == |t|
    decreases |t|
  {
    if t != [] {
      EscapedPlain(t[1..]);
    }
  }

  lemma {:induction false} DecimalShorter(a: nat, b: nat)
    requires a <= b
    ensures |Decimal(a)| <= |Decimal(b)|
    decreases b
  {
    if b >= 10 && a >= 10 {
      DecimalShorter(a / 10, b / 10);
    }
  }

  /** Escaped, a header grows by two for each of its four spaces and its newline. */
  lemma HeaderLength(total: nat, from: nat, count: nat, digest: Hash)
    ensures var length := |Decimal(total)| + |Decimal(from)| + |Decimal(count)| + 23;
            && |PageHeader(total, from, count, digest)| == length
            && |Escape.Escaped(PageHeader(total, from, count, digest))| == length + 10
  {
    hide Decimal, Hex, Escape.Escaped;
    var t, f, n, h := Decimal(total), Decimal(from), Decimal(count), Hex(digest, 16);
    EscapedPlain(t);
    EscapedPlain(f);
    EscapedPlain(n);
    EscapedPlain(h);
    OneEscapes();
    var e := h + [NEWLINE];
    EscapedConcat(h, [NEWLINE]);
    Spaced(n, e);
    Spaced(f, n + ([SPACE] + e));
    Spaced(t, f + ([SPACE] + (n + ([SPACE] + e))));
    EscapedConcat(OK, t + ([SPACE] + (f + ([SPACE] + (n + ([SPACE] + e))))));
  }

  lemma Spaced(a: Bytes, b: Bytes)
    ensures |Escape.Escaped(a + ([SPACE] + b))| == |Escape.Escaped(a)| + 3 + |Escape.Escaped(b)|
  {
    hide Escape.Escaped;
    EscapedConcat(a, [SPACE] + b);
    EscapedConcat([SPACE], b);
    OneEscapes();
  }

  lemma OneEscapes()
    ensures |Escape.Escaped([SPACE])| == 3 && |Escape.Escaped([NEWLINE])| == 3 && |Escape.Escaped(OK)| == 5
  {
    assert OK[1..] == [107, SPACE] && OK[1..][1..] == [SPACE];
  }

  /** No page is longer than it may be, bare or escaped. */
  lemma PageFits(status: Bytes, from: nat, cap: nat, escapedCap: nat)
    ensures var r := PageOf(status, from, cap, escapedCap);
            r.Some? ==> |r.value| <= cap && (escapedCap != 0 ==> |Escape.Escaped(r.value)| <= escapedCap)
  {
    hide Longest, Printed, Decimal, Escape.Escaped;
    var at := Smaller(from, |status|);
    if HeaderFits(status, at, cap, escapedCap) {
      var most := Smaller(|status| - at, cap - |Longest(status, at)|);
      var count := CutCount(status, at, cap, escapedCap);
      if escapedCap != 0 {
        FittingFits(status, at, most, escapedCap - |Escape.Escaped(Longest(status, at))|);
      }
      PrintedLength(status, at, count);
      DecimalShorter(count, |status|);
    }
  }

  /** How long a page is, against the header it was sized by. */
  lemma PrintedLength(status: Bytes, at: nat, count: nat)
    requires at + count <= |status|
    ensures |Printed(status, at, count)| == |Longest(status, at)| - |Decimal(|status|)| + |Decimal(count)| + count
    ensures |Escape.Escaped(Printed(status, at, count))| ==
            |Escape.Escaped(Longest(status, at))| - |Decimal(|status|)| + |Decimal(count)|
            + |Escape.Escaped(status[at..at + count])|
  {
    hide PageHeader, Decimal, Digest, Escape.Escaped;
    var d := Digest(status);
    HeaderLength(|status|, at, |status|, d);
    HeaderLength(|status|, at, count, d);
    EscapedConcat(PageHeader(|status|, at, count, d), status[at..at + count]);
    assert |status[at..at + count]| == count;
  }

  // ---- when a page is the longest that fits ----

  /** A page of so many bytes is within both limits. */
  predicate Fits(status: Bytes, at: nat, count: nat, cap: nat, escapedCap: nat) {
    && at + count <= |status| && |Printed(status, at, count)| <= cap
    && (escapedCap != 0 ==> |Escape.Escaped(Printed(status, at, count))| <= escapedCap)
  }

  /** If a longer page fits, so does a shorter one. */
  lemma ShorterFits(status: Bytes, at: nat, count: nat, more: nat, cap: nat, escapedCap: nat)
    requires count <= more && Fits(status, at, more, cap, escapedCap)
    ensures at + more <= |status| && Fits(status, at, count, cap, escapedCap)
  {
    hide Longest, Printed, Decimal, Escape.Escaped;
    PrintedLength(status, at, count);
    PrintedLength(status, at, more);
    DecimalShorter(count, more);
    assert status[at..at + more] == status[at..at + count] + status[at + count..at + more];
    EscapedConcat(status[at..at + count], status[at + count..at + more]);
  }

  ghost predicate NoneLonger(status: Bytes, at: nat, count: nat, cap: nat, escapedCap: nat) {
    forall more: nat :: Fits(status, at, more, cap, escapedCap) ==> more <= count
  }

  /** The header as sized and one byte more are over a limit, even given back the
      digits that its count does not need. */
  predicate Filled(status: Bytes, at: nat, count: nat, cap: nat, escapedCap: nat)
    requires at + count < |status|
  {
    var spare := |Decimal(|status|)| - |Decimal(count + 1)|;
    || |Longest(status, at)| + count + 1 > cap + spare
    || (escapedCap != 0 &&
        |Escape.Escaped(Longest(status, at))| + |Escape.Escaped(status[at..at + count + 1])| > escapedCap + spare)
  }

  lemma FilledExactly(status: Bytes, at: nat, count: nat, cap: nat, escapedCap: nat)
    requires at + count < |status|
    ensures Filled(status, at, count, cap, escapedCap) <==> !Fits(status, at, count + 1, cap, escapedCap)
  {
    hide Longest, Printed, Decimal, Escape.Escaped;
    PrintedLength(status, at, count + 1);
  }

  /** Sizing its header for the largest count it could name, the daemon cuts a page that
      fits, and the longest one exactly when the digits not needed hold no byte more. */
  lemma LongestExactly(status: Bytes, at: nat, cap: nat, escapedCap: nat)
    requires at <= |status| && HeaderFits(status, at, cap, escapedCap)
    ensures var count := CutCount(status, at, cap, escapedCap);
            && Fits(status, at, count, cap, escapedCap)
            && (NoneLonger(status, at, count, cap, escapedCap) <==>
                  at + count == |status| || Filled(status, at, count, cap, escapedCap))
  {
    hide CutCount, HeaderFits, Fits, Filled;
    var count := CutCount(status, at, cap, escapedCap);
    CutFits(status, at, cap, escapedCap);
    forall more: nat | Fits(status, at, more, cap, escapedCap) && more > count
      ensures at + count < |status| && Fits(status, at, count + 1, cap, escapedCap)
    {
      ShorterFits(status, at, count + 1, more, cap, escapedCap);
    }
    if at + count < |status| {
      FilledExactly(status, at, count, cap, escapedCap);
    }
  }

  /** Without a limit on the escaped page, the inputs alone say when. */
  lemma LongestBare(status: Bytes, at: nat, cap: nat)
    requires at <= |status| && HeaderFits(status, at, cap, 0)
    ensures var room := cap - |Longest(status, at)|;
            NoneLonger(status, at, CutCount(status, at, cap, 0), cap, 0) <==>
              |status| - at <= room || |Decimal(room + 1)| == |Decimal(|status|)|
  {
    hide Longest, Decimal, Escape.Escaped, Fits, NoneLonger;
    LongestExactly(status, at, cap, 0);
    var room := cap - |Longest(status, at)|;
    if room < |status| - at { DecimalShorter(room + 1, |status|); }
  }

  lemma CutFits(status: Bytes, at: nat, cap: nat, escapedCap: nat)
    requires at <= |status| && HeaderFits(status, at, cap, escapedCap)
    ensures Fits(status, at, CutCount(status, at, cap, escapedCap), cap, escapedCap)
  {
    hide Longest, Printed, Escape.Escaped, CutCount, HeaderFits;
    PageFits(status, at, cap, escapedCap);
  }

  /** It happens: of ten bytes with room for 36, the page takes eight, and nine fit. */
  lemma RoomMayBeLeft(status: Bytes)
    requires |status| == 10
    ensures HeaderFits(status, 0, 36, 0) && CutCount(status, 0, 36, 0) == 8 && Fits(status, 0, 9, 36, 0)
  {
    hide Digest, Longest, Printed;
    HeaderSized(status, 0);
    PrintedLength(status, 0, 9);
    assert Decimal(10) == [49, 48] && Decimal(0) == [48] && Decimal(9) == [57];
  }

  lemma HeaderSized(status: Bytes, at: nat)
    ensures |Longest(status, at)| == 2 * |Decimal(|status|)| + |Decimal(at)| + 23
  {
    hide Decimal, Digest, PageHeader;
    HeaderLength(|status|, at, |status|, Digest(status));
  }

  // ---- the daemon as the other side of a gathering ----

  /** The daemon's answers over time: `held(t)` is its status at the `t`-th ask. */
  ghost function Serve(held: nat -> Bytes, cap: nat, escapedCap: nat): Ask<nat> {
    (t: nat, from: nat) => (t + 1, PageOf(held(t), from, cap, escapedCap))
  }

  /** Room for the longest header a status it serves can have, and one more byte. */
  predicate Roomy(cap: nat, escapedCap: nat) {
    cap > 47 && (escapedCap == 0 || escapedCap >= 60)
  }

  lemma CutReads(status: Bytes, from: nat, cap: nat, escapedCap: nat)
    ensures HonestReply(PageOf(status, from, cap, escapedCap), status)
    ensures Roomy(cap, escapedCap) && |status| <= TOTAL_MAX ==>
              var r := PageOf(status, from, cap, escapedCap);
              && r.Some? && PageRead(r.value).Some?
              && (from <= |status| ==> FullReply(r, status, from))
  {
    hide PageHeader, PageRead, Decimal, Digest, Escape.Escaped, PagePrinted, Pow10, Fitting;
    var at := Smaller(from, |status|);
    var d := Digest(status);
    HeaderLength(|status|, at, |status|, d);
    DecimalLength(|status|, 8);
    DecimalLength(at, 8);
    EightDigits();
    if HeaderFits(status, at, cap, escapedCap) {
      var count := CutCount(status, at, cap, escapedCap);
      var p := Page(|status|, at, d, status[at..at + count]);
      if |status| <= TOTAL_MAX { PageRoundTrip(p); } else { TooLongIsNoPage(p); }
    }
  }

  /** No status it holds is longer than any the client reads. */
  ghost predicate Readable(held: nat -> Bytes) { forall t: nat :: |held(t)| <= TOTAL_MAX }

  /** The daemon is honest whatever its status does, and forthcoming where it has room. */
  lemma DaemonHonest(held: nat -> Bytes, cap: nat, escapedCap: nat)
    ensures Honest(Serve(held, cap, escapedCap), held)
    ensures Roomy(cap, escapedCap) && Readable(held) ==> Forthcoming(Serve(held, cap, escapedCap), held)
  {
    hide PageOf, PageRead;
    forall t: nat, from: nat
      ensures HonestReply(Serve(held, cap, escapedCap)(t, from).1, held(t))
      ensures Roomy(cap, escapedCap) && Readable(held) && from <= |held(t)| ==> FullReply(Serve(held, cap, escapedCap)(t, from).1, held(t), from)
    {
      CutReads(held(t), from, cap, escapedCap);
    }
  }

  /** Client and daemon together: whatever the status does between asks, what the
      client joins is a status the daemon held throughout the last gathering. */
  lemma JoinedWasHeld(held: nat -> Bytes, cap: nat, escapedCap: nat, t0: nat) returns (n: nat, start: nat)
    requires Join(Serve(held, cap, escapedCap), t0).status.Some?
    ensures var ask := Serve(held, cap, escapedCap);
            && n < 4 && AfterMoves(ask, t0, n) == Some(start)
            && var asks := Asked(ask, start, [], None);
               && asks != [] && asks[0] == start
               && (Distinguished(held, asks) ==>
                     forall i :: 0 <= i < |asks| ==> held(asks[i]) == Join(ask, t0).status.value)
  {
    hide Honest, Join, AfterMoves, Asked, Distinguished;
    DaemonHonest(held, cap, escapedCap);
    n, start := NoTornSnapshot(Serve(held, cap, escapedCap), held, t0);
  }

  /** A daemon with room is refused nothing but for moving: the client goes without
      exactly when the status moved under every attempt. */
  lemma MissedOnlyMoving(held: nat -> Bytes, cap: nat, escapedCap: nat, t0: nat)
    requires Roomy(cap, escapedCap) && Readable(held)
    requires AlwaysDistinguished(Serve(held, cap, escapedCap), held, t0, 4)
    ensures var ask := Serve(held, cap, escapedCap);
            Join(ask, t0).status.None? <==> MovesThroughout(ask, held, t0, 4)
  {
    hide PageOf, PageRead, Retry, MovesThroughout, AlwaysDistinguished, Honest, Forthcoming;
    var ask := Serve(held, cap, escapedCap);
    DaemonHonest(held, cap, escapedCap);
    forall t: nat, from: nat ensures ask(t, from).1.Some? && PageRead(ask(t, from).1.value).Some? {
      CutReads(held(t), from, cap, escapedCap);
    }
    FailsOnlyMoving(ask, held, t0, ATTEMPTS);
  }

  /** A status that rests is had at the first attempt. */
  lemma RestingIsJoined(held: nat -> Bytes, cap: nat, escapedCap: nat, t0: nat, status: Bytes)
    requires Roomy(cap, escapedCap) && Readable(held)
    requires forall t: nat :: t >= t0 ==> held(t) == status
    ensures Join(Serve(held, cap, escapedCap), t0).status == Some(status)
  {
    hide PageOf, PageRead, Gather, Honest, Forthcoming;
    var ask := Serve(held, cap, escapedCap);
    DaemonHonest(held, cap, escapedCap);
    AskedLater(held, cap, escapedCap, t0, [], None);
    StillIsGathered(ask, held, t0, [], None, status);
  }

  predicate NoneBefore(asks: seq<nat>, t: nat) { forall i :: 0 <= i < |asks| ==> asks[i] >= t }

  /** Time only passes. */
  lemma {:induction false} AskedLater(held: nat -> Bytes, cap: nat, escapedCap: nat, t: nat, got: Bytes, first: Option<Page>)
    requires if first.None? then got == [] else 0 < |got| < first.value.total
    ensures NoneBefore(Asked(Serve(held, cap, escapedCap), t, got, first), t)
    decreases if first.None? then 1 else 0, if first.None? then 0 else first.value.total - |got|
  {
    hide PageOf, PageRead;
    var ask := Serve(held, cap, escapedCap);
    var (next, reply) := ask(t, |got|);
    var page := if reply.None? then None else PageRead(reply.value);
    if page.Some? {
      var one := page.value;
      var head := if first.None? then one else first.value;
      if one.digest == head.digest && one.total == head.total && one.from == |got|
         && one.bytes != [] && |got + one.bytes| < head.total {
        AskedLater(held, cap, escapedCap, next, got + one.bytes, Some(head));
        var rest := Asked(ask, next, got + one.bytes, Some(head));
        assert NoneBefore(rest, next) && Asked(ask, t, got, first) == [t] + rest;
      }
    }
  }
}
