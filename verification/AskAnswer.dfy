/** What a request asked over fuzznet is answered with: what the replies carried, and no
    more; and, where the daemon has an answer and it rests, that answer. */
module AskAnswer {
  import opened Bytes
  import opened Decimals
  import opened Fnv
  import opened Pages
  import opened Snapshot
  import opened SnapshotSafety
  import opened PageServer
  import opened AskHere
  import Escape
  import Upload

  // ---- the lines asked ----

  /** Every line of the log asks for this request, from some offset, and came to what
      became of such a line at that time. */
  ghost predicate Asks(fate: Fate, request: Bytes, log: seq<Exchange>) {
    forall i :: 0 <= i < |log| ==> AsksAt(fate, request, log, i)
  }

  ghost predicate AsksAt(fate: Fate, request: Bytes, log: seq<Exchange>, i: nat)
    requires i < |log|
  {
    log[i].outcome == fate(i, log[i].line) && exists from: nat :: log[i].line == AskLine(from, request)
  }

  lemma PageAsks(fate: Fate, request: Bytes, w: World, from: nat)
    requires Asks(fate, request, w.log)
    ensures w.log <= FetchPage(fate, request, w, from).0.log && Asks(fate, request, FetchPage(fate, request, w, from).0.log)
  {
    hide AskLine, Escape.Unescaped, AskAgain, LineFits;
    if LineFits(from, request) {
      PageTries(fate, request, w, from);
      var log := FetchPage(fate, request, w, from).0.log;
      forall i | 0 <= i < |log| ensures AsksAt(fate, request, log, i) {
        if i < |w.log| {
          assert log[i] == w.log[i] && AsksAt(fate, request, w.log, i);
        } else {
          assert log[i].line == AskLine(from, request);
        }
      }
    }
  }

  lemma {:induction false} WorkAsks(fate: Fate, request: Bytes, w: World, looks: nat)
    requires looks <= WORK_LOOKS && Asks(fate, request, w.log)
    ensures Asks(fate, request, Work(fate, request, w, looks).world.log)
    decreases WORK_LOOKS - looks
  {
    hide FetchPage, Retry, StillWorking, Asks;
    var ask := Asking(fate, request);
    var kept := (v: World) => Asks(fate, request, v.log);
    forall v: World, from: nat | kept(v) ensures kept(ask(v, from).0) {
      PageAsks(fate, request, v, from);
    }
    RetryKeeps(ask, w, ATTEMPTS, kept, kept);
    var one := Join(ask, w);
    if one.status.Some? && StillWorking(one.status.value) && looks < WORK_LOOKS {
      WorkAsks(fate, request, one.world, looks + 1);
    }
  }

  /** What is asked for: the request, or where it is long the name it is staged under. */
  function AskedFor(request: CString): Bytes {
    if |request| > 360 then [AT_SIGN] + Hex(Digest(request), 16) else request
  }

  /** Whatever is asked, is asked for this request. */
  lemma HereAsks(fate: Fate, served: bool, pieces: Upload.Replies, request: CString)
    ensures Asks(fate, AskedFor(request), Here(fate, served, pieces, Some(request)).log)
  {
    hide Work, Digest, Upload.AllTaken;
    WorkAsks(fate, AskedFor(request), START, 0);
  }

  // ---- the answer is what the replies carried ----

  /** `pages` came back, in order and each where the one before it ended, in the replies at
      `at` of the log, to lines that asked for them; all of one total and one digest. */
  ghost predicate Carried(request: Bytes, log: seq<Exchange>, at: seq<nat>, pages: seq<Pages.Page>,
                          from: nat, total: nat, digest: Hash)
    decreases |pages|
  {
    && |at| == |pages|
    && (pages != [] ==>
          var one := pages[0];
          && at[0] < |log| && (|at| > 1 ==> at[0] < at[1])
          && log[at[0]].line == AskLine(from, request) && IsOk(log[at[0]].outcome)
          && CarriesPage(log[at[0]].outcome.text, one)
          && one.from == from && one.total == total && one.digest == digest
          && Carried(request, log, at[1..], pages[1..], from + |one.bytes|, total, digest))
  }

  /** The reply is fuzznet's `ok` and the page, escaped. */
  ghost predicate CarriesPage(text: Bytes, page: Pages.Page) {
    OK <= text && var t := Escape.Unescaped(text[3..], 0); t.Some? && PageRead(t.value) == Some(page)
  }

  lemma {:induction false} GatherCarried(fate: Fate, request: Bytes, w: World, got: Bytes, first: Option<Pages.Page>)
    returns (at: seq<nat>, pages: seq<Pages.Page>)
    requires if first.None? then got == [] else 0 < |got| < first.value.total
    requires Gather(Asking(fate, request), w, got, first).Whole?
    ensures pages != [] && at != [] && at[0] >= |w.log|
    ensures var r := Gather(Asking(fate, request), w, got, first);
            var total, digest := pages[0].total, pages[0].digest;
            && (first.Some? ==> total == first.value.total && digest == first.value.digest)
            && Carried(request, r.world.log, at, pages, |got|, total, digest)
            && r.status == got + Joint(pages) && |r.status| == total && Digest(r.status) == digest
    decreases if first.None? then 1 else 0, if first.None? then 0 else first.value.total - |got|
  {
    hide PageRead, Digest, Gather, AskLine, LineFits, Escape.Unescaped, AskAgain;
    var ask := Asking(fate, request);
    GatherStep(ask, w, got, first);
    var (next, reply) := ask(w, |got|);
    var one := PageRead(reply.value).value;
    var head := if first.None? then one else first.value;
    var here := OnePage(fate, request, w, |got|, one);
    if |got + one.bytes| < head.total {
      var at', pages' := GatherCarried(fate, request, next, got + one.bytes, Some(head));
      at, pages := [here] + at', [one] + pages';
      assert at[1..] == at' && pages[1..] == pages';
      assert (got + one.bytes) + Joint(pages') == got + Joint(pages);
      var log := Gather(ask, next, got + one.bytes, Some(head)).world.log;
      GatherGrows(fate, request, next, got + one.bytes, Some(head));
      assert log[here] == next.log[here];
    } else {
      at, pages := [here], [one];
      assert pages[1..] == [] && at[1..] == [] && one.bytes + [] == one.bytes;
    }
  }

  /** A page that came back is in the last reply. */
  lemma OnePage(fate: Fate, request: Bytes, w: World, from: nat, one: Pages.Page) returns (at: nat)
    requires var (next, reply) := Asking(fate, request)(w, from); reply.Some? && PageRead(reply.value) == Some(one)
    ensures var next := Asking(fate, request)(w, from).0;
            && |w.log| <= at == |next.log| - 1
            && next.log[at].line == AskLine(from, request) && IsOk(next.log[at].outcome)
            && CarriesPage(next.log[at].outcome.text, one)
  {
    hide PageRead, AskLine, Escape.Unescaped, AskAgain, LineFits;
    PageTries(fate, request, w, from);
    at := |FetchPage(fate, request, w, from).0.log| - 1;
  }

  lemma {:induction false} GatherGrows(fate: Fate, request: Bytes, w: World, got: Bytes, first: Option<Pages.Page>)
    requires if first.None? then got == [] else 0 < |got| < first.value.total
    ensures w.log <= Gather(Asking(fate, request), w, got, first).world.log
    decreases if first.None? then 1 else 0, if first.None? then 0 else first.value.total - |got|
  {
    hide PageRead, Digest, Gather, FetchPage;
    var ask := Asking(fate, request);
    GatherStep(ask, w, got, first);
    PageGrows(fate, request, w, |got|);
    var (next, reply) := ask(w, |got|);
    var page := if reply.None? then None else PageRead(reply.value);
    if page.Some? {
      var one := page.value;
      var head := if first.None? then one else first.value;
      if one.digest == head.digest && one.total == head.total && one.from == |got|
         && one.bytes != [] && |got + one.bytes| < head.total {
        GatherGrows(fate, request, next, got + one.bytes, Some(head));
      }
    }
  }

  lemma PageGrows(fate: Fate, request: Bytes, w: World, from: nat)
    ensures w.log <= FetchPage(fate, request, w, from).0.log
  {
    hide AskLine, Escape.Unescaped, LineFits;
  }

  lemma {:induction false} RetryCarried(fate: Fate, request: Bytes, w: World, left: nat)
    returns (at: seq<nat>, pages: seq<Pages.Page>)
    requires Retry(Asking(fate, request), w, left).status.Some?
    ensures pages != []
    ensures var r := Retry(Asking(fate, request), w, left);
            && Carried(request, r.world.log, at, pages, 0, pages[0].total, pages[0].digest)
            && r.status == Some(Joint(pages)) && |r.status.value| == pages[0].total
            && Digest(r.status.value) == pages[0].digest
    decreases left
  {
    hide Gather, Carried, Digest;
    var one := Gather(Asking(fate, request), w, [], None);
    if one.Whole? {
      at, pages := GatherCarried(fate, request, w, [], None);
      assert [] + Joint(pages) == Joint(pages);
    } else {
      at, pages := RetryCarried(fate, request, one.world, left - 1);
    }
  }

  lemma {:induction false} WorkCarried(fate: Fate, request: Bytes, w: World, looks: nat)
    returns (at: seq<nat>, pages: seq<Pages.Page>)
    requires looks <= WORK_LOOKS && Work(fate, request, w, looks).status.Some?
    ensures pages != []
    ensures var r := Work(fate, request, w, looks);
            && Carried(request, r.world.log, at, pages, 0, pages[0].total, pages[0].digest)
            && r.status == Some(Joint(pages)) && |r.status.value| == pages[0].total
            && Digest(r.status.value) == pages[0].digest
    decreases WORK_LOOKS - looks
  {
    hide Retry, Carried, Digest, StillWorking;
    var one := Join(Asking(fate, request), w);
    if one.status.Some? && StillWorking(one.status.value) && looks < WORK_LOOKS {
      at, pages := WorkCarried(fate, request, one.world, looks + 1);
    } else {
      at, pages := RetryCarried(fate, request, w, ATTEMPTS);
    }
  }

  /** For every fate: an answer is the gap-free concatenation of pages that came back in
      replies to lines asking for them, all of one total and digest, and has both. */
  lemma AnswerIsCarried(fate: Fate, served: bool, pieces: Upload.Replies, request: CString)
    returns (at: seq<nat>, pages: seq<Pages.Page>)
    requires Here(fate, served, pieces, Some(request)).answer.Some?
    ensures pages != []
    ensures var r := Here(fate, served, pieces, Some(request));
            && Carried(AskedFor(request), r.log, at, pages, 0, pages[0].total, pages[0].digest)
            && r.answer == Some(Joint(pages)) && |r.answer.value| == pages[0].total
            && Digest(r.answer.value) == pages[0].digest
  {
    hide Work, Digest, Carried, Joint;
    at, pages := WorkCarried(fate, AskedFor(request), START, 0);
  }

  // ---- an answer that rests is had ----

  /** Whenever it is asked, the daemon cuts the page asked for from this answer, and
      fuzznet hands it on. */
  ghost predicate Rests(fate: Fate, request: Bytes, answer: Bytes, cap: nat, escapedCap: nat) {
    forall k: nat, from: nat :: from <= |answer| ==> RestsAt(fate(k, AskLine(from, request)), answer, from, cap, escapedCap)
  }

  ghost predicate RestsAt(o: Outcome, answer: Bytes, from: nat, cap: nat, escapedCap: nat) {
    var page := PageOf(answer, from, cap, escapedCap);
    o.Reply? && page.Some? && o.text == OK + Escape.Escaped(page.value)
  }

  lemma LineAlwaysFits(request: Bytes, from: nat)
    requires |request| <= 360 && from <= TOTAL_MAX
    ensures LineFits(from, request)
  {
    hide Decimal;
    DecimalLength(from, 8);
    EightDigits();
  }

  lemma RestingPage(fate: Fate, request: Bytes, w: World, from: nat, answer: Bytes, cap: nat, escapedCap: nat)
    requires |request| <= 360 && from <= |answer| <= TOTAL_MAX && cap <= PAGE_CAP
    requires Rests(fate, request, answer, cap, escapedCap)
    ensures FetchPage(fate, request, w, from).1 == PageOf(answer, from, cap, escapedCap)
  {
    hide AskLine, LineFits, Escape.Escaped, Escape.Unescaped, PageOf;
    LineAlwaysFits(request, from);
    var o := fate(|w.log|, AskLine(from, request));
    assert RestsAt(o, answer, from, cap, escapedCap);
    var page := PageOf(answer, from, cap, escapedCap).value;
    PageFits(answer, from, cap, escapedCap);
    Escape.EscapeRoundTrip(page);
    assert o.text[3..] == Escape.Escaped(page) && o.text[0] == OK[0];
    assert !IsBusy(o) by { assert BUSY[0] != OK[0]; }
  }

  /** A one-line request whose answer rests, is no longer than a status may be and does not
      say "working", is answered with it, byte for byte: a short request, and a long one
      whose pieces were taken. */
  lemma RestingIsAnswered(fate: Fate, pieces: Upload.Replies, request: CString, answer: Bytes, cap: nat, escapedCap: nat)
    requires NEWLINE !in request && (|request| > 360 ==> Upload.AllTaken(None, request, pieces))
    requires Roomy(cap, escapedCap) && cap <= 8192 && |answer| <= 67_108_864 && !StillWorking(answer)
    requires Rests(fate, AskedFor(request), answer, cap, escapedCap)
    ensures Here(fate, true, pieces, Some(request)).answer == Some(answer)
  {
    hide FetchPage, PageOf, PageRead, Gather, StillWorking, Rests, Digest, Upload.AllTaken, Roomy;
    var line := AskedFor(request);
    assert |line| <= 360;
    var ask := Asking(fate, line);
    var held: World -> Bytes := _ => answer;
    forall v: World, from: nat | from <= |held(v)| ensures FullReply(ask(v, from).1, held(v), from) {
      RestingPage(fate, line, v, from, answer, cap, escapedCap);
      CutReads(answer, from, cap, escapedCap);
    }
    StillIsGathered(ask, held, START, [], None, answer);
  }

  // ---- how often it is looked for ----

  /** The `n`-th answer joined, each asked for after the one before it. */
  ghost function Nth(fate: Fate, request: Bytes, w: World, n: nat): Joined<World>
    decreases n
  {
    var one := Join(Asking(fate, request), w);
    if n == 0 then one else Nth(fate, request, one.world, n - 1)
  }

  predicate Unfinished(one: Joined<World>) { one.status.Some? && StillWorking(one.status.value) }

  lemma {:induction false} FirstFinished(fate: Fate, request: Bytes, w: World, looks: nat) returns (n: nat)
    requires looks <= WORK_LOOKS
    ensures looks + n <= 150 && Work(fate, request, w, looks) == Nth(fate, request, w, n)
    ensures forall i: nat :: i < n ==> Unfinished(Nth(fate, request, w, i))
    ensures looks + n < 150 ==> !Unfinished(Nth(fate, request, w, n))
    decreases WORK_LOOKS - looks
  {
    hide Join, StillWorking;
    var one := Join(Asking(fate, request), w);
    if Unfinished(one) && looks < WORK_LOOKS {
      var m := FirstFinished(fate, request, one.world, looks + 1);
      n := m + 1;
      forall i: nat | i < n ensures Unfinished(Nth(fate, request, w, i)) {
        if i > 0 { assert Nth(fate, request, w, i) == Nth(fate, request, one.world, i - 1); }
      }
    } else {
      n := 0;
    }
  }

  /** Of a request the answer is the first that does not say "working", and the 151st as it
      stands where all before it do. */
  lemma AnswerIsFirstFinished(fate: Fate, request: Bytes) returns (n: nat)
    ensures n <= 150 && Work(fate, request, START, 0) == Nth(fate, request, START, n)
    ensures forall i: nat :: i < n ==> Unfinished(Nth(fate, request, START, i))
    ensures n < 150 ==> !Unfinished(Nth(fate, request, START, n))
  {
    hide Work, Nth, Unfinished;
    n := FirstFinished(fate, request, START, 0);
  }
}
