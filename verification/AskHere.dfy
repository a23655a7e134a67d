/** A request asked of this machine's daemon over fuzznet, and the one question its
    failure must answer: can the request have run? Only where it cannot may the
    caller send it again on the control socket. */
module AskHere {
  import opened Bytes
  import opened Decimals
  import opened Fnv
  import opened Pages
  import opened Snapshot
  import Upload
  import Escape

  /** One line asked of fuzznet's socket: none of it went; it may have gone and no
      answer came; or an answer, as far as C's string functions see it. */
  datatype Outcome = NotSent | Lost | Reply(text: CString)

  /** What this line, asked after so many others, comes to, whoever decides. */
  type Fate = (nat, Bytes) -> Outcome

  /** One line asked, and what it came to. */
  datatype Exchange = Exchange(line: Bytes, outcome: Outcome)

  const CALL_ASK: Bytes := [99, 97, 108, 108, 32, 97, 115, 107, 32]  // call ask
  const BUSY: Bytes := [
    101, 114, 114, 111, 114, 32, 116, 104, 101, 32, 110, 111, 100, 101, 32, 105, 115, 32,
    119, 97, 105, 116, 105, 110, 103, 32, 111, 110, 32, 97, 32, 112, 101, 101, 114]  // error the node is waiting on a peer
  const WORKING: Bytes := [
    119, 111, 114, 107, 105, 110, 103, 32, 111, 110, 32, 116, 104, 97, 116, 59, 32,
    97, 115, 107, 32, 97, 103, 97, 105, 110]  // working on that; ask again
  const BUSY_LOOKS := 80
  const WORK_LOOKS := 150
  const PAGE_CAP := 8192

  predicate IsBusy(o: Outcome) { o.Reply? && BUSY <= o.text }
  predicate IsOk(o: Outcome) { o.Reply? && OK <= o.text }

  /** The daemon may have seen the request behind this line. */
  predicate MayHaveRun(o: Outcome) { o.Lost? || IsOk(o) }

  // ---- one line, asked again while the node is busy ----

  datatype Asked = Asked(log: seq<Exchange>, reply: Option<Bytes>, sent: bool)

  function AskAgain(fate: Fate, line: Bytes, log: seq<Exchange>, looks: nat, sent: bool): (r: Asked)
    requires looks <= BUSY_LOOKS
    ensures log < r.log
    decreases BUSY_LOOKS - looks
  {
    var o := fate(|log|, line);
    var log' := log + [Exchange(line, o)];
    if IsBusy(o) && looks < BUSY_LOOKS then AskAgain(fate, line, log', looks + 1, true)
    else Asked(log', if o.Reply? then Some(o.text) else None, sent || !o.NotSent?)
  }

  /** `ask_again`. */
  method AskUntilFree(fate: Fate, line: Bytes, before: seq<Exchange>) returns (r: Asked)
    ensures r == AskAgain(fate, line, before, 0, false)
  {
    var log, looks, sent := before, 0, false;
    while true
      invariant 0 <= looks <= BUSY_LOOKS && AskAgain(fate, line, before, 0, false) == AskAgain(fate, line, log, looks, sent)
      decreases BUSY_LOOKS - looks
    {
      var o := fate(|log|, line);
      log := log + [Exchange(line, o)];
      sent := sent || !o.NotSent?;
      if !o.Reply? {
        return Asked(log, None, sent);
      }
      if looks >= BUSY_LOOKS || !(BUSY <= o.text) {
        return Asked(log, Some(o.text), sent);
      }
      looks := looks + 1;
    }
  }

  /** The tries of one line: the same line each time, busy each time but the last, and
      no more than eighty of them after the first. */
  ghost predicate Tries(fate: Fate, line: Bytes, before: seq<Exchange>, log: seq<Exchange>) {
    && before < log && |log| - |before| <= 81
    && (forall i :: |before| <= i < |log| ==> log[i] == Exchange(line, fate(i, line)))
    && (forall i :: |before| <= i < |log| - 1 ==> IsBusy(log[i].outcome))
    && (|log| - |before| < 81 ==> !IsBusy(log[|log| - 1].outcome))
  }

  /** One line is asked until it is not answered "busy", or for the eighty-first time;
      the last try's reply is the reply. */
  lemma {:induction false} AskAgainTries(fate: Fate, line: Bytes, before: seq<Exchange>, log: seq<Exchange>, looks: nat)
    requires looks <= BUSY_LOOKS && before <= log && |log| == |before| + looks
    requires forall i :: |before| <= i < |log| ==> log[i] == Exchange(line, fate(i, line)) && IsBusy(log[i].outcome)
    ensures var r := AskAgain(fate, line, log, looks, looks > 0);
            var last := r.log[|r.log| - 1].outcome;
            && Tries(fate, line, before, r.log)
            && r.reply == (if last.Reply? then Some(last.text) else None)
            && r.sent == (|r.log| > |before| + 1 || !last.NotSent?)
    decreases BUSY_LOOKS - looks
  {
    hide IsBusy;
    var o := fate(|log|, line);
    if IsBusy(o) && looks < BUSY_LOOKS {
      AskAgainTries(fate, line, before, log + [Exchange(line, o)], looks + 1);
    }
  }

  // ---- one page ----

  /** Lines asked so far, and whether one of them may have run the request. */
  datatype World = World(log: seq<Exchange>, ranMaybe: bool)

  const START := World([], false)

  /** `call ask FROM REQUEST`. */
  function AskLine(from: nat, request: Bytes): Bytes { CALL_ASK + (Decimal(from) + ([SPACE] + request)) }

  /** The line and its NUL fit a line's buffer. */
  predicate LineFits(from: nat, request: Bytes) { |AskLine(from, request)| < Upload.REQUEST_MAX }

  function FetchPage(fate: Fate, request: Bytes, w: World, from: nat): (World, Option<Bytes>) {
    if !LineFits(from, request) then (w, None)
    else
      var r := AskAgain(fate, AskLine(from, request), w.log, 0, false);
      if r.reply.None? then (World(r.log, w.ranMaybe || r.sent), None)
      else
        var ok := OK <= r.reply.value;
        var next := World(r.log, w.ranMaybe || ok);
        if !ok then (next, None)
        else
          var page := Escape.Unescaped(r.reply.value[3..], 0);
          (next, if page.Some? && |page.value| <= PAGE_CAP then page else None)
  }

  /** `fuzznet_page` for a request on this machine. */
  method AskPage(fate: Fate, request: Bytes, w: World, from: nat) returns (next: World, page: Option<Bytes>)
    ensures (next, page) == FetchPage(fate, request, w, from)
  {
    if !LineFits(from, request) {
      return w, None;
    }
    var line := CALL_ASK + (Decimal(from) + ([SPACE] + request));
    var r := AskUntilFree(fate, line, w.log);
    if r.reply.None? {
      return World(r.log, w.ranMaybe || r.sent), None;
    }
    var reply := r.reply.value;
    next := World(r.log, w.ranMaybe || OK <= reply);
    if !(OK <= reply) {
      return next, None;
    }
    var bytes := new byte[PAGE_CAP];
    var n := Escape.Read(reply[3..], bytes);
    if n < 0 {
      return next, None;
    }
    return next, Some(bytes[..n]);
  }

  function Asking(fate: Fate, request: Bytes): Ask<World> {
    (w: World, from: nat) => FetchPage(fate, request, w, from)
  }

  // ---- pages, while the daemon says it is still at it ----

  function Contains(t: Bytes, word: Bytes): bool {
    word <= t || (t != [] && Contains(t[1..], word))
  }

  predicate StillWorking(answer: Bytes) { Contains(CText(answer), WORKING) }

  function Work(fate: Fate, request: Bytes, w: World, looks: nat): Joined<World>
    requires looks <= WORK_LOOKS
    decreases WORK_LOOKS - looks
  {
    var one := Join(Asking(fate, request), w);
    if one.status.Some? && StillWorking(one.status.value) && looks < WORK_LOOKS
    then Work(fate, request, one.world, looks + 1)
    else one
  }

  /** `pages_of_work`. */
  method PagesOfWork(fate: Fate, request: Bytes, w0: World) returns (r: Joined<World>)
    ensures r == Work(fate, request, w0, 0)
  {
    hide Join, StillWorking;
    var w, looks := w0, 0;
    while true
      invariant 0 <= looks <= WORK_LOOKS && Work(fate, request, w0, 0) == Work(fate, request, w, looks)
      decreases WORK_LOOKS - looks
    {
      r := JoinPages(Asking(fate, request), w);
      if r.status.None? || !StillWorking(r.status.value) {
        return;
      }
      if looks >= WORK_LOOKS {
        return;
      }
      w, looks := r.world, looks + 1;
    }
  }

  // ---- the request ----

  /** What comes back, and every line that was asked for it. */
  datatype Answer = Answer(answer: Option<Bytes>, nothingRan: bool, log: seq<Exchange>)

  /** The staged name of a request that went in pieces: `@` and its digest. */
  function Staged(request: Bytes): Bytes { [AT_SIGN] + Hex(Digest(request), 16) }

  /** `ncfg_fuzznet_ask_here`. `served` is whether the daemon has a fuzznet socket,
      `pieces` what the pieces of a long request are answered. */
  function Here(fate: Fate, served: bool, pieces: Upload.Replies, request: Option<CString>): Answer {
    if !served then Answer(None, true, [])
    else if request.None? || NEWLINE in request.value then Answer(None, false, [])
    else if |request.value| > Upload.ASK_PIECE && !Upload.AllTaken(None, request.value, pieces) then Answer(None, true, [])
    else
      var line := if |request.value| > Upload.ASK_PIECE then Staged(request.value) else request.value;
      var r := Work(fate, line, START, 0);
      Answer(r.status, r.status.None? && !r.world.ranMaybe, r.world.log)
  }

  /** `sent` are the lines of the upload. Any line asked after it comes after the whole
      of the request was sent and taken, piece by piece. */
  method AskThisMachine(fate: Fate, served: bool, pieces: Upload.Replies, request: Option<SizedString>)
    returns (r: Answer, sent: seq<Bytes>)
    ensures r == Here(fate, served, pieces, request)
    ensures if request.None? then sent == [] else sent <= Upload.Lines(None, request.value, 0)
    ensures request.Some? && |request.value| > Upload.ASK_PIECE && r.log != [] ==>
              sent == Upload.Lines(None, request.value, 0) && Upload.AllTaken(None, request.value, pieces)
  {
    hide Work, Digest, Upload.Lines, Upload.AllTaken;
    sent := [];
    if !served {
      return Answer(None, true, []), sent;
    }
    if request.None? || NEWLINE in request.value {
      return Answer(None, false, []), sent;
    }
    var line := request.value;
    if |request.value| > Upload.ASK_PIECE {
      var ok: bool;
      ok, sent := Upload.SendInPieces(None, request.value, pieces);
      if !ok {
        return Answer(None, true, []), sent;
      }
      var digest := ComputeDigest(request.value);
      line := [AT_SIGN] + Hex(digest, 16);
    }
    var r' := PagesOfWork(fate, line, START);
    return Answer(r'.status, r'.status.None? && !r'.world.ranMaybe, r'.world.log), sent;
  }

  // ---- what the flag means ----

  /** Line `i` is a reason to think the request may have run: it may have run it, or it
      was answered "busy" and the try after it could not be sent. */
  predicate Suspect(log: seq<Exchange>, i: nat) {
    i < |log| &&
    (MayHaveRun(log[i].outcome) || (i + 1 < |log| && IsBusy(log[i].outcome) && log[i + 1].outcome.NotSent?))
  }

  /** The flag is set exactly when some line asked is suspect. */
  ghost predicate Exact(w: World) { w.ranMaybe <==> exists i :: Suspect(w.log, i) }

  /** The gathering goes on: every line so far was answered, the last with a page. */
  ghost predicate Live(w: World) {
    Exact(w) && (w.log != [] ==> !IsBusy(w.log[|w.log| - 1].outcome))
  }

  lemma BusyIsNotOk(o: Outcome)
    ensures !(IsBusy(o) && IsOk(o))
  {
    if IsBusy(o) {
      assert o.text[0] == BUSY[0];
    }
  }

  /** What one page asked adds: the tries of its line, and the flag if it must. */
  lemma PageTries(fate: Fate, request: Bytes, w: World, from: nat)
    requires LineFits(from, request)
    ensures var (next, page) := FetchPage(fate, request, w, from);
            && Tries(fate, AskLine(from, request), w.log, next.log)
            && var last := next.log[|next.log| - 1].outcome;
               && (next.ranMaybe <==> w.ranMaybe || MayHaveRun(last) || (last.NotSent? && |next.log| > |w.log| + 1))
               && (page.Some? ==> IsOk(last) && Escape.Unescaped(last.text[3..], 0) == page)
  {
    hide AskAgain, Escape.Unescaped, AskLine;
    AskAgainTries(fate, AskLine(from, request), w.log, w.log, 0);
  }

  /** A page asked keeps the flag exact; and if a page came, the gathering may go on. */
  lemma PageKeeps(fate: Fate, request: Bytes, w: World, from: nat)
    requires Live(w)
    ensures var (next, page) := FetchPage(fate, request, w, from);
            Exact(next) && (page.Some? ==> Live(next))
  {
    hide Escape.Unescaped, LineFits, AskLine, IsBusy, MayHaveRun, IsOk, AskAgain;
    if LineFits(from, request) {
      PageTries(fate, request, w, from);
      var (next, page) := FetchPage(fate, request, w, from);
      hide FetchPage;
      var log, last := next.log, |next.log| - 1;
      BusyIsNotOk(log[last].outcome);
      if page.Some? { OkMayHaveRun(log[last].outcome); }
      if w.ranMaybe {
        var i :| Suspect(w.log, i);
        assert Suspect(log, i);
      } else if MayHaveRun(log[last].outcome) {
        assert Suspect(log, last);
      } else if log[last].outcome.NotSent? && |log| > |w.log| + 1 {
        assert Suspect(log, last - 1);
      }
      forall i: nat | Suspect(log, i)
        ensures next.ranMaybe
      {
        BusyRanNothing(log[i].outcome);
        if i < last { BusyRanNothing(log[i + 1].outcome); }
        if i < |w.log| {
          assert log[i] == w.log[i];
          if i + 1 < |w.log| { assert log[i + 1] == w.log[i + 1]; }
          assert Suspect(w.log, i);
        }
      }
    }
  }

  lemma BusyRanNothing(o: Outcome)
    ensures IsBusy(o) ==> o.Reply? && !MayHaveRun(o)
  {
    BusyIsNotOk(o);
  }

  lemma OkMayHaveRun(o: Outcome)
    ensures IsOk(o) ==> MayHaveRun(o)
  {}

  // ---- what every ask keeps, a whole join keeps ----

  /** If every ask from a live world keeps `exact`, and keeps `live` when a page
      came, so does a gathering. */
  lemma {:induction false} GatherKeeps<W>(ask: Ask<W>, w: W, got: Bytes, first: Option<Page>, exact: W -> bool, live: W -> bool)
    requires if first.None? then got == [] else 0 < |got| < first.value.total
    requires live(w)
    requires forall v, from: nat :: live(v) ==> exact(ask(v, from).0) && (ask(v, from).1.Some? ==> live(ask(v, from).0))
    requires forall v :: live(v) ==> exact(v)
    ensures var r := Gather(ask, w, got, first);
            exact(r.world) && (!r.Broken? ==> live(r.world))
    decreases if first.None? then 1 else 0, if first.None? then 0 else first.value.total - |got|
  {
    hide PageRead, Digest;
    GatherStep(ask, w, got, first);
    var (next, reply) := ask(w, |got|);
    assert exact(ask(w, |got|).0);
    var page := if reply.None? then None else PageRead(reply.value);
    if page.Some? {
      var one := page.value;
      var head := if first.None? then one else first.value;
      if one.digest == head.digest && one.total == head.total && one.from == |got|
         && one.bytes != [] && |got + one.bytes| < head.total {
        GatherKeeps(ask, next, got + one.bytes, Some(head), exact, live);
      }
    }
  }

  lemma {:induction false} RetryKeeps<W>(ask: Ask<W>, w: W, left: nat, exact: W -> bool, live: W -> bool)
    requires live(w)
    requires forall v, from: nat :: live(v) ==> exact(ask(v, from).0) && (ask(v, from).1.Some? ==> live(ask(v, from).0))
    requires forall v :: live(v) ==> exact(v)
    ensures var r := Retry(ask, w, left);
            exact(r.world) && (r.status.Some? ==> live(r.world))
    decreases left
  {
    hide Gather;
    if left > 0 {
      GatherKeeps(ask, w, [], None, exact, live);
      var one := Gather(ask, w, [], None);
      if one.Moved? {
        RetryKeeps(ask, one.world, left - 1, exact, live);
      }
    }
  }

  /** Over all pages, gatherings and "working" polls the flag stays exact. */
  lemma {:induction false} WorkKeeps(fate: Fate, request: Bytes, w: World, looks: nat)
    requires looks <= WORK_LOOKS && Live(w)
    ensures Exact(Work(fate, request, w, looks).world)
    decreases WORK_LOOKS - looks
  {
    hide FetchPage, Retry, StillWorking;
    var ask := Asking(fate, request);
    var exact := (v: World) => Exact(v);
    var live := (v: World) => Live(v);
    forall v: World, from: nat | live(v)
      ensures exact(ask(v, from).0) && (ask(v, from).1.Some? ==> live(ask(v, from).0))
    {
      PageKeeps(fate, request, v, from);
    }
    RetryKeeps(ask, w, ATTEMPTS, exact, live);
    var one := Join(ask, w);
    if one.status.Some? && StillWorking(one.status.value) && looks < WORK_LOOKS {
      WorkKeeps(fate, request, one.world, looks + 1);
    }
  }

  /** What `nothing_ran` means, over every line put on the socket by every retry,
      page, gathering and poll. It is set exactly when no answer came, the request
      was one line, and no line asked is suspect. */
  lemma NothingRanExactly(fate: Fate, served: bool, pieces: Upload.Replies, request: Option<CString>)
    ensures var r := Here(fate, served, pieces, request);
            r.nothingRan <==>
              && r.answer.None?
              && (served ==> request.Some? && NEWLINE !in request.value)
              && !exists i :: Suspect(r.log, i)
  {
    hide Work;
    if served && request.Some? && NEWLINE !in request.value &&
       (|request.value| <= Upload.ASK_PIECE || Upload.AllTaken(None, request.value, pieces)) {
      var line := if |request.value| > Upload.ASK_PIECE then Staged(request.value) else request.value;
      WorkKeeps(fate, line, START, 0);
    }
  }

  /** So a caller told that nothing ran may send the request again: none of the lines
      asked reached the daemon, each having been refused by fuzznet or never sent. */
  lemma NothingRanIsSafe(fate: Fate, served: bool, pieces: Upload.Replies, request: Option<CString>, i: nat)
    requires Here(fate, served, pieces, request).nothingRan
    requires i < |Here(fate, served, pieces, request).log|
    ensures var o := Here(fate, served, pieces, request).log[i].outcome;
            !MayHaveRun(o) && (o.NotSent? || (o.Reply? && !(OK <= o.text)))
  {
    hide Work;
    NothingRanExactly(fate, served, pieces, request);
    assert !Suspect(Here(fate, served, pieces, request).log, i);
  }

  /** None of these lines may have run what it asked for. */
  ghost predicate NoneRan(log: seq<Exchange>) { forall i :: 0 <= i < |log| ==> !MayHaveRun(log[i].outcome) }

  /** Of a one-line request that got no answer, the flag is clear though nothing ran in
      one case alone: a line was answered "busy" and could then not be sent again. */
  lemma OverCautiousExactly(fate: Fate, pieces: Upload.Replies, request: CString)
    requires NEWLINE !in request && Here(fate, true, pieces, Some(request)).answer.None?
    requires NoneRan(Here(fate, true, pieces, Some(request)).log)
    ensures var r := Here(fate, true, pieces, Some(request));
            !r.nothingRan <==>
              exists i :: 0 <= i < |r.log| - 1 && IsBusy(r.log[i].outcome) && r.log[i + 1].outcome.NotSent?
  {
    hide Here, MayHaveRun, IsBusy;
    NothingRanExactly(fate, true, pieces, Some(request));
    var r := Here(fate, true, pieces, Some(request));
    if i :| 0 <= i < |r.log| - 1 && IsBusy(r.log[i].outcome) && r.log[i + 1].outcome.NotSent? {
      assert Suspect(r.log, i);
    }
  }

  /** It happens: such a line ran nothing and still bars the retry. */
  lemma BusyThenGoneBarsRetry()
    ensures var fate: Fate := (k: nat, line: Bytes) => if k == 0 then Reply(BUSY) else NotSent;
            var r := Here(fate, true, (k: nat) => None, Some([123, 125]));
            r.answer.None? && !r.nothingRan && NoneRan(r.log)
  {
    hide Work, Digest;
    var fate: Fate := (k: nat, line: Bytes) => if k == 0 then Reply(BUSY) else NotSent;
    var request: CString := [123, 125];
    assert |Decimal(0)| == 1;
    BusyThenGone(fate, request);
    BusyRanNothing(fate(0, AskLine(0, request)));
  }

  lemma BusyThenGone(fate: Fate, request: Bytes)
    requires var line := AskLine(0, request); IsBusy(fate(0, line)) && fate(1, line).NotSent? && LineFits(0, request)
    ensures var line := AskLine(0, request);
            Work(fate, request, START, 0)
            == Joined(World([Exchange(line, fate(0, line)), Exchange(line, NotSent)], true), None)
  {
    hide LineFits, AskLine, PageRead, Digest, Gather, StillWorking, FetchPage;
    var ask, line := Asking(fate, request), AskLine(0, request);
    var log := [Exchange(line, fate(0, line)), Exchange(line, NotSent)];
    BusyPage(fate, request);
    GatherStep(ask, START, [], None);
    assert Gather(ask, START, [], None) == Broken(World(log, true));
    assert Join(ask, START) == Joined(World(log, true), None);
  }

  lemma BusyPage(fate: Fate, request: Bytes)
    requires var line := AskLine(0, request); IsBusy(fate(0, line)) && fate(1, line).NotSent? && LineFits(0, request)
    ensures var line := AskLine(0, request);
            FetchPage(fate, request, START, 0)
            == (World([Exchange(line, fate(0, line)), Exchange(line, NotSent)], true), None)
  {
    hide IsBusy, LineFits, AskLine, Escape.Unescaped;
    var line := AskLine(0, request);
    var first := Exchange(line, fate(0, line));
    BusyRanNothing(fate(1, line));
    assert [] + [first] == [first];
    var log := [first, Exchange(line, NotSent)];
    assert [first] + [Exchange(line, NotSent)] == log;
    assert AskAgain(fate, line, [first], 1, true) == Asked(log, None, true);
    assert AskAgain(fate, line, START.log, 0, false) == Asked(log, None, true);
  }
}
