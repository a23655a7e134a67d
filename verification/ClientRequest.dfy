/** One request to the daemon: over fuzznet first, and on the control socket only
    where the request cannot have run already. */
module ClientRequest {
  import opened Bytes
  import opened JsonSpec
  import opened JsonParser
  import opened JsonReaders
  import opened Framing
  import opened AskHere
  import Upload
  import Pages
  import Snapshot
  import SnapshotSafety

  const RETRY_SECONDS := 60

  /** The document is what this text says, or there is none and the text says nothing. */
  ghost predicate Answers(doc: Option<Document>, text: Bytes) {
    match ParseDocument(text)
    case None => doc.None?
    case Some(v) => doc.Some? && Sound(doc.value) && ValueOf(doc.value, 0) == Some(v)
  }

  // ---- what is joined is never longer than a status may be ----

  lemma JoinedLength<W>(ask: Snapshot.Ask<W>, w: W)
    ensures var r := Snapshot.Join(ask, w); r.status.Some? ==> |r.status.value| <= Pages.TOTAL_MAX
  {
    var r := Snapshot.Join(ask, w);
    if r.status.Some? {
      hide Snapshot.Gather, Pages.PageRead;
      var n, start := SnapshotSafety.LastAttempt(ask, w, Snapshot.ATTEMPTS);
      var pages := SnapshotSafety.GatheredPages(ask, start, [], None);
    }
  }

  lemma {:induction false} WorkLength(fate: Fate, request: Bytes, w: World, looks: nat)
    requires looks <= WORK_LOOKS
    ensures var r := Work(fate, request, w, looks); r.status.Some? ==> |r.status.value| <= Pages.TOTAL_MAX
    decreases WORK_LOOKS - looks
  {
    hide Snapshot.Join, StillWorking;
    var one := Snapshot.Join(Asking(fate, request), w);
    JoinedLength(Asking(fate, request), w);
    if one.status.Some? && StillWorking(one.status.value) && looks < WORK_LOOKS {
      WorkLength(fate, request, one.world, looks + 1);
    }
  }

  lemma HereLength(fate: Fate, served: bool, pieces: Upload.Replies, request: Option<CString>)
    ensures var r := Here(fate, served, pieces, request); r.answer.Some? ==> |r.answer.value| <= Pages.TOTAL_MAX
  {
    hide Work;
    if request.Some? {
      var line := if |request.value| > Upload.ASK_PIECE then Staged(request.value) else request.value;
      WorkLength(fate, line, START, 0);
    }
  }

  /** What the outside does with one request: the clock, what becomes of each line
      asked of fuzznet and each piece sent to it, whether the control socket takes the
      request, and what asking another node comes to. */
  datatype Outside = Outside(now: int, fate: Fate, served: bool, pieces: Upload.Replies, sends: bool, remote: Option<Bytes>)

  method ReadText(text: Bytes) returns (doc: Option<Document>)
    requires |text| <= Pages.TOTAL_MAX
    ensures Answers(doc, text)
  {
    hide ParseDocument;
    doc := Read(text);
  }

  /** The request over fuzznet, and the document its answer is. */
  method AskFuzznet(request: Option<SizedString>, o: Outside) returns (here: Answer, doc: Option<Document>)
    ensures here == Here(o.fate, o.served, o.pieces, request)
    ensures here.answer.Some? ==> Answers(doc, here.answer.value)
    ensures here.nothingRan ==> NoneRan(here.log)
  {
    hide Here, Answers;
    var sent;
    here, sent := AskThisMachine(o.fate, o.served, o.pieces, request);
    HereLength(o.fate, o.served, o.pieces, request);
    doc := None;
    if here.answer.Some? {
      doc := ReadText(here.answer.value);
    }
    if here.nothingRan {
      forall i: nat | i < |here.log|
        ensures !MayHaveRun(here.log[i].outcome)
      {
        NothingRanIsSafe(o.fate, o.served, o.pieces, request, i);
      }
    }
  }

  class Client {
    /** Whether there is a control socket, and whether its path names a run directory. */
    const connected: bool
    const inRunDir: bool
    /** Another node's key, for a client of that node. */
    const node: Option<CString>
    const lines: LineReader
    var broken: bool
    var fuzznetAfter: int
    /** Requests put on the control socket so far. */
    ghost var written: seq<Bytes>

    ghost predicate Valid()
      reads this, lines, lines.buffer
    {
      lines.Valid() && (!broken ==> |written| == |lines.returned|)
    }

    constructor (connected: bool, inRunDir: bool, node: Option<CString>, lines: LineReader)
      requires lines.Valid() && lines.returned == []
      ensures Valid() && !broken && written == [] && fuzznetAfter == 0
      ensures this.connected == connected && this.inRunDir == inRunDir && this.node == node && this.lines == lines
    {
      this.connected, this.inRunDir, this.node, this.lines := connected, inRunDir, node, lines;
      broken, fuzznetAfter, written := false, 0, [];
    }

    /** One line from the control socket, as a document. */
    method ReadAnswer() returns (doc: Option<Document>)
      requires lines.Valid()
      modifies this`broken, lines, lines.buffer
      ensures lines.Valid() && (lines.buffer == old(lines.buffer) || fresh(lines.buffer))
      ensures HasLine(old(lines.Ahead())) ==>
                var line := old(lines.Ahead())[..LineEnd(old(lines.Ahead()))];
                && lines.returned == old(lines.returned) + [line] && Answers(doc, line)
                && broken == old(broken)
      ensures !HasLine(old(lines.Ahead())) ==> broken && doc.None? && lines.returned == old(lines.returned)
    {
      hide ParseDocument;
      var r := lines.Next(false);
      if !r.Line? {
        broken := true;
        return None;
      }
      doc := Read(r.text);
    }

    /** The request on the control socket, and the line that answers it. */
    method AskSocket(request: CString, sends: bool) returns (doc: Option<Document>)
      requires Valid()
      modifies this`broken, this`written, lines, lines.buffer
      ensures Valid() && (lines.buffer == old(lines.buffer) || fresh(lines.buffer))
      ensures written == old(written) + [request] && lines.returned <= Split(lines.received)
      ensures if sends && HasLine(old(lines.Ahead())) then
                var line := old(lines.Ahead())[..LineEnd(old(lines.Ahead()))];
                lines.returned == old(lines.returned) + [line] && Answers(doc, line) && broken == old(broken)
              else
                lines.returned == old(lines.returned) && doc.None? && broken
    {
      hide ParseDocument, Split, Answers;
      written := written + [request];
      HandedOutInOrder(lines);
      if !sends {
        broken := true;
        return None;
      }
      doc := ReadAnswer();
      HandedOutInOrder(lines);
    }

    /** `ncfg_client_request`. `wrote` says whether the control socket was written to. */
    method Request(request: Option<SizedString>, o: Outside) returns (doc: Option<Document>, wrote: bool)
      requires Valid()
      requires o.remote.Some? ==> |o.remote.value| <= Pages.TOTAL_MAX
      modifies this, lines, lines.buffer
      ensures Valid() && (lines.buffer == old(lines.buffer) || fresh(lines.buffer))
      // The control socket is written to exactly where the request is one for this machine,
      // there is a socket, and fuzznet was not to be tried or is known to have run nothing.
      ensures wrote ==
                (connected && node.None? && request.Some? && NEWLINE !in request.value &&
                 (inRunDir && o.now >= old(fuzznetAfter) ==>
                    var here := Here(o.fate, o.served, o.pieces, request);
                    here.answer.None? && here.nothingRan))
      ensures wrote && inRunDir && o.now >= old(fuzznetAfter) ==> NoneRan(Here(o.fate, o.served, o.pieces, request).log)
      // What is written is the request, and the n-th request is answered by the n-th line.
      ensures written == old(written) + (if wrote then [request.value] else [])
      ensures wrote ==>
                && lines.returned <= Split(lines.received)
                && if o.sends && HasLine(old(lines.Ahead())) then
                     var line := old(lines.Ahead())[..LineEnd(old(lines.Ahead()))];
                     lines.returned == old(lines.returned) + [line] && Answers(doc, line) && broken == old(broken)
                   else
                     lines.returned == old(lines.returned) && doc.None? && broken
      ensures wrote && !broken ==> Answers(doc, lines.returned[|written| - 1])
      // What happens otherwise leaves the socket alone.
      ensures !wrote ==> lines.returned == old(lines.returned) && lines.Ahead() == old(lines.Ahead())
      ensures request.None? || NEWLINE in request.value ==> doc.None? && broken == old(broken)
      ensures node.Some? && request.Some? && NEWLINE !in request.value ==>
                if o.remote.Some? then Answers(doc, o.remote.value) && broken == old(broken) else doc.None? && broken
      ensures !wrote && node.None? && request.Some? && NEWLINE !in request.value ==>
                var here := Here(o.fate, o.served, o.pieces, request);
                if inRunDir && here.answer.Some? then Answers(doc, here.answer.value) && broken == old(broken)
                else doc.None? && broken
      ensures fuzznetAfter == if wrote && inRunDir && o.now >= old(fuzznetAfter) then o.now + 60 else old(fuzznetAfter)
    {
      hide Here, Split, Answers, Unlines, LineEnd, Stream, NoneRan, GrownSize;
      if request.None? || NEWLINE in request.value {
        return None, false;
      }
      if node.Some? {
        if o.remote.None? {
          broken := true;
          return None, false;
        }
        doc := ReadText(o.remote.value);
        return doc, false;
      }
      if (!connected || o.now >= fuzznetAfter) && inRunDir {
        var here, answered := AskFuzznet(request, o);
        if here.answer.Some? {
          return answered, false;
        }
        if !here.nothingRan || !connected {
          broken := true;
          return None, false;
        }
        fuzznetAfter := o.now + RETRY_SECONDS;
      }
      if !connected {
        broken := true;
        return None, false;
      }
      doc := AskSocket(request.value, o.sends);
      return doc, true;
    }
  }
}
