/** A daemon's events, read by cursor: the ring the daemon keeps of its last ones, and
    the reader that turns each thing it hears into the lines it has not had yet. */
module Events {
  import opened Bytes
  import opened Decimals
  import opened Framing
  import opened JsonWriter
  import JsonSpec

  const KEPT := 64
  const LONG_MAX: int := 0x7fff_ffff_ffff_ffff

  // ---- the daemon's side ----

  /** The first event told again to somebody who has had `from` of them. */
  function FirstTold(from: int, told: nat): (at: nat)
    ensures at <= told && told - at <= KEPT && (from < 0 ==> at == told)
    ensures 0 <= from <= told ==> at == if told - from > KEPT then told - KEPT else from
  {
    var at := if from < 0 || from > told then told else from;
    if told - at > KEPT then told - KEPT else at
  }

  /** Where to ask from next, then each event's line. */
  function SinceText(log: seq<Bytes>, from: int): Bytes {
    Decimal(|log|) + ([NEWLINE] + Unlines(log[FirstTold(from, |log|)..]))
  }

  /** `ncfg_main_subscribers_t`, for its events: event `n` is in slot `n % KEPT`. */
  class EventLog {
    const kept: array<Bytes>
    var told: nat
    /** Every event there has been. */
    ghost var log: seq<Bytes>

    ghost predicate Valid()
      reads this, kept
    {
      kept.Length == KEPT && told == |log| && Lineless(log) && Ring()
    }

    /** The slots hold the last events told. */
    ghost predicate Ring()
      requires kept.Length == KEPT && told == |log|
      reads this, kept
    {
      forall i :: 0 <= i < told && told - i <= KEPT ==> kept[i % KEPT] == log[i]
    }

    constructor ()
      ensures Valid() && log == [] && fresh(kept)
    {
      kept := new Bytes[KEPT](_ => []);
      told, log := 0, [];
    }

    /** `ncfg_main_subscribers_tell`: an event's line takes the oldest one's slot. */
    method Tell(line: Bytes)
      requires Valid() && NEWLINE !in line
      modifies this, kept
      ensures Valid() && log == old(log) + [line]
    {
      forall i | 0 <= i < told && told + 1 - i <= KEPT
        ensures i % KEPT != told % KEPT
      {
        SlotsDiffer(i, told);
      }
      kept[told % KEPT] := line;
      told := told + 1;
      log := log + [line];
    }

    /** `ncfg_main_subscribers_since`. */
    method Since(from: int) returns (text: Bytes)
      requires Valid()
      ensures text == SinceText(log, from)
    {
      hide Unlines, FirstTold, Decimal;
      var at := FirstTold(from, told);
      var lines: Bytes := [];
      ghost var start := at;
      assert log[start..start] == [];
      NoLines();
      while at < told
        invariant start <= at <= told && lines == Unlines(log[start..at])
      {
        assert log[start..at + 1] == log[start..at] + [log[at]];
        UnlinesSnoc(log[start..at], log[at]);
        lines := lines + (kept[at % KEPT] + [NEWLINE]);
        at := at + 1;
      }
      assert log[start..told] == log[start..];
      return Decimal(told) + ([NEWLINE] + lines);
    }
  }

  lemma SlotsDiffer(i: nat, j: nat)
    requires i < j && j - i < KEPT
    ensures i % KEPT != j % KEPT
  {}

  // ---- reading the answer ----

  predicate CSpace(b: byte) { 9 <= b <= 13 || b == SPACE }

  function SkipCSpace(t: Bytes, at: nat): (r: nat)
    requires at <= |t|
    ensures at <= r <= |t|
    decreases |t| - at
  {
    if at < |t| && CSpace(t[at]) then SkipCSpace(t, at + 1) else at
  }

  datatype Long = Long(value: int, end: nat)

  /** `strtol`, base ten: where it stopped, 0 for no number at all. */
  function ParseLong(t: Bytes): (r: Long)
    ensures r.end <= |t|
  {
    var at := SkipCSpace(t, 0);
    var signed := at < |t| && (t[at] == PLUS || t[at] == MINUS);
    var first := if signed then at + 1 else at;
    var end := SkipDigits(t, first);
    if end == first then Long(0, 0)
    else
      var n: int := DigitsValue(t[first..end]);
      if signed && t[at] == MINUS then Long(if n > LONG_MAX + 1 then -LONG_MAX - 1 else -n, end)
      else Long(if n > LONG_MAX then LONG_MAX else n, end)
  }

  /** The daemon's own answer reads as its count of events, and the lines follow. */
  lemma SinceReads(log: seq<Bytes>, from: int)
    requires |log| <= LONG_MAX
    ensures var t := SinceText(log, from);
            && ParseLong(t) == Long(|log|, |Decimal(|log|)|)
            && |Decimal(|log|)| < |t| && t[|Decimal(|log|)|] == NEWLINE
            && t[|Decimal(|log|)| + 1..] == Unlines(log[FirstTold(from, |log|)..])
  {
    hide Unlines, FirstTold, Decimal;
    var d := Decimal(|log|);
    var t := SinceText(log, from);
    assert t[..|d|] == d && t[0] == d[0];
    assert t[0..|d|] == d;
    DigitsRead(t, 0, d);
    DecimalValue(|log|);
    assert SkipCSpace(t, 0) == 0;
  }

  // ---- the kinds fuzznet's stream names ----

  /** A subject of fuzznet's stream, and the event it is made into. */
  datatype KindText = KindText(subject: CString, event: CString, summary: CString)

  /** `event SUBJECT` alone or with more words behind. */
  predicate Names(line: CString, subject: CString) {
    var word := Ascii("event ") + subject;
    word <= line && (|line| == |word| || line[|word|] == SPACE)
  }

  function FirstKind(line: CString, kinds: seq<KindText>): Option<KindText> {
    if kinds == [] then None
    else if Names(line, kinds[0].subject) then Some(kinds[0])
    else FirstKind(line, kinds[1..])
  }

  const EVENT: CString := Ascii("event")
  const SUMMARY: CString := Ascii("summary")

  /** `event_json`: the kind alone, as an event line. */
  function MadeUp(kinds: seq<KindText>, line: CString): Option<Bytes> {
    var kind := FirstKind(line, kinds);
    if kind.None? then None
    else Some(PrintRequest([Field(EVENT, Text(kind.value.event)), Field(SUMMARY, Text(kind.value.summary))]))
  }

  // ---- delivery over whole runs ----

  /** A log and somebody following it by cursor. */
  datatype Follow = Follow(log: seq<Bytes>, start: nat, cursor: nat, given: seq<Bytes>, waiting: seq<Bytes>)

  /** What happens, in any order: an event is told; one is heard of and the log read, as
      it stood with `seen` events, or it cannot be; a line is taken. */
  datatype Act = Told(line: Bytes) | HeardAndRead(seen: nat) | HeardOnly | Taken

  /** A read happens only once everything waiting was given out, and is of the log as it
      stood at some time since the last. */
  predicate Reads(f: Follow, a: Act) {
    a.HeardAndRead? && f.waiting == [] && f.cursor <= a.seen <= |f.log|
  }

  /** A read that comes more than 64 events after the one before it. */
  predicate ReadsLate(f: Follow, a: Act) { Reads(f, a) && a.seen - f.cursor > 64 }

  function Step(f: Follow, a: Act): Follow {
    match a
    case Told(line) => f.(log := f.log + [line])
    case HeardAndRead(seen) =>
      if Reads(f, a) then f.(waiting := f.log[FirstTold(f.cursor, seen)..seen], cursor := seen) else f
    case HeardOnly => f
    case Taken => if f.waiting == [] then f else f.(given := f.given + [f.waiting[0]], waiting := f.waiting[1..])
  }

  function Run(f: Follow, acts: seq<Act>): Follow
    decreases |acts|
  {
    if acts == [] then f else Run(Step(f, acts[0]), acts[1..])
  }

  /** Every read comes before more than `KEPT` events were told since the last. */
  predicate InTime(f: Follow, acts: seq<Act>)
    decreases |acts|
  {
    acts == [] || (!ReadsLate(f, acts[0]) && InTime(Step(f, acts[0]), acts[1..]))
  }

  /** Given and waiting are the log from start to cursor: no gap, nothing twice, in order. */
  ghost predicate Seamless(f: Follow) {
    f.start <= f.cursor <= |f.log| && f.given + f.waiting == f.log[f.start..f.cursor]
  }

  /** Some lines can never be had. */
  ghost predicate Gapped(f: Follow) {
    f.start <= f.cursor <= |f.log| && |f.given| + |f.waiting| < f.cursor - f.start
  }

  lemma SliceStays(log: seq<Bytes>, line: Bytes, from: nat, to: nat)
    requires from <= to <= |log|
    ensures (log + [line])[from..to] == log[from..to]
  {}

  lemma StepSeamless(f: Follow, a: Act)
    requires Seamless(f)
    ensures if ReadsLate(f, a) then Gapped(Step(f, a)) else Seamless(Step(f, a))
  {
    hide FirstTold;
    var g := Step(f, a);
    match a
    case Told(line) =>
      SliceStays(f.log, line, f.start, f.cursor);
    case HeardAndRead(seen) =>
      if Reads(f, a) {
        assert f.given + f.waiting == f.given;
        assert f.log[f.start..f.cursor] + f.log[f.cursor..seen] == f.log[f.start..seen];
      }
    case HeardOnly =>
    case Taken =>
      if f.waiting != [] {
        assert (f.given + [f.waiting[0]]) + f.waiting[1..] == f.given + f.waiting;
      }
  }

  lemma {:induction false} GapStays(f: Follow, acts: seq<Act>)
    requires Gapped(f)
    ensures Gapped(Run(f, acts))
    decreases |acts|
  {
    hide FirstTold;
    if acts != [] {
      GapStays(Step(f, acts[0]), acts[1..]);
    }
  }

  /** Over every run, what was given out and what waits are the log from where the
      stream started to the cursor exactly when every read came in time. */
  lemma {:induction false} DeliveredExactly(f: Follow, acts: seq<Act>)
    requires Seamless(f)
    ensures Seamless(Run(f, acts)) <==> InTime(f, acts)
    decreases |acts|
  {
    hide FirstTold;
    if acts != [] {
      var g := Step(f, acts[0]);
      StepSeamless(f, acts[0]);
      if !ReadsLate(f, acts[0]) {
        DeliveredExactly(g, acts[1..]);
      } else {
        GapStays(g, acts[1..]);
        var end := Run(f, acts);
        assert |end.given + end.waiting| < end.cursor - end.start == |end.log[end.start..end.cursor]|;
      }
    }
  }

  /** Sixty-five events told and then a read, by somebody there from the start: too late. */
  lemma LateRead(line: Bytes)
    ensures var start := Follow([], 0, 0, [], []);
            var acts := seq(65, _ => Told(line)) + [HeardAndRead(65)];
            Seamless(start) && !InTime(start, acts) && Gapped(Run(start, acts))
  {
    var start := Follow([], 0, 0, [], []);
    var tells := seq(65, _ => Told(line));
    LateAfter(start, tells, line, 65);
    assert Seamless(start);
  }

  /** However many events are told, a read that then comes late is found so. */
  lemma {:induction false} LateAfter(f: Follow, tells: seq<Act>, line: Bytes, seen: nat)
    requires Seamless(f) && f.waiting == [] && forall i :: 0 <= i < |tells| ==> tells[i] == Told(line)
    requires f.cursor + 64 < seen <= |f.log| + |tells|
    ensures !InTime(f, tells + [HeardAndRead(seen)]) && Gapped(Run(f, tells + [HeardAndRead(seen)]))
    decreases |tells|
  {
    var acts := tells + [HeardAndRead(seen)];
    if tells == [] {
      assert acts == [HeardAndRead(seen)] && acts[1..] == [];
      StepSeamless(f, HeardAndRead(seen));
    } else {
      assert acts[0] == Told(line) && acts[1..] == tells[1..] + [HeardAndRead(seen)];
      StepSeamless(f, Told(line));
      LateAfter(Step(f, Told(line)), tells[1..], line, seen);
    }
  }

  // ---- the reader's side ----

  /** The text, if there is one, is the daemon's answer to `cursor` when its log, which by
      now is `log`, had `seen` events: `EventPages` says that joined pages are that. */
  ghost predicate Answered(text: Option<Bytes>, log: seq<Bytes>, cursor: int, seen: nat) {
    text.Some? ==> cursor <= seen <= |log| && text.value == SinceText(log[..seen], cursor)
  }

  /** `ncfg_fuzznet_events_t`. */
  class EventReader {
    var cursor: int
    var pending: Bytes
    var at: nat
    const daemon: EventLog

    /** Where the stream started, the daemon's lines given out, those waiting in
        `pending`, and how many never can be. */
    ghost var start: nat
    ghost var given: seq<Bytes>
    ghost var waiting: seq<Bytes>
    ghost var missed: nat
    /** `pending` is a line made up from a kind, not given out yet. */
    ghost var invented: bool
    /** That line, without its newline. */
    ghost var made: Bytes

    /** Given and waiting together are the daemon's log from the start to the cursor,
        but for what was missed. */
    ghost predicate Valid()
      reads this, daemon, daemon.kept
    {
      && daemon.Valid()
      && at <= |pending| + 1
      && (invented ==> waiting == [] && at < |pending| && pending[at..] == made + [NEWLINE] && NEWLINE !in made)
      && (waiting == [] && !invented ==> at >= |pending|)
      && (waiting != [] ==> at <= |pending| && pending[at..] == Unlines(waiting) && Lineless(waiting))
      && (cursor < 0 ==> given == [] && waiting == [] && missed == 0)
      && (cursor >= 0 ==>
            && start <= cursor <= |daemon.log|
            && |given| + |waiting| + missed == cursor - start
            && (missed == 0 ==> given + waiting == daemon.log[start..cursor]))
    }

    /** What the run model calls this reader and its log, once there is a cursor. */
    ghost function View(): Follow
      requires cursor >= 0
      reads this, daemon
    {
      Follow(daemon.log, start, cursor, given, waiting)
    }

    /** `ncfg_fuzznet_events_begin`: from now on, where the daemon says how far now is. */
    constructor (daemon: EventLog, text: Option<Bytes>, ghost seen: nat)
      requires daemon.Valid() && |daemon.log| <= LONG_MAX && Answered(text, daemon.log, -1, seen)
      ensures Valid() && this.daemon == daemon && given == [] && waiting == [] && missed == 0 && !invented
      ensures if text.Some? then cursor == start == seen else cursor < 0
    {
      this.daemon := daemon;
      cursor, pending, at := -1, [], 0;
      start, given, waiting, missed, invented, made := 0, [], [], 0, false, [];
      new;
      if text.Some? {
        start := seen;
        var ok := ReadSince(text, seen);
      }
    }

    /** The number in front of the daemon's answer, which always has one. */
    method ReadCount(text: Bytes, ghost seen: nat) returns (next: Long)
      requires |daemon.log| <= LONG_MAX && Answered(Some(text), daemon.log, cursor, seen)
      ensures next.value == seen && next.end < |text|
      ensures text[next.end + 1..] == Unlines(daemon.log[..seen][FirstTold(cursor, seen)..])
    {
      hide Unlines, FirstTold, ParseLong, SinceText, Decimal;
      SinceReads(daemon.log[..seen], cursor);
      next := ParseLong(text);
      if next.end == 0 || next.end >= |text| || text[next.end] != NEWLINE || next.value < 0 {
        assert false;
      }
    }

    /** `events_read`, `text` being its pages joined, if they were. A read that fails
        changes nothing; one that does not brings every line from the cursor to what the
        log then held, as far as the daemon still kept them. */
    method ReadSince(text: Option<Bytes>, ghost seen: nat) returns (ok: bool)
      requires daemon.Valid() && |daemon.log| <= LONG_MAX && waiting == [] && !invented
      requires Answered(text, daemon.log, cursor, seen)
      requires if cursor < 0 then given == [] && missed == 0 && (text.Some? ==> start == seen) else Valid()
      modifies this`cursor, this`pending, this`at, this`waiting, this`missed
      ensures ok == text.Some?
      ensures !ok ==> cursor == old(cursor) && pending == old(pending) && at == old(at)
                      && waiting == old(waiting) && missed == old(missed)
      ensures ok ==> Valid() && cursor == seen && given == old(given)
      ensures ok && old(cursor) >= 0 ==>
                && waiting == daemon.log[FirstTold(old(cursor), seen)..seen]
                && missed == old(missed) + (FirstTold(old(cursor), seen) - old(cursor))
      ensures ok && old(cursor) < 0 ==> waiting == [] && missed == 0
    {
      hide Unlines, FirstTold, ParseLong, SinceText, LineEnd, Lineless, EventLog.Ring;
      if text.None? {
        return false;
      }
      var next := ReadCount(text.value, seen);
      ghost var from := FirstTold(cursor, seen);
      PartLineless(daemon.log, from, seen);
      assert daemon.log[..seen][from..] == daemon.log[from..seen];
      if cursor >= 0 {
        Caught(daemon.log, start, cursor, from, seen, given);
        assert given + waiting == given;
        missed := missed + (from - cursor);
      }
      waiting := daemon.log[from..seen];
      pending := text.value;
      at := next.end + 1;
      cursor := next.value;
      if waiting == [] {
        NoLines();
        assert pending[at..] == [];
      } else {
        UnlinesLonger(waiting);
      }
      return true;
    }

    /** `ncfg_fuzznet_events_heard`. Nothing not yet given out is ever dropped; and a
        read that fails leaves the cursor, making up a line from the kind heard. */
    method Heard(line: CString, text: Option<Bytes>, ghost seen: nat, kinds: seq<KindText>)
      requires Valid() && |daemon.log| <= LONG_MAX && Answered(text, daemon.log, cursor, seen)
      modifies this`cursor, this`pending, this`at, this`waiting, this`missed, this`invented, this`made
      ensures Valid() && given == old(given) && (old(cursor) < 0 <==> cursor < 0)
      ensures if old(invented) then made == old(made) else invented ==> MadeUp(kinds, line) == Some(made)
      ensures old(cursor) >= 0 ==> View() == Step(old(View()), if text.Some? && !old(invented) then HeardAndRead(seen) else HeardOnly)
      ensures old(waiting != [] || invented) ==>
                cursor == old(cursor) && pending == old(pending) && at == old(at) && waiting == old(waiting)
                && missed == old(missed) && invented == old(invented)
      ensures old(waiting == [] && !invented) ==>
                if old(cursor) >= 0 && text.Some? then
                  && cursor == seen && !invented
                  && waiting == daemon.log[FirstTold(old(cursor), seen)..seen]
                  && missed == old(missed) + (FirstTold(old(cursor), seen) - old(cursor))
                else
                  cursor == old(cursor) && missed == old(missed) && waiting == []
                  && invented == MadeUp(kinds, line).Some?
    {
      hide Unlines, FirstTold, MadeUp;
      if at < |pending| {
        return;
      }
      if waiting != [] {
        UnlinesLonger(waiting);
      }
      if cursor >= 0 {
        var ok := ReadSince(text, seen);
        if ok {
          return;
        }
      }
      var json := MadeUp(kinds, line);
      if json.Some? {
        pending := json.value + [NEWLINE];
        at := 0;
        invented, made := true, json.value;
        MadeUpLine(kinds, line);
        assert pending[0..] == pending;
      }
    }

    /** `ncfg_fuzznet_events_take`: the daemon's lines in order, or the made-up one. */
    method Take() returns (line: Option<Bytes>)
      requires Valid()
      modifies this`at, this`given, this`waiting, this`invented
      ensures Valid()
      ensures line.Some? <==> old(waiting != [] || invented)
      ensures old(waiting) != [] ==>
                line == Some(old(waiting)[0]) && given == old(given) + [line.value] && waiting == old(waiting)[1..]
      ensures old(waiting) == [] ==> given == old(given) && waiting == []
      ensures old(invented) ==> line == Some(old(made))
      ensures !invented
      ensures cursor >= 0 ==> View() == Step(old(View()), Taken)
    {
      hide Unlines, Lineless, LineEnd, EventLog.Ring;
      if at >= |pending| {
        if waiting != [] {
          UnlinesLonger(waiting);
        }
        return None;
      }
      var rest := pending[at..];
      var end := LineEnd(rest);
      line := Some(rest[..end]);
      if waiting != [] {
        TakeWaiting(pending, at, waiting);
        assert given + waiting == (given + [waiting[0]]) + waiting[1..];
        given, waiting := given + [waiting[0]], waiting[1..];
      } else {
        LineEndIs(rest, |made|);
        assert rest[..end] == made;
      }
      at := at + end + 1;
      invented := false;
    }
  }

  /** An event told leaves whoever follows the log where they were. */
  method TellFollowed(reader: EventReader, line: Bytes)
    requires reader.Valid() && NEWLINE !in line
    modifies reader.daemon, reader.daemon.kept
    ensures reader.Valid() && reader.daemon.log == old(reader.daemon.log) + [line]
    ensures reader.cursor >= 0 ==> reader.View() == Step(old(reader.View()), Told(line))
  {
    hide Unlines, LineEnd;
    ghost var log := reader.daemon.log;
    reader.daemon.Tell(line);
    if reader.cursor >= 0 {
      assert reader.daemon.log[reader.start..reader.cursor] == log[reader.start..reader.cursor];
    }
  }

  /** A line heard is made into the event of the first kind whose subject it names, and
      that reads as the kind and its summary; into none where it names no kind. */
  lemma {:induction false} MadeUpSays(kinds: seq<KindText>, line: CString)
    ensures match MadeUp(kinds, line)
            case None => forall k :: 0 <= k < |kinds| ==> !Names(line, kinds[k].subject)
            case Some(r) => exists k :: 0 <= k < |kinds| && MadeFrom(kinds, line, k, r)
  {
    hide PrintRequest, Names, Ascii;
    if kinds != [] {
      if Names(line, kinds[0].subject) {
        MadeReads(kinds[0]);
        assert MadeFrom(kinds, line, 0, MadeUp(kinds, line).value);
      } else {
        MadeUpSays(kinds[1..], line);
        var rest := kinds[1..];
        assert MadeUp(kinds, line) == MadeUp(rest, line);
        forall k | 0 <= k < |rest| ensures rest[k] == kinds[k + 1] {}
        if MadeUp(kinds, line).Some? {
          var r := MadeUp(kinds, line).value;
          var k :| 0 <= k < |rest| && MadeFrom(rest, line, k, r);
          assert MadeFrom(kinds, line, k + 1, r);
        } else {
          forall k | 0 <= k < |kinds| ensures !Names(line, kinds[k].subject) {
            if k > 0 { assert kinds[k] == rest[k - 1]; }
          }
        }
      }
    }
  }

  ghost predicate MadeFrom(kinds: seq<KindText>, line: CString, k: nat, r: Bytes)
    requires k < |kinds|
  {
    && Names(line, kinds[k].subject) && (forall j :: 0 <= j < k ==> !Names(line, kinds[j].subject))
    && JsonSpec.ParseDocument(r) == Some(JsonSpec.Object(
         [JsonSpec.Entry(Some(EVENT), JsonSpec.String(kinds[k].event)),
          JsonSpec.Entry(Some(SUMMARY), JsonSpec.String(kinds[k].summary))]))
  }

  lemma MadeReads(kind: KindText)
    ensures var fs := [Field(EVENT, Text(kind.event)), Field(SUMMARY, Text(kind.summary))];
            JsonSpec.ParseDocument(PrintRequest(fs)) == Some(JsonSpec.Object(
              [JsonSpec.Entry(Some(EVENT), JsonSpec.String(kind.event)),
               JsonSpec.Entry(Some(SUMMARY), JsonSpec.String(kind.summary))]))
  {
    hide PrintRequest, JsonSpec.ParseDocument;
    var fs := [Field(EVENT, Text(kind.event)), Field(SUMMARY, Text(kind.summary))];
    RequestRoundTrip(fs);
    assert RequestMeant(fs).entries ==
           [JsonSpec.Entry(Some(EVENT), JsonSpec.String(kind.event)),
            JsonSpec.Entry(Some(SUMMARY), JsonSpec.String(kind.summary))];
  }

  lemma MadeUpLine(kinds: seq<KindText>, line: CString)
    ensures MadeUp(kinds, line).Some? ==> NEWLINE !in MadeUp(kinds, line).value
  {
    hide PrintRequest;
    var kind := FirstKind(line, kinds);
    if kind.Some? {
      RequestOneLine([Field(EVENT, Text(kind.value.event)), Field(SUMMARY, Text(kind.value.summary))]);
    }
  }

  /** Having had the log up to the cursor, its rest is all there is to have. */
  lemma Caught(log: seq<Bytes>, start: nat, cursor: nat, from: nat, seen: nat, given: seq<Bytes>)
    requires start <= cursor <= from <= seen <= |log|
    ensures given == log[start..cursor] && from == cursor ==> given + log[from..seen] == log[start..seen]
  {}

  lemma PartLineless(ls: seq<Bytes>, from: nat, to: nat)
    requires Lineless(ls) && from <= to <= |ls|
    ensures Lineless(ls[from..to])
  {}

  lemma UnlinesLonger(ls: seq<Bytes>)
    requires ls != []
    ensures Unlines(ls) != []
  {}

  /** Taking the line at the front of what is pending. */
  lemma TakeWaiting(pending: Bytes, at: nat, waiting: seq<Bytes>)
    requires at <= |pending| && waiting != [] && pending[at..] == Unlines(waiting) && Lineless(waiting)
    ensures var end := LineEnd(pending[at..]);
            && at + end < |pending| && pending[at..][..end] == waiting[0]
            && pending[at + end + 1..] == Unlines(waiting[1..]) && Lineless(waiting[1..])
            && (waiting[1..] == [] ==> at + end + 1 == |pending|)
  {
    hide Unlines, LineEnd;
    FirstLine(waiting);
    var end := LineEnd(pending[at..]);
    assert pending[at..][end + 1..] == pending[at + end + 1..];
    if waiting[1..] == [] {
      NoLines();
      assert |pending[at + end + 1..]| == 0;
    }
  }

  /** The first of some lines is read off their text, and the rest is the others'. */
  lemma FirstLine(ls: seq<Bytes>)
    requires ls != [] && Lineless(ls)
    ensures var t := Unlines(ls);
            && LineEnd(t) == |ls[0]| < |t| && t[..|ls[0]|] == ls[0]
            && t[|ls[0]| + 1..] == Unlines(ls[1..]) && Lineless(ls[1..])
  {
    hide Unlines;
    var l, others := ls[0], ls[1..];
    assert ls == [l] + others;
    UnlinesCons(l, others);
    var t := Unlines(ls);
    assert t == (l + [NEWLINE]) + Unlines(others) && t[|l|] == NEWLINE;
    assert forall i :: 0 <= i < |l| ==> t[i] == l[i];
    LineEndIs(t, |l|);
  }
}
