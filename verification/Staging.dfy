/** The daemon's side of an upload (c/src/main/daemon_ask.c): pieces arriving in order are
    staged for their caller, and the whole is what `ask FROM @DIGEST` then names. Together
    with `Upload` this is end to end: what the client uploaded is what the daemon runs. */
module Staging {
  import opened Bytes
  import opened Decimals
  import opened Fnv
  import Pages
  import Upload
  import Escape

  const SLOTS := 8
  const PART_MAX := 262_144
  const KEPT_MS := 60_000

  /** Who asks: a remote key or a local user, told apart and no more. */
  type Caller = nat

  /** A staged request: `bytes` are what has come of `total`. */
  datatype Part = Part(caller: Caller, digest: Hash, total: nat, bytes: Bytes, until: nat)
  type Parts = s: seq<Option<Part>> | |s| == SLOTS witness seq(SLOTS, _ => None)

  // ---- the line ----

  datatype Piece = Piece(total: nat, offset: nat, digest: Hash, bytes: Bytes)

  /** `TOTAL OFFSET DIGEST PIECE`. */
  function Args(p: Piece): Bytes {
    Decimal(p.total) + ([SPACE] + (Decimal(p.offset) + ([SPACE] + (Hex(p.digest, 16) + ([SPACE] + p.bytes)))))
  }

  /** `part_number`: at most ten digits, then a space. */
  function NumberAt(s: Bytes, at: nat): (r: Option<Pages.Parsed>)
    requires at <= |s|
    ensures r.Some? ==> at < r.value.end <= |s|
  {
    var end := SkipDigits(s, at);
    if end == at || end - at > 10 || end >= |s| || s[end] != SPACE then None
    else Some(Pages.Parsed(DigitsValue(s[at..end]), end + 1))
  }

  function PieceRead(s: Bytes): (r: Option<Piece>) {
    var total := NumberAt(s, 0);
    if total.None? then None else
    var offset := NumberAt(s, total.value.end);
    if offset.None? then None else
    var digest := Pages.HexAt(s, offset.value.end);
    if digest.None? then None else
    var at := offset.value.end + 16;
    if at >= |s| || s[at] != SPACE then None
    else Some(Piece(total.value.value, offset.value.value, digest.value, s[at + 1..]))
  }

  lemma TenDigits()
    ensures Pow10(10) == 10_000_000_000
  {
    assert Pow10(5) == 100_000;
    assert Pow10(10) == 100_000 * Pow10(5);
  }

  lemma NumberRead(s: Bytes, at: nat, n: nat, rest: Bytes)
    requires at <= |s| && s[at..] == Decimal(n) + ([SPACE] + rest)
    ensures NumberAt(s, at) == if |Decimal(n)| <= 10 then Some(Pages.Parsed(n, at + |Decimal(n)| + 1)) else None
    ensures at + |Decimal(n)| + 1 <= |s| && s[at + |Decimal(n)| + 1..] == rest
  {
    hide Decimal, DigitsValue;
    var d := Decimal(n);
    assert s[at..][..|d|] == d && s[at..][|d|] == SPACE && s[at..][|d| + 1..] == rest;
    assert s[at..at + |d|] == d && s[at + |d|] == SPACE;
    DigitsRead(s, at, d);
    DecimalValue(n);
  }

  /** A line the client composes is read as what it was composed of, unless its total has
      more digits than the daemon reads. */
  lemma ArgsRead(p: Piece)
    requires |Decimal(p.offset)| <= 10
    ensures PieceRead(Args(p)) == if |Decimal(p.total)| <= 10 then Some(p) else None
  {
    hide Decimal, Hex, NumberAt, Pages.HexAt;
    var s: Bytes := Args(p);
    var c := [SPACE] + p.bytes;
    var b := Hex(p.digest, 16) + c;
    var a := Decimal(p.offset) + ([SPACE] + b);
    assert s[0..] == s == Decimal(p.total) + ([SPACE] + a);
    NumberRead(s, 0, p.total, a);
    if |Decimal(p.total)| <= 10 {
      var at := |Decimal(p.total)| + 1;
      NumberRead(s, at, p.offset, b);
      var h := at + |Decimal(p.offset)| + 1;
      DigestRead(s, h, p.digest, p.bytes);
    }
  }

  lemma DigestRead(s: Bytes, at: nat, digest: Hash, rest: Bytes)
    requires at <= |s| && s[at..] == Hex(digest, 16) + ([SPACE] + rest)
    ensures Pages.HexAt(s, at) == Some(digest)
    ensures at + 17 <= |s| && s[at + 16] == SPACE && s[at + 17..] == rest
  {
    hide Hex, Pages.HexAt;
    var h := Hex(digest, 16);
    assert s[at..][..16] == h && s[at..][16] == SPACE && s[at..][17..] == rest;
    assert s[at..at + 16] == h;
    Pages.HexRead(s, at, digest);
  }

  // ---- the reply ----

  datatype Said = Taken(have: nat, total: nat) | Malformed | Refused

  /** The reply's text; a sentence that nothing depends on stands behind a refusal. */
  function ReplyText(said: Said, sentence: Bytes): Bytes {
    match said
    case Taken(have, total) => Ascii("ok ") + (Decimal(have) + [SPACE] + Decimal(total) + [NEWLINE])
    case Malformed => Ascii("malformed ") + sentence
    case Refused => Ascii("error ") + sentence
  }

  /** The client takes for taken exactly what was. */
  lemma TakenExactly(said: Said, sentence: Bytes)
    ensures Upload.Taken(None, Some(Pages.OK + Escape.Escaped(ReplyText(said, sentence)))) <==> said.Taken?
  {
    hide Decimal, Escape.Escaped, Ascii;
    var t := ReplyText(said, sentence);
    Words();
    match said
    case Taken(have, total) => OkEscaped(Decimal(have) + [SPACE] + Decimal(total) + [NEWLINE]);
    case Malformed => OtherEscaped(t);
    case Refused => OtherEscaped(t);
  }

  lemma Words()
    ensures Ascii("ok ") == [111, 107, 32]
    ensures |Ascii("malformed ")| > 0 && Ascii("malformed ")[0] == 109
    ensures |Ascii("error ")| > 0 && Ascii("error ")[0] == 101
  {}

  lemma OkEscaped(rest: Bytes)
    ensures Upload.OK_OK <= Pages.OK + Escape.Escaped([111, 107, 32] + rest)
  {
    hide Escape.Escaped, Escape.EscapeByte;
    var t: Bytes := [111, 107, 32] + rest;
    OkBytes();
    assert t[0..] == t && t[3..] == rest && t[0] == 111 && t[1] == 107 && t[2] == 32;
    Escape.Step(t, 0);
    Escape.Step(t, 1);
    Escape.Step(t, 2);
    var e: Bytes := Escape.Escaped(rest);
    assert Pages.OK + ([111] + ([107] + ([37, 50, 48] + e))) == Upload.OK_OK + e;
  }

  lemma OkBytes()
    ensures Escape.EscapeByte(111) == [111] && Escape.EscapeByte(107) == [107] && Escape.EscapeByte(32) == [37, 50, 48]
  {}

  lemma OtherEscaped(t: Bytes)
    requires t != [] && (t[0] == 109 || t[0] == 101)
    ensures !(Upload.OK_OK <= Pages.OK + Escape.Escaped(t))
  {
    hide Escape.Escaped;
    assert t[0..] == t;
    Escape.Step(t, 0);
    assert (Pages.OK + Escape.Escaped(t))[3] == t[0];
  }

  // ---- one line taken in ----

  predicate Expired(p: Option<Part>, now: nat) { p.Some? && now >= p.value.until }
  predicate Own(p: Option<Part>, me: Caller) { p.Some? && p.value.caller == me }

  /** `part_of`, from slot `at`: what has expired on the way goes. */
  function Found(parts: Parts, at: nat, me: Caller, digest: Hash, now: nat): (r: (Parts, nat))
    requires at <= SLOTS
    ensures at <= r.1 <= SLOTS
    ensures r.1 < SLOTS ==> Own(r.0[r.1], me) && r.0[r.1].value.digest == digest
    decreases SLOTS - at
  {
    if at == SLOTS then (parts, SLOTS)
    else
      var parts' := if Expired(parts[at], now) then parts[at := None] else parts;
      if Own(parts'[at], me) && parts'[at].value.digest == digest then (parts', at)
      else Found(parts', at + 1, me, digest, now)
  }

  /** The slots without this caller's parts. */
  function Cleared(parts: Parts, me: Caller): (r: Parts)
    ensures forall s :: 0 <= s < SLOTS ==> r[s] == if Own(parts[s], me) then None else parts[s]
  {
    seq(SLOTS, s requires 0 <= s < SLOTS => if Own(parts[s], me) then None else parts[s])
  }

  /** The first empty slot, or `SLOTS`. */
  function Free(parts: Parts, at: nat): (s: nat)
    requires at <= SLOTS
    ensures at <= s <= SLOTS && (s < SLOTS ==> parts[s].None?) && forall i :: at <= i < s ==> parts[i].Some?
    decreases SLOTS - at
  {
    if at == SLOTS || parts[at].None? then at else Free(parts, at + 1)
  }

  datatype Outcome = Outcome(parts: Parts, said: Said)

  /** A piece for the part in slot `s`, if there is one. */
  function Appended(parts: Parts, s: nat, p: Piece): Outcome
    requires s <= SLOTS && (s < SLOTS ==> parts[s].Some?)
  {
    if s == SLOTS || parts[s].value.total != p.total || p.offset != |parts[s].value.bytes|
       || |p.bytes| == 0 || |p.bytes| + p.offset > p.total then Outcome(parts, Refused)
    else
      var bytes := parts[s].value.bytes + p.bytes;
      if |bytes| == p.total && Digest(bytes) != parts[s].value.digest then Outcome(parts[s := None], Refused)
      else Outcome(parts[s := Some(parts[s].value.(bytes := bytes))], Taken(|bytes|, p.total))
  }

  function TakeIn(parts: Parts, me: Caller, args: Bytes, now: nat): Outcome {
    var piece := PieceRead(args);
    if piece.None? then Outcome(parts, Malformed)
    else
      var p := piece.value;
      if p.total == 0 || p.total > PART_MAX then Outcome(parts, Refused)
      else
        var (found, s) := Found(parts, 0, me, p.digest, now);
        if p.offset != 0 then Appended(found, s, p)
        else
          var cleared := Cleared(found, me);
          var free := Free(cleared, 0);
          if free == SLOTS then Outcome(cleared, Refused)
          else Appended(cleared[free := Some(Part(me, p.digest, p.total, [], now + KEPT_MS))], free, p)
  }

  /** `ncfg_main_ask_t`, for its staged requests. */
  class Stage {
    var parts: Parts

    constructor ()
      ensures forall s :: 0 <= s < SLOTS ==> parts[s].None?
    {
      parts := seq(SLOTS, _ => None);
    }

    /** `part_of`: the slot, or `SLOTS`. */
    method Find(me: Caller, digest: Hash, now: nat) returns (at: nat)
      modifies this
      ensures (parts, at) == Found(old(parts), 0, me, digest, now)
    {
      at := 0;
      while at < SLOTS
        invariant at <= SLOTS && Found(parts, at, me, digest, now) == Found(old(parts), 0, me, digest, now)
      {
        if Expired(parts[at], now) {
          parts := parts[at := None];
        }
        if Own(parts[at], me) && parts[at].value.digest == digest {
          return;
        }
        at := at + 1;
      }
    }

    method ClearCaller(me: Caller)
      modifies this
      ensures parts == Cleared(old(parts), me)
    {
      for s := 0 to SLOTS
        invariant forall i :: 0 <= i < SLOTS ==>
                    parts[i] == if i < s && Own(old(parts)[i], me) then None else old(parts)[i]
      {
        if Own(parts[s], me) {
          parts := parts[s := None];
        }
      }
    }

    method FindFree() returns (s: nat)
      ensures s == Free(parts, 0)
    {
      s := 0;
      while s < SLOTS && parts[s].Some?
        invariant s <= SLOTS && Free(parts, s) == Free(parts, 0)
      {
        s := s + 1;
      }
    }

    /** `ncfg_main_ask_part`. */
    method Take(me: Caller, args: Bytes, now: nat) returns (said: Said)
      modifies this
      ensures Outcome(parts, said) == TakeIn(old(parts), me, args, now)
    {
      hide Found, Free, PieceRead, Digest, Cleared;
      var piece := PieceRead(args);
      if piece.None? {
        return Malformed;
      }
      var p := piece.value;
      if p.total == 0 || p.total > PART_MAX {
        return Refused;
      }
      var s := Find(me, p.digest, now);
      if p.offset == 0 {
        ClearCaller(me);
        s := FindFree();
        if s == SLOTS {
          return Refused;
        }
        parts := parts[s := Some(Part(me, p.digest, p.total, [], now + KEPT_MS))];
      }
      if s == SLOTS || parts[s].value.total != p.total || p.offset != |parts[s].value.bytes| {
        return Refused;
      }
      if |p.bytes| == 0 || |p.bytes| > p.total - |parts[s].value.bytes| {
        return Refused;
      }
      var bytes := parts[s].value.bytes + p.bytes;
      if |bytes| == p.total {
        var digest := ComputeDigest(bytes);
        if digest != parts[s].value.digest {
          parts := parts[s := None];
          return Refused;
        }
      }
      parts := parts[s := Some(parts[s].value.(bytes := bytes))];
      return Taken(|bytes|, p.total);
    }
  }

  // ---- an upload, among whatever else is staged ----

  /** The line of an upload at `offset`, as the procedure is handed it. */
  function Upcoming(request: CString, offset: nat): Piece
    requires offset <= |request|
  {
    Piece(|request|, offset, Digest(request), request[offset..offset + Upload.PieceLength(request, offset)])
  }

  /** fuzznet takes `call askpart ` off the client's line and hands on the rest. */
  lemma LineIsArgs(request: CString, offset: nat)
    requires offset <= |request|
    ensures Upload.Line(None, request, offset) == Upload.CALL_AT[..13] + Args(Upcoming(request, offset))
  {
    hide Decimal, Hex, Digest;
    var p := Upcoming(request, offset);
    var c, t, o, h := Upload.CALL_AT[..13], Decimal(p.total), Decimal(p.offset), Hex(p.digest, 16);
    assert (c + t + [SPACE] + o + [SPACE] + h + [SPACE]) + p.bytes
           == c + (t + ([SPACE] + (o + ([SPACE] + (h + ([SPACE] + p.bytes))))));
  }

  /** All this caller has staged is one part at most: the request up to `offset`. */
  ghost predicate Holds(parts: Parts, me: Caller, request: CString, offset: nat)
    requires offset <= |request|
  {
    && (forall s, t :: 0 <= s < t < SLOTS ==> !(Own(parts[s], me) && Own(parts[t], me)))
    && (forall s :: 0 <= s < SLOTS && Own(parts[s], me) ==>
          && parts[s].value.digest == Digest(request) && parts[s].value.total == |request|
          && parts[s].value.bytes == request[..offset])
  }

  /** Of this caller's parts, what there is after is what there was before. */
  ghost predicate Keeps(before: Parts, after: Parts, me: Caller) {
    forall s :: 0 <= s < SLOTS && Own(after[s], me) ==> after[s] == before[s]
  }

  lemma KeepsHolds(before: Parts, after: Parts, me: Caller, request: CString, offset: nat)
    requires Keeps(before, after, me) && offset <= |request| && Holds(before, me, request, offset)
    ensures Holds(after, me, request, offset)
  {
    hide Digest;
  }

  /** Looking for a part changes none, and finds it exactly where it is still kept. */
  lemma {:induction false} FoundKeeps(parts: Parts, at: nat, me: Caller, digest: Hash, now: nat)
    requires at <= SLOTS
    ensures var (found, s) := Found(parts, at, me, digest, now);
            && (forall i :: 0 <= i < SLOTS ==> found[i] == parts[i] || (found[i].None? && Expired(parts[i], now)))
            && (forall i :: at <= i < s ==> !Expired(found[i], now))
            && (s < SLOTS <==> exists i :: at <= i < SLOTS && Own(parts[i], me)
                                 && parts[i].value.digest == digest && !Expired(parts[i], now))
    decreases SLOTS - at
  {
    if at < SLOTS {
      var parts': Parts := if Expired(parts[at], now) then parts[at := None] else parts;
      if !(Own(parts'[at], me) && parts'[at].value.digest == digest) {
        FoundKeeps(parts', at + 1, me, digest, now);
      }
    }
  }

  /** What another caller sends leaves this caller's parts alone, but for their time. */
  lemma OthersKeep(parts: Parts, me: Caller, other: Caller, args: Bytes, now: nat)
    requires other != me
    ensures Keeps(parts, TakeIn(parts, other, args, now).parts, me)
  {
    hide PieceRead, Digest, Found, Free;
    var piece := PieceRead(args);
    if piece.Some? {
      FoundKeeps(parts, 0, other, piece.value.digest, now);
    }
  }

  /** This caller's part is kept until then. */
  ghost predicate Lasts(parts: Parts, me: Caller, until: nat) {
    exists s :: 0 <= s < SLOTS && Own(parts[s], me) && parts[s].value.until == until
  }

  /** Before its time nobody else's line removes it. */
  lemma OthersLeave(parts: Parts, me: Caller, other: Caller, args: Bytes, now: nat, until: nat)
    requires other != me && Lasts(parts, me, until) && now < until
    ensures Lasts(TakeIn(parts, other, args, now).parts, me, until)
  {
    hide PieceRead, Digest, Found, Free;
    var s :| 0 <= s < SLOTS && Own(parts[s], me) && parts[s].value.until == until;
    var piece := PieceRead(args);
    if piece.Some? {
      FoundKeeps(parts, 0, other, piece.value.digest, now);
      var (found, at) := Found(parts, 0, other, piece.value.digest, now);
      assert found[s] == parts[s] && Cleared(found, other)[s] == parts[s];
    }
    assert TakeIn(parts, other, args, now).parts[s] == parts[s];
  }

  /** The part is still kept. */
  predicate Kept(parts: Parts, me: Caller, now: nat) {
    exists s :: 0 <= s < SLOTS && Own(parts[s], me) && !Expired(parts[s], now)
  }

  /** There is a place for a new part of this caller's. */
  predicate HasPlace(parts: Parts, me: Caller, now: nat) {
    exists s :: 0 <= s < 8 && (parts[s].None? || Expired(parts[s], now) || Own(parts[s], me))
  }

  /** A line behind the first is taken exactly while the part is kept; and the part is
      then the request, up to the end of this piece. */
  lemma NextPiece(parts: Parts, me: Caller, request: CString, offset: nat, now: nat)
    requires 0 < offset < |request| <= PART_MAX && Holds(parts, me, request, offset)
    ensures var r := TakeIn(parts, me, Args(Upcoming(request, offset)), now);
            var end := offset + Upload.PieceLength(request, offset);
            && (r.said.Taken? <==> Kept(parts, me, now))
            && (r.said.Taken? ==> Holds(r.parts, me, request, end))
            && (forall until: nat :: r.said.Taken? && Lasts(parts, me, until) ==> Lasts(r.parts, me, until))
  {
    hide Args, PieceRead, Digest, Found;
    var p := Upcoming(request, offset);
    FewDigits(request, offset);
    ArgsRead(p);
    FoundKeeps(parts, 0, me, p.digest, now);
    var (found, s) := Found(parts, 0, me, p.digest, now);
    assert request[..offset] + p.bytes == request[..offset + |p.bytes|];
    if s < SLOTS {
      assert Own(found[s], me) && found[s] == parts[s];
      var end := offset + |p.bytes|;
      if end == |request| { assert request[..end] == request; }
      var r := TakeIn(parts, me, Args(p), now);
      assert Own(r.parts[s], me) && r.parts[s].value.bytes == request[..end];
    }
  }

  lemma FewDigits(request: CString, offset: nat)
    requires offset <= |request| <= PART_MAX
    ensures |Decimal(|request|)| <= 10 && |Decimal(offset)| <= 10
  {
    TenDigits();
    DecimalLength(|request|, 10);
    DecimalLength(offset, 10);
  }

  /** The first line is taken exactly when there is a place; whatever this caller had
      staged is gone, and the first piece is all it has. */
  lemma FirstPiece(parts: Parts, me: Caller, request: CString, now: nat)
    requires 0 < |request| <= PART_MAX
    ensures var r := TakeIn(parts, me, Args(Upcoming(request, 0)), now);
            && (r.said.Taken? <==> HasPlace(parts, me, now))
            && (r.said.Taken? ==> Holds(r.parts, me, request, Upload.PieceLength(request, 0))
                                  && Lasts(r.parts, me, now + 60_000))
  {
    hide Args, PieceRead, Digest, Found, Free;
    var p := Upcoming(request, 0);
    FewDigits(request, 0);
    ArgsRead(p);
    FoundKeeps(parts, 0, me, p.digest, now);
    var (found, at) := Found(parts, 0, me, p.digest, now);
    var cleared := Cleared(found, me);
    var s := Free(cleared, 0);
    PlaceFound(parts, found, at, me, now);
    if s < SLOTS {
      assert [] + p.bytes == p.bytes == request[..|p.bytes|];
      if |p.bytes| == |request| { assert request[..|p.bytes|] == request; }
      var r := TakeIn(parts, me, Args(p), now);
      assert Own(r.parts[s], me) && r.parts[s].value.bytes == request[..|p.bytes|];
    }
  }

  lemma PlaceFound(parts: Parts, found: Parts, at: nat, me: Caller, now: nat)
    requires at <= SLOTS && (at < SLOTS ==> Own(found[at], me))
    requires forall i :: 0 <= i < SLOTS ==> found[i] == parts[i] || (found[i].None? && Expired(parts[i], now))
    requires forall i :: 0 <= i < at ==> !Expired(found[i], now)
    ensures Free(Cleared(found, me), 0) < SLOTS <==> HasPlace(parts, me, now)
  {
    hide Free;
    var cleared := Cleared(found, me);
    if at < SLOTS { assert cleared[at].None?; }
    var s := Free(cleared, 0);
    if s < SLOTS {
      assert parts[s].None? || Expired(parts[s], now) || Own(parts[s], me);
    } else {
      forall i | 0 <= i < SLOTS
        ensures !(parts[i].None? || Expired(parts[i], now) || Own(parts[i], me))
      {
        assert cleared[i].Some?;
      }
    }
  }

  /** A request too long to stage is never taken. */
  lemma TooLongIsRefused(parts: Parts, me: Caller, request: CString, offset: nat, now: nat)
    requires offset < |request| && |request| > 262_144 && |Decimal(offset)| <= 10
    ensures !TakeIn(parts, me, Args(Upcoming(request, offset)), now).said.Taken?
  {
    hide Args, PieceRead, Digest, Found, Free;
    ArgsRead(Upcoming(request, offset));
  }

  // ---- whole runs ----

  /** One line that reaches the daemon, whoever sent it. */
  datatype Event = Event(caller: Caller, args: Bytes, now: nat)

  ghost function Run(parts: Parts, events: seq<Event>): (r: Parts)
    decreases |events|
  {
    if events == [] then parts
    else Run(TakeIn(parts, events[0].caller, events[0].args, events[0].now).parts, events[1..])
  }

  /** What this caller's lines are answered. */
  ghost function Replies(parts: Parts, events: seq<Event>, me: Caller): (r: seq<Said>)
    decreases |events|
  {
    if events == [] then []
    else
      var one := TakeIn(parts, events[0].caller, events[0].args, events[0].now);
      (if events[0].caller == me then [one.said] else []) + Replies(one.parts, events[1..], me)
  }

  /** This caller sends the upload's lines from `offset` to the end, and nothing else. */
  ghost predicate Uploads(events: seq<Event>, me: Caller, request: CString, offset: nat)
    requires offset <= |request|
    decreases |events|
  {
    if events == [] then offset == |request|
    else if events[0].caller != me then Uploads(events[1..], me, request, offset)
    else
      && offset < |request| && events[0].args == Args(Upcoming(request, offset))
      && Uploads(events[1..], me, request, offset + Upload.PieceLength(request, offset))
  }

  ghost predicate AllTaken(replies: seq<Said>) { forall i :: 0 <= i < |replies| ==> replies[i].Taken? }

  /** An upload whose every line is taken leaves the request staged, whole, and nothing
      else of this caller's, whatever the others send in between and whatever the time. */
  lemma {:induction false} UploadStages(parts: Parts, events: seq<Event>, me: Caller, request: CString, offset: nat)
    requires 0 < |request| <= PART_MAX && offset <= |request| && Uploads(events, me, request, offset)
    requires (offset > 0 ==> Holds(parts, me, request, offset)) && AllTaken(Replies(parts, events, me))
    ensures Holds(Run(parts, events), me, request, |request|)
    decreases |events|
  {
    hide Args, Digest, TakeIn, Holds, PieceRead;
    if events != [] {
      var e := events[0];
      var one := TakeIn(parts, e.caller, e.args, e.now);
      var all, rest := Replies(parts, events, me), Replies(one.parts, events[1..], me);
      if e.caller != me {
        assert all == rest;
        OthersKeep(parts, me, e.caller, e.args, e.now);
        if offset > 0 { KeepsHolds(parts, one.parts, me, request, offset); }
        UploadStages(one.parts, events[1..], me, request, offset);
      } else {
        assert all == [one.said] + rest && all[0] == one.said;
        assert forall i :: 0 <= i < |rest| ==> rest[i] == all[i + 1];
        if offset == 0 { FirstPiece(parts, me, request, e.now); } else { NextPiece(parts, me, request, offset, e.now); }
        UploadStages(one.parts, events[1..], me, request, offset + Upload.PieceLength(request, offset));
      }
    }
  }

  /** Lines that come before the part's time is up are all taken. */
  lemma {:induction false} PromptIsTaken(parts: Parts, events: seq<Event>, me: Caller, request: CString, offset: nat, until: nat)
    requires 0 < offset <= |request| <= PART_MAX && Uploads(events, me, request, offset)
    requires Holds(parts, me, request, offset) && Lasts(parts, me, until)
    requires forall i :: 0 <= i < |events| ==> events[i].now < until
    ensures AllTaken(Replies(parts, events, me))
    ensures Holds(Run(parts, events), me, request, |request|) && Lasts(Run(parts, events), me, until)
    decreases |events|
  {
    hide Args, Digest, TakeIn, Holds, PieceRead;
    if events != [] {
      var e, rest := events[0], events[1..];
      var one := TakeIn(parts, e.caller, e.args, e.now);
      assert forall i :: 0 <= i < |rest| ==> rest[i] == events[i + 1];
      if e.caller != me {
        OthersKeep(parts, me, e.caller, e.args, e.now);
        OthersLeave(parts, me, e.caller, e.args, e.now, until);
        KeepsHolds(parts, one.parts, me, request, offset);
        PromptIsTaken(one.parts, rest, me, request, offset, until);
        assert Replies(parts, events, me) == Replies(one.parts, rest, me);
      } else {
        NextPiece(parts, me, request, offset, e.now);
        PromptIsTaken(one.parts, rest, me, request, offset + Upload.PieceLength(request, offset), until);
        assert Replies(parts, events, me) == [one.said] + Replies(one.parts, rest, me);
      }
    }
  }

  /** With a place for its first line, an upload of at most 256 KiB whose lines all come
      within a minute of that line is taken, line by line, whatever others send in between;
      and for that minute, and no longer, its digest names exactly the request. */
  lemma PromptUploadIsNamed(parts: Parts, events: seq<Event>, me: Caller, request: CString, now: nat)
    requires 0 < |request| <= 262_144 && Uploads(events, me, request, 0)
    requires events != [] && events[0].caller == me && HasPlace(parts, me, events[0].now)
    requires forall i :: 0 <= i < |events| ==> events[i].now < events[0].now + 60_000
    ensures AllTaken(Replies(parts, events, me))
    ensures Named(Run(parts, events), me, Digest(request), now) ==
            if now < events[0].now + 60_000 then Some(request) else None
  {
    hide Args, Digest, TakeIn, Found, PieceRead;
    var e, rest := events[0], events[1..];
    var one := TakeIn(parts, me, e.args, e.now);
    FirstPiece(parts, me, request, e.now);
    assert forall i :: 0 <= i < |rest| ==> rest[i] == events[i + 1];
    PromptIsTaken(one.parts, rest, me, request, Upload.PieceLength(request, 0), e.now + 60_000);
    assert Replies(parts, events, me) == [one.said] + Replies(one.parts, rest, me);
    var end := Run(parts, events);
    assert end == Run(one.parts, rest);
    FoundKeeps(end, 0, me, Digest(request), now);
    assert request[..|request|] == request;
  }

  /** What `ask FROM @DIGEST` finds for this caller: a whole staged request, or none. */
  function Named(parts: Parts, me: Caller, digest: Hash, now: nat): (r: Option<Bytes>) {
    var (found, s) := Found(parts, 0, me, digest, now);
    if s == SLOTS || |found[s].value.bytes| != found[s].value.total then None else Some(found[s].value.bytes)
  }

  /** End to end: after an upload the client takes for taken, from replies carried as
      fuzznet carries them, what its digest names at the daemon is the request, byte for
      byte, for as long as it is kept. */
  lemma UploadedIsNamed(parts: Parts, events: seq<Event>, me: Caller, request: CString,
                        replies: Upload.Replies, sentence: Bytes, now: nat)
    requires 0 < |request| <= PART_MAX && Uploads(events, me, request, 0)
    requires forall k: nat :: k < |Replies(parts, events, me)| ==>
               replies(k) == Some(Pages.OK + Escape.Escaped(ReplyText(Replies(parts, events, me)[k], sentence)))
    requires Upload.AllTaken(None, request, replies)
    ensures Named(Run(parts, events), me, Digest(request), now) ==
            if Kept(Run(parts, events), me, now) then Some(request) else None
  {
    hide Args, Digest, TakeIn, Found, Escape.Escaped, ReplyText, Upload.Lines, Upload.Taken, Run, Replies, Uploads;
    var said, end := Replies(parts, events, me), Run(parts, events);
    AsManyReplies(parts, events, me, request, 0);
    forall k: nat | k < |said| ensures said[k].Taken? {
      assert Upload.Taken(None, replies(k));
      TakenExactly(said[k], sentence);
    }
    UploadStages(parts, events, me, request, 0);
    FoundKeeps(end, 0, me, Digest(request), now);
    assert request[..|request|] == request;
  }

  lemma {:induction false} AsManyReplies(parts: Parts, events: seq<Event>, me: Caller, request: CString, offset: nat)
    requires offset <= |request| && Uploads(events, me, request, offset)
    ensures |Replies(parts, events, me)| == |Upload.Lines(None, request, offset)|
    decreases |events|
  {
    hide Args, Digest, TakeIn, Upload.Lines;
    Upload.LinesStep(None, request, offset);
    if events != [] {
      var one := TakeIn(parts, events[0].caller, events[0].args, events[0].now);
      AsManyReplies(one.parts, events[1..], me, request,
                    if events[0].caller == me then offset + Upload.PieceLength(request, offset) else offset);
    }
  }

  // ---- what is staged is what it is called ----

  /** No part is longer than its total, and a whole one has its digest. */
  ghost predicate Truthful(parts: Parts) {
    forall s :: 0 <= s < SLOTS && parts[s].Some? ==>
      && |parts[s].value.bytes| <= parts[s].value.total
      && (|parts[s].value.bytes| == parts[s].value.total ==> Digest(parts[s].value.bytes) == parts[s].value.digest)
  }

  /** Every line keeps it so, whoever sends it and whatever it holds. */
  lemma TakeInTruthful(parts: Parts, me: Caller, args: Bytes, now: nat)
    requires Truthful(parts)
    ensures Truthful(TakeIn(parts, me, args, now).parts)
  {
    hide PieceRead, Digest, Found, Free;
    var piece := PieceRead(args);
    if piece.Some? && 0 < piece.value.total <= PART_MAX {
      var p := piece.value;
      FoundKeeps(parts, 0, me, p.digest, now);
      var (found, s) := Found(parts, 0, me, p.digest, now);
      assert Truthful(found);
      if p.offset != 0 {
        AppendedTruthful(found, s, p);
      } else {
        var cleared := Cleared(found, me);
        var free := Free(cleared, 0);
        if free < SLOTS {
          AppendedTruthful(cleared[free := Some(Part(me, p.digest, p.total, [], now + KEPT_MS))], free, p);
        }
      }
    }
  }

  lemma AppendedTruthful(parts: Parts, s: nat, p: Piece)
    requires s <= SLOTS && (s < SLOTS ==> parts[s].Some?) && Truthful(parts)
    ensures Truthful(Appended(parts, s, p).parts)
  {
    hide Digest;
  }

  /** Over every run from an empty stage: whatever bytes a digest names have that digest. */
  lemma {:induction false} NamedHasDigest(parts: Parts, events: seq<Event>, me: Caller, digest: Hash, now: nat)
    requires Truthful(parts)
    ensures var r := Named(Run(parts, events), me, digest, now); r.Some? ==> Digest(r.value) == digest
    decreases |events|
  {
    hide Digest, TakeIn, Found;
    if events == [] {
      FoundKeeps(parts, 0, me, digest, now);
    } else {
      TakeInTruthful(parts, events[0].caller, events[0].args, events[0].now);
      NamedHasDigest(TakeIn(parts, events[0].caller, events[0].args, events[0].now).parts, events[1..], me, digest, now);
    }
  }
}
