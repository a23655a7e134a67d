/** Another node's list of events: `NEXT FIRST [SUBJECT NAME]...`, read as hostile. */
module EventLists {
  import opened Bytes
  import opened Decimals

  const COPY_SIZE := 2048
  const SUBJECT_MAX := 16
  const SIZE_MAX: nat := 0xffff_ffff_ffff_ffff

  datatype Numbered = Numbered(value: nat, end: nat)
  datatype Listed = Listed(next: nat, first: nat, subjects: seq<Bytes>)

  predicate SubjectByte(b: byte) { 97 <= b <= 122 || b == MINUS }

  /** One to sixteen lower-case letters and hyphens. */
  predicate SubjectText(t: Bytes) {
    1 <= |t| <= 16 && forall i :: 0 <= i < |t| ==> (97 <= t[i] <= 122 || t[i] == 45)
  }

  /** What the reader takes for one. */
  predicate IsSubject(t: Bytes) {
    1 <= |t| <= SUBJECT_MAX && forall i :: 0 <= i < |t| ==> SubjectByte(t[i])
  }

  /** At most twenty digits, and no number past the largest `size_t`. */
  function NumberAt(t: Bytes, at: nat): (r: Option<Numbered>)
    requires at <= |t|
    ensures r.Some? ==> at < r.value.end <= |t|
  {
    var all := SkipDigits(t, at);
    var end := if all - at > 20 then at + 20 else all;
    if end == at || DigitsValue(t[at..end]) > SIZE_MAX then None
    else Some(Numbered(DigitsValue(t[at..end]), end))
  }

  /** Where the word at `at` ends. */
  function WordEnd(t: Bytes, at: nat): (r: nat)
    requires at <= |t|
    ensures at <= r <= |t| && (r < |t| ==> t[r] == SPACE)
    ensures forall i :: at <= i < r ==> t[i] != SPACE
    decreases |t| - at
  {
    if at < |t| && t[at] != SPACE then WordEnd(t, at + 1) else at
  }

  /** The subjects of the events from `at` on, if that is what stands there. */
  function SubjectsAt(t: Bytes, at: nat): (r: Option<seq<Bytes>>)
    requires at <= |t|
    ensures r.Some? ==> forall i :: 0 <= i < |r.value| ==> IsSubject(r.value[i])
    decreases |t| - at
  {
    if at == |t| then Some([])
    else if t[at] != SPACE then None
    else
      var end := WordEnd(t, at + 1);
      var subject := t[at + 1..end];
      if !IsSubject(subject) || end == |t| then None
      else
        var rest := SubjectsAt(t, WordEnd(t, end + 1));
        if rest.None? then None else Some([subject] + rest.value)
  }

  /** What is kept of a list that has more than there is room for, and how it says so. */
  function Kept(next: nat, first: nat, subjects: seq<Bytes>, cap: nat): Listed {
    if |subjects| > cap then Listed(next, next, subjects[..cap]) else Listed(next, first, subjects)
  }

  function ReadList(t: Bytes, cap: nat): Option<Listed> {
    if |t| >= COPY_SIZE || 0 in t then None
    else
      var next := NumberAt(t, 0);
      if next.None? || next.value.end == |t| || t[next.value.end] != SPACE then None
      else
        var first := NumberAt(t, next.value.end + 1);
        if first.None? then None
        else
          var subjects := SubjectsAt(t, first.value.end);
          if subjects.None? then None else Some(Kept(next.value.value, first.value.value, subjects.value, cap))
  }

  // ---- the code ----

  /** `events_number`. */
  method ReadNumber(t: Bytes, start: nat) returns (r: Option<Numbered>)
    requires start <= |t|
    ensures r == NumberAt(t, start)
  {
    hide DigitsValue;
    var value, at := 0, start;
    ghost var all := SkipDigits(t, start);
    ghost var end := if all - start > 20 then start + 20 else all;
    NoDigits();
    assert t[start..start] == [];
    while at < |t| && IsDigit(t[at]) && at - start < 20
      invariant start <= at <= end && SkipDigits(t, at) == all
      invariant value == DigitsValue(t[start..at]) && value <= SIZE_MAX
    {
      var digit := t[at] - 48;
      assert t[start..at + 1] == t[start..at] + [t[at]];
      DigitsSnoc(t[start..at], t[at]);
      PastMax(value, digit, SIZE_MAX);
      if value > (SIZE_MAX - digit) / 10 {
        assert t[start..end][..at + 1 - start] == t[start..at + 1];
        DigitsGrow(t[start..end], at + 1 - start);
        return None;
      }
      value := value * 10 + digit;
      at := at + 1;
    }
    if at == start {
      return None;
    }
    return Some(Numbered(value, at));
  }

  method PassWord(t: Bytes, start: nat) returns (at: nat)
    requires start <= |t|
    ensures at == WordEnd(t, start)
  {
    at := start;
    while at < |t| && t[at] != SPACE
      invariant start <= at <= |t| && WordEnd(t, at) == WordEnd(t, start)
    {
      at := at + 1;
    }
  }

  method CheckSubject(t: Bytes) returns (ok: bool)
    ensures ok == IsSubject(t)
  {
    if |t| == 0 || |t| >= SUBJECT_MAX + 1 {
      return false;
    }
    var digit := 0;
    while digit < |t|
      invariant 0 <= digit <= |t| && forall i :: 0 <= i < digit ==> SubjectByte(t[i])
    {
      if !SubjectByte(t[digit]) {
        return false;
      }
      digit := digit + 1;
    }
    return true;
  }

  /** `ncfg_fuzznet_events_read`. */
  method Read(t: Bytes, cap: nat) returns (r: Option<Listed>)
    ensures r == ReadList(t, cap)
  {
    hide NumberAt, SubjectsAt;
    if |t| >= COPY_SIZE || 0 in t {
      return None;
    }
    var next := ReadNumber(t, 0);
    if next.None? || next.value.end >= |t| || t[next.value.end] != SPACE {
      return None;
    }
    var first := ReadNumber(t, next.value.end + 1);
    if first.None? {
      return None;
    }
    var at := first.value.end;
    if at < |t| && t[at] != SPACE {
      SubjectsEnd(t, at);
      return None;
    }
    var count, kept;
    at, count, kept := ReadSubjects(t, at, cap);
    if at != |t| {
      return None;
    }
    if count > cap {
      return Some(Listed(next.value.value, next.value.value, kept));
    }
    return Some(Listed(next.value.value, first.value.value, kept));
  }

  /** One event of a list, its words being known. */
  lemma SubjectsStep(t: Bytes, at: nat)
    requires at < |t| && t[at] == SPACE
    ensures var end := WordEnd(t, at + 1);
            SubjectsAt(t, at) ==
            if !IsSubject(t[at + 1..end]) || end == |t| then None
            else
              var rest := SubjectsAt(t, WordEnd(t, end + 1));
              if rest.None? then None else Some([t[at + 1..end]] + rest.value)
  {
    hide WordEnd, IsSubject;
  }

  lemma SubjectsEnd(t: Bytes, at: nat)
    requires at <= |t| && (at < |t| ==> t[at] != SPACE)
    ensures SubjectsAt(t, at) == if at == |t| then Some([]) else None
  {}

  /** The loop over events: it stops short of the end exactly where there is no list. */
  method ReadSubjects(t: Bytes, start: nat, cap: nat) returns (at: nat, count: nat, kept: seq<Bytes>)
    requires start <= |t|
    ensures match SubjectsAt(t, start)
            case None => at != |t|
            case Some(s) => at == |t| && count == |s| && kept == if count > cap then s[..cap] else s
  {
    hide SubjectsAt, WordEnd, IsSubject;
    ghost var all, seen := SubjectsAt(t, start), [];
    at, count, kept := start, 0, [];
    if all.Some? {
      assert [] + all.value == all.value;
    }
    while at < |t| && t[at] == SPACE
      invariant at <= |t| && count == |seen| && kept == if count > cap then seen[..cap] else seen
      invariant all.Some? <==> SubjectsAt(t, at).Some?
      invariant all.Some? ==> all.value == seen + SubjectsAt(t, at).value
      decreases |t| - at
    {
      var end := PassWord(t, at + 1);
      var subject := t[at + 1..end];
      var fine := CheckSubject(subject);
      SubjectsStep(t, at);
      if !fine || end >= |t| {
        return |t| + 1, 0, [];
      }
      var next := PassWord(t, end + 1);
      if all.Some? {
        assert seen + ([subject] + SubjectsAt(t, next).value) == (seen + [subject]) + SubjectsAt(t, next).value;
      }
      at := next;
      if count < cap {
        kept := kept + [subject];
      }
      seen := seen + [subject];
      count := count + 1;
    }
    SubjectsEnd(t, at);
    assert seen + [] == seen;
  }

  // ---- nothing is lost in silence ----

  /** Every list read either keeps all its events, with FIRST as it was sent, or keeps
      exactly as many as there is room for and says so by FIRST. */
  lemma NoSilentLoss(t: Bytes, cap: nat)
    requires ReadList(t, cap).Some?
    ensures var all, l := ReadList(t, COPY_SIZE), ReadList(t, cap).value;
            && all.Some? && l.subjects <= all.value.subjects && l.next == all.value.next
            && (if |all.value.subjects| <= cap then l == all.value else |l.subjects| == cap && l.first == l.next)
            && forall i :: 0 <= i < |l.subjects| ==> SubjectText(l.subjects[i])
  {
    var first := NumberAt(t, NumberAt(t, 0).value.end + 1);
    CountBound(t, first.value.end);
  }

  lemma {:induction false} CountBound(t: Bytes, at: nat)
    requires at <= |t|
    ensures var s := SubjectsAt(t, at); s.Some? ==> |s.value| <= |t| - at
    decreases |t| - at
  {
    if at < |t| && t[at] == SPACE {
      var end := WordEnd(t, at + 1);
      if end < |t| {
        CountBound(t, WordEnd(t, end + 1));
      }
    }
  }

  // ---- printing and reading are inverse ----

  datatype Event = Event(subject: Bytes, name: Bytes)

  predicate GoodEvent(e: Event) { SubjectText(e.subject) && SPACE !in e.name && 0 !in e.name }

  function PrintEvents(es: seq<Event>): Bytes {
    if es == [] then [] else [SPACE] + es[0].subject + [SPACE] + es[0].name + PrintEvents(es[1..])
  }

  function PrintList(next: nat, first: nat, es: seq<Event>): Bytes {
    Decimal(next) + [SPACE] + Decimal(first) + PrintEvents(es)
  }

  function Subjects(es: seq<Event>): seq<Bytes> {
    if es == [] then [] else [es[0].subject] + Subjects(es[1..])
  }

  lemma {:induction false} WordRead(t: Bytes, at: nat, w: Bytes)
    requires Holds(t, at, w) && SPACE !in w && (at + |w| == |t| || t[at + |w|] == SPACE)
    ensures WordEnd(t, at) == at + |w|
    decreases |w|
  {
    if w != [] {
      HoldsFirst(t, at, w);
      assert w[0] in w && forall b :: b in w[1..] ==> b in w;
      WordRead(t, at + 1, w[1..]);
    }
  }

  lemma PrintEventsBegin(es: seq<Event>)
    ensures es != [] ==> PrintEvents(es) != [] && PrintEvents(es)[0] == SPACE
  {}

  lemma {:induction false} EventsRead(t: Bytes, at: nat, es: seq<Event>)
    requires forall i :: 0 <= i < |es| ==> GoodEvent(es[i])
    requires at <= |t| && t[at..] == PrintEvents(es)
    ensures SubjectsAt(t, at) == Some(Subjects(es))
    decreases |es|
  {
    hide SubjectsAt, GoodEvent;
    if es != [] {
      var e, rest := es[0], PrintEvents(es[1..]);
      PrintEventsBegin(es[1..]);
      EventRead(t, at, e, rest);
      EventsRead(t, at + 2 + |e.subject| + |e.name|, es[1..]);
    } else {
      SubjectsEnd(t, at);
    }
  }

  /** One event's words are passed, and the next event is looked for behind them. */
  lemma EventRead(t: Bytes, at: nat, e: Event, rest: Bytes)
    requires GoodEvent(e) && (rest != [] ==> rest[0] == SPACE)
    requires at <= |t| && t[at..] == [SPACE] + e.subject + [SPACE] + e.name + rest
    ensures var next := at + 2 + |e.subject| + |e.name|;
            && next <= |t| && t[next..] == rest
            && SubjectsAt(t, at) ==
               (var more := SubjectsAt(t, next); if more.None? then None else Some([e.subject] + more.value))
  {
    hide WordEnd, IsSubject, SubjectsAt, Holds;
    SubjectExactly(e.subject);
    EventPieces(t, at, e, rest);
    SubjectsStep(t, at);
    var s, n := at + 1, at + 1 + |e.subject| + 1;
    if rest != [] {
      assert t[n + |e.name|] == t[n + |e.name|..][0];
    }
    SubjectHasNoSpace(e.subject);
    WordRead(t, s, e.subject);
    WordRead(t, n, e.name);
    SubjectHeld(t, s, e.subject);
  }

  lemma SubjectHeld(t: Bytes, at: nat, w: Bytes)
    requires Holds(t, at, w)
    ensures at + |w| <= |t| && t[at..at + |w|] == w
  {}

  /** The reader takes for subjects exactly those. */
  lemma SubjectExactly(t: Bytes)
    ensures IsSubject(t) <==> SubjectText(t)
  {}

  lemma SubjectHasNoSpace(s: Bytes)
    requires SubjectText(s)
    ensures SPACE !in s && 0 !in s
  {}

  lemma EventPieces(t: Bytes, at: nat, e: Event, rest: Bytes)
    requires at <= |t| && t[at..] == [SPACE] + e.subject + [SPACE] + e.name + rest
    ensures var s, n := at + 1, at + 1 + |e.subject| + 1;
            && n + |e.name| <= |t| && t[at] == SPACE && t[n - 1] == SPACE
            && Holds(t, s, e.subject) && Holds(t, n, e.name) && t[n + |e.name|..] == rest
  {
    var u := t[at..];
    var s, n := 1, 1 + |e.subject| + 1;
    assert u[0] == SPACE && u[n - 1] == SPACE && u[s..s + |e.subject|] == e.subject;
    assert u[n..n + |e.name|] == e.name && u[n + |e.name|..] == rest;
    assert t[at + s..at + s + |e.subject|] == u[s..s + |e.subject|];
    assert t[at + n..at + n + |e.name|] == u[n..n + |e.name|];
    assert t[at + n + |e.name|..] == u[n + |e.name|..];
    assert t[at] == u[0] && t[at + n - 1] == u[n - 1];
  }

  lemma {:induction false} PrintedPlain(es: seq<Event>)
    requires forall i :: 0 <= i < |es| ==> GoodEvent(es[i])
    ensures 0 !in PrintEvents(es)
    decreases |es|
  {
    if es != [] {
      PrintedPlain(es[1..]);
      assert GoodEvent(es[0]);
      SubjectHasNoSpace(es[0].subject);
    }
  }

  lemma NumberRead(t: Bytes, at: nat, n: nat)
    requires n <= SIZE_MAX && Holds(t, at, Decimal(n)) && (at + |Decimal(n)| == |t| || t[at + |Decimal(n)|] == SPACE)
    ensures at <= |t| && NumberAt(t, at) == Some(Numbered(n, at + |Decimal(n)|))
  {
    hide Decimal;
    DigitsRead(t, at, Decimal(n));
    DecimalValue(n);
    DecimalLength(n, 20);
    TwentyDigits();
  }

  /** A printed list that fits is read back as it was, but for what there is no room for. */
  lemma ListRoundTrip(next: nat, first: nat, es: seq<Event>, cap: nat)
    requires next <= SIZE_MAX && first <= SIZE_MAX && forall i :: 0 <= i < |es| ==> GoodEvent(es[i])
    requires |PrintList(next, first, es)| < 2048
    ensures ReadList(PrintList(next, first, es), cap) == Some(Kept(next, first, Subjects(es), cap))
  {
    hide Decimal, NumberAt, PrintEvents, SubjectsAt, Subjects;
    var t := PrintList(next, first, es);
    var a, b, c := Decimal(next), Decimal(first), PrintEvents(es);
    assert t[..|a|] == a && t[|a|] == SPACE;
    assert t[0..|a|] == a;
    assert t[|a| + 1..|a| + 1 + |b|] == b && t[|a| + 1 + |b|..] == c;
    PrintedPlain(es);
    PrintEventsBegin(es);
    if es == [] {
      NoEvents();
    } else {
      assert t[|a| + 1 + |b|] == t[|a| + 1 + |b|..][0];
    }
    NumberRead(t, 0, next);
    NumberRead(t, |a| + 1, first);
    EventsRead(t, |a| + 1 + |b|, es);
    assert 0 !in t;
  }

  lemma NoEvents()
    ensures PrintEvents([]) == []
  {}

  /** A text that does not fit the reader's copy, or ends early in C, is no list. */
  lemma TooLongIsNoList(t: Bytes, cap: nat)
    requires |t| >= 2048 || 0 in t
    ensures ReadList(t, cap).None?
  {}
}
