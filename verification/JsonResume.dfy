/** The recursive reading, turned inside out: what remains to be read once some
    containers are open. The iterative parser keeps exactly this much in its
    frame stack, so each of its steps must leave the final answer unchanged. */
module JsonResume {
  import opened Bytes
  import opened JsonSpec

  /** An open container: the entries finished so far, and the name the value
      being read will have. */
  datatype Frame = Frame(isObject: bool, done: seq<Entry>, key: Option<Bytes>)

  /** Read a value at `at`, inside `open`, and then all the rest. */
  ghost function ReadIn(s: Bytes, at: nat, open: seq<Frame>): Option<Json>
    requires at <= |s|
    decreases |s| - at, 3
  {
    var value := ParseValue(s, at, |open|);
    if value.None? then None else Resume(s, value.value.end, open, value.value.value)
  }

  /** A value ended at `at`, inside `open`: close what it closes and read all the rest. */
  ghost function Resume(s: Bytes, at: nat, open: seq<Frame>, value: Json): Option<Json>
    requires at <= |s|
    decreases |s| - at, 2
  {
    var next := SkipSpace(s, at);
    if open == [] then (if next == |s| then Some(value) else None)
    else
      var rest, top := open[..|open| - 1], open[|open| - 1];
      var done := top.done + [Entry(top.key, value)];
      if next >= |s| then None
      else if s[next] == COMMA then NextEntry(s, next + 1, rest, top.isObject, done)
      else if s[next] == Closer(top.isObject) then Resume(s, next + 1, rest, Container(top.isObject, done))
      else None
  }

  /** Read the next entry of a container that has `done`, inside `rest`, and then all the rest. */
  ghost function NextEntry(s: Bytes, at: nat, rest: seq<Frame>, isObject: bool, done: seq<Entry>): Option<Json>
    requires at <= |s|
    decreases |s| - at, 4
  {
    if isObject then
      var key := ParseKey(s, at);
      if key.None? then None
      else ReadIn(s, key.value.end, rest + [Frame(true, done, Some(key.value.text))])
    else ReadIn(s, at, rest + [Frame(false, done, None)])
  }

  /** What resuming does once the innermost container is known. */
  lemma ResumeTop(s: Bytes, at: nat, rest: seq<Frame>, top: Frame, value: Json)
    requires at <= |s|
    ensures var next, done := SkipSpace(s, at), top.done + [Entry(top.key, value)];
            Resume(s, at, rest + [top], value) ==
            if next >= |s| then None
            else if s[next] == COMMA then NextEntry(s, next + 1, rest, top.isObject, done)
            else if s[next] == Closer(top.isObject) then Resume(s, next + 1, rest, Container(top.isObject, done))
            else None
  {
    var open := rest + [top];
    assert open[..|open| - 1] == rest && open[|open| - 1] == top;
  }

  /** Finishing a container by recursion and finishing it by resuming agree. */
  lemma {:induction false} EntriesResume(s: Bytes, at: nat, rest: seq<Frame>, isObject: bool, done: seq<Entry>)
    requires at <= |s|
    ensures NextEntry(s, at, rest, isObject, done) ==
            var all := ParseEntries(s, at, |rest| + 1, isObject, done);
            if all.None? then None else Resume(s, all.value.end, rest, all.value.value)
    decreases |s| - at
  {
    hide ParseKey, ParseValue, SkipSpace, Resume, Closer;
    var key := if isObject then ParseKey(s, at) else Some(ParsedText([], at));
    if key.Some? {
      var name := if isObject then Some(key.value.text) else None;
      var value := ParseValue(s, key.value.end, |rest| + 1);
      if value.Some? {
        ResumeTop(s, value.value.end, rest, Frame(isObject, done, name), value.value.value);
        var next := SkipSpace(s, value.value.end);
        if next < |s| && s[next] == COMMA {
          EntriesResume(s, next + 1, rest, isObject, done + [Entry(name, value.value.value)]);
        }
      }
    }
  }

  /** Opening a container that is not empty is a step that changes nothing. */
  lemma OpenStep(s: Bytes, at: nat, open: seq<Frame>)
    requires at < |s| && (s[at] == LBRACE || s[at] == LBRACKET)
    requires |open| < MAX_DEPTH
    ensures var isObject := s[at] == LBRACE;
            var inside := SkipSpace(s, at + 1);
            ReadIn(s, at, open) ==
            if inside < |s| && s[inside] == Closer(isObject)
            then Resume(s, inside + 1, open, Container(isObject, []))
            else NextEntry(s, inside, open, isObject, [])
  {
    hide ParseKey, ParseScalar, Resume, NextEntry;
    EntriesResume(s, SkipSpace(s, at + 1), open, s[at] == LBRACE, []);
  }

  /** Reading is blind to the space in front. */
  lemma ReadSkips(s: Bytes, at: nat, open: seq<Frame>)
    requires at <= |s|
    ensures ReadIn(s, at, open) == ReadIn(s, SkipSpace(s, at), open)
  {
    SkipTwice(s, at);
  }

  lemma SkipTwice(s: Bytes, at: nat)
    requires at <= |s|
    ensures SkipSpace(s, SkipSpace(s, at)) == SkipSpace(s, at)
  {}

  /** Closing is blind to the space in front as well. */
  lemma ResumeSkips(s: Bytes, at: nat, open: seq<Frame>, value: Json)
    requires at <= |s|
    ensures Resume(s, at, open, value) == Resume(s, SkipSpace(s, at), open, value)
  {
    SkipTwice(s, at);
  }

  lemma KeySkips(s: Bytes, at: nat)
    requires at <= |s|
    ensures ParseKey(s, at) == ParseKey(s, SkipSpace(s, at))
  {
    hide StringRest;
    SkipTwice(s, at);
  }

  /** A whole line is a value read inside nothing. */
  lemma StartStep(s: Bytes)
    ensures ParseDocument(s) == ReadIn(s, 0, [])
  {}

  /** Reading a value that is not a container is one step. */
  lemma ScalarStep(s: Bytes, at: nat, open: seq<Frame>)
    requires at < |s| && !IsSpace(s[at]) && s[at] != LBRACE && s[at] != LBRACKET
    ensures var value := ParseScalar(s, at);
            && ReadIn(s, at, open) == (if value.None? then None else Resume(s, value.value.end, open, value.value.value))
            && (value.Some? ==> !value.value.value.Array? && !value.value.value.Object?)
  {}

  /** A container too deep is refused where it opens. */
  lemma TooDeepStep(s: Bytes, at: nat, open: seq<Frame>)
    requires at < |s| && (s[at] == LBRACE || s[at] == LBRACKET) && |open| >= MAX_DEPTH
    ensures ReadIn(s, at, open) == None
  {}

  lemma NothingStep(s: Bytes, open: seq<Frame>)
    ensures ReadIn(s, |s|, open) == None
  {}

  /** With nothing open, only the end of the line may follow. */
  lemma EndStep(s: Bytes, at: nat, value: Json)
    requires at <= |s| && (at < |s| ==> !IsSpace(s[at]))
    ensures Resume(s, at, [], value) == if at == |s| then Some(value) else None
  {}
}
