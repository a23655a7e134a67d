/** `ncfg_monitor_next` (client/ncfg_client.c) over fuzznet: lines heard on a stream,
    each of them word that the daemon's log has grown, turned into the log's own
    lines. Whatever the stream and the reads of the log do, one call is a run of the
    follower whose delivery `Events` settles. */
module Monitor {
  import opened Bytes
  import opened Framing
  import opened Events

  lemma {:induction false} RunSnoc(f: Follow, acts: seq<Act>, a: Act)
    ensures Run(f, acts + [a]) == Step(Run(f, acts), a)
    decreases |acts|
  {
    hide Step;
    if acts == [] {
      assert acts + [a] == [a];
      assert [a][1..] == [];
    } else {
      assert (acts + [a])[0] == acts[0] && (acts + [a])[1..] == acts[1..] + [a];
      RunSnoc(Step(f, acts[0]), acts[1..], a);
    }
  }

  /** One run after another is one run, so calls add up. */
  lemma {:induction false} RunConcat(f: Follow, acts: seq<Act>, more: seq<Act>)
    ensures Run(f, acts + more) == Run(Run(f, acts), more)
    decreases |acts|
  {
    hide Step;
    if acts == [] {
      assert acts + more == more;
    } else {
      assert (acts + more)[0] == acts[0] && (acts + more)[1..] == acts[1..] + more;
      RunConcat(Step(f, acts[0]), acts[1..], more);
    }
  }

  /** What reading the log comes to, by cursor and by how many reads came before. */
  type Answers = (int, nat) -> Option<Bytes>

  /** Each read is of the log as it stood at that time, later ones no earlier. */
  ghost predicate InOrder(answers: Answers, seen: nat -> nat, log: seq<Bytes>, cursor: int) {
    && cursor <= seen(0)
    && (forall j: nat, k: nat :: j <= k ==> seen(j) <= seen(k))
    && (forall c: int, k: nat :: c <= seen(k) ==> Answered(answers(c, k), log, c, seen(k)))
  }

  class Monitor {
    const lines: LineReader
    const events: EventReader

    ghost predicate Valid()
      reads this, lines, lines.buffer, events, events.daemon, events.daemon.kept
    {
      lines.Valid() && events.Valid()
    }

    constructor (lines: LineReader, events: EventReader)
      requires lines.Valid() && events.Valid()
      ensures Valid() && this.lines == lines && this.events == events
    {
      this.lines, this.events := lines, events;
    }

    /** The reader is where the run `acts` leads from `view`, if it has a cursor. */
    ghost predicate Came(view: Option<Follow>, acts: seq<Act>)
      reads events, events.daemon
    {
      && view.Some? == (events.cursor >= 0)
      && (view.Some? ==> events.View() == Run(view.value, acts))
      && (forall i :: 0 <= i < |acts| ==> !acts[i].Told?)
    }

    /** The text is made up from the last of the lines handed out after `before`. */
    ghost predicate MadeUpFrom(before: seq<Bytes>, kinds: seq<KindText>, text: Bytes)
      reads lines
    {
      && before < lines.returned
      && MadeUp(kinds, CText(lines.returned[|lines.returned| - 1])) == Some(text)
    }

    /** Take a line, as one more act. */
    method TakeOne(ghost view: Option<Follow>, ghost acts: seq<Act>) returns (taken: Option<Bytes>)
      requires events.Valid() && Came(view, acts)
      modifies events`at, events`given, events`waiting, events`invented
      ensures events.Valid() && Came(view, acts + [Taken])
      ensures old(events.waiting) != [] ==>
                taken == Some(old(events.waiting)[0]) && events.given == old(events.given) + [taken.value]
      ensures old(events.waiting) == [] ==> events.given == old(events.given)
      ensures taken.Some? && old(events.waiting) == [] ==> old(events.invented) && taken.value == old(events.made)
      ensures taken.None? ==> events.waiting == [] && !events.invented
    {
      hide Unlines, LineEnd, Run, Step, EventReader.Valid;
      taken := events.Take();
      if view.Some? { RunSnoc(view.value, acts, Taken); }
    }

    /** Hear of an event with nothing waiting, as one more act. */
    method HearOne(line: Bytes, text: Option<Bytes>, ghost seen: nat, kinds: seq<KindText>,
                   ghost view: Option<Follow>, ghost acts: seq<Act>)
      returns (ghost act: Act)
      requires events.Valid() && |events.daemon.log| <= LONG_MAX && Came(view, acts)
      requires Answered(text, events.daemon.log, events.cursor, seen)
      requires events.waiting == [] && !events.invented
      modifies events`cursor, events`pending, events`at, events`waiting, events`missed, events`invented, events`made
      ensures events.Valid() && Came(view, acts + [act]) && events.given == old(events.given)
      ensures events.cursor == old(events.cursor) || events.cursor == seen
      ensures events.invented ==> MadeUp(kinds, CText(line)) == Some(events.made)
    {
      hide Unlines, LineEnd, Run, Step, EventReader.Valid;
      act := if text.Some? then HeardAndRead(seen) else HeardOnly;
      events.Heard(CText(line), text, seen, kinds);
      if view.Some? { RunSnoc(view.value, acts, act); }
    }

    /** The next event's line. `answers(c, k)` is what reading the log from cursor `c` the
        `k`-th time comes to, the log having `seen(k)` of the events it has at the end of
        the call; `acts` is what the call came to for the follower.
        What waits is given out before anything else is heard. The line is the next of
        those given out, or one made up: before the call, or from the line heard last.
        The call comes back with nothing only when nothing is left waiting and what was
        read of the stream holds no whole line. */
    method Next(answers: Answers, ghost seen: nat -> nat, kinds: seq<KindText>)
      returns (r: LineResult, ghost acts: seq<Act>)
      requires Valid() && |events.daemon.log| <= LONG_MAX
      requires InOrder(answers, seen, events.daemon.log, events.cursor)
      modifies lines, lines.buffer, events
      ensures Valid() && (lines.buffer == old(lines.buffer) || fresh(lines.buffer))
      ensures events.start == old(events.start)
      ensures Came(if old(events.cursor) >= 0 then Some(old(events.View())) else None, acts)
      ensures old(events.waiting) != [] ==>
                r == Line(old(events.waiting)[0]) && acts == [Taken]
                && lines.returned == old(lines.returned) && lines.Ahead() == old(lines.Ahead())
      ensures r.Line? ==>
                || events.given == old(events.given) + [r.text]
                || (events.given == old(events.given) && old(events.invented) && r.text == old(events.made))
                || (events.given == old(events.given) && MadeUpFrom(old(lines.returned), kinds, r.text))
      ensures !r.Line? ==> events.given == old(events.given) && events.waiting == [] && !events.invented
      ensures !r.Line? ==> NEWLINE !in lines.buffer[..lines.length]
      ensures !r.Line? ==>
                (r.Waiting? <==> old(Stop(lines.incoming)).WouldBlock? && lines.length < 1_048_576)
    {
      hide Unlines, Stream, LineEnd, Run, Step, EventReader.Valid, GrownSize, Came, MadeUpFrom;
      ghost var view := if events.cursor >= 0 then Some(events.View()) else None;
      Begin(view);
      var taken := TakeOne(view, []);
      acts := [Taken];
      assert [] + [Taken] == acts;
      if taken.Some? {
        return Line(taken.value), acts;
      }
      r, acts := HearUntil(answers, seen, kinds, view, acts);
    }

    /** The loop: lines are heard until one of them brings something to give out. */
    method HearUntil(answers: Answers, ghost seen: nat -> nat, kinds: seq<KindText>,
                     ghost view: Option<Follow>, ghost before: seq<Act>)
      returns (r: LineResult, ghost acts: seq<Act>)
      requires Valid() && |events.daemon.log| <= LONG_MAX && Came(view, before)
      requires InOrder(answers, seen, events.daemon.log, events.cursor)
      requires events.waiting == [] && !events.invented
      modifies lines, lines.buffer, events
      ensures Valid() && (lines.buffer == old(lines.buffer) || fresh(lines.buffer))
      ensures events.start == old(events.start) && Came(view, acts)
      ensures r.Line? ==>
                || events.given == old(events.given) + [r.text]
                || (events.given == old(events.given) && MadeUpFrom(old(lines.returned), kinds, r.text))
      ensures !r.Line? ==> events.given == old(events.given) && events.waiting == [] && !events.invented
      ensures !r.Line? ==> NEWLINE !in lines.buffer[..lines.length]
      ensures !r.Line? ==>
                (r.Waiting? <==> old(Stop(lines.incoming)).WouldBlock? && lines.length < 1_048_576)
    {
      hide Unlines, Stream, Stop, After, LineEnd, Run, Step, EventReader.Valid, GrownSize, Came, MadeUp, CText, Lineless, Sane;
      ghost var buffer := lines.buffer;
      acts := before;
      var k := 0;
      var taken: Option<Bytes> := None;
      while taken.None?
        invariant Valid() && (lines.buffer == buffer || fresh(lines.buffer))
        invariant events.start == old(events.start) && Came(view, acts)
        invariant taken.None? ==> events.given == old(events.given) && events.waiting == [] && !events.invented
        invariant taken.Some? ==>
                || events.given == old(events.given) + [taken.value]
                || (events.given == old(events.given) && MadeUpFrom(old(lines.returned), kinds, taken.value))
        invariant old(lines.returned) <= lines.returned && events.cursor <= seen(k)
        invariant Stop(lines.incoming) == old(Stop(lines.incoming))
        decreases taken.None?, |lines.Ahead()|
      {
        var line := lines.Next(true);
        if !line.Line? {
          return line, acts;
        }
        ghost var act := HearOne(line.text, answers(events.cursor, k), seen(k), kinds, view, acts);
        acts := acts + [act];
        k := k + 1;
        taken := TakeOne(view, acts);
        acts := acts + [Taken];
      }
      return Line(taken.value), acts;
    }

    lemma Begin(view: Option<Follow>)
      requires view == if events.cursor >= 0 then Some(events.View()) else None
      ensures Came(view, [])
    {}
  }
}
