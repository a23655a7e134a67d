/** Lines out of a stream that arrives in pieces. What a reader gets depends on the
    bytes alone, never on how the reads split them. */
module Framing {
  import opened Bytes

  const LINE_MAX := 1_048_576
  const FIRST_SIZE := 8192

  /** What one `read` comes to. */
  datatype Event = Data(bytes: Bytes) | Interrupted | WouldBlock | Closed | Failed

  /** `read` returns no bytes only at the end of the stream. */
  predicate Sane(es: seq<Event>) { forall i :: 0 <= i < |es| ==> es[i].Data? ==> es[i].bytes != [] }

  /** The bytes that arrive before anything stops the reads. */
  function Stream(es: seq<Event>): Bytes {
    if es == [] then []
    else match es[0]
      case Data(b) => b + Stream(es[1..])
      case Interrupted => Stream(es[1..])
      case _ => []
  }

  /** What stops them: running out of events is the peer closing. */
  function Stop(es: seq<Event>): Event {
    if es == [] then Closed
    else match es[0]
      case Data(_) => Stop(es[1..])
      case Interrupted => Stop(es[1..])
      case _ => es[0]
  }

  /** What comes after the reads were stopped. */
  function After(es: seq<Event>): seq<Event> {
    if es == [] then []
    else match es[0]
      case Data(_) => After(es[1..])
      case Interrupted => After(es[1..])
      case _ => es[1..]
  }

  ghost function Cost(es: seq<Event>): nat {
    if es == [] then 0 else (if es[0].Data? then |es[0].bytes| else 0) + 1 + Cost(es[1..])
  }

  // ---- lines ----

  /** Where the first newline is, or the length. */
  function LineEnd(t: Bytes): (p: nat)
    ensures p <= |t|
    ensures p < |t| ==> t[p] == NEWLINE
    ensures forall i :: 0 <= i < p ==> t[i] != NEWLINE
  {
    if t == [] || t[0] == NEWLINE then 0 else 1 + LineEnd(t[1..])
  }

  /** A line within the limit stands at the front of these bytes. */
  predicate HasLine(t: Bytes) { LineEnd(t) < |t| && LineEnd(t) < 1_048_576 }

  function Unlines(ls: seq<Bytes>): Bytes {
    if ls == [] then [] else Unlines(ls[..|ls| - 1]) + (ls[|ls| - 1] + [NEWLINE])
  }

  predicate Lineless(ls: seq<Bytes>) { forall i :: 0 <= i < |ls| ==> NEWLINE !in ls[i] }

  lemma UnlinesSnoc(ls: seq<Bytes>, l: Bytes)
    ensures Unlines(ls + [l]) == Unlines(ls) + (l + [NEWLINE])
  {
    assert (ls + [l])[..|ls|] == ls;
  }

  lemma LineEndIs(t: Bytes, p: nat)
    requires p <= |t| && (p < |t| ==> t[p] == NEWLINE) && forall i :: 0 <= i < p ==> t[i] != NEWLINE
    ensures LineEnd(t) == p
  {
    var q := LineEnd(t);
    assert !(q < p) && !(p < q);
  }

  /** More bytes behind a newline do not move it. */
  lemma LineEndStays(t: Bytes, u: Bytes)
    requires LineEnd(t) < |t|
    ensures LineEnd(t + u) == LineEnd(t)
  {
    LineEndIs(t + u, LineEnd(t));
  }

  /** No newline here leaves it to what follows. */
  lemma LineEndMoves(t: Bytes, u: Bytes)
    requires LineEnd(t) == |t|
    ensures LineEnd(t + u) == |t| + LineEnd(u)
  {
    LineEndIs(t + u, |t| + LineEnd(u));
  }

  datatype LineResult = Line(text: Bytes) | Waiting | Ended

  /** The line reader both the client and the monitor keep: a growing buffer over a
      socket whose reads are `incoming`. */
  class LineReader {
    var buffer: array<byte>
    var length: nat
    var incoming: seq<Event>
    /** Everything read from the socket, and every line handed out. */
    ghost var received: Bytes
    ghost var returned: seq<Bytes>

    ghost predicate Valid()
      reads this, buffer
    {
      && length <= buffer.Length && Sane(incoming)
      && GrownSize(buffer.Length)
      && received == Unlines(returned) + buffer[..length] && Lineless(returned)
    }

    /** The bytes not handed out yet, read or about to be. */
    ghost function Ahead(): Bytes
      requires length <= buffer.Length
      reads this, buffer
    {
      buffer[..length] + Stream(incoming)
    }

    constructor (events: seq<Event>)
      requires Sane(events)
      ensures Valid() && fresh(buffer) && received == [] && returned == [] && length == 0 && incoming == events
      ensures Ahead() == Stream(events)
    {
      buffer := new byte[0];
      length, incoming, received, returned := 0, events, [], [];
    }

    /** Room for more: the buffer doubles, and never past the line limit. */
    method Grow()
      requires Valid() && length < LINE_MAX
      modifies this`buffer
      ensures Valid() && length < buffer.Length && buffer[..length] == old(buffer[..length])
      ensures buffer == old(buffer) || fresh(buffer)
    {
      if length == buffer.Length {
        var next := if buffer.Length != 0 then buffer.Length * 2 else FIRST_SIZE;
        var grown := new byte[next];
        var old' := buffer;
        forall i | 0 <= i < length {
          grown[i] := old'[i];
        }
        assert grown[..length] == old'[..length];
        buffer := grown;
      }
    }

    /** One `read` into the room there is. */
    method Fill() returns (event: Event)
      requires Valid() && length < buffer.Length
      modifies this`length, this`incoming, this`received, buffer
      ensures Valid() && buffer == old(buffer)
      ensures event.Data? || event.Interrupted? ==>
                Ahead() == old(Ahead()) && Stop(incoming) == old(Stop(incoming)) && After(incoming) == old(After(incoming))
                && Cost(incoming) < old(Cost(incoming))
      ensures event.Data? ==> length > old(length) && buffer[..old(length)] == old(buffer[..length])
      ensures !event.Data? ==> length == old(length) && buffer[..length] == old(buffer[..length]) && received == old(received)
      ensures !event.Data? && !event.Interrupted? ==>
                event == old(Stop(incoming)) && incoming == old(After(incoming)) && old(Stream(incoming)) == []
    {
      hide Unlines, GrownSize;
      if |incoming| == 0 {
        return Closed;
      }
      event := incoming[0];
      var rest := incoming[1..];
      if event.Data? {
        var n := if |event.bytes| <= buffer.Length - length then |event.bytes| else buffer.Length - length;
        var got, left := event.bytes[..n], event.bytes[n..];
        ghost var before, was := buffer[..length], incoming;
        Store(got);
        incoming := if |left| == 0 then rest else [Data(left)] + rest;
        received := received + got;
        assert event.bytes == got + left;
        PartRead(was, got, left, incoming);
        Assoc(before, got, Stream(incoming));
        Assoc(Unlines(returned), before, got);
      } else {
        incoming := rest;
      }
    }

    /** The bytes one `read` put behind those in the buffer. */
    method Store(got: Bytes)
      requires length + |got| <= buffer.Length
      modifies this`length, buffer
      ensures length == old(length) + |got| && buffer[..length] == old(buffer[..length]) + got
      ensures buffer[..old(length)] == old(buffer[..length])
    {
      forall i | 0 <= i < |got| {
        buffer[length + i] := got[i];
      }
      length := length + |got|;
    }

    /** `memmove` of what stands behind the first `n` bytes to the front. */
    method Drop(n: nat)
      requires n <= length <= buffer.Length
      modifies this`length, buffer
      ensures length == old(length) - n && buffer[..length] == old(buffer[n..length])
    {
      var kept := buffer[n..length];
      forall i | 0 <= i < length - n {
        buffer[i] := kept[i];
      }
      length := length - n;
    }

    /** Take the line that ends at `end` out of the buffer. */
    method TakeLine(end: nat) returns (line: Bytes)
      requires Valid() && end < length && end == LineEnd(buffer[..length])
      modifies this`length, this`returned, buffer
      ensures Valid() && line == old(buffer[..end]) && buffer[..length] == old(buffer[end + 1..length])
      ensures returned == old(returned) + [line] && received == old(received)
    {
      hide Unlines, LineEnd;
      line := buffer[..end];
      ghost var held := buffer[..length];
      assert held[..end] == line && held[end + 1..] == buffer[end + 1..length];
      LineTaken(returned, held, end);
      Drop(end + 1);
      returned := returned + [line];
    }

    /** `memchr` for a newline: where it is, or the length. */
    method FindNewline() returns (end: nat)
      requires length <= buffer.Length
      ensures end == LineEnd(buffer[..length])
    {
      end := 0;
      while end < length && buffer[end] != NEWLINE
        invariant 0 <= end <= length && forall i :: 0 <= i < end ==> buffer[i] != NEWLINE
      {
        end := end + 1;
      }
      LineEndIs(buffer[..length], end);
    }

    /** `read_line` (and with `quiet`, `monitor_line`, for which having to wait is an
        answer). Whether a line comes, and which, is decided by the bytes ahead; a
        wait loses none of them. */
    method Next(quiet: bool) returns (r: LineResult)
      requires Valid()
      modifies this, buffer
      ensures Valid() && (buffer == old(buffer) || fresh(buffer))
      ensures r.Line? <==> HasLine(old(Ahead()))
      ensures r.Line? ==>
                var p := LineEnd(old(Ahead()));
                && r.text == old(Ahead())[..p] && Ahead() == old(Ahead())[p + 1..]
                && Stop(incoming) == old(Stop(incoming)) && After(incoming) == old(After(incoming))
                && returned == old(returned) + [r.text]
      ensures !r.Line? ==> returned == old(returned)
      ensures r.Waiting? <==>
                !HasLine(old(Ahead())) && quiet && old(Stop(incoming)).WouldBlock? && |old(Ahead())| < 1_048_576
      ensures r.Ended? && quiet && old(Stop(incoming)).WouldBlock? ==> length == 1_048_576
      ensures r.Waiting? ==> buffer[..length] == old(Ahead()) && incoming == old(After(incoming))
      ensures !r.Line? ==> NEWLINE !in buffer[..length]
    {
      hide Unlines, LineEnd, Stream, Stop, After, Cost;
      ghost var ahead, stop, after := Ahead(), Stop(incoming), After(incoming);
      while true
        invariant Valid() && Ahead() == ahead && Stop(incoming) == stop && After(incoming) == after
        invariant returned == old(returned) && (buffer == old(buffer) || fresh(buffer))
        decreases Cost(incoming)
      {
        ghost var held, behind := buffer[..length], Stream(incoming);
        var end := FindNewline();
        if end < length {
          LineEndStays(held, behind);
          AheadTaken(held, behind, end);
          var line := TakeLine(end);
          assert buffer[..length] == held[end + 1..];
          return Line(line);
        }
        LineEndMoves(held, behind);
        if length >= LINE_MAX {
          return Ended;
        }
        Grow();
        var event := Fill();
        if event.Data? || event.Interrupted? {
          continue;
        }
        assert held + [] == held;
        return if quiet && event.WouldBlock? then Waiting else Ended;
      }
    }
  }

  /** The first of these bytes is a line: what is left stands behind it. */
  lemma LineTaken(returned: seq<Bytes>, held: Bytes, end: nat)
    requires end < |held| && end == LineEnd(held)
    ensures Unlines(returned) + held == Unlines(returned + [held[..end]]) + held[end + 1..]
    ensures NEWLINE !in held[..end]
  {
    hide Unlines;
    var line, kept := held[..end], held[end + 1..];
    UnlinesSnoc(returned, line);
    assert held == (line + [NEWLINE]) + kept;
    Assoc(Unlines(returned), line + [NEWLINE], kept);
  }

  lemma AheadTaken(held: Bytes, behind: Bytes, end: nat)
    requires end < |held|
    ensures (held + behind)[..end] == held[..end] && (held + behind)[end + 1..] == held[end + 1..] + behind
  {}

  /** Reading part of a chunk leaves the rest of the stream as it was. */
  lemma PartRead(was: seq<Event>, got: Bytes, left: Bytes, now: seq<Event>)
    requires was != [] && was[0] == Data(got + left) && got != []
    requires now == if left == [] then was[1..] else [Data(left)] + was[1..]
    ensures Stream(was) == got + Stream(now) && Stop(was) == Stop(now) && After(was) == After(now)
    ensures Cost(now) < Cost(was)
  {
    var rest := was[1..];
    if left != [] {
      assert now[0] == Data(left) && now[1..] == rest;
      Assoc(got, left, Stream(rest));
    } else {
      assert got + left == got;
    }
  }

  /** A size doubling from the first one reaches, up to the limit. */
  predicate GrownSize(n: nat) {
    n == 0 || n == FIRST_SIZE || n == 2 * FIRST_SIZE || n == 4 * FIRST_SIZE || n == 8 * FIRST_SIZE
    || n == 16 * FIRST_SIZE || n == 32 * FIRST_SIZE || n == 64 * FIRST_SIZE || n == LINE_MAX
  }

  // ---- what was handed out, over a whole run ----

  /** The complete lines of these bytes. */
  ghost function Split(t: Bytes): seq<Bytes>
    decreases |t|
  {
    var p := LineEnd(t);
    if p == |t| then [] else [t[..p]] + Split(t[p + 1..])
  }

  lemma {:induction false} UnlinesCons(l: Bytes, ls: seq<Bytes>)
    ensures Unlines([l] + ls) == (l + [NEWLINE]) + Unlines(ls)
    decreases |ls|
  {
    if ls == [] {
      assert [l] + ls == [] + [l] && Unlines([]) == [];
      UnlinesSnoc([], l);
      assert [] + (l + [NEWLINE]) == (l + [NEWLINE]) + [];
    } else {
      var init, last := ls[..|ls| - 1], ls[|ls| - 1];
      UnlinesCons(l, init);
      assert ls == init + [last] && [l] + ls == ([l] + init) + [last];
      UnlinesSnoc([l] + init, last);
      UnlinesSnoc(init, last);
      Assoc(l + [NEWLINE], Unlines(init), last + [NEWLINE]);
    }
  }

  /** A line at the front is the first to come apart. */
  lemma SplitFirst(l: Bytes, behind: Bytes)
    requires NEWLINE !in l
    ensures Split((l + [NEWLINE]) + behind) == [l] + Split(behind)
  {
    hide LineEnd;
    var t := (l + [NEWLINE]) + behind;
    assert t[|l|] == NEWLINE && forall i :: 0 <= i < |l| ==> t[i] == l[i];
    LineEndIs(t, |l|);
    assert t[..|l|] == l && t[|l| + 1..] == behind;
  }

  /** Lines put together come apart into themselves, whatever follows. */
  lemma {:induction false} SplitUnlines(ls: seq<Bytes>, rest: Bytes)
    requires Lineless(ls)
    ensures Split(Unlines(ls) + rest) == ls + Split(rest)
    decreases |ls|
  {
    hide Unlines, Split;
    if ls == [] {
      NoLines();
      assert [] + rest == rest && ls + Split(rest) == Split(rest);
    } else {
      var l, others := ls[0], ls[1..];
      assert ls == [l] + others;
      UnlinesCons(l, others);
      SplitUnlines(others, rest);
      Assoc(l + [NEWLINE], Unlines(others), rest);
      SplitFirst(l, Unlines(others) + rest);
      assert [l] + (others + Split(rest)) == ls + Split(rest);
    }
  }

  lemma NoLines()
    ensures Unlines([]) == []
  {}

  /** Every line handed out is the line of that number in the bytes received: no
      byte is lost, doubled or moved, however the reads cut the stream. */
  lemma HandedOutInOrder(reader: LineReader)
    requires reader.Valid()
    ensures reader.returned <= Split(reader.received)
    ensures reader.received == Unlines(reader.returned) + reader.buffer[..reader.length]
    ensures reader.length <= 1_048_576
  {
    SplitUnlines(reader.returned, reader.buffer[..reader.length]);
  }
}
