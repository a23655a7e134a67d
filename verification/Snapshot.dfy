/** Gathering one status from pages asked one at a time of somebody else, who may
    answer anything and whose status may move between two asks. The asker's world
    `W` is whatever the answers depend on: each ask may change it. */
module Snapshot {
  import opened Bytes
  import opened Fnv
  import opened Pages

  /** Ask for the page from an offset: the world after, and the reply if one came. */
  type Ask<!W> = (W, nat) -> (W, Option<Bytes>)

  /** How one gathering ended: a status, a status seen to move, or a refusal. */
  datatype Attempt<W> = Whole(world: W, status: Bytes) | Moved(world: W) | Broken(world: W)

  datatype Joined<W> = Joined(world: W, status: Option<Bytes>)

  const ATTEMPTS := 4

  /** The rest of a gathering that has `got` so far, of the status `first` is a page of. */
  function Gather<W>(ask: Ask<W>, w: W, got: Bytes, first: Option<Page>): Attempt<W>
    requires if first.None? then got == [] else 0 < |got| < first.value.total
    decreases if first.None? then 1 else 0, if first.None? then 0 else first.value.total - |got|
  {
    var (next, reply) := ask(w, |got|);
    var page := if reply.None? then None else PageRead(reply.value);
    if page.None? then Broken(next)
    else
      var one := page.value;
      var head := if first.None? then one else first.value;
      if one.digest != head.digest || one.total != head.total then Moved(next)
      else if one.from != |got| || (one.bytes == [] && |got| < one.total) then Broken(next)
      else if |got + one.bytes| < head.total then Gather(ask, next, got + one.bytes, Some(head))
      else if Digest(got + one.bytes) != head.digest then Broken(next)
      else Whole(next, got + one.bytes)
  }

  /** At most `left` gatherings, each begun again where the last saw the status move. */
  function Retry<W>(ask: Ask<W>, w: W, left: nat): Joined<W> {
    if left == 0 then Joined(w, None)
    else match Gather(ask, w, [], None)
      case Whole(next, status) => Joined(next, Some(status))
      case Moved(next) => Retry(ask, next, left - 1)
      case Broken(next) => Joined(next, None)
  }

  function Join<W>(ask: Ask<W>, w: W): Joined<W> { Retry(ask, w, ATTEMPTS) }

  /** One page of a gathering. */
  lemma GatherStep<W>(ask: Ask<W>, w: W, got: Bytes, first: Option<Page>)
    requires if first.None? then got == [] else 0 < |got| < first.value.total
    ensures Gather(ask, w, got, first) ==
            var (next, reply) := ask(w, |got|);
            var page := if reply.None? then None else PageRead(reply.value);
            if page.None? then Broken(next)
            else
              var one := page.value;
              var head := if first.None? then one else first.value;
              if one.digest != head.digest || one.total != head.total then Moved(next)
              else if one.from != |got| || (one.bytes == [] && |got| < one.total) then Broken(next)
              else if |got + one.bytes| < head.total then Gather(ask, next, got + one.bytes, Some(head))
              else if Digest(got + one.bytes) != head.digest then Broken(next)
              else Whole(next, got + one.bytes)
  {
    hide PageRead, Digest;
  }

  // ---- the code ----

  /** One turn of the outer loop: pages copied into a buffer of `total + 1` bytes. */
  method GatherPages<W>(ask: Ask<W>, w0: W) returns (r: Attempt<W>)
    ensures r == Gather(ask, w0, [], None)
  {
    hide Gather, PageRead, Digest;
    ghost var target := Gather(ask, w0, [], None);
    var w := w0;
    var from := 0;
    var first: Option<Page> := None;
    var whole := new byte[0];
    while true
      invariant fresh(whole)
      invariant first.None? ==> from == 0
      invariant first.Some? ==> 0 < from < first.value.total && whole.Length == first.value.total + 1
      invariant target == Gather(ask, w, if first.None? then [] else whole[..from], first)
      decreases if first.None? then 1 else 0, if first.None? then 0 else first.value.total - from
    {
      ghost var got := if first.None? then [] else whole[..from];
      GatherStep(ask, w, got, first);
      var answer := ask(w, from);
      w := answer.0;
      if answer.1.None? {
        return Broken(w);
      }
      var page := ReadPage(answer.1.value);
      if page.None? {
        return Broken(w);
      }
      var one := page.value;
      if from == 0 {
        first := Some(one);
        whole := new byte[one.total + 1];
      }
      if one.digest != first.value.digest || one.total != first.value.total {
        return Moved(w);
      }
      if one.from != from || (|one.bytes| == 0 && from < one.total) {
        return Broken(w);
      }
      assert got == whole[..from];
      forall i | 0 <= i < |one.bytes| {
        whole[from + i] := one.bytes[i];
      }
      assert whole[..from + |one.bytes|] == got + one.bytes;
      from := from + |one.bytes|;
      if from >= first.value.total {
        whole[first.value.total] := 0;
        var digest := ComputeDigest(whole[..first.value.total]);
        if digest != first.value.digest {
          return Broken(w);
        }
        return Whole(w, whole[..first.value.total]);
      }
    }
  }

  /** `ncfg_status_pages_join`. */
  method JoinPages<W>(ask: Ask<W>, w0: W) returns (r: Joined<W>)
    ensures r == Join(ask, w0)
  {
    var w, attempt := w0, 0;
    while attempt < ATTEMPTS
      invariant 0 <= attempt <= ATTEMPTS && Join(ask, w0) == Retry(ask, w, ATTEMPTS - attempt)
    {
      var one := GatherPages(ask, w);
      match one
      case Whole(next, status) => return Joined(next, Some(status));
      case Broken(next) => return Joined(next, None);
      case Moved(next) => w := next;
      attempt := attempt + 1;
    }
    return Joined(w, None);
  }
}
