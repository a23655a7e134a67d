/** A long request sent in pieces, each on one line of fuzznet's socket. */
module Upload {
  import opened Bytes
  import opened Decimals
  import opened Fnv
  import Pages

  const ASK_PIECE := 360
  const REQUEST_MAX := 512

  const OK_OK: Bytes := [111, 107, SPACE, 111, 107, PERCENT, 50, 48]  // ok ok%20

  // ---- who a request may be sent to ----

  /** A host's key: 64 lower-case hex digits. */
  predicate IsKey(t: Bytes) { |t| == 64 && forall i :: 0 <= i < |t| ==> IsLowerHex(t[i]) }

  const ESTATE: Bytes := [101, 115, 116, 97, 116, 101]
  const GROUP: Bytes := [103, 114, 111, 117, 112, 61]  // group=

  predicate GroupByte(b: byte) { 97 <= b <= 122 || IsDigit(b) || b == DOT || b == 95 || b == MINUS }

  /** `estate`, or `group=` and a name of 1 to 32 bytes. */
  predicate NamesMany(t: Bytes) {
    || t == ESTATE
    || (GROUP <= t && 1 <= |t| - 6 <= 32 && forall i :: 6 <= i < |t| ==> GroupByte(t[i]))
  }

  /** `ncfg_fuzznet_target_is_many`. */
  method TargetIsMany(target: Option<CString>) returns (r: bool)
    ensures r == (target.Some? && NamesMany(target.value))
  {
    if target.None? {
      return false;
    }
    var t := target.value;
    if t == ESTATE {
      return true;
    }
    if !(GROUP <= t) || |t| == 6 || |t| - 6 > 32 {
      return false;
    }
    var at := 6;
    while at < |t|
      invariant 6 <= at <= |t| && forall i :: 6 <= i < at ==> GroupByte(t[i])
    {
      if !GroupByte(t[at]) {
        return false;
      }
      at := at + 1;
    }
    return true;
  }

  /** A key and a group are told apart, so a reply is read as the right kind. */
  lemma KeyIsNotMany(t: Bytes)
    requires IsKey(t)
    ensures !NamesMany(t)
  {
    assert IsLowerHex(t[0]);
  }

  // ---- the pieces ----

  function PieceLength(request: Bytes, offset: nat): nat
    requires offset <= |request|
  {
    if |request| - offset < ASK_PIECE then |request| - offset else ASK_PIECE
  }

  /** `call askpart at `. */
  const CALL_AT: Bytes := [99, 97, 108, 108, 32, 97, 115, 107, 112, 97, 114, 116, 32, 97, 116, 32]

  /** `call askpart [at HOST] TOTAL OFFSET DIGEST `, and the piece. */
  function LineHead(host: Option<CString>, total: nat, offset: nat, digest: Hash): Bytes {
    (if host.Some? then CALL_AT + host.value + [SPACE] else CALL_AT[..13])
    + Decimal(total) + [SPACE] + Decimal(offset) + [SPACE] + Hex(digest, 16) + [SPACE]
  }

  function Line(host: Option<CString>, request: CString, offset: nat): Bytes
    requires offset <= |request|
  {
    LineHead(host, |request|, offset, Digest(request)) + request[offset..offset + PieceLength(request, offset)]
  }

  /** Every line of an upload from `offset` on. */
  function Lines(host: Option<CString>, request: CString, offset: nat): seq<Bytes>
    requires offset <= |request|
    decreases |request| - offset
  {
    if offset == |request| then []
    else [Line(host, request, offset)] + Lines(host, request, offset + PieceLength(request, offset))
  }

  /** What those lines carry. */
  function Payloads(request: CString, offset: nat): seq<Bytes>
    requires offset <= |request|
    decreases |request| - offset
  {
    if offset == |request| then []
    else
      var next := offset + PieceLength(request, offset);
      [request[offset..next]] + Payloads(request, next)
  }

  /** The pieces, in order, are the request: nothing missing, nothing twice. */
  lemma {:induction false} PiecesAreRequest(request: CString, offset: nat)
    requires offset <= |request|
    ensures Concat(Payloads(request, offset)) == request[offset..]
    ensures forall i :: 0 <= i < |Payloads(request, offset)| ==> 1 <= |Payloads(request, offset)[i]| <= ASK_PIECE
    decreases |request| - offset
  {
    if offset < |request| {
      var next := offset + PieceLength(request, offset);
      PiecesAreRequest(request, next);
      var all, rest := Payloads(request, offset), Payloads(request, next);
      assert all[1..] == rest;
      assert request[offset..] == request[offset..next] + request[next..];
    }
  }

  lemma LinesStep(host: Option<CString>, request: CString, offset: nat)
    requires offset <= |request|
    ensures offset == |request| ==> Lines(host, request, offset) == [] && Payloads(request, offset) == []
    ensures offset < |request| ==>
              var next := offset + PieceLength(request, offset);
              && Lines(host, request, offset) == [Line(host, request, offset)] + Lines(host, request, next)
              && Payloads(request, offset) == [request[offset..next]] + Payloads(request, next)
  {
    hide LineHead, Digest;
  }

  /** Line `i` carries piece `i`, and says where it belongs. */
  lemma {:induction false} LineCarriesPiece(host: Option<CString>, request: CString, offset: nat, i: nat)
    requires offset <= |request| && i < |Lines(host, request, offset)|
    ensures |Lines(host, request, offset)| == |Payloads(request, offset)|
    ensures offset + i * ASK_PIECE < |request|
    ensures Lines(host, request, offset)[i] ==
            LineHead(host, |request|, offset + i * ASK_PIECE, Digest(request)) + Payloads(request, offset)[i]
    decreases |request| - offset
  {
    hide LineHead, Digest, Lines, Payloads;
    LinesStep(host, request, offset);
    if offset < |request| {
      var next := offset + PieceLength(request, offset);
      LinesStep(host, request, next);
      if i > 0 {
        LineCarriesPiece(host, request, next, i - 1);
      } else if next < |request| {
        LineCarriesPiece(host, request, next, 0);
      }
    }
  }

  /** To any host, group or estate, every line and its newline fit fuzznet's limit. */
  lemma LineFits(host: Option<CString>, request: CString, offset: nat)
    requires |request| < SIZE_RANGE && offset <= |request|
    requires host.Some? ==> IsKey(host.value) || NamesMany(host.value)
    ensures |Line(host, request, offset)| + 1 <= 512
  {
    hide Decimal, Hex, Digest;
    TwentyDigits();
    DecimalLength(|request|, 20);
    DecimalLength(offset, 20);
  }

  /** Whether a piece was taken, by the reply to its line. */
  predicate Taken(host: Option<CString>, reply: Option<Bytes>) {
    reply.Some? && (if host.Some? && NamesMany(host.value) then Pages.OK <= reply.value else OK_OK <= reply.value)
  }

  /** What the `k`-th line of an upload is answered, if it is. */
  type Replies = nat -> Option<Bytes>

  /** Every line of the upload is taken. */
  predicate AllTaken(host: Option<CString>, request: CString, replies: Replies) {
    forall k :: 0 <= k < |Lines(host, request, 0)| ==> Taken(host, replies(k))
  }

  /** `send_in_pieces`. `replies(k)` is what the `k`-th line is answered, if it is.
      The lines sent are the upload's lines in order, up to and with the first that
      was not taken; and no line is ever refused for not fitting. */
  method SendInPieces(host: Option<CString>, request: SizedString, replies: Replies)
    returns (ok: bool, lines: seq<Bytes>)
    requires host.Some? ==> IsKey(host.value) || NamesMany(host.value)
    ensures lines <= Lines(host, request, 0)
    ensures ok == AllTaken(host, request, replies)
    ensures ok ==> lines == Lines(host, request, 0)
    ensures !ok ==> lines != [] && !Taken(host, replies(|lines| - 1))
    ensures forall k :: 0 <= k < |lines| - 1 ==> Taken(host, replies(k))
  {
    hide LineHead, Digest, Decimal, NamesMany, IsKey, Lines;
    var total, offset := |request|, 0;
    var digest := ComputeDigest(request);
    var many := TargetIsMany(host);
    ghost var all := Lines(host, request, 0);
    lines := [];
    while offset < total
      invariant 0 <= offset <= total && all == lines + Lines(host, request, offset)
      invariant forall k :: 0 <= k < |lines| ==> Taken(host, replies(k))
    {
      var piece := if total - offset < ASK_PIECE then total - offset else ASK_PIECE;
      var line := LineHead(host, total, offset, digest) + request[offset..offset + piece];
      LineFits(host, request, offset);
      LinesStep(host, request, offset);
      if |line| >= REQUEST_MAX {
        assert false;
      }
      ghost var rest := Lines(host, request, offset + piece);
      assert all == (lines + [line]) + rest;
      var reply := replies(|lines|);
      lines := lines + [line];
      if reply.None? || (if many then !(Pages.OK <= reply.value) else !(OK_OK <= reply.value)) {
        assert !Taken(host, replies(|lines| - 1));
        return false, lines;
      }
      offset := offset + piece;
    }
    LinesStep(host, request, total);
    assert lines + [] == lines;
    return true, lines;
  }
}
