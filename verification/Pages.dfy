/** One page of a status on the wire: a header of three numbers and the status's
    digest, then a cut of its bytes. The client's reader and the daemon's writer. */
module Pages {
  import opened Bytes
  import opened Decimals
  import opened Fnv

  const TOTAL_MAX: nat := 67_108_864

  /** `total`, `from` and `digest` name the status; `bytes` are its cut. */
  datatype Page = Page(total: nat, from: nat, digest: Hash, bytes: Bytes)

  predicate WellCut(p: Page) {
    p.from + |p.bytes| <= p.total <= 67_108_864
  }

  const OK: Bytes := [111, 107, SPACE]

  function PageHeader(total: nat, from: nat, count: nat, digest: Hash): Bytes {
    OK + (Decimal(total) + ([SPACE] + (Decimal(from) + ([SPACE] + (Decimal(count) + ([SPACE] + (Hex(digest, 16) + [NEWLINE])))))))
  }

  /** The page as the daemon writes it. */
  function PagePrinted(p: Page): Bytes {
    PageHeader(p.total, p.from, |p.bytes|, p.digest) + p.bytes
  }

  datatype Parsed = Parsed(value: nat, end: nat)

  /** Digits at `at`, at most ten and no more than the largest status, then the byte `stop`. */
  function NumberAt(s: Bytes, at: nat, stop: byte): (r: Option<Parsed>)
    requires at <= |s|
    ensures r.Some? ==> at < r.value.end <= |s| && r.value.value <= TOTAL_MAX
  {
    var end := SkipDigits(s, at);
    if end == at || end - at > 10 || end >= |s| || s[end] != stop then None
    else if DigitsValue(s[at..end]) > TOTAL_MAX then None
    else Some(Parsed(DigitsValue(s[at..end]), end + 1))
  }

  /** Sixteen lower-case hex digits at `at`. */
  function HexAt(s: Bytes, at: nat): (r: Option<Hash>)
    requires at <= |s|
    ensures r.Some? ==> at + 16 <= |s|
  {
    if at + 16 <= |s| && forall i :: at <= i < at + 16 ==> IsLowerHex(s[i]) then
      HexSumBound(s[at..at + 16]);
      Sixteen();
      Some(HexSum(s[at..at + 16]))
    else None
  }

  /** What a reply says, where it is a page at all. */
  function PageRead(s: Bytes): (r: Option<Page>)
    ensures r.Some? ==> WellCut(r.value)
  {
    if !(OK <= s) then None
    else
      var total := NumberAt(s, 3, SPACE);
      if total.None? then None else
      var from := NumberAt(s, total.value.end, SPACE);
      if from.None? then None else
      var count := NumberAt(s, from.value.end, SPACE);
      if count.None? then None else
      var digest := HexAt(s, count.value.end);
      if digest.None? then None else
      var at := count.value.end + 16;
      if at >= |s| || s[at] != NEWLINE then None
      else if from.value.value > total.value.value || count.value.value > total.value.value - from.value.value
              || |s| - (at + 1) != count.value.value then None
      else Some(Page(total.value.value, from.value.value, digest.value, s[at + 1..]))
  }

  // ---- printing and reading are inverse ----

  lemma NumberRead(s: Bytes, at: nat, n: nat)
    requires Holds(s, at, Decimal(n) + [SPACE])
    ensures at <= |s|
    ensures NumberAt(s, at, SPACE) == if n <= TOTAL_MAX then Some(Parsed(n, at + |Decimal(n)| + 1)) else None
  {
    hide Decimal;
    var d := Decimal(n);
    HoldsConcat(s, at, d, [SPACE]);
    HoldsFirst(s, at + |d|, [SPACE]);
    DigitsRead(s, at, d);
    DecimalValue(n);
    DecimalLength(n, 8);
    EightDigits();
  }

  lemma EightDigits()
    ensures Pow10(8) == 100_000_000
  {
    assert Pow10(4) == 10_000;
    assert Pow10(8) == 10 * (10 * (10 * (10 * Pow10(4))));
  }

  lemma HexRead(s: Bytes, at: nat, h: Hash)
    requires Holds(s, at, Hex(h, 16))
    ensures at <= |s| && HexAt(s, at) == Some(h)
  {
    Sixteen();
    HexRoundTrip(h, 16);
    forall i | at <= i < at + 16
      ensures IsLowerHex(s[i])
    {
      assert s[i] == s[at..at + 16][i - at];
    }
  }

  lemma HeaderParts(s: Bytes, total: nat, from: nat, count: nat, digest: Hash)
    requires Holds(s, 0, PageHeader(total, from, count, digest))
    ensures var a := 3;
            var b := a + |Decimal(total)| + 1;
            var c := b + |Decimal(from)| + 1;
            var d := c + |Decimal(count)| + 1;
            && Holds(s, 0, OK) && Holds(s, a, Decimal(total) + [SPACE]) && Holds(s, b, Decimal(from) + [SPACE])
            && Holds(s, c, Decimal(count) + [SPACE]) && Holds(s, d, Hex(digest, 16)) && Holds(s, d + 16, [NEWLINE])
            && |PageHeader(total, from, count, digest)| == d + 17
  {
    hide Decimal, Hex, Holds;
    var t, f, n, h := Decimal(total), Decimal(from), Decimal(count), Hex(digest, 16);
    var d := h + [NEWLINE];
    var c := n + ([SPACE] + d);
    var b := f + ([SPACE] + c);
    HoldsConcat(s, 0, OK, t + ([SPACE] + b));
    Shift(s, 3, t, b);
    Shift(s, 3 + |t| + 1, f, c);
    Shift(s, 3 + |t| + 1 + |f| + 1, n, d);
    HoldsConcat(s, 3 + |t| + 1 + |f| + 1 + |n| + 1, h, [NEWLINE]);
  }

  /** A number and the space after it, then the rest. */
  lemma Shift(s: Bytes, at: nat, a: Bytes, b: Bytes)
    requires Holds(s, at, a + ([SPACE] + b))
    ensures Holds(s, at, a + [SPACE]) && Holds(s, at + |a| + 1, b)
  {
    assert a + ([SPACE] + b) == (a + [SPACE]) + b;
    HoldsConcat(s, at, a + [SPACE], b);
  }

  /** Every page the daemon can print is read back as it was. */
  lemma PageRoundTrip(p: Page)
    requires WellCut(p)
    ensures PageRead(PagePrinted(p)) == Some(p)
  {
    hide PageHeader, NumberAt, HexAt, Decimal, Hex;
    var s, header := PagePrinted(p), PageHeader(p.total, p.from, |p.bytes|, p.digest);
    assert s[..|header|] == header && s[|header|..] == p.bytes;
    HeaderParts(s, p.total, p.from, |p.bytes|, p.digest);
    NumberRead(s, 3, p.total);
    var b := 3 + |Decimal(p.total)| + 1;
    NumberRead(s, b, p.from);
    var c := b + |Decimal(p.from)| + 1;
    NumberRead(s, c, |p.bytes|);
    var d := c + |Decimal(|p.bytes|)| + 1;
    HexRead(s, d, p.digest);
    HoldsFirst(s, d + 16, [NEWLINE]);
    assert s[..3] == s[0..3] == OK;
  }

  /** A page of a status longer than any the client reads is no page to it. */
  lemma TooLongIsNoPage(p: Page)
    requires p.total > 67_108_864
    ensures PageRead(PagePrinted(p)).None?
  {
    hide PageHeader, NumberAt, HexAt, Decimal, Hex;
    var s, header := PagePrinted(p), PageHeader(p.total, p.from, |p.bytes|, p.digest);
    assert s[..|header|] == header;
    HeaderParts(s, p.total, p.from, |p.bytes|, p.digest);
    NumberRead(s, 3, p.total);
  }

  /** Whatever is read as a page is spelled as one: `ok`, three numbers of at most ten
      digits, sixteen lower-case hex digits, a newline, and as many bytes as it counts. */
  lemma PageReadSays(s: Bytes) returns (total: Bytes, from: Bytes, count: Bytes, digest: Bytes)
    requires PageRead(s).Some?
    ensures var p := PageRead(s).value;
            && s == OK + (total + ([SPACE] + (from + ([SPACE] + (count + ([SPACE] + (digest + [NEWLINE]))))))) + p.bytes
            && Spells(total, p.total) && Spells(from, p.from) && Spells(count, |p.bytes|)
            && |digest| == 16 && (forall i :: 0 <= i < 16 ==> IsLowerHex(digest[i])) && HexSum(digest) == p.digest
  {
    hide DigitsValue, HexSum, NumberAt, HexAt, Spells, AllDigits;
    var t := NumberAt(s, 3, SPACE).value;
    var f := NumberAt(s, t.end, SPACE).value;
    var c := NumberAt(s, f.end, SPACE).value;
    total := NumberSpelled(s, 3);
    from := NumberSpelled(s, t.end);
    count := NumberSpelled(s, f.end);
    digest := s[c.end..c.end + 16];
    HexSpelled(s, c.end);
    var at := c.end + 16;
    assert s[..3] == OK && s[at..] == [NEWLINE] + s[at + 1..];
    HeaderGlued(s, total, from, count, digest, t.end, f.end, c.end);
  }

  lemma NumberSpelled(s: Bytes, at: nat) returns (t: Bytes)
    requires at <= |s| && NumberAt(s, at, SPACE).Some?
    ensures var n := NumberAt(s, at, SPACE).value; s[at..n.end] == t + [SPACE] && Spells(t, n.value)
  {
    hide DigitsValue;
    t := s[at..NumberAt(s, at, SPACE).value.end - 1];
  }

  lemma HexSpelled(s: Bytes, at: nat)
    requires at <= |s| && HexAt(s, at).Some?
    ensures var d := s[at..at + 16];
            (forall i :: 0 <= i < 16 ==> IsLowerHex(d[i])) && HexSum(d) == HexAt(s, at).value
  {
    hide HexSum;
  }

  lemma HeaderGlued(s: Bytes, total: Bytes, from: Bytes, count: Bytes, digest: Bytes, a: nat, b: nat, c: nat)
    requires 3 <= a <= b <= c && c + 17 <= |s|
    requires s[..3] == OK && s[3..a] == total + [SPACE] && s[a..b] == from + [SPACE] && s[b..c] == count + [SPACE]
    requires s[c..c + 16] == digest && s[c + 16] == NEWLINE
    ensures s == OK + (total + ([SPACE] + (from + ([SPACE] + (count + ([SPACE] + (digest + [NEWLINE]))))))) + s[c + 17..]
  {
    var w, v := digest + [NEWLINE], s[c + 17..];
    assert s[c..] == w + v;
    assert s[b..] == s[b..c] + s[c..] == count + ([SPACE] + w) + v;
    assert s[a..] == s[a..b] + s[b..] == from + ([SPACE] + (count + ([SPACE] + w))) + v;
    assert s[3..] == s[3..a] + s[a..] == total + ([SPACE] + (from + ([SPACE] + (count + ([SPACE] + w))))) + v;
    assert s == s[..3] + s[3..];
  }

  /** Digits of this number, ten at most. */
  predicate Spells(t: Bytes, n: nat) { 1 <= |t| <= 10 && AllDigits(t) && DigitsValue(t) == n }

  // ---- the client's reader ----

  /** `number`: it gives up as soon as the value is past any status. */
  method ReadNumber(s: Bytes, start: nat, stop: byte) returns (r: Option<Parsed>)
    requires start <= |s|
    ensures r == NumberAt(s, start, stop)
  {
    hide DigitsValue;
    var value, at := 0, start;
    ghost var end := SkipDigits(s, start);
    NoDigits();
    assert s[start..start] == [];
    while at < |s| && IsDigit(s[at])
      invariant start <= at <= end && SkipDigits(s, at) == end
      invariant value == DigitsValue(s[start..at]) && value <= TOTAL_MAX
    {
      var digit := s[at] - 48;
      assert s[start..at + 1] == s[start..at] + [s[at]];
      DigitsSnoc(s[start..at], s[at]);
      PastMax(value, digit, TOTAL_MAX);
      if value > (TOTAL_MAX - digit) / 10 {
        assert s[start..end][..at + 1 - start] == s[start..at + 1];
        DigitsGrow(s[start..end], at + 1 - start);
        return None;
      }
      value := value * 10 + digit;
      at := at + 1;
    }
    if at == start || at - start > 10 || at >= |s| || s[at] != stop {
      return None;
    }
    return Some(Parsed(value, at + 1));
  }

  method ReadDigest(s: Bytes, start: nat) returns (r: Option<Hash>)
    requires start <= |s|
    ensures r == HexAt(s, start)
  {
    var digest, digits := 0, 0;
    while digits < 16
      invariant 0 <= digits <= 16 && start + digits <= |s|
      invariant forall i :: start <= i < start + digits ==> IsLowerHex(s[i])
      invariant digest == HexSum(s[start..start + digits])
    {
      var at := start + digits;
      if at >= |s| || !IsLowerHex(s[at]) {
        return None;
      }
      assert s[start..at + 1][..digits] == s[start..at];
      digest := digest * 16 + HexValue(s[at]);
      digits := digits + 1;
    }
    HexSumBound(s[start..start + 16]);
    Sixteen();
    return Some(digest);
  }

  /** `ncfg_status_page_read`. */
  method ReadPage(s: Bytes) returns (r: Option<Page>)
    ensures r == PageRead(s)
  {
    if |s| < 3 || s[..3] != OK {
      return None;
    }
    var total := ReadNumber(s, 3, SPACE);
    if total.None? {
      return None;
    }
    var from := ReadNumber(s, total.value.end, SPACE);
    if from.None? {
      return None;
    }
    var count := ReadNumber(s, from.value.end, SPACE);
    if count.None? {
      return None;
    }
    var digest := ReadDigest(s, count.value.end);
    if digest.None? {
      return None;
    }
    var at := count.value.end + 16;
    if at >= |s| || s[at] != NEWLINE {
      return None;
    }
    at := at + 1;
    if from.value.value > total.value.value || count.value.value > total.value.value - from.value.value
       || |s| - at != count.value.value {
      return None;
    }
    return Some(Page(total.value.value, from.value.value, digest.value, s[at..]));
  }
}
