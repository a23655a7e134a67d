/** The texts that go over the wire, spelled out: lines, pages, escapes, quotes and numbers
    (client/ncfg_fuzznet.c, client/ncfg_client.c). Client and daemon are modelled with the
    same definitions; this is what those definitions are. */
module WireTexts {
  import opened Bytes
  import opened Decimals
  import opened Fnv
  import opened Pages
  import AskHere
  import Upload
  import Escape
  import JsonWriter
  import Events

  // ---- numbers ----

  /** Numbers are decimal, the most significant digit first, without leading zeros. */
  lemma DecimalSays(n: nat, digit: nat)
    requires digit < 10
    ensures Decimal(digit) == [Ascii("0123456789")[digit]]
    ensures n > 0 ==> Decimal(10 * n + digit) == Decimal(n) + [Ascii("0123456789")[digit]]
  {}

  /** Digests are sixteen lower-case hex digits, the most significant first. */
  lemma HexSays(n: nat, k: nat, digit: nat)
    requires digit < 16
    ensures Hex(n, 0) == []
    ensures Hex(16 * n + digit, k + 1) == Hex(n, k) + [Ascii("0123456789abcdef")[digit]]
  {}

  // ---- fuzznet's lines and words ----

  lemma BusySays()
    ensures AskHere.BUSY == Ascii("error the node is waiting on a peer")
  {}

  lemma WorkingSays()
    ensures AskHere.WORKING == Ascii("working on that; ask again")
  {}

  /** An answer says "working" if and only if that stands somewhere in it before any NUL. */
  lemma WorkingExactly(answer: Bytes)
    ensures AskHere.StillWorking(answer) <==> StandsIn(CText(answer), AskHere.WORKING)
  {
    hide AskHere.Contains, StandsIn, CText;
    ContainsExactly(CText(answer), AskHere.WORKING);
  }

  ghost predicate StandsIn(t: Bytes, word: Bytes) { exists i: nat :: Holds(t, i, word) }

  lemma {:induction false} ContainsExactly(t: Bytes, word: Bytes)
    ensures AskHere.Contains(t, word) <==> StandsIn(t, word)
    decreases |t|
  {
    HoldsInFront(t, word);
    hide Holds;
    if word <= t {
      assert Holds(t, 0, word);
    } else if t != [] {
      ContainsExactly(t[1..], word);
      if i: nat :| Holds(t[1..], i, word) { HoldsBehind(t, i, word); }
      if i: nat :| Holds(t, i, word) { HoldsBehind(t, i - 1, word); }
    } else if i: nat :| Holds(t, i, word) {
      NothingHolds(i, word);
    }
  }

  lemma HoldsInFront(t: Bytes, word: Bytes)
    ensures Holds(t, 0, word) <==> word <= t
  {}

  lemma HoldsBehind(t: Bytes, i: nat, word: Bytes)
    requires t != []
    ensures Holds(t, i + 1, word) <==> Holds(t[1..], i, word)
  {
    if i + 1 + |word| <= |t| { assert t[i + 1..i + 1 + |word|] == t[1..][i..i + |word|]; }
  }

  lemma NothingHolds(i: nat, word: Bytes)
    requires Holds([], i, word)
    ensures word == []
  {}

  lemma WordsSay()
    ensures OK == Ascii("ok ") && Upload.OK_OK == Ascii("ok ok%20") && AskHere.CALL_ASK == Ascii("call ask ")
    ensures Upload.CALL_AT == Ascii("call askpart at ") && Upload.CALL_AT[..13] == Ascii("call askpart ")
    ensures Upload.ESTATE == Ascii("estate") && Upload.GROUP == Ascii("group=")
  {}

  /** `call ask FROM REQUEST`. */
  lemma AskLineSays(from: nat, request: Bytes)
    ensures AskHere.AskLine(from, request) == Ascii("call ask ") + Decimal(from) + [SPACE] + request
  {
    hide Decimal, Ascii;
    WordsSay();
    Assoc(AskHere.CALL_ASK, Decimal(from), [SPACE] + request);
    Assoc(AskHere.CALL_ASK + Decimal(from), [SPACE], request);
  }

  /** `call askpart [at HOST] TOTAL OFFSET DIGEST PIECE`, a piece being 360 bytes or what is
      left. */
  lemma PieceLineSays(host: Option<CString>, request: CString, offset: nat)
    requires offset <= |request|
    ensures var piece := request[offset..if |request| - offset < 360 then |request| else offset + 360];
            Upload.Line(host, request, offset) ==
            (if host.None? then Ascii("call askpart ") else Ascii("call askpart at ") + host.value + [SPACE])
            + Decimal(|request|) + [SPACE] + Decimal(offset) + [SPACE] + Hex(Digest(request), 16) + [SPACE] + piece
  {
    hide Decimal, Ascii, Hex, Digest;
    WordsSay();
  }

  /** `ok TOTAL FROM COUNT DIGEST`, a newline, and the bytes. */
  lemma PageSays(p: Page)
    ensures PagePrinted(p) ==
            Ascii("ok ") + (Decimal(p.total) + ([SPACE] + (Decimal(p.from) + ([SPACE] +
              (Decimal(|p.bytes|) + ([SPACE] + (Hex(p.digest, 16) + [NEWLINE]))))))) + p.bytes
  {
    hide Decimal, Ascii, Hex;
    WordsSay();
  }

  /** A target that is many hosts is the estate, or a group by a name of 1 to 32 lower-case
      letters, digits, dots, underscores and hyphens; nothing else is. */
  lemma ManyExactly(t: Bytes)
    ensures Upload.NamesMany(t) <==>
              t == Ascii("estate") ||
              exists name: Bytes :: t == Ascii("group=") + name && 1 <= |name| <= 32 && NameBytes(name)
  {
    hide Ascii;
    WordsSay();
    if Upload.NamesMany(t) && t != Upload.ESTATE {
      var name := t[6..];
      assert t == Upload.GROUP + name;
      forall i | 0 <= i < |name| ensures NameByte(name[i]) { assert name[i] == t[i + 6]; }
      assert NameBytes(name);
    }
    if name: Bytes :| t == Upload.GROUP + name && 1 <= |name| <= 32 && NameBytes(name) {
      forall i | 6 <= i < |t| ensures Upload.GroupByte(t[i]) { assert t[i] == name[i - 6]; }
    }
  }

  predicate NameByte(b: byte) { 97 <= b <= 122 || 48 <= b <= 57 || b == 46 || b == 95 || b == 45 }
  predicate NameBytes(t: Bytes) { forall i :: 0 <= i < |t| ==> NameByte(t[i]) }

  // ---- escapes and quotes ----

  /** fuzznet's escapes: a percent sign and two lower-case hex digits for a control byte, a
      space, a percent sign, a comma or a DEL; every other byte stands for itself. */
  lemma EscapeSays(b: byte)
    ensures Escape.EscapeByte(b) ==
            if b <= 32 || b == 37 || b == 44 || b == 127
            then [37, Ascii("0123456789abcdef")[b / 16], Ascii("0123456789abcdef")[b % 16]] else [b]
  {}

  /** Read back: a text without a percent sign stands for itself. */
  lemma {:induction false} PlainStands(s: Bytes, at: nat)
    requires at <= |s| && forall i :: at <= i < |s| ==> s[i] != 37
    ensures Escape.Unescaped(s, at) == Some(s[at..])
    decreases |s| - at
  {
    if at < |s| {
      PlainStands(s, at + 1);
      assert [s[at]] + s[at + 1..] == s[at..];
    }
  }

  /** A percent sign stands with two hex digits, of either case, for their byte, before
      whatever the rest stands for. */
  lemma PercentStands(s: Bytes, at: nat, x: nat, y: nat)
    requires at + 3 <= |s| && s[at] == 37 && IsHexDigit(s[at + 1], x) && IsHexDigit(s[at + 2], y)
    ensures var rest := Escape.Unescaped(s, at + 3);
            Escape.Unescaped(s, at) == if rest.None? then None else Some([16 * x + y] + rest.value)
  {
    HexDigitSays(s[at + 1]);
    HexDigitSays(s[at + 2]);
  }

  /** Without them it makes the text malformed. */
  lemma PercentAlone(s: Bytes, at: nat)
    requires at < |s| && s[at] == 37 && (at + 3 > |s| || !IsHex(s[at + 1]) || !IsHex(s[at + 2]))
    ensures Escape.Unescaped(s, at).None?
  {
    if at + 3 <= |s| {
      HexDigitSays(s[at + 1]);
      HexDigitSays(s[at + 2]);
    }
  }

  /** A hex digit of either case. */
  ghost predicate IsHex(b: byte) { exists n: nat :: IsHexDigit(b, n) }

  predicate IsHexDigit(b: byte, n: nat) {
    n < 16 && (b == Ascii("0123456789abcdef")[n] || b == Ascii("0123456789ABCDEF")[n])
  }

  lemma HexDigitSays(b: byte)
    ensures forall n: nat :: IsHexDigit(b, n) <==> HexValue(b) == n
    ensures IsHex(b) <==> HexValue(b) >= 0
  {
    if HexValue(b) >= 0 { assert IsHexDigit(b, HexValue(b)); }
  }

  /** JSON's, as the client writes them: two characters for what has a letter of its own,
      six for every other control byte, and every other byte as it is. */
  lemma QuoteSays(b: byte)
    ensures b == 34 || b == 92 ==> JsonWriter.EscapeByte(b) == [92, b]
    ensures b == 8 ==> JsonWriter.EscapeByte(b) == Ascii("\\b")
    ensures b == 12 ==> JsonWriter.EscapeByte(b) == Ascii("\\f")
    ensures b == 10 ==> JsonWriter.EscapeByte(b) == Ascii("\\n")
    ensures b == 13 ==> JsonWriter.EscapeByte(b) == Ascii("\\r")
    ensures b == 9 ==> JsonWriter.EscapeByte(b) == Ascii("\\t")
    ensures b < 32 && b != 8 && b != 9 && b != 10 && b != 12 && b != 13 ==>
              JsonWriter.EscapeByte(b) ==
              Ascii("\\u00") + [Ascii("0123456789abcdef")[b / 16], Ascii("0123456789abcdef")[b % 16]]
    ensures b >= 32 && b != 34 && b != 92 ==> JsonWriter.EscapeByte(b) == [b]
  {}

  // ---- events ----

  /** A line names a kind by the word `event` and its subject, alone or before a space. */
  lemma NamesSays(line: CString, subject: CString)
    ensures Events.Names(line, subject) <==>
              var word := Ascii("event ") + subject; word == line || word + [SPACE] <= line
    ensures Events.EVENT == Ascii("event") && Events.SUMMARY == Ascii("summary")
  {
    hide Ascii;
    var word := Ascii("event ") + subject;
    if word <= line && |line| > |word| {
      assert line[..|word| + 1] == line[..|word|] + [line[|word|]];
    }
  }

  /** Where the daemon begins to tell again: at the cursor, or 64 events back where that is
      later; and nowhere for a cursor that is negative or ahead. */
  lemma FirstToldSays(from: int, told: nat)
    ensures Events.FirstTold(from, told) ==
            if from < 0 || from > told then told else if told - from > 64 then told - 64 else from
  {}
}
