/** The percent escapes of fuzznet's line grammar. */
module Escape {
  import opened Bytes

  predicate NeedsEscape(b: byte) { b <= SPACE || b == PERCENT || b == COMMA || b == DELETE }

  function EscapeByte(b: byte): (r: Bytes)
    ensures |r| == if NeedsEscape(b) then 3 else 1
  {
    if NeedsEscape(b) then [PERCENT, HexDigit(b / 16), HexDigit(b % 16)] else [b]
  }

  function Escaped(t: Bytes): (r: Bytes)
    ensures |t| <= |r| <= 3 * |t|
  {
    if t == [] then [] else EscapeByte(t[0]) + Escaped(t[1..])
  }

  /** What the escaped text from `at` on stands for. */
  function Unescaped(s: Bytes, at: nat): (r: Option<Bytes>)
    requires at <= |s|
    decreases |s| - at
  {
    if at == |s| then Some([])
    else if s[at] != PERCENT then
      var rest := Unescaped(s, at + 1);
      if rest.None? then None else Some([s[at]] + rest.value)
    else if |s| - at < 3 || HexValue(s[at + 1]) < 0 || HexValue(s[at + 2]) < 0 then None
    else
      var rest := Unescaped(s, at + 3);
      if rest.None? then None else Some([HexValue(s[at + 1]) * 16 + HexValue(s[at + 2])] + rest.value)
  }

  /** A byte that may stand in a word of a fuzznet line. */
  predicate WordByte(b: byte) { b > SPACE && b != COMMA && b != DELETE }

  /** Escaped text is one word. */
  lemma {:induction false} EscapedWord(t: Bytes)
    ensures forall i :: 0 <= i < |Escaped(t)| ==> WordByte(Escaped(t)[i])
    decreases |t|
  {
    if t != [] {
      EscapedWord(t[1..]);
      var first := EscapeByte(t[0]);
      assert forall i :: 0 <= i < |first| ==> WordByte(first[i]);
    }
  }

  lemma {:induction false} UnescapeAt(s: Bytes, at: nat, t: Bytes)
    requires at <= |s| && s[at..] == Escaped(t)
    ensures Unescaped(s, at) == Some(t)
    decreases |t|
  {
    if t != [] {
      var first, rest := EscapeByte(t[0]), Escaped(t[1..]);
      assert s[at..] == first + rest;
      assert s[at] == s[at..][0] == first[0];
      assert s[at + |first|..] == s[at..][|first|..] == rest;
      if NeedsEscape(t[0]) {
        assert s[at + 1] == s[at..][1] == first[1] && s[at + 2] == s[at..][2] == first[2];
      }
      UnescapeAt(s, at + |first|, t[1..]);
      assert [t[0]] + t[1..] == t;
    }
  }

  /** Escaping loses nothing. */
  lemma EscapeRoundTrip(t: Bytes)
    ensures Unescaped(Escaped(t), 0) == Some(t)
  {
    assert Escaped(t)[0..] == Escaped(t);
    UnescapeAt(Escaped(t), 0, t);
  }

  lemma Step(t: Bytes, i: nat)
    requires i < |t|
    ensures Escaped(t[i..]) == EscapeByte(t[i]) + Escaped(t[i + 1..])
  {
    assert t[i..][0] == t[i] && t[i..][1..] == t[i + 1..];
  }

  /** `ncfg_fuzznet_escape`: it succeeds exactly when the escaped text and a NUL fit. */
  method Write(text: CString, out: array<byte>) returns (ok: bool)
    modifies out
    ensures ok == (|Escaped(text)| < out.Length)
    ensures ok ==> out[..|Escaped(text)|] == Escaped(text) && out[|Escaped(text)|] == 0
  {
    hide Escaped, EscapeByte;
    if out.Length == 0 {
      return false;
    }
    var at, i := 0, 0;
    assert text[0..] == text && [] + Escaped(text) == Escaped(text);
    while i < |text|
      invariant 0 <= i <= |text| && at < out.Length
      invariant out[..at] + Escaped(text[i..]) == Escaped(text)
    {
      var c := text[i];
      ghost var written := out[..at];
      Step(text, i);
      Assoc(written, EscapeByte(c), Escaped(text[i + 1..]));
      EscapeShape(c);
      assert |Escaped(text)| >= at + |EscapeByte(c)|;
      if NeedsEscape(c) {
        if at + 3 >= out.Length {
          return false;
        }
        out[at], out[at + 1], out[at + 2] := PERCENT, HexDigit(c / 16), HexDigit(c % 16);
        assert out[..at + 3] == written + [PERCENT, HexDigit(c / 16), HexDigit(c % 16)];
        at := at + 3;
      } else {
        if at + 1 >= out.Length {
          return false;
        }
        out[at] := c;
        assert out[..at + 1] == written + [c];
        at := at + 1;
      }
      i := i + 1;
    }
    assert Escaped(text[i..]) == [] && out[..at] + [] == out[..at];
    out[at] := 0;
    return true;
  }

  lemma EscapeShape(c: byte)
    ensures EscapeByte(c) == if NeedsEscape(c) then [PERCENT, HexDigit(c / 16), HexDigit(c % 16)] else [c]
  {}

  /** `ncfg_fuzznet_unescape`: the bytes and their count, or -1 where an escape is
      malformed or they do not fit. */
  method Read(text: Bytes, out: array<byte>) returns (wrote: int)
    modifies out
    ensures var t := Unescaped(text, 0);
            if t.Some? && |t.value| <= out.Length
            then wrote == |t.value| && out[..wrote] == t.value
            else wrote == -1
  {
    var at := 0;
    wrote := 0;
    assert out[..0] == [] && forall t: Bytes :: [] + t == t;
    while at < |text|
      invariant 0 <= at <= |text| && 0 <= wrote <= out.Length
      invariant Unescaped(text, 0) ==
                var rest := Unescaped(text, at); if rest.None? then None else Some(out[..wrote] + rest.value)
    {
      var c := text[at];
      ghost var rest, written := Unescaped(text, at), out[..wrote];
      if c == PERCENT {
        if |text| - at < 3 || HexValue(text[at + 1]) < 0 || HexValue(text[at + 2]) < 0 {
          return -1;
        }
        c := HexValue(text[at + 1]) * 16 + HexValue(text[at + 2]);
        at := at + 3;
      } else {
        at := at + 1;
      }
      if rest.Some? {
        Assoc(written, [c], rest.value[1..]);
        assert rest.value == [c] + rest.value[1..];
      }
      if wrote >= out.Length {
        return -1;
      }
      out[wrote] := c;
      wrote := wrote + 1;
      assert out[..wrote] == written + [c];
    }
    assert out[..wrote] + [] == out[..wrote];
  }
}
