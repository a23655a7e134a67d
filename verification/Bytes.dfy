/** Bytes, byte strings and the few ASCII codes the protocol spells out.
    A C `char` is a byte here: every comparison the source makes on one is
    against an ASCII code, so the sign of `char` never shows. */
module Bytes {
  type byte = b: int | 0 <= b < 256
  type Bytes = seq<byte>

  /** What a C string can hold: any bytes but NUL. */
  type CString = s: Bytes | 0 !in s

  /** A C string in memory: its length is a 64-bit `size_t`. */
  const SIZE_RANGE: nat := 0x1_0000_0000_0000_0000
  type SizedString = s: CString | |s| < SIZE_RANGE

  datatype Option<+T> = None | Some(value: T)

  const TAB: byte := 9
  const NEWLINE: byte := 10
  const CARRIAGE: byte := 13
  const SPACE: byte := 32
  const QUOTE: byte := 34
  const PERCENT: byte := 37
  const PLUS: byte := 43
  const COMMA: byte := 44
  const MINUS: byte := 45
  const DOT: byte := 46
  const SLASH: byte := 47
  const COLON: byte := 58
  const AT_SIGN: byte := 64
  const LBRACKET: byte := 91
  const BACKSLASH: byte := 92
  const RBRACKET: byte := 93
  const LBRACE: byte := 123
  const RBRACE: byte := 125
  const DELETE: byte := 127

  predicate IsDigit(b: byte) { 48 <= b <= 57 }

  /** The value of a hex digit in either case, or -1: `hex_nibble`, `hex_value`. */
  function HexValue(b: byte): (r: int)
    ensures -1 <= r < 16
  {
    if 48 <= b <= 57 then b - 48
    else if 97 <= b <= 102 then b - 87
    else if 65 <= b <= 70 then b - 55
    else -1
  }

  /** The lower-case digit of a nibble. */
  function HexDigit(n: nat): (r: byte)
    requires n < 16
    ensures HexValue(r) == n
    ensures r != 65 && r != 66 && r != 67 && r != 68 && r != 69 && r != 70
  {
    if n < 10 then 48 + n else 87 + n
  }

  /** The text up to its first NUL, which is all C's string functions look at. */
  function CText(t: Bytes): (r: CString)
    ensures r <= t
  {
    if t == [] || t[0] == 0 then [] else [t[0]] + CText(t[1..])
  }

  /** An ASCII literal as bytes. */
  function Ascii(s: string): (r: Bytes)
    requires forall i :: 0 <= i < |s| ==> s[i] as int < 128
    ensures |r| == |s|
  {
    seq(|s|, i requires 0 <= i < |s| => s[i] as int)
  }

  /** `t` stands in `s` at position `at`. */
  predicate Holds(s: Bytes, at: nat, t: Bytes) {
    at + |t| <= |s| && s[at..at + |t|] == t
  }

  function Concat(ts: seq<Bytes>): Bytes { if ts == [] then [] else ts[0] + Concat(ts[1..]) }

  lemma Assoc(a: Bytes, b: Bytes, c: Bytes)
    ensures (a + b) + c == a + (b + c)
  {}

  lemma HoldsConcat(s: Bytes, at: nat, a: Bytes, b: Bytes)
    ensures Holds(s, at, a + b) <==> Holds(s, at, a) && Holds(s, at + |a|, b)
  {
    if at + |a| + |b| <= |s| {
      assert s[at..at + |a + b|] == s[at..at + |a|] + s[at + |a|..at + |a| + |b|];
      if Holds(s, at, a + b) {
        assert s[at..at + |a|] == (a + b)[..|a|] == a;
        assert s[at + |a|..at + |a| + |b|] == (a + b)[|a|..] == b;
      }
    }
  }

  lemma HoldsFirst(s: Bytes, at: nat, t: Bytes)
    requires Holds(s, at, t) && t != []
    ensures at < |s| && s[at] == t[0] && Holds(s, at + 1, t[1..])
  {
    assert s[at..at + |t|][0] == s[at];
    assert s[at + 1..at + |t|] == s[at..at + |t|][1..];
  }
}
