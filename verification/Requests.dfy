/** The request builders: text put byte by byte into a sized buffer. Each builds
    exactly the printed request, or refuses; and the sized ones never have to. */
module Requests {
  import opened Bytes
  import opened Decimals
  import opened JsonSpec
  import opened JsonWriter
  import opened JsonGrammar

  /** `out`, `out_size` and `at`: a buffer with a moving end. */
  class Buffer {
    const data: array<byte>
    var at: nat

    ghost predicate Valid()
      reads this
    {
      at < data.Length
    }

    constructor (size: nat)
      requires size > 0
      ensures Valid() && fresh(data) && data.Length == size && at == 0
    {
      data := new byte[size];
      at := 0;
    }

    /** `snprintf` of fixed text: it fits with its NUL, or nothing is kept. */
    method PutText(t: Bytes) returns (ok: bool)
      requires Valid()
      modifies this`at, data
      ensures Valid() && ok == (old(at) + |t| < data.Length)
      ensures data[..at] == if ok then old(data[..at]) + t else old(data[..at])
    {
      ok := |t| < data.Length - at;
      var n := if ok then |t| else data.Length - at - 1;
      forall i | 0 <= i < n {
        data[at + i] := t[i];
      }
      data[at + n] := 0;
      if ok {
        assert data[..at + n] == old(data[..at]) + t;
        at := at + n;
      }
    }

    /** `ncfg_client_quote` at the end of the buffer. */
    method PutQuoted(t: CString) returns (ok: bool)
      requires Valid()
      modifies this`at, data
      ensures Valid() && ok == (old(at) + |Quoted(t)| < data.Length)
      ensures data[..at] == if ok then old(data[..at]) + Quoted(t) else old(data[..at])
    {
      hide Escaped, EscapeByte;
      if data.Length - at < 3 {
        return false;
      }
      ghost var before, written := data[..at], [QUOTE];
      var end, i := at + 1, 0;
      Copy(at, [QUOTE]);
      assert t[0..] == t;
      while i < |t|
        invariant 0 <= i <= |t| && at == old(at) && |before| == at && end == at + |written| && end + 2 <= data.Length
        invariant data[..end] == before + written && written + Escaped(t[i..]) == [QUOTE] + Escaped(t)
      {
        var escape := EscapeByte(t[i]);
        SplitEscape(t, i, written);
        if end - at + |escape| + 2 > data.Length - at {
          assert data[..at] == data[..end][..at] == before;
          return false;
        }
        Copy(end, escape);
        Assoc(before, written, escape);
        written := written + escape;
        end := end + |escape|;
        i := i + 1;
      }
      assert Escaped(t[i..]) == [] && written + [] == written;
      Copy(end, [QUOTE]);
      Assoc(before, written, [QUOTE]);
      Assoc([QUOTE], Escaped(t), [QUOTE]);
      at := end + 1;
      data[at] := 0;
      return true;
    }

    /** `memcpy` into the buffer. */
    method Copy(end: nat, t: Bytes)
      requires end + |t| <= data.Length
      modifies data
      ensures data[..end + |t|] == old(data[..end]) + t
    {
      forall i | 0 <= i < |t| {
        data[end + i] := t[i];
      }
    }

    /** The buffer holds an object's opening and these fields. */
    ghost predicate Carries(fs: seq<Field>)
      reads this, data
    {
      Valid() && data[..at] == [LBRACE] + PrintFields(fs)
    }

    /** `append_member`: another field, with its comma, or nothing where there is no
        value. */
    method PutMember(key: CString, optional: Option<CString>, ghost fs: seq<Field>) returns (ok: bool)
      requires Carries(fs) && fs != [] && Unescaped(key)
      modifies this`at, data
      ensures Valid()
      ensures optional.None? ==> ok && Carries(fs) && at == old(at)
      ensures optional.Some? ==>
                && ok == (old(at) + |[COMMA] + PrintField(Field(key, Text(optional.value)))| < data.Length)
                && (ok ==> Carries(fs + [Field(key, Text(optional.value))]))
    {
      hide PrintFields, Quoted;
      if optional.None? {
        return true;
      }
      var value := optional.value;
      MemberHead(key);
      ok := PutText([COMMA, QUOTE] + key + [QUOTE, COLON]);
      ghost var f := Field(key, Text(value));
      ghost var x := [LBRACE] + PrintFields(fs);
      if !ok {
        return;
      }
      ok := PutQuoted(value);
      MemberWhole(key, value, x);
      Grow(fs, f);
    }

    /** `,"replace":true`. */
    method PutReplace(ghost fs: seq<Field>) returns (ok: bool)
      requires Carries(fs) && fs != []
      modifies this`at, data
      ensures Valid() && ok == (old(at) + 15 < data.Length)
      ensures ok ==> Carries(fs + [Field(REPLACE, Yes)])
    {
      hide PrintFields, ReplaceLiteral;
      ok := PutText(ReplaceLiteral());
      ReplaceText();
      Grow(fs, Field(REPLACE, Yes));
    }

    /** `append_consent`: a list of quoted texts, or nothing for an empty one. */
    method PutConsent(key: CString, values: seq<CString>, ghost fs: seq<Field>) returns (ok: bool)
      requires Carries(fs) && fs != [] && Unescaped(key)
      modifies this`at, data
      ensures Valid()
      ensures values == [] ==> ok && Carries(fs) && at == old(at)
      ensures values != [] ==>
                && ok == (old(at) + |[COMMA] + PrintField(Field(key, List(values)))| + 1 < data.Length)
                && (ok ==> Carries(fs + [Field(key, List(values))]))
    {
      hide PrintFields, Quoted, PrintList;
      if |values| == 0 {
        return true;
      }
      MemberHead(key);
      ghost var x, head := data[..at], [COMMA] + (Quoted(key) + [COLON, LBRACKET]);
      assert [COMMA, QUOTE] + key + [QUOTE, COLON, LBRACKET] == head by {
        assert [COMMA, QUOTE] + key + [QUOTE, COLON, LBRACKET] == ([COMMA, QUOTE] + key + [QUOTE, COLON]) + [LBRACKET];
        assert [COMMA] + (Quoted(key) + [COLON]) + [LBRACKET] == head;
      }
      ok := PutText([COMMA, QUOTE] + key + [QUOTE, COLON, LBRACKET]);
      if !ok {
        return;
      }
      ok := PutList(values, x + head);
      if !ok {
        return;
      }
      if at + 2 >= data.Length {
        return false;
      }
      ghost var listed := data[..at];
      data[at] := RBRACKET;
      at := at + 1;
      data[at] := 0;
      assert data[..at] == listed + [RBRACKET];
      ConsentWhole(key, values, x);
      Grow(fs, Field(key, List(values)));
    }

    method PutList(values: seq<CString>, ghost base: Bytes) returns (ok: bool)
      requires Valid() && data[..at] == base && values != []
      modifies this`at, data
      ensures Valid() && ok == (old(at) + |PrintList(values)| < data.Length)
      ensures ok ==> data[..at] == base + PrintList(values)
    {
      hide Quoted, PrintList;
      var i := 0;
      assert base + [] == base && values[..0] == [];
      NoList();
      while i < |values|
        invariant 0 <= i <= |values| && Valid() && data[..at] == base + PrintList(values[..i])
      {
        ListStep(values, i);
        ghost var list := PrintList(values[..i]);
        ghost var comma: Bytes := if i > 0 then [COMMA] else [];
        if i > 0 {
          ok := PutText([COMMA]);
          if !ok {
            return;
          }
        } else {
          assert (base + list) + [] == base + list;
        }
        assert data[..at] == (base + list) + comma;
        ok := PutQuoted(values[i]);
        if !ok {
          return;
        }
        Assoc(base, list, comma);
        Assoc(base, list + comma, Quoted(values[i]));
        i := i + 1;
      }
      assert values[..i] == values;
      return true;
    }

    /** The closing brace, where it and a NUL still fit. */
    method Close(ghost fs: seq<Field>) returns (r: Option<Bytes>)
      requires Carries(fs)
      modifies this`at, data
      ensures r == if |PrintRequest(fs)| + 1 <= data.Length then Some(PrintRequest(fs)) else None
    {
      hide PrintFields;
      if at + 2 > data.Length {
        return None;
      }
      Assoc([LBRACE], PrintFields(fs), [RBRACE]);
      data[at] := RBRACE;
      assert data[..at + 1] == old(data[..at]) + [RBRACE];
      at := at + 1;
      data[at] := 0;
      return Some(data[..at]);
    }
  }

  // ---- the fixed texts ----

  const REQUEST: CString := Ascii("request")
  const NAME: CString := Ascii("name")
  const REPLACE: CString := Ascii("replace")

  lemma MemberHead(key: CString)
    requires Unescaped(key)
    ensures [COMMA, QUOTE] + key + [QUOTE, COLON] == [COMMA] + (Quoted(key) + [COLON])
  {
    UnescapedQuoted(key);
  }

  lemma MemberWhole(key: CString, value: CString, x: Bytes)
    ensures (x + ([COMMA] + (Quoted(key) + [COLON]))) + Quoted(value) == x + ([COMMA] + PrintField(Field(key, Text(value))))
  {
    hide Quoted;
  }

  /** One more field in an open object. */
  lemma Grow(fs: seq<Field>, f: Field)
    requires fs != []
    ensures ([LBRACE] + PrintFields(fs)) + ([COMMA] + PrintField(f)) == [LBRACE] + PrintFields(fs + [f])
  {
    FieldsSnoc(fs, f);
    Assoc([LBRACE], PrintFields(fs), [COMMA] + PrintField(f));
  }

  function ReplaceLiteral(): Bytes { Ascii(",\"replace\":true") }

  lemma ReplaceText()
    ensures ReplaceLiteral() == [COMMA] + PrintField(Field(REPLACE, Yes)) && |ReplaceLiteral()| == 15
  {
    hide Escaped;
    UnescapedQuoted(REPLACE);
    assert ReplaceLiteral() == [COMMA] + (([QUOTE] + (REPLACE + [QUOTE])) + ([COLON] + TRUE_WORD));
  }

  /** None of the fixed names needs an escape. */
  lemma FixedTexts()
    ensures Unescaped(REQUEST) && Unescaped(NAME) && Unescaped(TEXT) && Unescaped(VALUE) && Unescaped(REPLACE)
    ensures Unescaped(SECRET_PUT) && Unescaped(PROFILE_SAVE) && Unescaped(PROFILE_SET)
    ensures Unescaped(APPLY) && Unescaped(CONFIRM) && Unescaped(ALLOW) && Unescaped(STRAND)
  {
    hide Unescaped, Ascii;
    FixedVerbs();
    FixedKeys();
  }

  lemma FixedVerbs()
    ensures Unescaped(SECRET_PUT) && Unescaped(PROFILE_SAVE) && Unescaped(PROFILE_SET)
    ensures Unescaped(APPLY) && Unescaped(REQUEST) && Unescaped(NAME)
  {}

  lemma FixedKeys()
    ensures Unescaped(CONFIRM) && Unescaped(ALLOW) && Unescaped(STRAND)
    ensures Unescaped(TEXT) && Unescaped(VALUE) && Unescaped(REPLACE)
  {}

  function Head(verb: CString): Bytes { Ascii("{\"request\":\"") + verb + Ascii("\",\"name\":") }

  function NamedFields(verb: CString, name: CString): seq<Field> {
    [Field(REQUEST, Text(verb)), Field(NAME, Text(name))]
  }

  lemma RequestLiteral()
    ensures Ascii("{\"request\":\"") == [LBRACE] + (Quoted(REQUEST) + [COLON, QUOTE])
  {
    hide Escaped;
    UnescapedQuoted(REQUEST);
    assert Ascii("{\"request\":\"") == [LBRACE] + (([QUOTE] + (REQUEST + [QUOTE])) + [COLON, QUOTE]);
  }

  lemma NameLiteral()
    ensures Ascii("\",\"name\":") == [QUOTE, COMMA] + (Quoted(NAME) + [COLON])
  {
    hide Escaped;
    UnescapedQuoted(NAME);
    assert Ascii("\",\"name\":") == [QUOTE, COMMA] + (([QUOTE] + (NAME + [QUOTE])) + [COLON]);
  }

  lemma HeadGlued(r: Bytes, v: Bytes, n: Bytes, q: Bytes)
    ensures (([LBRACE] + (r + [COLON, QUOTE])) + v + ([QUOTE, COMMA] + (n + [COLON]))) + q ==
            [LBRACE] + ((r + ([COLON] + ([QUOTE] + (v + [QUOTE])))) + ([COMMA] + (n + ([COLON] + q))))
  {
    var left := ([LBRACE] + (r + [COLON, QUOTE])) + v;
    assert left == [LBRACE] + (r + ([COLON] + ([QUOTE] + v)));
    var right := ([QUOTE, COMMA] + (n + [COLON])) + q;
    assert right == [QUOTE] + ([COMMA] + (n + ([COLON] + q)));
    Assoc(left, [QUOTE, COMMA] + (n + [COLON]), q);
    assert r + ([COLON] + ([QUOTE] + v)) + [QUOTE] == r + ([COLON] + ([QUOTE] + (v + [QUOTE])));
  }

  lemma HeadText(verb: CString, name: CString)
    requires Unescaped(verb)
    ensures Head(verb) + Quoted(name) == [LBRACE] + PrintFields(NamedFields(verb, name))
    ensures |Head(verb)| == 21 + |verb|
  {
    hide Escaped, PrintFields, Ascii;
    UnescapedQuoted(verb);
    RequestLiteral();
    NameLiteral();
    var fs := NamedFields(verb, name);
    FieldsSnoc(fs[..1], fs[1]);
    FieldsSnoc([], fs[0]);
    assert [] + [fs[0]] == fs[..1] && fs[..1] + [fs[1]] == fs;
    HeadGlued(Quoted(REQUEST), verb, Quoted(NAME), Quoted(name));
  }

  lemma SplitEscape(t: Bytes, i: nat, written: Bytes)
    requires i < |t|
    ensures written + Escaped(t[i..]) == (written + EscapeByte(t[i])) + Escaped(t[i + 1..])
    ensures |Escaped(t[i..])| >= |EscapeByte(t[i])|
  {
    assert t[i..][0] == t[i] && t[i..][1..] == t[i + 1..];
    Assoc(written, EscapeByte(t[i]), Escaped(t[i + 1..]));
  }

  // ---- builders whose buffer is sized from what goes into it ----

  datatype Built = Request(bytes: Bytes) | Missing | Empty | TooLong

  function WithReplace(fs: seq<Field>, replace: bool): seq<Field> {
    if replace then fs + [Field(REPLACE, Yes)] else fs
  }

  function NamedText(verb: CString, name: CString, key: CString, text: CString, replace: bool): seq<Field> {
    WithReplace(NamedFields(verb, name) + [Field(key, Text(text))], replace)
  }

  /** How long a request with a name and a text can get. */
  lemma NamedTextLength(verb: CString, name: CString, key: CString, text: CString, replace: bool)
    requires Unescaped(verb) && Unescaped(key)
    ensures |PrintRequest(NamedText(verb, name, key, text, replace))| <= 46 + |verb| + |key| + 6 * |name| + 6 * |text|
  {
    hide Escaped, PrintFields, Ascii, Head, ReplaceLiteral;
    HeadText(verb, name);
    UnescapedQuoted(key);
    var fs, f := NamedFields(verb, name), Field(key, Text(text));
    Grow(fs, f);
    ReplaceText();
    Grow(fs + [f], Field(REPLACE, Yes));
  }

  /** The steps `put_named_text` and `ncfg_client_secret_put` share. */
  method BuildNamed(verb: CString, name: CString, key: CString, text: CString, replace: bool, need: nat) returns (r: Option<Bytes>)
    requires Unescaped(verb) && Unescaped(key)
    requires 47 + |verb| + |key| + 6 * |name| + 6 * |text| <= need
    ensures r == Some(PrintRequest(NamedText(verb, name, key, text, replace)))
  {
    hide Escaped, PrintFields, PrintField, Quoted, Ascii, Head, ReplaceLiteral, Unescaped;
    ghost var fs, f := NamedFields(verb, name), Field(key, Text(text));
    NamedTextLength(verb, name, key, text, replace);
    HeadText(verb, name);
    Grow(fs, f);
    ReplaceText();
    Grow(fs + [f], Field(REPLACE, Yes));
    var request := new Buffer(need);
    var built := request.PutText(Head(verb));
    assert [] + Head(verb) == Head(verb);
    if built {
      built := request.PutQuoted(name);
    }
    if built {
      built := request.PutMember(key, Some(text), fs);
    }
    if built && replace {
      built := request.PutReplace(fs + [f]);
    }
    if !built {
      return None;
    }
    r := request.Close(NamedText(verb, name, key, text, replace));
  }

  const TEXT: CString := Ascii("text")
  const VALUE: CString := Ascii("value")
  const SECRET_PUT: CString := Ascii("secret_put")

  /** `put_named_text`: refused for a missing part or an empty text, and for nothing
      else; no name and no text is too long for the buffer it sizes. */
  method PutNamedText(verb: CString, name: Option<CString>, text: Option<CString>, replace: bool) returns (r: Built)
    requires Unescaped(verb)
    ensures r == if name.None? || text.None? then Missing
                 else if text.value == [] then Empty
                 else Request(PrintRequest(NamedText(verb, name.value, TEXT, text.value, replace)))
  {
    hide Ascii, PrintRequest, Unescaped;
    FixedTexts();
    if name.None? || text.None? {
      return Missing;
    }
    if |text.value| == 0 {
      return Empty;
    }
    var built := BuildNamed(verb, name.value, TEXT, text.value, replace,
                            64 + |verb| + |name.value| * 6 + |text.value| * 6);
    return if built.Some? then Request(built.value) else TooLong;
  }

  /** `ncfg_client_secret_put`. */
  method SecretPut(name: Option<CString>, value: Option<CString>, replace: bool) returns (r: Built)
    ensures r == if name.None? || value.None? then Missing
                 else if value.value == [] then Empty
                 else Request(PrintRequest(NamedText(SECRET_PUT, name.value, VALUE, value.value, replace)))
  {
    hide Ascii, PrintRequest, Unescaped;
    FixedTexts();
    if name.None? || value.None? {
      return Missing;
    }
    if |value.value| == 0 {
      return Empty;
    }
    var built := BuildNamed(SECRET_PUT, name.value, VALUE, value.value, replace,
                            64 + |name.value| * 6 + |value.value| * 6);
    return if built.Some? then Request(built.value) else TooLong;
  }

  const PROFILE_SAVE: CString := Ascii("profile_save")
  const PROFILE_SET: CString := Ascii("profile_set")

  function Larger(a: nat, b: nat): nat { if a > b then a else b }

  /** `ncfg_client_profile_save`: a name, and leave to replace. */
  method ProfileSave(name: Option<CString>, replace: bool) returns (r: Built)
    ensures r == if name.None? || name.value == [] then Missing
                 else Request(PrintRequest(WithReplace(NamedFields(PROFILE_SAVE, name.value), replace)))
  {
    hide Escaped, PrintFields, PrintField, Quoted, Ascii, Head, ReplaceLiteral, Unescaped;
    FixedTexts();
    if name.None? || |name.value| == 0 {
      return Missing;
    }
    ghost var fs := NamedFields(PROFILE_SAVE, name.value);
    var request := new Buffer(Larger(512, 96 + |name.value| * 6));
    HeadText(PROFILE_SAVE, name.value);
    var built := request.PutText(Head(PROFILE_SAVE));
    assert [] + Head(PROFILE_SAVE) == Head(PROFILE_SAVE);
    if built {
      built := request.PutQuoted(name.value);
    }
    if built {
      ReplaceText();
      Grow(fs, Field(REPLACE, Yes));
      var tail := (if replace then ReplaceLiteral() else []) + [RBRACE];
      ghost var text := request.data[..request.at];
      Assoc(text, if replace then ReplaceLiteral() else [], [RBRACE]);
      assert text + [] == text;
      built := request.PutText(tail);
      Assoc([LBRACE], PrintFields(WithReplace(fs, replace)), [RBRACE]);
    }
    return if built then Request(request.data[..request.at]) else TooLong;
  }

  /** `ncfg_client_profile_set`: a name, or none to stop using one. */
  method ProfileSet(name: Option<CString>) returns (r: Built)
    ensures r == Request(PrintRequest(
              if name.None? then [Field(REQUEST, Text(PROFILE_SET))] else NamedFields(PROFILE_SET, name.value)))
  {
    hide Escaped, Quoted, Ascii, Head, ReplaceLiteral, Unescaped;
    FixedTexts();
    if name.None? {
      ProfileSetText();
      return Request(Ascii("{\"request\":\"profile_set\"}"));
    }
    var request := new Buffer(Larger(512, 64 + |name.value| * 6));
    HeadText(PROFILE_SET, name.value);
    var built := request.PutText(Head(PROFILE_SET));
    assert [] + Head(PROFILE_SET) == Head(PROFILE_SET);
    if built {
      built := request.PutQuoted(name.value);
    }
    if !built {
      return TooLong;
    }
    var whole := request.Close(NamedFields(PROFILE_SET, name.value));
    return if whole.Some? then Request(whole.value) else TooLong;
  }

  lemma ProfileSetText()
    ensures Ascii("{\"request\":\"profile_set\"}") == PrintRequest([Field(REQUEST, Text(PROFILE_SET))])
  {
    hide Escaped, Ascii, PrintRequest, Unescaped;
    FixedTexts();
    UnescapedQuoted(REQUEST);
    UnescapedQuoted(PROFILE_SET);
    ProfileSetLiteral();
    OneField(Field(REQUEST, Text(PROFILE_SET)));
  }

  lemma ProfileSetLiteral()
    ensures Ascii("{\"request\":\"profile_set\"}") ==
            [LBRACE] + ((([QUOTE] + (REQUEST + [QUOTE])) + ([COLON] + ([QUOTE] + (PROFILE_SET + [QUOTE])))) + [RBRACE])
  {}

  lemma OneField(f: Field)
    ensures PrintRequest([f]) == [LBRACE] + (PrintField(f) + [RBRACE])
  {
    hide PrintField;
    FieldsSnoc([], f);
    assert [] + [f] == [f];
  }

  // ---- the apply request, in a buffer of fixed size ----

  lemma {:induction false} ListLonger(ts: seq<CString>, k: nat)
    requires k <= |ts|
    ensures |PrintList(ts[..k])| <= |PrintList(ts)|
    decreases |ts| - k
  {
    if k < |ts| {
      ListLonger(ts, k + 1);
      assert ts[..k + 1] == ts[..k] + [ts[k]];
      ListSnoc(ts[..k], ts[k]);
    } else {
      assert ts[..k] == ts;
    }
  }

  lemma NoList()
    ensures PrintList([]) == []
  {}

  lemma ListStep(ts: seq<CString>, i: nat)
    requires i < |ts|
    ensures PrintList(ts[..i + 1]) == PrintList(ts[..i]) + (if i > 0 then [COMMA] else []) + Quoted(ts[i])
    ensures |PrintList(ts[..i + 1])| <= |PrintList(ts)|
  {
    hide Quoted;
    assert ts[..i + 1] == ts[..i] + [ts[i]];
    ListSnoc(ts[..i], ts[i]);
    if i == 0 {
      assert ts[..i] == [];
      NoList();
    }
    hide PrintList;
    ListLonger(ts, i + 1);
  }

  lemma ConsentWhole(key: CString, values: seq<CString>, x: Bytes)
    ensures ((x + ([COMMA] + (Quoted(key) + [COLON, LBRACKET]))) + PrintList(values)) + [RBRACKET]
            == x + ([COMMA] + PrintField(Field(key, List(values))))
  {
    hide Quoted, PrintList;
    var q, l := Quoted(key), PrintList(values);
    assert ([COMMA] + (q + [COLON, LBRACKET])) + (l + [RBRACKET]) == [COMMA] + (q + ([COLON] + ([LBRACKET] + (l + [RBRACKET]))));
    Assoc(x + ([COMMA] + (q + [COLON, LBRACKET])), l, [RBRACKET]);
    Assoc(x, [COMMA] + (q + [COLON, LBRACKET]), l + [RBRACKET]);
  }

  const APPLY: CString := Ascii("apply")
  const CONFIRM: CString := Ascii("confirm")
  const ALLOW: CString := Ascii("allow_disruption")
  const STRAND: CString := Ascii("strand_credentials")
  const APPLY_SIZE := 8192

  datatype Consent = Consent(disrupt: seq<CString>, strand: seq<CString>)

  function ApplyStart(confirm: nat): seq<Field> {
    [Field(REQUEST, Text(APPLY))] + if confirm > 0 then [Field(CONFIRM, Count(confirm))] else []
  }

  function Listed(fs: seq<Field>, key: CString, values: seq<CString>): seq<Field> {
    if values == [] then fs else fs + [Field(key, List(values))]
  }

  /** The fields an apply is meant to carry. */
  function ApplyFields(confirm: nat, consent: Option<Consent>): seq<Field> {
    if consent.None? then ApplyStart(confirm)
    else Listed(Listed(ApplyStart(confirm), ALLOW, consent.value.disrupt), STRAND, consent.value.strand)
  }

  function ApplyHead(confirm: nat): Bytes {
    if confirm > 0 then Ascii("{\"request\":\"apply\",\"confirm\":") + Decimal(confirm)
    else Ascii("{\"request\":\"apply\"")
  }

  lemma ApplyLiteral()
    ensures Ascii("{\"request\":\"apply\"") == [LBRACE] + PrintField(Field(REQUEST, Text(APPLY)))
  {
    hide Escaped;
    UnescapedQuoted(REQUEST);
    UnescapedQuoted(APPLY);
    assert Ascii("{\"request\":\"apply\"") ==
           [LBRACE] + (([QUOTE] + (REQUEST + [QUOTE])) + ([COLON] + ([QUOTE] + (APPLY + [QUOTE]))));
  }

  lemma ConfirmLiteral()
    ensures Ascii("{\"request\":\"apply\",\"confirm\":")
            == Ascii("{\"request\":\"apply\"") + ([COMMA] + (Quoted(CONFIRM) + [COLON]))
  {
    hide Escaped;
    UnescapedQuoted(CONFIRM);
    assert Ascii("{\"request\":\"apply\",\"confirm\":")
           == Ascii("{\"request\":\"apply\"") + ([COMMA] + (([QUOTE] + (CONFIRM + [QUOTE])) + [COLON]));
  }

  lemma ApplyHeadText(confirm: nat)
    ensures ApplyHead(confirm) == [LBRACE] + PrintFields(ApplyStart(confirm))
    ensures |ApplyHead(confirm)| <= 29 + |Decimal(confirm)|
  {
    hide Escaped, PrintFields, Quoted, Ascii;
    ApplyLiteral();
    ConfirmLiteral();
    var f, g := Field(REQUEST, Text(APPLY)), Field(CONFIRM, Count(confirm));
    FieldsSnoc([], f);
    assert [] + [f] == [f] && [f] + [] == [f];
    if confirm > 0 {
      Grow([f], g);
      var x, q, d := Ascii("{\"request\":\"apply\""), Quoted(CONFIRM), Decimal(confirm);
      assert (x + ([COMMA] + (q + [COLON]))) + d == x + ([COMMA] + (q + ([COLON] + d)));
    }
  }

  /** A list not put is a request that could not have fitted either. */
  lemma ListedLonger(fs: seq<Field>, key: CString, values: seq<CString>)
    requires fs != []
    ensures Listed(fs, key, values) != []
    ensures |PrintFields(Listed(fs, key, values))| ==
            |PrintFields(fs)| + if values == [] then 0 else |[COMMA] + PrintField(Field(key, List(values)))|
  {
    FieldsSnoc(fs, Field(key, List(values)));
  }

  /** `ncfg_client_apply`'s request: whole, or refused exactly when the whole of it
      and its NUL are longer than the buffer. `confirm` is a C `unsigned`. */
  method BuildApply(confirm: nat, consent: Option<Consent>) returns (r: Built)
    requires confirm < 0x1_0000_0000
    ensures var whole := PrintRequest(ApplyFields(confirm, consent));
            r == if |whole| + 1 <= 8192 then Request(whole) else TooLong
  {
    hide PrintFields, PrintField, PrintList, Decimal, Ascii, ApplyHead, Unescaped;
    FixedTexts();
    ghost var start := ApplyStart(confirm);
    var request := new Buffer(APPLY_SIZE);
    ApplyHeadText(confirm);
    DecimalLength(confirm, 10);
    PowTen();
    var built := request.PutText(ApplyHead(confirm));
    assert [] + ApplyHead(confirm) == ApplyHead(confirm);
    if !built {
      return TooLong;
    }
    if consent.Some? {
      ghost var disrupted := Listed(start, ALLOW, consent.value.disrupt);
      ListedLonger(start, ALLOW, consent.value.disrupt);
      ListedLonger(disrupted, STRAND, consent.value.strand);
      built := request.PutConsent(ALLOW, consent.value.disrupt, start);
      if built {
        built := request.PutConsent(STRAND, consent.value.strand, disrupted);
      }
      if !built {
        return TooLong;
      }
    }
    var whole := request.Close(ApplyFields(confirm, consent));
    return if whole.Some? then Request(whole.value) else TooLong;
  }

  lemma PowTen()
    ensures Pow10(10) == 10_000_000_000
  {
    assert Pow10(5) == 100_000;
    assert Pow10(10) == 10 * (10 * (10 * (10 * (10 * Pow10(5)))));
  }

  // ---- what the daemon reads ----

  /** A request with a name and a text is read as one line that says the verb, the
      name, the text and the leave to replace, in that order and nothing besides. */
  lemma NamedTextRead(verb: CString, name: CString, key: CString, text: CString, replace: bool)
    ensures var r := PrintRequest(NamedText(verb, name, key, text, replace));
            && NEWLINE !in r
            && ParseDocument(r) == Some(Object(
                 [Entry(Some(REQUEST), String(verb)), Entry(Some(NAME), String(name)),
                  Entry(Some(key), String(text))]
                 + if replace then [Entry(Some(REPLACE), Bool(true))] else []))
  {
    hide PrintRequest, ParseDocument;
    var fs := NamedText(verb, name, key, text, replace);
    RequestRoundTrip(fs);
    RequestOneLine(fs);
    assert RequestMeant(fs).entries ==
           [Entry(Some(REQUEST), String(verb)), Entry(Some(NAME), String(name)), Entry(Some(key), String(text))]
           + if replace then [Entry(Some(REPLACE), Bool(true))] else [];
  }

  /** What `ncfg_client_secret_put` and the drop-in builders put. */
  lemma TextsRead(verb: CString, name: CString, text: CString, replace: bool)
    ensures ParseDocument(PrintRequest(NamedText(SECRET_PUT, name, VALUE, text, replace))) == Some(Object(
              [Entry(Some(REQUEST), String(SECRET_PUT)), Entry(Some(NAME), String(name)),
               Entry(Some(VALUE), String(text))]
              + if replace then [Entry(Some(REPLACE), Bool(true))] else []))
    ensures ParseDocument(PrintRequest(NamedText(verb, name, TEXT, text, replace))) == Some(Object(
              [Entry(Some(REQUEST), String(verb)), Entry(Some(NAME), String(name)),
               Entry(Some(TEXT), String(text))]
              + if replace then [Entry(Some(REPLACE), Bool(true))] else []))
  {
    hide PrintRequest, ParseDocument, NamedText;
    NamedTextRead(SECRET_PUT, name, VALUE, text, replace);
    NamedTextRead(verb, name, TEXT, text, replace);
  }

  /** What the two profile builders put. */
  lemma ProfilesRead(name: CString, replace: bool)
    ensures ParseDocument(PrintRequest(WithReplace(NamedFields(PROFILE_SAVE, name), replace))) == Some(Object(
              [Entry(Some(REQUEST), String(PROFILE_SAVE)), Entry(Some(NAME), String(name))]
              + if replace then [Entry(Some(REPLACE), Bool(true))] else []))
    ensures ParseDocument(PrintRequest(NamedFields(PROFILE_SET, name))) == Some(Object(
              [Entry(Some(REQUEST), String(PROFILE_SET)), Entry(Some(NAME), String(name))]))
    ensures ParseDocument(PrintRequest([Field(REQUEST, Text(PROFILE_SET))])) == Some(Object(
              [Entry(Some(REQUEST), String(PROFILE_SET))]))
  {
    hide PrintRequest, ParseDocument;
    var save := WithReplace(NamedFields(PROFILE_SAVE, name), replace);
    var change, bare := NamedFields(PROFILE_SET, name), [Field(REQUEST, Text(PROFILE_SET))];
    RequestRoundTrip(save);
    RequestRoundTrip(change);
    RequestRoundTrip(bare);
    assert RequestMeant(save).entries ==
           [Entry(Some(REQUEST), String(PROFILE_SAVE)), Entry(Some(NAME), String(name))]
           + if replace then [Entry(Some(REPLACE), Bool(true))] else [];
    assert RequestMeant(change).entries == [Entry(Some(REQUEST), String(PROFILE_SET)), Entry(Some(NAME), String(name))];
    assert RequestMeant(bare).entries == [Entry(Some(REQUEST), String(PROFILE_SET))];
  }

  function ListRead(key: CString, values: seq<CString>): seq<Entry> {
    if values == [] then []
    else [Entry(Some(key), Array(seq(|values|, i requires 0 <= i < |values| => Entry(None, String(values[i])))))]
  }

  /** An apply is read as one line with the confirm window, if there is one, and the
      two consents, each in full and in order, where they name anything. */
  lemma ApplyRead(confirm: nat, consent: Option<Consent>)
    ensures var r := PrintRequest(ApplyFields(confirm, consent));
            && NEWLINE !in r
            && ParseDocument(r) == Some(Object(
                 [Entry(Some(REQUEST), String(APPLY))]
                 + (if confirm > 0 then [Entry(Some(CONFIRM), Number(Decimal(confirm)))] else [])
                 + (if consent.None? then []
                    else ListRead(ALLOW, consent.value.disrupt) + ListRead(STRAND, consent.value.strand))))
  {
    hide PrintRequest, ParseDocument, Decimal;
    var fs := ApplyFields(confirm, consent);
    RequestRoundTrip(fs);
    RequestOneLine(fs);
    assert RequestMeant(fs).entries ==
                 [Entry(Some(REQUEST), String(APPLY))]
                 + (if confirm > 0 then [Entry(Some(CONFIRM), Number(Decimal(confirm)))] else [])
                 + (if consent.None? then []
                    else ListRead(ALLOW, consent.value.disrupt) + ListRead(STRAND, consent.value.strand));
  }

  /** The names and verbs these requests are made of, spelled out. */
  lemma NamesSpelled()
    ensures REQUEST == Ascii("request") && NAME == Ascii("name") && TEXT == Ascii("text") && VALUE == Ascii("value")
    ensures REPLACE == Ascii("replace") && CONFIRM == Ascii("confirm")
    ensures ALLOW == Ascii("allow_disruption") && STRAND == Ascii("strand_credentials")
  {}

  lemma VerbsSpelled()
    ensures SECRET_PUT == Ascii("secret_put") && PROFILE_SAVE == Ascii("profile_save")
    ensures PROFILE_SET == Ascii("profile_set") && APPLY == Ascii("apply")
  {}
}
