/** From a configured object to the subject its records are kept under, and from
    one key's value to the fields of a record. */
module Records {
  import opened Bytes

  datatype Scope = HostPrivate | HostScope | GroupScope | EstateScope
  datatype RootKind = HostRoot | GroupRoot | EstateRoot

  datatype Err = Malformed | Unregistered | IsPrivate | WrongRoot | TooLarge | NotText

  /** Where an object hangs from: a host by its key, a group or an estate by its name. */
  datatype RootRef = RootRef(kind: RootKind, key: Option<Bytes>, name: Option<CString>)

  /** What other parts of the system say of the configuration: each block's spelling
      and default scope, each key's scope and wire number, if it has one. */
  datatype Vocabulary = Vocabulary(
    names: seq<CString>,
    defaults: seq<Scope>,
    scopeOf: (nat, Bytes) -> Scope,
    kindOf: (nat, Bytes) -> Option<nat>,
    reserved: nat,
    bodyMax: nat)
  {
    /** One spelling and one default for each block, no spelling twice, and a floor
        for streams that leaves 0 out. */
    predicate Valid() {
      && |names| == |defaults| && reserved > 0
      && forall i, j :: 0 <= i < j < |names| ==> names[i] != names[j]
    }
  }

  const COMPONENT_MAX := 256
  const KEY_LENGTH := 32
  const TAG: Bytes := [110, 101, 116, 99, 102, 103, 100, 32, 115, 117, 98, 106, 101, 99, 116, 32, 118, 50, 0]  // netcfgd subject v2
  const TRANSCRIPT_SIZE := 19 + 1 + 3 * (2 + COMPONENT_MAX)

  function RootCode(kind: RootKind): (b: byte)
    ensures b < 3
  {
    match kind case HostRoot => 0 case GroupRoot => 1 case EstateRoot => 2
  }

  /** `ncfg_record_root_of`, by the block's default scope. */
  function RootOf(scope: Scope): RootKind {
    match scope
    case GroupScope => GroupRoot
    case EstateScope => EstateRoot
    case _ => HostRoot
  }

  /** `ncfg_record_stream_of`: one track for each scope that travels. */
  function StreamOf(v: Vocabulary, scope: Scope): nat {
    match scope
    case HostScope => v.reserved
    case GroupScope => v.reserved + 1
    case EstateScope => v.reserved + 2
    case HostPrivate => 0
  }

  /** Tracks tell scopes apart, and none that travels is 0 or in the reserved range. */
  lemma StreamsDistinct(v: Vocabulary, a: Scope, b: Scope)
    requires v.Valid()
    ensures StreamOf(v, a) == StreamOf(v, b) <==> a == b
    ensures a.HostPrivate? <==> StreamOf(v, a) < v.reserved
  {}

  // ---- the transcript ----

  /** Two bytes of length, and the bytes. */
  function Component(t: Bytes): Bytes
    requires |t| <= COMPONENT_MAX
  {
    [|t| / 256, |t| % 256] + t
  }

  function Transcript(kind: RootKind, root: Bytes, block: Bytes, labelText: Bytes): Bytes
    requires |root| <= COMPONENT_MAX && |block| <= COMPONENT_MAX && |labelText| <= COMPONENT_MAX
  {
    TAG + [RootCode(kind)] + Component(root) + Component(block) + Component(labelText)
  }

  /** A component says where it ends, whatever bytes it holds. */
  lemma ComponentPrefix(a: Bytes, b: Bytes, x: Bytes, y: Bytes)
    requires |a| <= COMPONENT_MAX && |b| <= COMPONENT_MAX
    requires Component(a) + x == Component(b) + y
    ensures a == b && x == y
  {
    var s, t := Component(a) + x, Component(b) + y;
    assert s[0] == |a| / 256 && s[1] == |a| % 256;
    assert t[0] == |b| / 256 && t[1] == |b| % 256;
    assert |a| == 256 * (|a| / 256) + |a| % 256;
    assert |b| == 256 * (|b| / 256) + |b| % 256;
    assert |a| == |b|;
    assert a == s[2..2 + |a|] && b == t[2..2 + |b|];
    assert x == s[2 + |a|..] && y == t[2 + |b|..];
  }

  /** No two objects share a transcript. */
  lemma TranscriptInjective(k: RootKind, r: Bytes, b: Bytes, l: Bytes, k': RootKind, r': Bytes, b': Bytes, l': Bytes)
    requires |r| <= COMPONENT_MAX && |b| <= COMPONENT_MAX && |l| <= COMPONENT_MAX
    requires |r'| <= COMPONENT_MAX && |b'| <= COMPONENT_MAX && |l'| <= COMPONENT_MAX
    requires Transcript(k, r, b, l) == Transcript(k', r', b', l')
    ensures k == k' && r == r' && b == b' && l == l'
  {
    hide Component;
    var s, t := Transcript(k, r, b, l), Transcript(k', r', b', l');
    var x, y := Component(r) + (Component(b) + Component(l)), Component(r') + (Component(b') + Component(l'));
    assert s == TAG + [RootCode(k)] + x && t == TAG + [RootCode(k')] + y;
    assert s[|TAG|] == RootCode(k) && t[|TAG|] == RootCode(k');
    assert x == s[|TAG| + 1..] == t[|TAG| + 1..] == y;
    ComponentPrefix(r, r', Component(b) + Component(l), Component(b') + Component(l'));
    ComponentPrefix(b, b', Component(l), Component(l'));
    assert Component(l) + [] == Component(l) && Component(l') + [] == Component(l');
    ComponentPrefix(l, l', [], []);
  }

  // ---- the subject ----

  datatype Derived = Subject(bytes: Bytes) | Refused(err: Err)

  /** The bytes a root is named by. */
  function RootBytes(root: RootRef): Option<Bytes> {
    if root.kind.HostRoot? then root.key else root.name
  }

  /** The object's transcript, or why it has none: too large exactly when a component
      is over its limit. */
  function TranscriptOf(v: Vocabulary, block: nat, root: RootRef, labelText: Bytes): Derived
    requires v.Valid()
  {
    if block >= |v.names| then Refused(Malformed)
    else if root.kind != RootOf(v.defaults[block]) then Refused(WrongRoot)
    else if RootBytes(root).None? then Refused(Malformed)
    else if |RootBytes(root).value| > COMPONENT_MAX || |v.names[block]| > COMPONENT_MAX || |labelText| > COMPONENT_MAX
    then Refused(TooLarge)
    else Subject(Transcript(root.kind, RootBytes(root).value, v.names[block], labelText))
  }

  function SubjectOf(hash: Bytes -> Option<Bytes>, v: Vocabulary, block: nat, root: RootRef, labelText: Bytes): Derived
    requires v.Valid()
  {
    var transcript := TranscriptOf(v, block, root, labelText);
    if transcript.Refused? then transcript
    else
      var h := hash(transcript.bytes);
      if h.None? then Refused(Malformed) else Subject(h.value)
  }

  /** A buffer being appended to. */
  class Buffer {
    const into: array<byte>
    var at: nat

    constructor (size: nat)
      ensures into.Length == size && at == 0 && fresh(into)
    {
      into := new byte[size];
      at := 0;
    }

    method Append(t: Bytes)
      requires at + |t| <= into.Length
      modifies this`at, into
      ensures at == old(at) + |t| && into[..at] == old(into[..at]) + t
    {
      forall i | 0 <= i < |t| {
        into[at + i] := t[i];
      }
      at := at + |t|;
    }

    /** `put_component`. */
    method PutComponent(t: Bytes) returns (ok: bool)
      requires at <= into.Length
      modifies this`at, into
      ensures at <= into.Length
      ensures ok == (|t| <= COMPONENT_MAX && old(at) + 2 + |t| <= into.Length)
      ensures ok ==> into[..at] == old(into[..at]) + Component(t) && at == old(at) + 2 + |t|
    {
      if |t| > COMPONENT_MAX || at + 2 + |t| > into.Length {
        return false;
      }
      ghost var before := into[..at];
      Append([|t| / 256, |t| % 256]);
      if |t| > 0 {
        Append(t);
      }
      assert into[..at] == before + Component(t);
      return true;
    }
  }

  /** `ncfg_record_subject_of`, up to the hash: the buffer of fixed size is enough for
      every object whose components are within their limit. */
  method WriteTranscript(v: Vocabulary, block: nat, root: RootRef, labelText: Bytes) returns (r: Derived)
    requires v.Valid()
    requires root.key.Some? ==> |root.key.value| == KEY_LENGTH
    ensures r == TranscriptOf(v, block, root, labelText)
  {
    hide Component;
    if block >= |v.names| {
      return Refused(Malformed);
    }
    if root.kind != RootOf(v.defaults[block]) {
      return Refused(WrongRoot);
    }
    var transcript := new Buffer(TRANSCRIPT_SIZE);
    transcript.Append(TAG);
    transcript.Append([RootCode(root.kind)]);
    assert transcript.into[..transcript.at] == TAG + [RootCode(root.kind)];
    var named := if root.kind.HostRoot? then root.key else root.name;
    if named.None? {
      return Refused(Malformed);
    }
    var ok := transcript.PutComponent(named.value);
    if !ok {
      return Refused(TooLarge);
    }
    ok := transcript.PutComponent(v.names[block]);
    if !ok {
      return Refused(TooLarge);
    }
    ok := transcript.PutComponent(labelText);
    if !ok {
      return Refused(TooLarge);
    }
    return Subject(transcript.into[..transcript.at]);
  }

  method DeriveSubject(hash: Bytes -> Option<Bytes>, v: Vocabulary, block: nat, root: RootRef, labelText: Bytes) returns (r: Derived)
    requires v.Valid()
    requires root.key.Some? ==> |root.key.value| == KEY_LENGTH
    ensures r == SubjectOf(hash, v, block, root, labelText)
  {
    r := WriteTranscript(v, block, root, labelText);
    if r.Subject? {
      var h := hash(r.bytes);
      return if h.None? then Refused(Malformed) else Subject(h.value);
    }
  }

  /** Two objects are given one subject only by a collision of the hash: there is no
      other way for one object's records to land in another's cell. */
  lemma SubjectsCollideOnlyByHash(hash: Bytes -> Option<Bytes>, v: Vocabulary,
                                  block: nat, root: RootRef, labelText: Bytes, block': nat, root': RootRef, labelText': Bytes)
    requires v.Valid()
    requires SubjectOf(hash, v, block, root, labelText).Subject?
    requires SubjectOf(hash, v, block, root, labelText) == SubjectOf(hash, v, block', root', labelText')
    ensures var t, t' := TranscriptOf(v, block, root, labelText).bytes, TranscriptOf(v, block', root', labelText').bytes;
            && hash(t) == hash(t')
            && (t == t' <==> block == block' && root.kind == root'.kind && RootBytes(root) == RootBytes(root') && labelText == labelText')
  {
    hide Transcript;
    var t, t' := TranscriptOf(v, block, root, labelText).bytes, TranscriptOf(v, block', root', labelText').bytes;
    if t == t' {
      TranscriptInjective(root.kind, RootBytes(root).value, v.names[block], labelText,
                          root'.kind, RootBytes(root').value, v.names[block'], labelText');
    }
  }

  // ---- the record ----

  datatype Fields = Fields(kind: nat, stream: nat, scope: Scope, subject: Bytes, body: Bytes)
  datatype Encoded = Record(fields: Fields) | Declined(err: Err)

  /** The refusals, in the order a reader of the log is told them. */
  function Encode(hash: Bytes -> Option<Bytes>, v: Vocabulary, block: nat, root: RootRef, labelText: Bytes,
                  path: Bytes, value: Bytes): Encoded
    requires v.Valid()
  {
    if block >= |v.names| then Declined(Malformed)
    else if v.scopeOf(block, path).HostPrivate? then Declined(IsPrivate)
    else if v.kindOf(block, path).None? then Declined(Unregistered)
    else if |value| > v.bodyMax then Declined(TooLarge)
    else if 0 in value then Declined(NotText)
    else
      var derived := SubjectOf(hash, v, block, root, labelText);
      if derived.Refused? then Declined(derived.err)
      else
        var scope := v.scopeOf(block, path);
        Record(Fields(v.kindOf(block, path).value, StreamOf(v, scope), scope, derived.bytes, value))
  }

  /** `ncfg_record_encode`. */
  method EncodeValue(hash: Bytes -> Option<Bytes>, v: Vocabulary, block: nat, root: RootRef, labelText: Bytes,
                     path: Bytes, value: Bytes) returns (r: Encoded)
    requires v.Valid()
    requires root.key.Some? ==> |root.key.value| == KEY_LENGTH
    ensures r == Encode(hash, v, block, root, labelText, path, value)
  {
    hide SubjectOf;
    if block >= |v.names| {
      return Declined(Malformed);
    }
    var scope := v.scopeOf(block, path);
    if scope.HostPrivate? {
      return Declined(IsPrivate);
    }
    var kind := v.kindOf(block, path);
    if kind.None? {
      return Declined(Unregistered);
    }
    if |value| > v.bodyMax {
      return Declined(TooLarge);
    }
    var at := 0;
    while at < |value|
      invariant 0 <= at <= |value| && 0 !in value[..at]
    {
      if value[at] == 0 {
        return Declined(NotText);
      }
      at := at + 1;
    }
    assert value[..at] == value;
    var derived := DeriveSubject(hash, v, block, root, labelText);
    if derived.Refused? {
      return Declined(derived.err);
    }
    return Record(Fields(kind.value, StreamOf(v, scope), scope, derived.bytes, value));
  }

  /** Nothing private leaves; what leaves is text, in the track of its own scope. */
  lemma EncodedTravels(hash: Bytes -> Option<Bytes>, v: Vocabulary, block: nat, root: RootRef, labelText: Bytes,
                       path: Bytes, value: Bytes)
    requires v.Valid() && Encode(hash, v, block, root, labelText, path, value).Record?
    ensures var f := Encode(hash, v, block, root, labelText, path, value).fields;
            && !v.scopeOf(block, path).HostPrivate? && f.stream >= v.reserved
            && 0 !in f.body && f.body == value && |f.body| <= v.bodyMax
            && (forall s: Scope :: StreamOf(v, s) == f.stream <==> s == v.scopeOf(block, path))
  {
    hide SubjectOf;
    forall s: Scope
      ensures StreamOf(v, s) == StreamOf(v, v.scopeOf(block, path)) <==> s == v.scopeOf(block, path)
    {
      StreamsDistinct(v, s, v.scopeOf(block, path));
    }
  }

  /** One host's records never share a cell with another object's, short of a hash
      collision on the two transcripts: two records of one subject are about one object. */
  lemma OneCellOneObject(hash: Bytes -> Option<Bytes>, v: Vocabulary,
                         block: nat, root: RootRef, labelText: Bytes, path: Bytes, value: Bytes,
                         block': nat, root': RootRef, labelText': Bytes, path': Bytes, value': Bytes)
    requires v.Valid()
    requires var a, b := Encode(hash, v, block, root, labelText, path, value), Encode(hash, v, block', root', labelText', path', value');
             a.Record? && b.Record? && a.fields.subject == b.fields.subject
    requires var s, t := TranscriptOf(v, block, root, labelText).bytes, TranscriptOf(v, block', root', labelText').bytes;
             hash(s) == hash(t) ==> s == t
    ensures block == block' && root.kind == root'.kind && RootBytes(root) == RootBytes(root') && labelText == labelText'
  {
    hide TranscriptOf;
    SubjectsCollideOnlyByHash(hash, v, block, root, labelText, block', root', labelText');
  }

  // ---- which root, which track, which bytes ----

  /** The kind of root each default scope asks for. */
  predicate Fits(scope: Scope, kind: RootKind) {
    || (scope.GroupScope? && kind.GroupRoot?) || (scope.EstateScope? && kind.EstateRoot?)
    || ((scope.HostScope? || scope.HostPrivate?) && kind.HostRoot?)
  }

  /** A block's objects hang from the root of its default scope and from no other: a group
      block from a group, an estate block from the estate, all else from a host. */
  lemma RootsExactly(v: Vocabulary, block: nat, root: RootRef, labelText: Bytes)
    requires v.Valid() && block < |v.names|
    ensures TranscriptOf(v, block, root, labelText) == Refused(WrongRoot) <==> !Fits(v.defaults[block], root.kind)
  {}

  /** An object has a transcript if and only if its block is one, its root fits the block
      and is named, and no component is over 256 bytes; and these are its bytes. */
  lemma TranscriptSays(v: Vocabulary, block: nat, root: RootRef, labelText: Bytes)
    requires v.Valid()
    ensures var name := if root.kind.HostRoot? then root.key else root.name;
            var r := TranscriptOf(v, block, root, labelText);
            && (r.Subject? <==>
                  && block < |v.names| && Fits(v.defaults[block], root.kind) && name.Some?
                  && |name.value| <= 256 && |v.names[block]| <= 256 && |labelText| <= 256)
            && (r.Subject? ==>
                  r.bytes == Ascii("netcfgd subject v2") + [0]
                             + [match root.kind case HostRoot => 0 case GroupRoot => 1 case EstateRoot => 2]
                             + Prefixed(name.value) + Prefixed(v.names[block]) + Prefixed(labelText))
  {
    assert Ascii("netcfgd subject v2") + [0] == TAG;
  }

  /** A length in two bytes, the larger part first, and that many bytes. */
  function Prefixed(t: Bytes): (r: Bytes)
    requires |t| <= 256
    ensures |r| == |t| + 2 && r[0] as int * 256 + r[1] == |t| && r[2..] == t
  {
    Component(t)
  }

  /** Each scope's track. */
  lemma StreamsSay(v: Vocabulary)
    ensures StreamOf(v, HostScope) == v.reserved + 0 && StreamOf(v, GroupScope) == v.reserved + 1
    ensures StreamOf(v, EstateScope) == v.reserved + 2 && StreamOf(v, HostPrivate) == 0
  {}

  /** A value is declined for the first of its faults, in this order; and a record is of the
      key's own number and scope, in that scope's track, under the object's subject. */
  lemma EncodeSays(hash: Bytes -> Option<Bytes>, v: Vocabulary, block: nat, root: RootRef, labelText: Bytes,
                   path: Bytes, value: Bytes)
    requires v.Valid() && block < |v.names|
    ensures var r := Encode(hash, v, block, root, labelText, path, value);
            var scope, kind, subject := v.scopeOf(block, path), v.kindOf(block, path), SubjectOf(hash, v, block, root, labelText);
            && (scope == HostPrivate <==> r == Declined(IsPrivate))
            && (scope != HostPrivate && kind == None <==> r == Declined(Unregistered))
            && (scope != HostPrivate && kind != None && |value| > v.bodyMax ==> r == Declined(TooLarge))
            && (scope != HostPrivate && kind != None && |value| <= v.bodyMax && 0 in value <==> r == Declined(NotText))
            && (r.Record? <==> scope != HostPrivate && kind != None && |value| <= v.bodyMax && 0 !in value && subject.Subject?)
            && (r.Record? ==> && r.fields.kind == kind.value && r.fields.scope == scope && r.fields.subject == subject.bytes
                              && r.fields.stream == StreamOf(v, scope) && r.fields.body == value)
  {
    SubjectErrs(hash, v, block, root, labelText);
    hide SubjectOf;
  }

  lemma SubjectErrs(hash: Bytes -> Option<Bytes>, v: Vocabulary, block: nat, root: RootRef, labelText: Bytes)
    requires v.Valid()
    ensures var r := SubjectOf(hash, v, block, root, labelText);
            r.Refused? ==> r.err == Malformed || r.err == WrongRoot || r.err == TooLarge
  {}
}
