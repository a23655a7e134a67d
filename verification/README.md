# netcfgd's client protocol, modelled and proved

netcfgd's clients talk to the daemon in lines of JSON, over a control socket or over
fuzznet, and a bridge turns configured objects into replicated records. This project
models that stack in Dafny and proves what it is relied on for, for every input and
every run:

* **The JSON reader** (`JsonSpec`, `JsonResume`, `JsonArena`, `JsonParser`,
  `JsonReaders`, `JsonIntegers`). `JsonSpec` reads RFC 8259 by recursive descent. The
  program does it in one pass with a 32-frame stack, one text buffer and a flat node
  arena; `Parser` is that program, and its `Parse` is proved to accept exactly what the
  recursive reading accepts and to leave an arena that decodes to exactly that value.
  `JsonText` and `JsonGrammar` define the texts of RFC 8259 as syntax trees and prove
  the recursive reading accepts exactly those, at most 32 deep. The readers are proved
  against the decoded value.
* **The request writer** (`JsonWriter`, `Requests`): printing and reading are inverse,
  nothing a caller passes can add a member or a line, and the buffers sized by the
  six-for-one rule never refuse.
* **A status read in pages** (`Fnv`, `Pages`, `Snapshot`, `SnapshotSafety`,
  `PageServer`): against any answers, against an honest server whose status moves, and
  against the daemon's own page cutter.
* **Asking this machine** (`AskHere`, `AskTwice`, `ClientRequest`): when a request may
  have run, that it is then never sent on the control socket, and exactly when it is asked
  of fuzznet again; `AskAnswer` for what the answer is, `Framing` for the lines and who
  answers what.
* **Events** (`Events`, `EventPages`, `Monitor`, `EventLists`): the daemon's ring of 64,
  the reader's cursor, reads paged from a log that grows meanwhile, and exactly which runs
  deliver the log without a gap.
* **Uploads** (`Upload`, `Staging`): a long request in pieces, from the client's lines to
  what the daemon has staged, end to end. **Escapes** (`Escape`), **the tray's menus** (`Menus`, `MenuOrder`, `MenuLabels`) and
  **record subjects** (`Records`).

`JsonLiterals` and `WireTexts` say what the shared definitions are in characters and
literal numbers, so that a slip both sides would make alike is a proof that fails.

The imperative code is modelled by classes and methods with loops; each is proved
against a function or a predicate, and the theorems are about those. Machine widths are
explicit where they matter (64-bit digests and integers, `size_t`, the 2^32 - 1 that
stands for "no node").

`dafny verify dfyconfig.toml` checks the whole project.

## What turned out false, and when it holds

* A request that may have run can be asked again over fuzznet, though never on the control
  socket: a gathering that meets a page of another total or digest begins again from 0, and
  so does one whose answer says "working" (`AskTwice.OtherPageAsksAgain`;
  `AskTwice.AskedAgainExactly` is the if-and-only-if, `AskTwice.StartsBounded` the bound).
  For a later page of an answer no longer kept the daemon runs nothing that changes the
  machine, but its refusal to (c/src/main/daemon_ask.c:611-619) is itself a page of
  another digest, so the client then asks from 0, which to the daemon is a new request.
* Events are delivered without a gap *exactly* when no read comes more than 64 events
  after the one before it (`Events.DeliveredExactly`, with `Events.LateRead` for one that
  does); a gap, once there, stays (`Events.GapStays`).
* A reader of events whose very first read fails never gets a cursor, and makes up every
  line from the kind it hears (`Events.EventReader.Heard`, the case of a negative cursor).
* For a one-line request `nothing_ran` is exact but for one case, on the safe side: a line
  answered "busy" whose retry cannot be sent bars the control socket though nothing ran
  (`AskHere.BusyThenGoneBarsRetry`; `AskHere.OverCautiousExactly` says that there is no
  other). For no request, or one with a newline, it is clear though nothing ran, and the
  caller refuses those itself. `AskHere.NothingRanExactly` is the if-and-only-if for all.
* An event whose read fails reaches the monitor's caller as a made-up line, and again as
  the daemon's own once a read succeeds, since the cursor stays where it was
  (`Monitor.Monitor.Next`, `Events.EventReader.Heard`). The delivery theorem is about the
  daemon's own lines.
* The header promises that two networks sharing a label each carry their id. The code
  compares names as heard, not labels as written, so two labels can still read alike, and
  in two ways (`Menus.LabelsMayMeet`, `Menus.DecoratedMayMeet`);
  `Menus.LabelsMeetExactly` says when, for all ids.
* The join menu's labels, unlike everything else in it, may depend on the order of the
  scan (`MenuLabels.MenuMayFollowTheScan`). `MenuLabels.PossibleExactly` says which labels
  a network can get from the names alone, and `MenuLabels.SettledExactly` that the menu is
  the same in every order exactly when each network has one. Hearing every network under
  one name is enough (`Menus.LabelsAreSettled`) and not necessary
  (`MenuLabels.TwoNamesMaySettle`).
* The daemon's comment promises a page with as much as fits. The header is sized for the
  largest count it could name, so a byte that fits may be left out
  (`PageServer.RoomMayBeLeft`); `PageServer.LongestExactly` says when.
* `ncfg_client_apply` has a fixed buffer and refuses exactly when the whole request and
  its NUL are longer than it (`Requests.BuildApply`).

## Model

| member | source | states |
|---|---|---|
| `JsonParser.Parse` | client/ncfg_json.c:334-571 | A document comes back exactly when the recursive RFC 8259 reading of the line finds a value; its arena, decoded from node 0, is that value and nothing besides, with no more nodes and no more text than the line has bytes |
| `JsonParser.Parser.constructor` | client/ncfg_json.c:334-380 | The parse starts with nothing written and a text buffer one byte longer than the line |
| `JsonParser.Parser.PassSpace` | client/ncfg_json.c:90-103 | Exactly the RFC's four white-space bytes are passed |
| `JsonParser.Parser.ReadCodeUnit` | client/ncfg_json.c:120-135 | Four hex digits give their code unit; anything else gives -1 and no progress |
| `JsonParser.Parser.WriteUtf8` | client/ncfg_json.c:137-154 | The bytes appended are the RFC 3629 encoding of the code point, and fit |
| `JsonParser.Parser.ReadUnicodeEscape` | client/ncfg_json.c:207-236 | A `\u` escape is accepted exactly when surrogates are paired, and appends that one code point's UTF-8 |
| `JsonParser.Parser.ReadCharacter` | client/ncfg_json.c:162-244 | One string character is unescaped as the grammar says, never writing more than was read |
| `JsonParser.Parser.ReadString` | client/ncfg_json.c:162-244 | A string is accepted exactly as specified; what is appended to the text buffer is its unescaped bytes |
| `JsonParser.Parser.ReadNumber` | client/ncfg_json.c:254-314 | A number is accepted exactly as specified and its literal is kept byte for byte |
| `JsonParser.Parser.PassWord` | client/ncfg_json.c:316-325 | A literal word is taken whole or not at all |
| `JsonParser.Parser.Reserve` | client/ncfg_json.c:40-62 | There is room for one more node, and the doubling never wraps for a line this reads |
| `JsonParser.Parser.NewNode` | client/ncfg_json.c:64-88 | The arena grows by one fresh node whose index is not the "no node" value |
| `JsonParser.Parser.HangNewest` | client/ncfg_json.c:478-488 | The newest node becomes the last child of the innermost container, every open container still holding its finished entries |
| `JsonParser.Parser.ReadKey` | client/ncfg_json.c:549-565 | A member's name and colon are accepted as specified and the name waits for its value |
| `JsonParser.Parser.ReadAndHang` | client/ncfg_json.c:397-488 | One item read where a value is due leaves the answer unchanged: a scalar is finished, a container open |
| `JsonParser.Parser.TakeOpen` | client/ncfg_json.c:490-510 | Opening a container leaves the answer of the whole line what it was; 32 deep is the limit |
| `JsonParser.Parser.TakeClose` | client/ncfg_json.c:538-543 | A closing byte turns the innermost container into a finished value that the arena holds |
| `JsonParser.Parser.CloseFinished` | client/ncfg_json.c:512-547 | After a value: another entry is due, or the line is refused, or the arena means the whole answer |
| `JsonResume.EntriesResume` | client/ncfg_json.c:388-566 | Finishing a container by recursion and finishing it from the explicit stack give one answer |
| `JsonArena.AttachStep` | client/ncfg_json.c:478-488 | Linking a new node keeps every open container's chain, count and names |
| `JsonArena.CloseStep` | client/ncfg_json.c:538-543 | A container whose last entry is finished is, in the arena, the value with all its entries |
| `JsonGrammar.ReadingIsGrammar` | client/ncfg_json.c:334-571 | The reading finds value `v` if and only if the line is space, a grammar tree at most 32 deep that denotes `v`, and space |
| `JsonGrammar.TreeRead` | client/ncfg_json.c:388-566 | Every tree of the grammar, spelled anywhere in a line, is read there as what it denotes |
| `JsonGrammar.TreeSpelled` | client/ncfg_json.c:388-566 | Whatever is read as a value is the spelling of some grammar tree that denotes it |
| `JsonText.LettersRead` | client/ncfg_json.c:162-244 | Every spelling of a string's characters is read as the bytes they denote |
| `JsonText.LettersSpelled` | client/ncfg_json.c:162-244 | Every string read is such a spelling |
| `JsonText.NumeralRead` | client/ncfg_json.c:254-314 | Every RFC 8259 numeral, properly ended, is read whole |
| `JsonText.NumeralSpelled` | client/ncfg_json.c:254-314 | Everything read as a number is an RFC 8259 numeral |
| `JsonText.Utf8RoundTrip` | client/ncfg_json.c:137-154 | Decoding by RFC 3629 gives back each code point, and the first byte says how many there are |
| `JsonLiterals.EscapeRead` | client/ncfg_json.c:207-236 | An escape of any code point below U+10000 but the surrogates, with digits of either case, reads as the text that decodes to that code point |
| `JsonLiterals.CombineExactly` | client/ncfg_json.c:215-231 | The two halves UTF-16 makes of any code point from U+10000 up are it again |
| `JsonLiterals.PairRead` | client/ncfg_json.c:215-236 | The escaped pair of any such code point reads as the text that decodes to it |
| `JsonLiterals.HalfIsRefused` | client/ncfg_json.c:215-234 | Half a pair alone is refused |
| `JsonLiterals.ShortRead` | client/ncfg_json.c:198-206 | Each one-letter escape reads as its character |
| `JsonLiterals.WordsRead` | client/ncfg_json.c:316-325 | The three words read as true, false and null |
| `JsonLiterals.ListLine` | client/ncfg_json.c:388-547 | A list of two values reads as those two, in order |
| `JsonLiterals.MemberLine` | client/ncfg_json.c:549-566 | An object of one member reads as that name and value |
| `JsonLiterals.DeepIsRead` | client/ncfg_json.c:402-406 | Containers up to thirty-two deep are read |
| `JsonLiterals.DeeperIsRefused` | client/ncfg_json.c:402-406 | Thirty-three are refused, whatever follows |
| `JsonReaders.Read` | client/ncfg_json.c:334-571 | A parsed line is a document all of whose nodes hold values, the root that of the line |
| `JsonReaders.OneValue` | client/ncfg_json.c:606-644 | A node holds one value only, so what the readers say of it is settled |
| `JsonReaders.LinksIncrease` | client/ncfg_json.c:478-488 | Child and sibling links of every node of a parsed line, the root among them, strictly increase within the arena, so every walk along them ends |
| `JsonReaders.Member` | client/ncfg_json.c:606-623 | The first member of that name, of objects only, and none where there is none |
| `JsonReaders.At` | client/ncfg_json.c:625-637 | Entry `i` exists exactly for `i` below the count, and is that entry |
| `JsonReaders.Count` | client/ncfg_json.c:639-644 | The number of entries of a container, 0 for all else |
| `JsonReaders.Int` | client/ncfg_json.c:696-745 | The exact value of an integer literal within the signed 64-bit range, both ends included, else the fallback; the accumulator never overflows |
| `JsonIntegers.IntegralExactly` | client/ncfg_json.c:696-745 | Among the grammar's numerals, those read as integers are exactly those without fraction and exponent |
| `JsonIntegers.IntegerRoundTrip` | client/ncfg_json.c:696-745 | Every integer, printed, is a document that reads as that integer |
| `JsonIntegers.ReadBack` | client/ncfg_json.c:696-745 | Parsing and reading a printed 64-bit integer returns it, whatever the fallback |
| `JsonWriter.QuoteRoundTrip` | client/ncfg_client.c:7443-7483 | Every NUL-free text, quoted, parses to a string of exactly those bytes |
| `JsonWriter.RequestRoundTrip` | client/ncfg_client.c:6143-6160 | A printed request parses to exactly its fields, in order, with the caller's bytes: no injection |
| `JsonWriter.RequestOneLine` | client/ncfg_client.c:7443-7483 | A printed request holds no control byte, so no newline can frame it as two |
| `Requests.Buffer.PutQuoted` | client/ncfg_client.c:7443-7483 | The quoted text is appended exactly when it and a NUL fit; otherwise nothing is |
| `Requests.Buffer.PutMember` | client/ncfg_client.c:6143-6160 | The object in the buffer gains exactly this member, or nothing where there is no value, or the exact lack of room is reported |
| `Requests.Buffer.PutConsent` | client/ncfg_client.c:7001-7035 | The object gains exactly this list, an empty one being left out |
| `Requests.Buffer.Close` | client/ncfg_client.c:6339-6345 | The finished request comes back exactly when it and its NUL fit |
| `Requests.PutNamedText` | client/ncfg_client.c:6300-6345 | Refused for a missing part or an empty text alone; for no name or text of any length is the buffer too small |
| `Requests.SecretPut` | client/ncfg_client.c:6720-6769 | The same for a secret, under its own key |
| `Requests.ProfileSave` | client/ncfg_client.c:6605-6645 | The same for saving a profile: no name is too long |
| `Requests.ProfileSet` | client/ncfg_client.c:6659-6700 | Never refused: with a name or, for none, the bare request |
| `Requests.BuildApply` | client/ncfg_client.c:7037-7084 | The whole apply request, or a refusal exactly when it and its NUL exceed 8192 bytes |
| `Requests.NamedTextLength` | client/ncfg_client.c:6315-6343 | The six-for-one bound on a request with a name and a text |
| `Requests.NamedTextRead` | client/ncfg_client.c:6300-6345 | What those builders make is one line, read as verb, name, text and leave to replace, in that order and no more |
| `Requests.TextsRead` | client/ncfg_client.c:6720-6769 | What a secret and a drop-in are read as, member by member |
| `Requests.ProfilesRead` | client/ncfg_client.c:6605-6700 | What saving, setting and unsetting a profile are read as, member by member |
| `Requests.NamesSpelled` | client/ncfg_client.c:7037-7084 | The names these requests are made of |
| `Requests.VerbsSpelled` | client/ncfg_client.c:6605-6769 | The verbs |
| `Requests.ApplyRead` | client/ncfg_client.c:7001-7084 | What apply builds is one line, read as the confirm window and the two consents in full |
| `Fnv.ComputeDigest` | client/ncfg_fuzznet.c:313-323 | The loop computes the 64-bit FNV-1a digest |
| `Fnv.StepBijective` | client/ncfg_fuzznet.c:313-323 | For each byte the step is a bijection on 64-bit states, with an explicit inverse |
| `Fnv.StepSeparates` | client/ncfg_fuzznet.c:313-323 | From one state, different bytes lead to different states |
| `Fnv.FoldInjective` | client/ncfg_fuzznet.c:313-323 | The same bytes keep different states different, at any length |
| `Fnv.OneByteTells` | client/ncfg_fuzznet.c:313-323 | Texts that differ in exactly one byte never share a digest |
| `Fnv.PublishedDigests` | client/ncfg_fuzznet.c:313-323 | The published 64-bit FNV-1a values of no bytes and of the letter a |
| `Pages.ReadNumber` | client/ncfg_fuzznet.c:326-346 | A page's number is read up to the largest status and no further, whatever its digits |
| `Pages.ReadPage` | client/ncfg_fuzznet.c:348-383 | A reply is a page exactly as specified, and never claims bytes outside its total |
| `Pages.PageRoundTrip` | client/ncfg_fuzznet.c:348-383 | Every well-cut page, printed, is read back as it was |
| `Pages.PageReadSays` | client/ncfg_fuzznet.c:326-383 | Whatever is read as a page is spelled as one: three numbers of at most ten digits, a digest of sixteen, and as many bytes as it counts |
| `Pages.TooLongIsNoPage` | client/ncfg_fuzznet.c:326-346 | A printed page of a status over 64 MiB is no page to the client |
| `Snapshot.GatherPages` | client/ncfg_fuzznet.c:402-458 | One gathering ends with a status, with one seen to move, or with a refusal, as specified; nothing is written past `total + 1` |
| `Snapshot.JoinPages` | client/ncfg_fuzznet.c:385-466 | The join terminates against any answers and is at most four gatherings |
| `SnapshotSafety.GatheredPages` | client/ncfg_fuzznet.c:402-466 | Against any answers, a joined status is a gap-free concatenation of pages of one total and one digest, that long and with that digest |
| `SnapshotSafety.AsksBounded` | client/ncfg_fuzznet.c:402-458 | A gathering asks no more pages than the status named by its first page has bytes, and one page where that is none |
| `SnapshotSafety.LastAttempt` | client/ncfg_fuzznet.c:385-466 | A joined status is wholly that of one last gathering, after fewer than four moves |
| `SnapshotSafety.NoTornSnapshot` | client/ncfg_fuzznet.c:385-466 | From an honest server whose status moves at will, a joined status is byte for byte the one held at every ask of the last gathering, if no two held then share length and digest |
| `SnapshotSafety.StillIsGathered` | client/ncfg_fuzznet.c:402-458 | A status that rests through one gathering is gathered |
| `SnapshotSafety.NeverBroken` | client/ncfg_fuzznet.c:402-458 | An honest, forthcoming server is never refused for what it sent |
| `SnapshotSafety.MovedExactly` | client/ncfg_fuzznet.c:402-458 | One gathering from such a server reports a move if and only if the status held at some ask is not the one held at the first, and returns that one otherwise |
| `SnapshotSafety.FailsOnlyMoving` | client/ncfg_fuzznet.c:385-466 | Of such a server a status is missed if and only if the status held changed during every attempt |
| `PageServer.CutPage` | c/src/main/daemon_node.c:169-213 | The page the daemon cuts, for every status, offset and pair of limits, within both of them; none where the header it is sized by is over either |
| `PageServer.TakeFitting` | c/src/main/daemon_node.c:193-207 | The bytes taken fit the room once escaped, and one more would not |
| `PageServer.PageFits` | c/src/main/daemon_node.c:169-213 | No page is longer than it may be, bare or escaped |
| `PageServer.LongestExactly` | c/src/main/daemon_node.c:164-207 | A page is the longest that fits both limits if and only if it reaches the end, or the digits its count does not need would hold no further byte |
| `PageServer.LongestBare` | c/src/main/daemon_node.c:177-192 | With no limit on the escaped page, the page is the longest that fits if and only if what is left fits the room, or the room plus one has as many digits as the length |
| `PageServer.RoomMayBeLeft` | c/src/main/daemon_node.c:177-192 | Of any ten bytes with room for 36 the page takes eight, though nine fit |
| `PageServer.DaemonHonest` | c/src/main/daemon_node.c:169-213 | The daemon's pages are honest whatever its status does and however long it is, and forthcoming where there is room and the client reads that length |
| `PageServer.JoinedWasHeld` | c/src/main/daemon_node.c:169-213 | Client and daemon together: what is joined is a status the daemon held throughout the last gathering |
| `PageServer.MissedOnlyMoving` | c/src/main/daemon_node.c:169-213 | Client and daemon together: nothing is joined if and only if the status held changed during all four attempts |
| `PageServer.RestingIsJoined` | c/src/main/daemon_node.c:169-213 | Client and daemon together: a resting status is joined, byte for byte |
| `AskHere.AskUntilFree` | client/ncfg_fuzznet.c:194-277 | Busy lines are asked again, noting whether any byte may have gone |
| `AskHere.AskAgainTries` | client/ncfg_fuzznet.c:261-277 | One line is asked, the same each time, until it is not answered busy or for the eighty-first time, and the last reply is the reply |
| `AskHere.AskPage` | client/ncfg_fuzznet.c:536-594 | The line `call ask FROM REQUEST` is asked; the page its reply carries comes back, every line is logged, and the flag is raised as specified |
| `AskHere.PagesOfWork` | client/ncfg_fuzznet.c:601-619 | An answer that says "working" is gathered again, up to 150 times |
| `AskHere.AskThisMachine` | client/ncfg_fuzznet.c:1003-1036 | The answer, and whether nothing ran, as specified for every fate of every line and every piece; a long request is asked for only after all its pieces were sent in order and taken |
| `AskAnswer.AnswerIsCarried` | client/ncfg_fuzznet.c:1003-1036 | For every fate: an answer is the gap-free concatenation of pages carried by replies to lines that asked for them at those offsets, all of one total and digest, and has both |
| `AskAnswer.RestingIsAnswered` | client/ncfg_fuzznet.c:1003-1036 | A request whose answer the daemon holds, unmoved and not "working", is answered with it byte for byte: a short request, and a long one whose pieces were taken |
| `AskAnswer.AnswerIsFirstFinished` | client/ncfg_fuzznet.c:601-619 | The answer is the first that does not say "working", or the 151st as it stands |
| `AskAnswer.HereAsks` | client/ncfg_fuzznet.c:536-570 | Every line asked is `call ask FROM` this request, or the name it is staged under, and came to what became of that line then |
| `AskHere.WorkKeeps` | client/ncfg_fuzznet.c:536-619 | Over all retries, pages, gatherings and polls the flag is set exactly when some line asked is suspect |
| `AskHere.NothingRanExactly` | client/ncfg_fuzznet.c:1003-1036 | `nothing_ran` if and only if no answer came, the request was one line, and no line asked is suspect |
| `AskHere.NothingRanIsSafe` | client/ncfg_fuzznet.c:1003-1036 | Where it is set, every line asked was refused by fuzznet or never sent |
| `AskHere.OverCautiousExactly` | client/ncfg_fuzznet.c:261-277 | For every one-line request without an answer none of whose lines may have run, the flag is clear if and only if a busy line could not be sent again |
| `AskHere.BusyThenGoneBarsRetry` | client/ncfg_fuzznet.c:261-277 | A case in which the flag is clear though nothing ran |
| `AskTwice.AskedAgainExactly` | client/ncfg_fuzznet.c:402-449 | A request is asked from 0 again if and only if two pages of its first gathering name different totals or digests, or its answer says "working" |
| `AskTwice.MovesFrom` | client/ncfg_fuzznet.c:402-449 | A gathering asks from 0 once, and begins again if and only if two of its pages disagree |
| `AskTwice.StartsBounded` | client/ncfg_fuzznet.c:601-619 | Against any answers, a request is asked from 0 at most 604 times |
| `AskTwice.OtherPageAsksAgain` | client/ncfg_fuzznet.c:430-449 | For every request, a first page and then any page of another total or digest: both lines may have run it, and it is asked from 0 again |
| `Framing.LineReader.constructor` | client/ncfg_client.c:311-322 | A reader starts with nothing received and nothing handed out |
| `Framing.LineReader.Grow` | client/ncfg_client.c:352-361 | The buffer doubles from 8192, keeps its bytes, and never passes the line limit |
| `Framing.LineReader.Fill` | client/ncfg_client.c:362-378 | One read appends a non-empty prefix of what arrives and changes nothing else |
| `Framing.LineReader.TakeLine` | client/ncfg_client.c:322-338 | The line leaves the buffer whole, and what is behind it moves to the front |
| `Framing.LineReader.Next` | client/ncfg_client.c:311-379 | Whether a line comes, and which, depends on the bytes alone and not on how reads cut them; with `quiet` it is the monitor's reader, which waits without losing a byte |
| `Framing.SplitUnlines` | client/ncfg_client.c:311-379 | Lines put together come apart into themselves, whatever follows |
| `Framing.HandedOutInOrder` | client/ncfg_client.c:311-379 | Lines handed out plus the buffer are the bytes received; the n-th handed out is the n-th received; the buffer holds at most 1 MiB |
| `ClientRequest.Client.constructor` | client/ncfg_client.c:381-398 | A new client is not broken, has written nothing and may ask fuzznet at once |
| `ClientRequest.Client.ReadAnswer` | client/ncfg_client.c:466-483 | The next line is handed out as the document it spells; no line makes the client broken |
| `ClientRequest.Client.AskSocket` | client/ncfg_client.c:458-483 | The request is put on the socket; its answer is the next line received, or there is none and the client is broken, exactly as the stream decides |
| `ClientRequest.Client.Request` | client/ncfg_client.c:381-483 | The control socket is written to if and only if there is one, the request is one line for this machine, and fuzznet was not to be tried or is known to have run nothing; what is written is the request, and the n-th gets the n-th line; document, broken and the minute's pause in every case |
| `ClientRequest.AskFuzznet` | client/ncfg_client.c:426-456 | A fuzznet answer is the document its text spells, and a retry is allowed only if nothing may have run |
| `Upload.TargetIsMany` | client/ncfg_fuzznet.c:1300-1322 | `estate`, or `group=` and 1 to 32 permitted bytes, and nothing else |
| `Upload.KeyIsNotMany` | client/ncfg_fuzznet.c:1300-1322 | No host key is also a group or the estate |
| `Upload.PiecesAreRequest` | client/ncfg_fuzznet.c:912-948 | The pieces, in order, concatenate to the request, each of 1 to 360 bytes |
| `Upload.LineCarriesPiece` | client/ncfg_fuzznet.c:912-948 | Line `i` carries piece `i` and names its offset, the total and the digest |
| `Upload.LineFits` | client/ncfg_fuzznet.c:228-234 | To any host key, group or estate every line fits 512 bytes |
| `Upload.SendInPieces` | client/ncfg_fuzznet.c:912-948 | The lines sent are the upload's in order up to the first not taken; success exactly when all are; never a refusal for length |
| `Staging.Stage.constructor` | c/src/main/daemon_ask.c:84-102 | A stage starts with every place empty |
| `Staging.Stage.Find` | c/src/main/daemon_ask.c:112-130 | The caller's part of that digest, what has expired on the way being dropped |
| `Staging.Stage.Take` | c/src/main/daemon_ask.c:156-244 | The new stage and the reply, for every caller, line and time |
| `Staging.ArgsRead` | c/src/main/daemon_ask.c:139-186 | A line the client composes is read as what it was composed of, unless its total has more than ten digits |
| `Staging.TakenExactly` | client/ncfg_fuzznet.c:938-943 | The client takes a piece for taken if and only if the daemon took it |
| `Staging.FirstPiece` | c/src/main/daemon_ask.c:192-244 | The first piece is taken if and only if there is a place, and is then all the caller has staged |
| `Staging.NextPiece` | c/src/main/daemon_ask.c:225-244 | A later piece is taken if and only if the part is still kept, which is then the request up to its end |
| `Staging.TooLongIsRefused` | c/src/main/daemon_ask.c:188-190 | No piece of a request over 256 KiB is taken |
| `Staging.OthersKeep` | c/src/main/daemon_ask.c:104-110 | What another caller sends changes nothing of this one's |
| `Staging.UploadStages` | c/src/main/daemon_ask.c:156-244 | Among whatever others send and at whatever times, an upload whose every line is taken leaves the whole request staged and nothing else of the caller's |
| `Staging.PromptUploadIsNamed` | c/src/main/daemon_ask.c:192-244 | With a place for its first line, an upload of at most 256 KiB that is through within 60 seconds is taken line by line, whatever others send in between; for that minute, and no longer, its digest names exactly the request |
| `Staging.NamedHasDigest` | c/src/main/daemon_ask.c:234-242 | Over every run, whoever sends what: bytes that a digest names have that digest |
| `Staging.UploadedIsNamed` | c/src/main/daemon_ask.c:558-586 | End to end: after an upload the client takes for taken, the digest names exactly the request, byte for byte, for as long as it is kept |
| `Escape.Write` | client/ncfg_fuzznet.c:42-69 | Escaping succeeds exactly when the escaped text and a NUL fit, and then writes it |
| `Escape.Read` | client/ncfg_fuzznet.c:85-115 | The unescaped bytes and their count, or -1 exactly where an escape is malformed or they do not fit |
| `Escape.EscapedWord` | client/ncfg_fuzznet.c:42-69 | Escaped text holds no space, comma, control byte or DEL |
| `Escape.EscapeRoundTrip` | client/ncfg_fuzznet.c:85-115 | Unescaping undoes escaping, for every text |
| `Events.EventLog.Tell` | c/src/main/daemon_world.c:284-321 | An event is added to the log; the ring keeps exactly the last 64 |
| `Events.EventLog.Since` | c/src/main/daemon_world.c:158-176 | The count to ask from next, then the log's lines from the cursor, or the last 64 of them |
| `Events.SinceReads` | client/ncfg_fuzznet.c:1466-1479 | The daemon's answer, read with `strtol`, is its count and those lines |
| `Events.StepSeamless` | client/ncfg_fuzznet.c:1450-1590 | One step keeps given and waiting equal to the log up to the cursor, unless it is a read more than 64 events late, which leaves a gap |
| `Events.GapStays` | client/ncfg_fuzznet.c:1450-1590 | A gap is never made good |
| `Events.DeliveredExactly` | client/ncfg_fuzznet.c:1450-1590 | Over every run: no gap, duplicate or reorder if and only if every read came in time |
| `Events.LateRead` | c/src/main/daemon_world.c:158-176 | Sixty-five events and then a read leave a gap that no later step makes good |
| `Events.EventReader.constructor` | client/ncfg_fuzznet.c:1542-1548 | The stream starts at the count the daemon answered, or without a cursor where it could not be asked |
| `Events.EventReader.ReadSince` | client/ncfg_fuzznet.c:1450-1482 | A failed read changes nothing; another brings every line from the cursor to what the log then held, which may be less than it holds by now, as far as it is still kept |
| `EventPages.ReadIsOfHeldLog` | c/src/main/daemon_node.c:278-317 | A read paged from a log that grows between its pages joins to the daemon's one answer for the log as it stood at some time of the read, if no two answers of the last gathering share length and digest |
| `Events.EventReader.Heard` | client/ncfg_fuzznet.c:1550-1576 | An untaken line is never dropped, a failed read leaves the cursor and makes up a line from the kind heard, and it is one step of the run |
| `Events.MadeUpSays` | client/ncfg_fuzznet.c:1415-1447 | A line heard is made into the event of the first kind it names, read as that kind and its summary, and into none where it names no kind |
| `Events.EventReader.Take` | client/ncfg_fuzznet.c:1578-1590 | The waiting lines come out in order, one at a time, as one step of the run; the made-up line comes out as it was made |
| `Events.TellFollowed` | c/src/main/daemon_world.c:284-321 | An event told while somebody follows is one step of the run and disturbs nothing of theirs |
| `Monitor.Monitor.constructor` | client/ncfg_client.c:7375-7388 | A monitor is a line reader and an event reader, both sound |
| `Monitor.Monitor.Next` | client/ncfg_client.c:7389-7407 | One call is a run of the follower, events being told at any time during it. The line returned is the next one given out, or one made up before the call or from the line heard last; waiting lines come before anything is heard; nothing comes back only when nothing waits and the bytes read hold no whole line; it is then waiting if and only if the stream would block and the line limit is not reached |
| `Monitor.Monitor.HearUntil` | client/ncfg_client.c:7392-7401 | Lines are heard until one brings something to give out, whatever the stream and the reads of the log do |
| `Monitor.RunConcat` | client/ncfg_client.c:7389-7401 | One run after another is one run, so the delivery theorem covers any number of calls |
| `EventLists.ReadNumber` | client/ncfg_fuzznet.c:1210-1229 | At most twenty digits and no number past the largest `size_t` |
| `EventLists.Read` | client/ncfg_fuzznet.c:1231-1298 | A list is accepted exactly as specified, for any capacity |
| `EventLists.ReadSubjects` | client/ncfg_fuzznet.c:1254-1290 | The loop ends at the end of the text exactly where there is a list, having counted all and kept the first |
| `EventLists.NoSilentLoss` | client/ncfg_fuzznet.c:1231-1298 | All events kept with FIRST as sent, or exactly the capacity kept and FIRST forced to NEXT; every subject 1 to 16 letters or hyphens |
| `EventLists.SubjectExactly` | client/ncfg_fuzznet.c:1258-1276 | A subject is one to sixteen lower-case letters and hyphens, and nothing else is |
| `EventLists.TooLongIsNoList` | client/ncfg_fuzznet.c:1231-1252 | A text of 2048 bytes or more, or with a NUL, is no list |
| `EventLists.ListRoundTrip` | client/ncfg_fuzznet.c:1231-1298 | A printed list is read back as it was, but for what there is no room for |
| `Menus.JoinChoices` | client/ncfg_client.c:1898-1993 | Exactly the distinct non-empty configured ids, each once at its strongest, marked and labelled by the rule, ordered by strength then id |
| `MenuOrder.JoinStrongestFirst` | client/ncfg_client.c:1886-1896 | The stronger network stands first, and of two as strong the one whose id is first in a dictionary |
| `MenuOrder.JoinMenuSays` | client/ncfg_client.c:1918-1947 | A network is listed if and only if an access point is configured for it, marked if and only if it is the current one, and at the strongest signal it was heard at |
| `MenuOrder.HeardSays` | client/ncfg_client.c:1937-1940 | A network goes by the text name of its first access point, or by its id where that sent none |
| `MenuOrder.DecoratedSays` | client/ncfg_client.c:1960-1968 | A shared name is followed by two spaces and the id in parentheses |
| `MenuOrder.StrLeqExactly` | client/ncfg_client.c:1894-1895 | The comparison of texts is the order of a dictionary, byte by byte |
| `Menus.Tally` | client/ncfg_client.c:1918-1947 | After the pass: each network once, at its maximum, with the name of its first access point |
| `Menus.IsShared` | client/ncfg_client.c:1953-1960 | The count says exactly whether another network is heard under the name |
| `Menus.WriteLabels` | client/ncfg_client.c:1952-1974 | Each label is the name, with the id behind it exactly where the name is shared |
| `Menus.Sort` | client/ncfg_client.c:1976 | An ordered permutation, which is all `qsort` promises |
| `Menus.StrictlyOrdered` | client/ncfg_client.c:1886-1896 | The join menu never ties |
| `Menus.ScanOrderIsImmaterial` | client/ncfg_client.c:1886-1993 | Ids, signals, marks and their order are the same for every order of the scan and every repetition in it |
| `Menus.LabelsAreSettled` | client/ncfg_client.c:1937-1974 | Where each network is heard under one name the labels too are the same for every order and repetition of the scan |
| `Menus.SameNameDifferentLabels` | client/ncfg_client.c:1949-1974 | Networks heard under one name get different labels |
| `Menus.LabelsMeetExactly` | client/ncfg_client.c:1949-1974 | For all ids, two labels are equal if and only if one network is heard under the other's decorated label, or both are decorated and one name and id nest in the other |
| `Menus.DecoratedMeets` | client/ncfg_client.c:1960-1968 | Two decorated names are one text if and only if name and id are the same, or one pair nests in the other |
| `Menus.LabelsMayMeet` | client/ncfg_client.c:1949-1974 | A scan of three access points in which a name heard is another network's label |
| `Menus.DecoratedMayMeet` | client/ncfg_client.c:1949-1974 | A scan of four in which two decorated labels are one |
| `MenuLabels.PossibleExactly` | client/ncfg_client.c:1937-1974 | Some order of the scan gives a network this label if and only if the names its own and the others' access points are heard under allow it |
| `MenuLabels.SettledExactly` | client/ncfg_client.c:1898-1993 | Every order of the scan gives one and the same menu, labels and all, if and only if every network has one possible label |
| `MenuLabels.MenuExists` | client/ncfg_client.c:1898-1993 | Every scan has a menu that meets the specification |
| `MenuLabels.MenuMayFollowTheScan` | client/ncfg_client.c:1937-1974 | A scan of two access points whose menus differ with their order |
| `MenuLabels.TwoNamesMaySettle` | client/ncfg_client.c:1937-1974 | A scan in which a network is heard under two names and the menu is the same in every order |
| `Menus.SsidIsSaved` | client/ncfg_client.c:2060-2069 | Asked over the whole scan: some access point of the SSID is one a network names |
| `Menus.NewChoices` | client/ncfg_client.c:2071-2128 | Each unsaved SSID heard as text, once, with the signal and flags of the earliest of its strongest access points, ordered by strength then label |
| `MenuOrder.NewStrongestFirst` | client/ncfg_client.c:2045-2054 | The stronger SSID stands first, and of two as strong the one whose name is first in a dictionary |
| `MenuOrder.NewMenuSays` | client/ncfg_client.c:2060-2128 | An SSID is listed if and only if it is heard as text and no access point that carries it is configured; with the strongest signal heard so, and that access point's flags |
| `Menus.GatherNew` | client/ncfg_client.c:2087-2122 | After the pass: every such SSID and no other, each described by its access points |
| `Menus.MenusPartition` | client/ncfg_client.c:2060-2128 | Every network heard as text is in exactly one of the two menus |
| `Records.Buffer.PutComponent` | bridge/record_encode.c:101-113 | A component goes in with its length exactly when it is at most 256 bytes and there is room |
| `Records.WriteTranscript` | bridge/record_encode.c:115-170 | The transcript, or the refusal: too large exactly when a component is over 256 bytes, never for want of buffer |
| `Records.DeriveSubject` | bridge/record_encode.c:115-185 | The subject is the hash of the transcript, or the refusal |
| `Records.ComponentPrefix` | bridge/record_encode.c:101-113 | A component says where it ends, whatever bytes it holds |
| `Records.TranscriptInjective` | bridge/record_encode.c:115-185 | Two transcripts are the same bytes only for the same root kind, root, block and label |
| `Records.TranscriptSays` | bridge/record_encode.c:115-185 | An object has a transcript if and only if its block exists, its root fits and is named, and no component is over 256 bytes; and which bytes it is |
| `Records.RootsExactly` | bridge/record_encode.c:83-96 | A group block hangs from a group, an estate block from the estate, all else from a host, and any other root is refused as wrong |
| `Records.SubjectsCollideOnlyByHash` | bridge/record_encode.c:115-185 | Two objects share a subject only if the hash collides on two different transcripts |
| `Records.StreamsDistinct` | bridge/record_encode.c:55-72 | Tracks tell scopes apart, and only the private scope has one in the reserved range |
| `Records.StreamsSay` | bridge/record_encode.h:94-96 | The host, group and estate tracks are the first three above the reserved range |
| `Records.EncodeValue` | bridge/record_encode.c:187-250 | The record, or the first refusal in the order the code makes them |
| `Records.EncodeSays` | bridge/record_encode.c:187-250 | Which fault a value is declined for, in order; when it is not; and every field of the record |
| `Records.EncodedTravels` | bridge/record_encode.c:187-250 | Nothing private is encoded; a body is text within its limit, in the track of its own scope |
| `Records.OneCellOneObject` | bridge/record_encode.c:187-250 | Two records of one subject are about one object, short of a hash collision |
| `WireTexts.DecimalSays` | client/ncfg_fuzznet.c:326-346 | Numbers on the wire are decimal, the first digit the most significant |
| `WireTexts.HexSays` | client/ncfg_fuzznet.c:1030-1031 | Digests are lower-case hex, the first digit the most significant |
| `WireTexts.BusySays` | client/ncfg_fuzznet.c:264 | What a busy node answers |
| `WireTexts.WorkingSays` | client/ncfg_fuzznet.c:609 | What an unfinished answer says |
| `WireTexts.WorkingExactly` | client/ncfg_fuzznet.c:609 | An answer is unfinished if and only if that stands in it before any NUL |
| `WireTexts.WordsSay` | client/ncfg_fuzznet.c:924-943 | fuzznet's other words |
| `WireTexts.AskLineSays` | client/ncfg_fuzznet.c:551-562 | The line a request is asked by |
| `WireTexts.PieceLineSays` | client/ncfg_fuzznet.c:919-928 | The line a piece is sent by, a piece being 360 bytes or what is left |
| `WireTexts.PageSays` | client/ncfg_fuzznet.c:348-383 | The header and bytes of a page |
| `WireTexts.ManyExactly` | client/ncfg_fuzznet.c:1300-1322 | A target is many hosts if and only if it is the estate or a group by a permitted name |
| `WireTexts.EscapeSays` | client/ncfg_fuzznet.c:42-69 | Which bytes fuzznet's grammar escapes, and how; every other byte stands for itself |
| `WireTexts.PlainStands` | client/ncfg_fuzznet.c:85-115 | A text without a percent sign unescapes to itself |
| `WireTexts.PercentStands` | client/ncfg_fuzznet.c:94-108 | A percent sign and two hex digits of either case stand for their byte |
| `WireTexts.PercentAlone` | client/ncfg_fuzznet.c:94-108 | A percent sign without them makes the text malformed |
| `WireTexts.QuoteSays` | client/ncfg_client.c:7443-7483 | Which bytes JSON quoting escapes, and how; every other byte stands for itself |
| `WireTexts.FirstToldSays` | c/src/main/daemon_world.c:158-167 | From where the daemon tells again, 64 events back at most |
| `WireTexts.NamesSays` | client/ncfg_fuzznet.c:1415-1447 | A line names a kind by `event` and the subject, alone or before a space |

## Left out

- Sockets, `poll`, `fork`, locks and timeouts: what they come to is a parameter. A `Framing.Event` is one `read`, an `AskHere.Outcome` one line asked, `ClientRequest.Outside` what surrounds one request.
- Allocation failure: allocation is taken to succeed everywhere.
- JsonParser.Parse: lines of 2^31 bytes and more are not covered; node indices would then meet the value that stands for "no node".
- UTF-8 validation: bytes from 0x80 up pass through strings unchecked, as they do in the program, so strings are byte strings here.
- ClientRequest.Client.Request: an answer from another node is taken to be no longer than the largest status, which is what joining pages gives; asking another node (`ncfg_fuzznet_ask_at`) is a parameter.
- Events.EventReader.ReadSince: takes the joined text as a parameter, which `EventPages.ReadIsOfHeldLog` says is the daemon's; a restart of the daemon, which begins a new log, is not modelled.
- Staging.Stage.Take: the sentences behind a refusal, and that a part is wiped before it is freed; what running a staged request does, other than finding its bytes, is not part of this model.
- What the daemon does with a request asked from 0 again: running it, or handing over the result of work already begun.
- Events.EventReader.Heard: the table of event kinds is a parameter, its texts being such as JSON quoting leaves alone, and the size limit of a made-up line is not modelled.
- Monitor.Monitor.Next: stops at the line; a refusal and the conversion of the document into event fields are left out.
- Menus.NewChoices: entries of equal signal and equal label come in whatever order `qsort` leaves them.
- Records: scopes, kinds, block spellings, body limit and the hash are abstract parameters; `record_emit.c` and `netcfgd-remote.c` are glue over them.
- The other request builders and the readers that copy documents field by field into structures: they would add only easy members.
- Error sentences: which error is reported is modelled where callers act on it; its wording is not.
- The membership list, host-daemon start-up and hold protocol in `ncfg_fuzznet.c`: their other half is not part of this model.
- The plan, apply and confirm engine, the configuration language, drift, the tray and the Python gates: not part of this model.
