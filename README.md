# quickxml tokenizer and writer, modelled in Dafny

This project models the core of quickxml, a small pull tokenizer for XML-like text written in
Go. It also models the writer that prints tokens back as text. The model is sequential and works
on a finite input of bytes (`seq<byte>`) with a cursor.

- `bytes.dfy` (module `Bytes`): the byte type and constants, the error values, and the two searches
  every scanner is specified by. These are the first significant byte (a byte above 32) and the
  first occurrence of a given byte.
- `bufio.dfy` (module `Bufio`): the part of Go's `bufio.Reader` the tokenizer uses. It has
  `ReadByte`, a one-byte `UnreadByte` and `ReadBytes`. It is a class holding the input, the
  cursor and whether a push-back is allowed.
- `scanner.dfy` (module `Scanner`): `skipWS`.
- `kv.dfy` (module `KeyValues`): an attribute `key = "value"` and its parser.
- `start.dfy` (module `StartElements`): the attribute list functions, the `StartElement` state
  machine (name loop, `/` flag, attribute loop) and its textual form.
- `end.dfy` (module `EndElements`): the closing-tag parser. It comes both as written and as
  intended (see Findings).
- `text.dfy` (module `TextElements`): the text element.
- `element.dfy` (module `Elements`): the `Element` interface as a datatype `Start | End | Text`.
- `reader.dfy` (module `XmlReader`): the `Reader` pull loop. This covers `Next`, `next`, `skip`,
  `AssignNext` and the pending text target.
- `writer.dfy` (module `XmlWriter`): `Write`, `WriteIndent` and `writeString` over a sink of
  bounded capacity.

The objects the source updates in place are classes whose methods change their fields:
`Bufio.Reader`, `StartElement`, `EndElement`, `Reader`, the `Writer` and its sink. `KV` lives by
value inside the attribute slice, so `KV.parse` is the method `ParseKV`, which returns the updated
value, and `KV.reset` is the function `Reset`. `NewAttrs`, `CopyTo` and `Get` are methods with
loops that return new values. Each imperative routine is proved equal to a specification
function on the input and the cursor (`ParseKVSpec`, `ParseStartSpec`, `ParseEndSpec`,
`NextSpec`, `WriteSpec`, ...). The properties the library promises are then proved as lemmas
about those functions.

Round trips tie the writer to the reader. A start tag, an attribute or a text run, once printed,
is read back as the same element. The reader parses a closing tag with end.go as written, so a
printed `</name>` comes back with each byte of the name converted by `string(c)`. That is the
same name exactly when the name is ASCII (see Findings).

Where the library's written description and its code differ, the model follows the code:

- A pending `AssignNext` target is kept across intervening tags until a text run arrives
  (reader.go:55-56, 74-76). It is not cleared by the next tag.
- When the input runs out cleanly, `Next` reports `io.EOF` through `Err` (reader.go:43, 65-67).
  It does not report nil.

## Model

| member | source | states |
|---|---|---|
| Bytes.NextSignificant | util.go:5-13 | The first byte above 32 at or after the cursor: every byte before it is at most 32; with none, every remaining byte is at most 32 |
| Bytes.IndexOfPastWhitespace | kv.go:46-61 | Searching for a significant byte such as '"' can skip whitespace: it finds nothing when only whitespace remains, and otherwise gives the same answer from the first significant byte |
| Bytes.IndexOf | kv.go:39 | A position the search for a byte returns lies in the rest of the input and holds that byte |
| Bytes.IndexOfSkips | kv.go:39 | The search passes over no earlier occurrence; when it finds none, no remaining byte is the one sought |
| Bytes.IndexOfAt | kv.go:39 | An occurrence with none before it is the one the search returns |
| Bufio.Reader.ReadByte | util.go:7 | Consumes one byte and allows a push-back, or reports EOF at the end of the input with the cursor unchanged |
| Bufio.Reader.UnreadByte | start.go:235 | Moves the cursor back one byte after a read that consumed one; a second push-back in a row fails with ErrInvalidUnreadByte |
| Bufio.Reader.ReadBytes | kv.go:39 | Returns the bytes through the first delimiter and moves just past it; without a delimiter returns the rest of the input and EOF |
| Scanner.SkipWS | util.go:5-13 | Returns the first significant byte with the cursor just after it; with only whitespace left, EOF with the whole input consumed |
| KeyValues.TrimRight | kv.go:41 | The longest prefix of the key bytes that does not end in ' ', '\r' or '\n'; only those bytes are trimmed |
| KeyValues.Reset | kv.go:33-36 | Key and value are both left empty |
| KeyValues.ParseKVSpec | kv.go:38-64 | parse always stays within the input, and consumes at least one byte whenever any remain |
| KeyValues.QuotedValueSpec | kv.go:46-63 | The part after the '=' keeps the key and never moves past the end |
| KeyValues.ParseKV | kv.go:38-64 | parse leaves the KV, the cursor and the error exactly as ParseKVSpec gives them |
| KeyValues.ParseQuotedValue | kv.go:46-61 | The labelled loop skips every byte up to the first '"' after the '=', then takes the bytes up to the next '"' as the value |
| KeyValues.NoEqualsLeavesKV | kv.go:39-40 | Without an '=' before the end of the input, parse fails with EOF, consumes everything and leaves key and value unchanged |
| KeyValues.KeyIsTrimmedPrefix | kv.go:39-41 | Once an '=' is found the key is a prefix of the bytes before it that holds no '=' and does not end in ' ', '\r' or '\n', and only those bytes follow it up to the '='; on a later failure the old value is kept |
| KeyValues.ValueBetweenQuotes | kv.go:54-57 | On success the value is exactly the bytes between two quotes, holds no '"', and the cursor is just past the closing quote |
| KeyValues.SucceedsIff | kv.go:38-64 | parse succeeds if and only if an '=' is followed later by two quotes |
| KeyValues.FrameSucceeds | kv.go:46-61 | An '=' with two quotes after it is enough for success, whatever else lies in between |
| KeyValues.OldContentsOnlyShowOnFailure | kv.go:41-57 | Where parse stops and whether it fails never depend on the KV's earlier contents; a failure reaches the end of the input; a success overwrites both key and value |
| KeyValues.ParseWrittenKV | kv.go:38-64 | An attribute written as `k="v"` (no '=' in k, no trailing padding, no '"' in v) is read back as k and v, with the cursor just past it |
| StartElements.NewAttrs | start.go:32-44 | n strings give ceil(n/2) attributes; even positions are keys, odd positions values, and an odd trailing key gets an empty value |
| StartElements.CopyTo | start.go:47-56 | The destination grows to the source's length if shorter, holds a copy of every source entry, and keeps its own entries beyond |
| StartElements.Get | start.go:66-85 | Returns the first attribute whose key equals the name; returns nothing exactly when no key matches |
| StartElements.StartElement.constructor | start.go:120-130 | NewStart: the given name and flag, and a copy of the given attributes (none when nil) |
| StartElements.StartElement.SetNameBytes | start.go:162-164 | The name becomes the given bytes |
| StartElements.StartElement.Reset | start.go:184-188 | Empty name, empty attribute slice (backing array kept), no '/' flag |
| StartElements.StartElement.GetNextElement | start.go:246-254 | The slice becomes idx+1 long, reusing the backing array when it has room and growing it otherwise; earlier entries are unchanged |
| StartElements.WithSlot | start.go:246-254 | The slot request keeps name, flag and every existing entry of the backing array, and makes the slice idx+1 long |
| StartElements.StartElement.String | start.go:132-143 | "<" + name + ` k="v"` for each attribute in order + "/>" or ">", with no escaping |
| StartElements.StartElement.Parse | start.go:190-221 | parse leaves the element's state, the cursor and the error exactly as ParseStartSpec gives them |
| StartElements.StartElement.ParseAfterFirst | start.go:199-218 | After the first significant byte: the name loop, then the attribute loop only when the name ended at ' ' |
| StartElements.StartElement.ScanName | start.go:199-214 | The name loop consumes through the first ' ' or '>'. It keeps the first byte and the later bytes before the first '/'. It sets the flag when a '/' follows the first byte. It reports EOF when no ' ' or '>' comes |
| StartElements.StartElement.ParseAttrs | start.go:223-244 | The attribute loop leaves the state, the cursor and the error as ParseAttrsSpec gives them |
| StartElements.StartElement.AttrsTurn | start.go:227-241 | One turn stops at EOF or '>'. A '/' sets the flag. Any other byte is pushed back and parsed into the next slot, and the slot advances only on success |
| StartElements.StartElement.ParseAttr | start.go:238 | The attribute is parsed into slot idx of the grown slice; nothing else changes |
| StartElements.NextNameEnd | start.go:200-203 | The first ' ' or '>' at or after the cursor, with no such byte before it; tab and newline do not end the name |
| StartElements.NameUpTo | start.go:197-213 | The scanned name is never empty and starts with the first significant byte |
| StartElements.NameUpToIsBeforeSlash | start.go:205-213 | The scanned name is the first byte followed by the bytes before the first later '/' |
| StartElements.SlashWithinIsIn | start.go:206-207 | The name loop sets the flag exactly when a '/' follows the first byte before the name ends |
| StartElements.NameUpToKeepsNameBytes | start.go:199-213 | After its first byte the name holds no ' ', '>' or '/' |
| StartElements.NoSlashNameIsSlice | start.go:199-214 | With no '/' after the first byte, the name is exactly the input run and the flag stays clear |
| StartElements.ParseStartSpec | start.go:190-221 | parse never moves the cursor backwards or past the end, and its attribute slice lies within its backing array |
| StartElements.AfterFirstSpec | start.go:199-218 | Once the name has started, parse advances past its first byte and keeps the slice within the backing array |
| StartElements.AfterNameSpec | start.go:215-220 | Once the name has ended, parse advances past the ending byte and keeps the slice within the backing array |
| StartElements.AttrsTurnSpec | start.go:227-241 | A turn that stops keeps the state; a turn that goes on consumes at least one byte, so the loop terminates |
| StartElements.ParseAttrsSpec | start.go:223-244 | The attribute loop keeps the name and never moves the cursor past the end |
| StartElements.TurnIgnoresStaleSlots | start.go:226-254 | One turn of the loop, from two states that agree on name, flag and the attributes read so far, stops in both or goes on in both, at the same place and with the same error, and keeps them in agreement |
| StartElements.SlotParseAgrees | start.go:238-241 | Parsing an attribute into slot idx of two agreeing states stops at the same place with the same error, and keeps the states in agreement |
| StartElements.AttrsIgnoreStaleSlots | start.go:223-244 | The attribute loop shows leftovers of an earlier parse only when it fails |
| StartElements.ParseIgnoresStaleSlots | start.go:184-191 | Because parse calls Reset, a successful parse gives the same name, attributes and flag whatever the element held before |
| StartElements.AfterFirstIgnoresStaleSlots | start.go:199-218 | The same, once the name has started |
| StartElements.AfterNameIgnoresStaleSlots | start.go:215-218 | The same, once the name has ended |
| StartElements.ParsedNameShape | start.go:193-197 | The name is empty exactly when no significant byte remains; otherwise it is well formed, whether or not the rest succeeds |
| StartElements.AttrsStopAtGtOrEnd | start.go:226-241 | The attribute loop succeeds only by consuming a '>'; every failure is EOF at the end of the input |
| StartElements.ParseStopsAtGtOrEnd | start.go:190-221 | parse succeeds only by consuming a '>'; every failure is EOF at the end of the input |
| StartElements.AfterNameStops | start.go:215-218 | The same, once the name has ended |
| StartElements.SlashWithinWitness | start.go:206-207 | A '/' flag set in the name loop stands for a '/' in the input after the first byte |
| StartElements.AttrsSetEndOnSlash | start.go:231-233 | The attribute loop never clears the '/' flag, and sets it only on a '/' it consumes |
| StartElements.SelfClosingOnlyOnSlash | start.go:205-233 | parse sets the flag only on a '/' among the bytes it consumes |
| StartElements.AfterFirstSetsEndOnSlash | start.go:199-233 | The same, once the name has started |
| StartElements.FillSlots | start.go:238-241 | Reading attributes in order into the slots from idx gives the slice's earlier entries followed by those attributes |
| StartElements.WrittenAttrTurn | start.go:227-241 | A turn over a written attribute reads it into the next slot and moves past it |
| StartElements.WrittenCloseTurns | start.go:226-233 | The written closing ends the attribute loop, and "/>" sets the flag |
| StartElements.ParseWrittenAttrs | start.go:223-244 | The attribute loop reads written attributes and the written closing back as written |
| StartElements.AttrsFromSpace | start.go:215-227 | The loop started on the space that ended the name behaves as if started after it |
| StartElements.WrittenNameScanned | start.go:199-214 | A written name is scanned whole, keeping every byte and seeing no '/' |
| StartElements.NameEndsAt | start.go:199-214 | A written name followed by ' ' or '>' ends there; followed by "/>", the flag is set and the name ends at the '>' |
| StartElements.ParseNamedThen | start.go:190-244 | parse over a written name, written attributes and a written closing gives back all three |
| StartElements.ParseWrittenStart | start.go:132-143 | What String writes, parsed from just after the '<', gives back the name, the attributes and the flag, stopping just past the '>' |
| EndElements.WithoutSpaces | end.go:24-27 | Drops the ' ' bytes and nothing else |
| EndElements.KeepsAllButSpaces | end.go:24-26 | Only byte 32 is dropped; a run without it is kept whole, tabs and newlines included |
| EndElements.EndNameUpTo | end.go:15-28 | The gathered name is never empty and starts with the first significant byte |
| EndElements.EndNameUpToDropsSpaces | end.go:16-28 | The gathered name is the first byte followed by the later bytes with every ' ' dropped |
| EndElements.ParseEndSpec | end.go:10-31 | The cursor never moves backwards or past the end |
| EndElements.EndNameSpec | end.go:16-30 | After the first byte, the cursor always advances |
| EndElements.RuneBytes | end.go:15 | Go's string(c) of a byte is one byte below 0x80 and two bytes from 0x80 on |
| EndElements.WidenIsIdentityIff | end.go:27 | Converting byte by byte changes the name exactly when some byte is not ASCII |
| EndElements.WidenLength | end.go:27 | The conversion never shortens, and lengthens as soon as one byte is not ASCII |
| EndElements.WidenedEndNameIsWiden | end.go:15-28 | Converting while gathering equals gathering, then converting |
| EndElements.WidenedEndNameIsWidenedSpec | end.go:15-28 | What parse as written appends is the conversion of what the intended parse appends |
| EndElements.EndElement.Parse | end.go:10-31 | parse appends the parsed bytes to the existing name without clearing it, and leaves the cursor and the error as ParseEndSpec gives them |
| EndElements.EndElement.ScanEndName | end.go:16-28 | The loop consumes through the first '>' and keeps every byte but ' '; without a '>' it reports EOF |
| EndElements.EndElement.ParseAsWritten | end.go:10-31 | parse as written appends the byte-by-byte converted name; cursor and error are as intended |
| EndElements.EndElement.ScanEndNameAsWritten | end.go:16-28 | The loop as written appends each kept byte converted by string(c) |
| EndElements.ParsedEndShape | end.go:11-30 | On success the name starts with a significant byte (which may be '>': `</>a>` gives ">a"), holds no ' ', holds no '>' after its first byte, and the '>' is consumed; every failure is EOF at the end of the input |
| EndElements.ParseEndAt | end.go:10-31 | Over whitespace, a name without ' ' or '>', then '>', the parsed bytes are exactly the name and the cursor is past the '>' |
| EndElements.NameWithoutSpaces | end.go:24-27 | With no ' ' after the first byte, the gathered name is the input run itself |
| EndElements.ParseWrittenEnd | end.go:10-31 | A closing tag `</name>` is read back as name, whatever whitespace comes before the name |
| EndElements.AsWrittenWidensNonAscii | end.go:15-27 | The closing tag of an element named with bytes C3 A9 is read into the name as C3 83 C2 A9 by the code as written |
| TextElements.NewText | text.go:9-12 | The element holds exactly the given bytes |
| TextElements.TextElement.String | text.go:19-21 | The bytes themselves, with no escaping and no delimiters |
| TextElements.TextElement.Parse | text.go:14-16 | parse always returns nil, and reads nothing from the reader |
| TextElements.TextRoundTrip | text.go:9-21 | NewText(s).String() == s, and NewText(t.String()) == t |
| Elements.Render | element.go:11-14 | A start tag prints between '<' and '>'; a closing tag prints as its given textual form; text prints as its bytes |
| XmlReader.RefTo | reader.go:57-58 | The reader holds an element exactly when something was parsed or read |
| XmlReader.SkipSpec | reader.go:79-82 | skip consumes through the next '>' and produces nothing; without a '>' it reports EOF |
| XmlReader.TagSpec | reader.go:85-107 | After '<', on success the cursor advances and an element is produced; a skipped declaration produces none. A closing tag appends to the pooled name the bytes end.go as written appends, each kept byte through string(c) |
| XmlReader.TextSpec | reader.go:48-62 | A text run goes to the pending target (and the loop goes on) or becomes the element; the cursor advances |
| XmlReader.TurnSpec | reader.go:43-63 | Every turn of Next either consumes at least one byte or ends the call |
| XmlReader.NextFrom | reader.go:42-68 | Only a pending target is ever given text |
| XmlReader.NextSpec | reader.go:39-71 | Text is stored only when a target is pending |
| XmlReader.Reader.constructor | reader.go:22-26 | NewReader: cursor at the start, no element, no error, no pending target |
| XmlReader.Reader.AssignNext | reader.go:74-76 | The target becomes pending |
| XmlReader.Reader.Next | reader.go:39-71 | Next leaves the cursor, error, element, pooled objects and pending target as NextSpec gives them, a closing tag's name as end.go as written builds it. It returns true exactly when it holds an element, which is exactly when there is no error |
| XmlReader.Reader.Turn | reader.go:43-63 | One turn of the loop body, as TurnSpec gives it |
| XmlReader.Reader.TextRun | reader.go:48-62 | Pushes the byte back, reads through '<', hands the bytes before it to the target or makes them the element, and pushes the '<' back |
| XmlReader.Reader.Skip | reader.go:79-82 | ReadBytes('>'), keeping only its error |
| XmlReader.Reader.NextTag | reader.go:85-107 | next: '/' parses a closing tag with end.go as written, '!' and '?' skip, any other byte is pushed back and a start tag parsed; a failed parse drops the element |
| XmlReader.Reader.ParseElement | reader.go:100-105 | The chosen element parses from the reader, a closing tag by end.go as written (each kept byte appended through string(c)); on failure the reader holds no element |
| XmlReader.TagAt | reader.go:89-99 | The three ways next goes once the byte after '<' is known |
| XmlReader.TextTurnShape | reader.go:48-62 | A text turn hands on a non-empty run starting with a significant byte, with no '<' in it, standing just before the '<' |
| XmlReader.EndTagTurnShape | reader.go:90-91 | A closing-tag turn either fails at the end of the input or stops just past a '>' |
| XmlReader.StartTagTurnShape | reader.go:96-105 | A start-tag turn either fails at the end of the input or stops just past a '>' |
| XmlReader.TagTurnShape | reader.go:85-107 | Every turn after '<' has one of the shapes above |
| XmlReader.TagTurnAt | reader.go:46-47 | A '<' as the first significant byte starts a tag |
| XmlReader.TextTurnAt | reader.go:48-49 | Any other first significant byte starts a text run |
| XmlReader.TurnShape | reader.go:43-63 | Every turn of Next has one of the shapes above |
| XmlReader.NextFromShape | reader.go:42-68 | From any turn on, the loop's outcome has the shape NextShape states |
| XmlReader.NextShape | reader.go:39-71 | No error means an element; every error is EOF at the end of the input. A text element is non-empty, starts with a significant byte and holds no '<', and the '<' is left unread. A tag is consumed through its '>' |
| XmlReader.WhitespaceOnlyIsEOF | reader.go:42-46 | Whitespace alone gives EOF, no element and no text |
| XmlReader.UnclosedTextIsDropped | reader.go:50-52 | Text with no '<' after it is dropped and EOF reported |
| XmlReader.SkipsDeclaration | reader.go:79-95 | `<!...>` and `<?...>` are skipped through the first '>', and scanning goes on after it with the same pending target |
| XmlReader.ReadsWrittenStart | reader.go:96-105 | Next reads back a start tag as String writes it |
| XmlReader.ReadsWrittenEnd | reader.go:90-91 | Next reads back `</name>`, appending to the pooled element's name the name with each byte converted by string(c): the name itself when it is ASCII |
| XmlReader.AssignNextTakesText | reader.go:55-60 | With a target pending, the next text run goes into it, no element is made of it, and scanning goes on at the '<'. With none, the run is the element |
| XmlWriter.Sink.WriteString | writer.go:38 | io.WriteString: the bytes are appended when they fit; otherwise the part that fits is written and a short write reported |
| XmlWriter.WriteSpec | writer.go:36-45 | writeString keeps what the sink held and never overfills it; its only error is a short write |
| XmlWriter.WriteSpecIsTruncatedConcat | writer.go:36-45 | writeString succeeds exactly when the concatenation of the strings fits, and the sink then gains it; otherwise it is filled with as much of it as fits |
| XmlWriter.WriteStrings | writer.go:36-45 | The strings in order, stopping at the first error and returning it |
| XmlWriter.IndentBefore | writer.go:23-25 | A closing tag is printed with the indent two bytes shorter; other elements with the indent as it is |
| XmlWriter.IndentAfter | writer.go:22-31 | The indent grows by two after an open start tag, shrinks by two for a closing tag, and stays an even run of spaces |
| XmlWriter.NeverBelow | writer.go:23-25 | A sequence that never closes more than is open ends at a non-negative depth |
| XmlWriter.IndentTracksDepth | writer.go:22-34 | From any indent, the printer never hits the slice panic exactly when no prefix closes more than is open; the indent is then two spaces per open level |
| XmlWriter.NeverBelowRaised | writer.go:23-25 | Starting deeper keeps a sequence from closing too much |
| XmlWriter.BalancedRestoresIndent | writer.go:22-34 | A balanced run of elements leaves the indent where it found it |
| XmlWriter.Writer.constructor | writer.go:12-14 | NewWriter: the indent starts empty |
| XmlWriter.Writer.Write | writer.go:17-19 | Write emits exactly the element's text and nothing else |
| XmlWriter.Writer.WriteIndent | writer.go:22-34 | Emits indent + text + "\n", the indent first shortened by two for a closing tag. After an open start tag the indent grows by two spaces. The indent moves whether or not the write fails |
| XmlWriter.EndReadBack | reader.go:90-105 | A written closing tag `</name>` read by a fresh Next gives no error, consumes exactly the tag, and yields the closing tag whose name is the name converted by string(c) |
| XmlReader.WrittenEndTag | reader.go:90-101 | After '<', next parses a written closing tag through its '>' and appends the name converted by string(c) |
| XmlWriter.ReadsBackWritten | writer.go:17-19 | An element the reader can parse, once written, is read back by Next, consuming exactly what was written. Start tags and text come back as themselves; a closing tag comes back with its name converted by string(c), so as itself exactly when the name is ASCII |

## Left out

- The `sync.Pool`s for start and end elements are concurrency machinery. `Next` instead takes the StartElement and EndElement it is handed as parameters, each some existing or fresh object.
- `bufio` buffering is left out. The input is a finite byte sequence with a cursor. The only read error is EOF, plus `ErrInvalidUnreadByte` for a second push-back. Read failures of the underlying source are not modelled.
- `ReadString` is `ReadBytes` in the model: strings and byte slices are both byte sequences.
- The `Sprintf` calls in `String` are modelled as plain concatenation of the bytes.
- `Range`, `RangePre` and `RangeWithIndex` are closure-taking iterators; `CopyTo` and `String` use their loops directly.
- `KeyUnsafe` and `b2s` are plain byte-to-string conversions: `Get` and `GetBytes` are one search over byte keys.
- `Len`, `HasEnd`, `Name`, `NameBytes`, `Key`, `KeyBytes`, `Value` and `ValueBytes` are field reads. They are the datatype and class fields themselves and carry no contract.
- XmlReader.Reader.Element and XmlReader.Reader.Err: field reads with no contract.
- `SetName` is `SetNameBytes` on bytes.
- `EndElement` has no textual form in this revision, so the writer takes it as a parameter (`endForm`). `ReadsBackWritten` requires it to print `</name>`.
- The two `Element` interfaces (reader.go:9 without `String`, element.go:11-14 with it) are merged into one datatype.
- The sink behind the `Writer` has a fixed capacity. A write past it stores the part that fits and fails with a short write. Other `io.Writer` failures are not modelled.
- Go's panic when `WriteIndent` gets a closing tag with an indent shorter than two bytes is a precondition of `Writer.WriteIndent`. `IndentsAfter` and `IndentTracksDepth` say exactly when a sequence reaches it.
- XmlReader.Reader.Next: the UnreadByte results in the text branch and before a start tag are discarded in the source. The model proves they always succeed there.

## Findings

| source | as written | input that shows it | evidently intended | confidence | as-written member | corrected member |
|---|---|---|---|---|---|---|
| end.go:15-27 | Each kept byte `c` is appended as `string(c)`. In Go that is the UTF-8 encoding of the code point `c`, so a byte of 0x80 or more is appended as two bytes | The closing tag `</é>` in UTF-8 (bytes 3C 2F C3 A9 3E): the name becomes C3 83 C2 A9 instead of C3 A9 | Append the byte itself, so that the name is the input's bytes (as StartElement's name loop does at start.go:197, 212) | not executed | EndElements.EndElement.ParseAsWritten, EndElements.AsWrittenWidensNonAscii, EndElements.WidenIsIdentityIff | EndElements.EndElement.Parse, EndElements.ParseWrittenEnd |

The reader runs the closing-tag parse as written, since that is what reader.go:91 and 101 call, so every reader member above carries the conversion. The corrected parse and its round trip stand beside it in `EndElements`.
