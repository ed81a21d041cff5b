# Verified model of the concurrent map and the JSON engine

This Dafny project models four parts of the repository and proves properties of them.

- **The concurrent map** (`MAP/map.go`), twice. `MapProtocol` is a step system: every atomic load, compare-and-swap,
  lock, unlock and locked statement of Load, Store, LoadOrStore, Delete and Range is one step, and any number of
  threads interleave. `MapShared` says what each kind of change keeps, `MapThreads`, `MapSteps`, `MapMoves` and
  `MapRuns` what each thread knows and why every step keeps it, and `MapTheorems` draws the conclusions about whole
  runs; `MapLinearization` puts all calls of a run in one order, and `MapMisses` counts the misses. `SyncMap` is the
  same map as an object that one goroutine uses. `MapSpec` is the abstract map; `MapReference` has the two reference
  maps of the test suite, proved to be that map.
- **The JSON engine** (`status/json_private`). `JsonScanner` has the scanner as a transition function and as the object
  that carries it out in place. `JsonGrammar` and `JsonLexemes` state the grammar of RFC 7159 on concrete syntax trees,
  `JsonParse` proves that the scanner accepts exactly its texts, and `JsonUnique` that a text has one parse. On that
  rest the clients: the recursive decoder (`JsonDecoder`, against the denotation in `JsonMeaning`), `nextValue`
  (`JsonNextValue`), the stream decoder and its token machine (`JsonStream`, `JsonTokens`), compaction (`JsonCompact`,
  `JsonEscape`, `JsonSqueeze`), indentation (`JsonIndent`, `JsonPretty`), string literals (`JsonStrings`,
  `JsonQuoting`, `JsonUtf16`, `Utf8`), numbers (`JsonNumber`) and the encoder (`JsonEncoder`, `JsonRoundTrip`,
  `JsonMarshal`). `JsonTokenTexts` proves which streams the token machine accepts and `JsonViable` when an error is
  reported; `JsonLiterals` and `Alphabet` tell by literal bytes what is written and which characters mean what.
- **The name matcher** (`nameUtil_bak/nameUtil.go`): `EditDistance` and `NameMatch`.
- **The case-fold comparators** (`status/json_private/fold.go`): `Fold`.

Code that works step by step is a method, with its loops, proved against a function of its inputs; the lemmas then
say what that function means. Bytes are integers from 0 to 255, and a Go string is a sequence of bytes.

## Where code and comments differ

- `MAP/map.go:68` says that a nil entry implies a nil dirty map. Delete makes an entry nil while dirty exists, so this
  is no invariant; `QuietStructure` states what is.
- `MAP/map.go:57` reads as an equivalence, but deleting from dirty leaves `amended` true, so it holds in one direction.
- `MAP/map.go:61-62` suggests that the misses stay below the size of dirty; Delete shrinks dirty, so they may not.
- `status/json_private/indent.go:11-14` says that Compact only elides white space. It also writes U+2028 and U+2029 as
  escapes in both modes; the model does the same.
- The encoder appends `(string)` to every key of a map with string keys (`status/json_private/encode.go:644`), so
  encoding and decoding rename keys. `RoundTrip` states the renaming; keys are sorted before the suffix is appended.
- Two keys of a map are decoded as one if they become equal when each ill-formed byte is replaced by U+FFFD; one of
  them may be well-formed and contain U+FFFD itself. `NoneMergedIff` and `NothingLostIff` say exactly when entries are
  lost, `RoundTrip` which value stays, and `LostEntry` gives such objects.
- `nameUtil_bak/nameUtil.go:22-25` indexes the lowered strings by the lengths of the original ones and panics where
  lowering shortens a string. `NameMatch` says exactly when, and `KelvinPanics` gives such a string.
- `unquoteBytes` accepts the escape `\'`, which neither the scanner nor RFC 7159 does; `UnquoteIff` says exactly what it accepts.

## Model

| member | source | states |
|---|---|---|
| MapTheorems.Linearizable | MAP/map.go:94-290 | In every run of any number of threads, each completed Load, Store, LoadOrStore and Delete is atomic: either exactly one step inside the call changes the abstract map, as the operation says, and gives the result; or no step of the call changes it and the result is what the operation gives, changing nothing, in some state between invocation and return |
| MapTheorems.OnlyEffectsChange | MAP/map.go:94-290 | The abstract map starts empty and a step changes it only where a call takes effect, and then exactly as that operation changes the locked map of the test suite |
| MapLinearization.Linearization | MAP/map.go:94-290 | Every run has one list of its calls of Load, Store, LoadOrStore and Delete, each once, with every call that returned in it, such that replaying the list on the locked map, one call after the other, gives every result that was returned and ends in the map that the run ends in, and such that a call that returned before another was invoked comes first |
| MapTheorems.RunInvariant | MAP/map.go:26-81 | Every state of every run satisfies the invariant of the shared memory and of each thread, and the recorded history holds the abstract map after each step |
| MapTheorems.NeverPanics | MAP/map.go:203-223 | No run assigns into the nil dirty map, and a tryLoadOrStore made with the lock held never meets an expunged entry, so the ignored `ok` is always true |
| MapTheorems.QuietStructure | MAP/map.go:64-81 | With the lock free, dirty is non-nil iff `amended`; a read entry is expunged iff dirty exists and lacks its key; a key in both maps has the same entry in both; dirty has no expunged entry |
| MapTheorems.RetiredForever | MAP/map.go:161-185 | An entry that was published in a read map and is no longer the read map's entry for its key is expunged, and stays expunged and out of every later read map |
| MapTheorems.RangeFaithful | MAP/map.go:302-333 | Under concurrency Range reports no key twice and only bindings that held at some moment of the call, and, unless stopped, every key that was present throughout the call; `f` accepted every pair reported, except that a stopped Range has a last pair and `f` refused exactly that one |
| MapTheorems.RangeUninterrupted | MAP/map.go:302-333 | With an `f` that refuses nothing Range is not stopped and reports every key that was present throughout the call |
| MapTheorems.RangeAlone | MAP/map.go:302-333 | While the abstract map does not change, an unstopped Range enumerates exactly its bindings, and a stopped one distinct bindings of it, the last being the one that `f` refused |
| MapTheorems.CopyingIsPaidFor | MAP/map.go:335-357 | In every run the entries iterated by dirtyLocked number at most the calls of missLocked plus the total size of the dirty maps promoted by Range |
| MapTheorems.PromotionIsPaid | MAP/map.go:335-343 | missLocked promotes only when the misses have reached the size of the dirty map |
| MapMisses.MissesCounted | MAP/map.go:335-343 | In every run missLocked is called once for each lookup that ended in the dirty map, by a Load or by a LoadOrStore that found its key only there, and for nothing else |
| MapMisses.MissLockedEnds | MAP/map.go:335-343 | missLocked ends with fewer misses than the dirty map has keys, or with dirty promoted and no misses |
| MapRuns.StepKeeps | MAP/map.go:94-368 | One step of any thread, an atomic load, compare-and-swap, lock, unlock or locked statement, keeps the whole invariant |
| MapRuns.LockDiscipline | MAP/map.go:94-368 | A thread acts on the locked fields only between its Lock and its Unlock |
| MapShared.ActionKeeps | MAP/map.go:128-260 | Each kind of change of the shared memory, where the protocol allows it, keeps the shared invariant, phase by phase of the lock holder |
| MapShared.ActionEffect | MAP/map.go:128-260 | Unexpunging, expunging, copying, amending, promoting and counting leave the abstract map as it is; pointer writes, insertions and removals change it at one key |
| MapShared.ActionEvolves | MAP/map.go:128-260 | Entries keep their keys, published entries stay published, and an expunged entry that is detached is never revived |
| MapReference.RWMutexMap.Load | MAP/map_reference_test.go:29-34 | Answers as the abstract map |
| MapReference.RWMutexMap.Store | MAP/map_reference_test.go:36-43 | Binds the key, also when the map was nil, and changes nothing else |
| MapReference.RWMutexMap.LoadOrStore | MAP/map_reference_test.go:45-57 | Returns the binding if there is one, else binds and returns the given value |
| MapReference.RWMutexMap.Delete | MAP/map_reference_test.go:59-63 | Removes the key and nothing else |
| MapReference.RWMutexMap.Range | MAP/map_reference_test.go:65-73 | Calls `f` on every binding once until it answers false |
| MapReference.DeepCopyMap.Load | MAP/map_reference_test.go:83-87 | Answers as the abstract map |
| MapReference.DeepCopyMap.Dirty | MAP/map_reference_test.go:135-142 | The copy, made binding by binding, equals the published map |
| MapReference.DeepCopyMap.Store | MAP/map_reference_test.go:89-95 | Publishes a copy in which the key is bound and nothing else differs |
| MapReference.DeepCopyMap.LoadOrStore | MAP/map_reference_test.go:97-116 | Atomic at its first look if that finds the key, else at the second, under the lock, whatever other goroutines published in between: returns the binding of that moment if there is one, else publishes a copy with the given one |
| MapReference.DeepCopyMap.Delete | MAP/map_reference_test.go:118-124 | Publishes a copy without the key |
| MapReference.DeepCopyMap.Range | MAP/map_reference_test.go:126-133 | Calls `f` on every binding once until it answers false |
| MapReference.Iterate | MAP/map_reference_test.go:68-72 | Visits distinct bindings; all of them unless `f` stopped it, and then `f` refused exactly the last |
| SyncMap.Map.Load | MAP/map.go:94-117 | Used by one goroutine: the abstract map's answer, and the abstract map unchanged even when the miss promotes dirty |
| SyncMap.Map.Store | MAP/map.go:128-155 | Binds the key in the abstract map and keeps the structure, on the fast path, through an expunged entry, through dirty, and for a new key |
| SyncMap.Map.LoadOrStore | MAP/map.go:195-229 | Result and new abstract map are those of the locked map, on all four paths |
| SyncMap.Map.Delete | MAP/map.go:263-278 | Removes the key from the abstract map whether its entry is in read or only in dirty |
| SyncMap.Map.Range | MAP/map.go:302-333 | Enumerates the abstract map until `f` answers false, after promoting an amended map without changing its meaning |
| SyncMap.Map.MissLocked | MAP/map.go:335-343 | Counts, and promotes exactly when the count reaches the size of dirty; the abstract map stays |
| SyncMap.Map.DirtyLocked | MAP/map.go:345-357 | Builds a dirty map with the structure's invariant, expunging nil entries, without changing the abstract map; an existing dirty map is left alone |
| SyncMap.Map.Unexpunge | MAP/map.go:135-140 | Afterwards the entry is not expunged and is found for its key; the abstract map stays |
| SyncMap.Map.AddNew | MAP/map.go:143-152 | Adds a key that is in neither map, making dirty first if needed |
| SyncMap.SetKeeps | MAP/map.go:57-81 | A pointer change that neither makes nor ends expungement keeps the structure and changes the abstract map at one key |
| SyncMap.UnexpungeKeeps | MAP/map.go:135-140 | Putting an expunged entry into dirty with a nil pointer keeps the structure and the abstract map |
| SyncMap.PromoteKeeps | MAP/map.go:335-343 | The dirty map alone means what read and dirty meant together |
| SyncMap.CopyKeeps | MAP/map.go:345-357 | A copy that leaves out the nil entries and expunges them means the same |
| SyncMap.Entry.TryStore | MAP/map.go:161-175 | Fails exactly on an expunged entry, and else stores |
| SyncMap.Entry.TryLoadOrStore | MAP/map.go:235-260 | Fails exactly on an expunged entry; else loads a value or stores into nil |
| SyncMap.Entry.Delete | MAP/map.go:280-290 | Makes a value nil and leaves nil and expunged alone |
| SyncMap.Entry.TryExpungeLocked | MAP/map.go:359-368 | Nil becomes expunged; reports whether the entry now is |
| JsonScanner.Scanner.Step | status/json_private/scanner.go:195-582 | The state object does what the transition function says, and after an undo gives back the stored code and state |
| JsonScanner.Scanner.StateEndValue | status/json_private/scanner.go:273-317 | The separator or bracket that the top of the stack asks for, else an error; at the top level the end |
| JsonScanner.Scanner.PopParseState | status/json_private/scanner.go:179-189 | Pops one level, and ends the top-level value when none is left |
| JsonScanner.Scanner.Eof | status/json_private/scanner.go:155-170 | The code and state at the end of the input, by probing with a space; with an undo pending the undo answers the probe, which makes the end an error unless the top-level value is already over |
| JsonScanner.Scanner.Undo | status/json_private/scanner.go:608-617 | Sets the state aside; its precondition is that no undo is pending, so a caller that is proved never meets the panic |
| JsonScanner.Scanner.Reset | status/json_private/scanner.go:145-151 | The fresh state |
| JsonScanner.ErrorIsFinal | status/json_private/scanner.go:580-589 | No input leaves the error state |
| JsonScanner.CheckValid | status/json_private/scanner.go:20-32 | Accepts exactly the data that the transition function takes to its end |
| JsonParse.ValidIffText | status/json_private/scanner.go:20-32 | checkValid accepts data iff it is a JSON text of RFC 7159 sections 2 to 7, for any nesting: white space, one value, white space |
| JsonParse.RunFollows | status/json_private/scanner.go:195-582 | Whatever has been scanned without an error is spelled by a partial derivation of the grammar that matches the scanner's state and stack |
| JsonParse.EofEnded | status/json_private/scanner.go:155-170 | The scanner is content at the end of the input exactly after a whole top-level value |
| JsonParse.TextRuns | status/json_private/scanner.go:195-582 | Every text of the grammar is scanned to a finished top-level value |
| JsonGrammar.ValPlays | status/json_private/scanner.go:195-582 | Scanning a value gives each of its bytes the code that its place in the tree determines, under any stack |
| JsonUnique.Unambiguous | status/json_private/scanner.go:195-582 | A text has one parse: white space and tree are determined by the bytes |
| JsonLexemes.NumberIff | status/json_private/scanner.go:400-486 | The number states accept exactly the numbers of section 6 |
| JsonLexemes.ScalarIff | status/json_private/scanner.go:331-578 | The lexical states accept exactly the strings, numbers and names of the grammar, strings byte by byte |
| JsonLexemes.StringRuns | status/json_private/scanner.go:331-397 | The string states accept every string of section 7 |
| JsonNumber.IsValidNumber | status/json_private/decode.go:190-247 | True exactly for the numbers of section 6, so it agrees with the scanner's number states |
| Alphabet.Letters | status/json_private/scanner.go:191-193 | White space is space, tab, line feed and carriage return; an exponent begins with e or E; the short escapes are those of section 7 of RFC 7159 |
| Alphabet.Digits | status/json_private/scanner.go:375-397 | Decimal digits are 0 to 9, hexadecimal ones also a to f and A to F |
| Utf8.DecodeEncoded | status/json_private/decode.go:1159-1209 | Decoding an encoded rune gives it back, whatever follows (RFC 3629 section 4) |
| Utf8.EncodeDecoded | status/json_private/decode.go:1203-1206 | Encoding the rune of a well-formed character gives its bytes back |
| Alphabet.EncodingOrder | status/json_private/decode.go:1203-1206 | The encodings are in the order of the runes (RFC 3629 section 1) |
| Alphabet.EncodingExamples | status/json_private/decode.go:1203-1206 | The encodings of the characters in the examples of RFC 3629 section 7 |
| Utf8.CoerceWellFormed | status/json_private/decode.go:1203-1206 | Replacing each ill-formed byte by U+FFFD gives well-formed UTF-8 |
| JsonQuoting.Buffer.String | status/json_private/encode.go:847-922 | Appends the escaped literal of the whole string, though it copies in stretches, and returns its length |
| JsonQuoting.Buffer.StringBytes | status/json_private/encode.go:925-1000 | For the bytes of a slice, appends the same literal as for the string with these bytes, and returns the same length |
| JsonStrings.QuoteIsString | status/json_private/encode.go:847-922 | For every byte string and both HTML settings the literal is a string of the grammar |
| JsonStrings.UnquoteQuote | status/json_private/encode.go:847-922 | Unquoting the literal gives the string with each ill-formed byte replaced by U+FFFD, for both HTML settings |
| JsonStrings.QuoteRoundTrip | status/json_private/encode.go:847-922 | A well-formed string comes back unchanged |
| JsonLiterals.QuoteWrites | status/json_private/encode.go:847-922 | The literal byte by byte: the short escapes \", \\, \n, \r and \t, \u00XX for other controls, \u003c, \u003e and \u0026 with escapeHTML only, \ufffd, \u2028 and \u2029, and everything else as it is |
| JsonLiterals.QuoteClean | status/json_private/encode.go:847-922 | No literal has U+2028 or U+2029 raw, and with escapeHTML none has <, > or & |
| JsonQuoting.UnquoteBytes | status/json_private/decode.go:1097-1209 | The fast path, the growing buffer and the loop give exactly the escape-by-escape result, and fail exactly when it does; every write is inside the buffer |
| JsonQuoting.PlainPrefix | status/json_private/decode.go:1103-1122 | The bytes that the first loop passes stand for themselves |
| JsonQuoting.UnquoteU4At | status/json_private/decode.go:1170-1190 | An escape \u, alone, as a surrogate pair, or as a lone surrogate |
| JsonStrings.UnquoteIff | status/json_private/decode.go:1097-1209 | Succeeds exactly on quoted bodies of grammar chars and the extra escape \', so on every string of the grammar |
| JsonStrings.UnquoteWellFormed | status/json_private/decode.go:1097-1209 | What comes out is always well-formed UTF-8 |
| JsonUtf16.UnquoteMeans | status/json_private/decode.go:1170-1190 | Unquoting is reading the literal as UTF-16 code units, each of the eight letters of section 7 of RFC 7159 and \uXXXX with digits of either case given by its number, and decoding them by section 2.2 of RFC 2781, unpaired units replaced |
| JsonStrings.GetU4Inverts | status/json_private/decode.go:1078-1087 | The four digits written for a code unit are read back as it |
| JsonDecoder.Unmarshal | status/json_private/decode.go:86-97 | A value for exactly the data that checkValid accepts, and it is the denotation of the data's parse |
| JsonDecoder.DecodeValid | status/json_private/decode.go:951-964 | On valid data the decoder ends, raises neither the phase error nor the undo panic, and returns the denotation |
| JsonDecoder.DecodeState.ValueInterface | status/json_private/decode.go:951-964 | Consumes white space and one value, returns what it denotes, and leaves the scanner where the grammar has it |
| JsonDecoder.DecodeState.ArrayInterface | status/json_private/decode.go:966-991 | The elements' values in order, with one byte read again before each element |
| JsonDecoder.DecodeState.ObjectInterface | status/json_private/decode.go:994-1037 | The members' values under their unquoted keys, a later key replacing an earlier one |
| JsonDecoder.DecodeState.LiteralInterface | status/json_private/decode.go:1040-1074 | The value of a string, number or name, after backing up the byte that ended it |
| JsonDecoder.DecodeState.ScanWhile | status/json_private/decode.go:309-325 | Passes the bytes that get the code `op` and one more, also at the end of the data and after an undo |
| JsonDecoder.LiteralDenotes | status/json_private/decode.go:1049-1073 | The first byte of a literal tells whether it is null, a boolean, a string that unquotes, or a number |
| JsonMeaning.LastWins | status/json_private/decode.go:1018-1036 | The last member with a key decides the entry |
| JsonMeaning.OnlyKeys | status/json_private/decode.go:1018-1036 | Every entry comes from the last member with its key |
| Alphabet.ScalarDenotes | status/json_private/decode.go:1049-1073 | null, true and false denote themselves and are denoted by nothing else, what begins with a quote is a string, and any other scalar is the number of its text |
| JsonNextValue.NextValue | status/json_private/scanner.go:37-61 | On success value ++ rest == data and checkValid accepts value; it fails exactly when no first value is found |
| JsonNextValue.FirstIff | status/json_private/scanner.go:37-61 | The length found is n iff data[..n] is white space and one value that the next byte does not go on with, or that the end of the stream ends |
| JsonNextValue.WalkTurn | status/json_private/scanner.go:39-56 | The probe with a space ends a bracketed value at once and is harmless otherwise |
| JsonStream.Decoder.ReadValue | status/json_private/stream.go:83-132 | However the reader cuts the stream, the result is the length that the unread stream as a whole determines, or its error; nothing unread is lost |
| JsonStream.Decoder.ScanBuffer | status/json_private/stream.go:91-111 | The scan of what is buffered so far ends with a value, an error, or the walk at the end of the buffer |
| JsonStream.Decoder.Refill | status/json_private/stream.go:134-156 | Slides and grows the buffer and appends what is read; the unread stream stays the same |
| JsonStream.Decoder.Peek | status/json_private/stream.go:482-499 | The first byte that is not white space, or the reader's last error after white space alone |
| JsonStream.Decoder.Decode | status/json_private/stream.go:43-73 | Result, unread stream, sticky error and token state are functions of those before, whatever the pieces |
| JsonStream.Decoder.TokenPrepareForDecode | status/json_private/stream.go:290-317 | Passes the comma or colon that is due, else a syntax error |
| JsonStream.Decoder.Token | status/json_private/stream.go:354-448 | The next token and stream are those of the token machine; the tokens returned so far nest, and the state knows the open brackets |
| JsonStream.Decoder.More | status/json_private/stream.go:477-480 | True iff something other than a closing bracket comes next |
| JsonStream.Decoder.Close | status/json_private/stream.go:369-376 | A closing bracket is taken only where it matches; the stack then is not empty |
| JsonTokens.TokenNests | status/json_private/stream.go:354-448 | A returned delimiter opens a level or closes the innermost open bracket of its kind; an error leaves the open brackets as they were |
| JsonTokens.DecodeNests | status/json_private/stream.go:43-73 | Decode leaves the open brackets as they were |
| JsonTokens.CallsOfText | status/json_private/stream.go:290-448 | On a text any mix of calls of Token and Decode, with Decode called where a value comes next, returns the values and delimiters in order, a Decode standing for the flattening of one whole value and returning what it denotes, and then the end of the stream |
| JsonTokens.TokensOfText | status/json_private/stream.go:341-353 | On a text the calls of Token alone return its values and delimiters in order, keys as strings, commas and colons left out, and then the end of the stream |
| JsonTokens.ValueOfText | status/json_private/stream.go:43-73 | The value of a text is the denotation of its parse |
| JsonTokenTexts.CallsAreTexts | status/json_private/stream.go:290-448 | From the start of any stream, however it ends: calls of Token and Decode in any mix return without an error and come back to the top level iff what they have consumed is a sequence of values, each the first of what was left, and then they return the flattenings in order; so a missing, doubled or trailing comma or colon, a bracket that does not match and a key that is no string are refused |
| JsonViable.ErrorIffHopeless | status/json_private/scanner.go:195-589 | The scanner reports an error at the first byte after which no continuation is a JSON text, and no earlier |
| JsonViable.ReadOutcome | status/json_private/stream.go:83-132 | Reading a value: a length iff the unread bytes begin with a value of that length, a syntax error iff no continuation of them begins with a value, otherwise the reader's failure, or at the end of the stream Eof iff there was only white space |
| JsonViable.TokenSyntaxIff | status/json_private/stream.go:354-448 | Token reports a syntax error iff, whatever bytes came next, it would return no token |
| JsonViable.DecodeSyntaxIff | status/json_private/stream.go:43-73 | Decode reports a syntax error iff, whatever bytes came next, it would return no value |
| JsonViable.TokenFailsAgain | status/json_private/stream.go:354-448 | A Token that has failed fails in the same way when it is called again |
| JsonViable.DecodeFailsAgain | status/json_private/stream.go:43-73 | A Decode that has failed fails in the same way when it is called again |
| JsonViable.BlankToken | status/json_private/stream.go:354-358 | Where only white space is left Token returns the reader's error and leaves the stream as it is |
| JsonViable.MoreMeans | status/json_private/stream.go:477-480 | Where Token returns a token, More is true iff that token is no closing bracket |
| JsonCompact.Compact | status/json_private/indent.go:15-58 | Appends the significant bytes with the escapes applied, exactly for valid data; otherwise dst is as before |
| JsonTrace.SignificantText | status/json_private/indent.go:38-49 | The bytes that are not dropped spell the tree without white space |
| JsonSqueeze.CompactMeaning | status/json_private/indent.go:15-58 | In both modes the output of valid data is a text without white space that denotes the same value |
| JsonSqueeze.CompactTwice | status/json_private/indent.go:15-58 | Compacting twice is compacting once in the stronger mode, so it is idempotent |
| JsonSqueeze.CompactThenEscape | status/json_private/encode.go:172-199 | compact with escape is HTMLEscape of Compact |
| JsonSqueeze.EscapeString | status/json_private/encode.go:172-199 | An escaped string literal is a string literal of the same meaning |
| JsonEscape.HTMLEscape | status/json_private/encode.go:172-199 | Appends the input with each HTML character and line separator replaced by its escape |
| JsonEscape.EscapeTwice | status/json_private/encode.go:172-199 | Escaping again changes only what the first pass left |
| JsonLiterals.EscapeRewrites | status/json_private/encode.go:172-199 | Byte by byte: <, > and & become \u003c, \u003e and \u0026, E2 80 A8 and E2 80 A9 become \u2028 and \u2029, and nothing else changes |
| JsonLiterals.EscapeClean | status/json_private/encode.go:172-199 | What is left has none of these characters |
| JsonIndent.Indent | status/json_private/indent.go:79-141 | Appends the layout of valid data; otherwise dst is as before |
| JsonIndent.Newline | status/json_private/indent.go:60-66 | A line break, the prefix, and the indent once per level |
| Alphabet.LineBreaks | status/json_private/indent.go:60-66 | A line break is a line feed and the prefix; each level more adds one indent at its end |
| JsonIndent.DepthIsNesting | status/json_private/indent.go:83-132 | Before any error, depth plus one for a pending indentation is the length of the scanner's stack after every byte, so depth is never negative |
| JsonPretty.IndentText | status/json_private/indent.go:68-141 | The output is the tree laid out one part a line, empty arrays and objects closed up, then the white space that ended the input |
| JsonPretty.IndentMeaning | status/json_private/indent.go:68-141 | With prefix and indent of white space the output is a text of the same denotation, indents to itself, and compacts to what the input compacts to |
| JsonEncoder.Marshal | status/json_private/encode.go:143-150 | The text of the tree for exactly the values whose Numbers are valid literals, else an error |
| JsonEncoder.EncodeDict | status/json_private/encode.go:622-649 | Members in the order of the sorted keys, each key with the type appended |
| JsonEncoder.EncodeList | status/json_private/encode.go:716-726 | Elements in order between brackets |
| JsonEncoder.EncodeNumber | status/json_private/encode.go:543-556 | The literal, 0 for the empty one, and an error for anything that is no number |
| JsonEncoder.SortedKeys | status/json_private/encode.go:629-637 | The one list of the keys that ascends byte by byte |
| JsonEncoder.ListsOne | status/json_private/encode.go:840-844 | Keys can be listed in ascending order in one way only |
| JsonRoundTrip.MarshalValid | status/json_private/encode.go:143-150 | The output is a JSON text, accepted by checkValid |
| JsonRoundTrip.RoundTrip | status/json_private/encode.go:622-649 | Decoding the output gives the tree with every key renamed and nothing else changed; where keys are renamed alike, the one that is last in byte order keeps its value |
| JsonRoundTrip.KeysReadBack | status/json_private/encode.go:642-646 | The keys read back are always exactly the renamed ones |
| JsonRoundTrip.NoneMergedIff | status/json_private/encode.go:622-649 | An object that is encoded and decoded has as many entries as before iff no two of its keys become equal when each ill-formed byte is replaced by U+FFFD, and never more |
| JsonRoundTrip.NothingLostIff | status/json_private/encode.go:622-649 | In the whole decoded tree every element and every entry has its own iff no object anywhere in it has two such keys |
| JsonRoundTrip.LostEntry | status/json_private/encode.go:642-646 | Of an object with the keys FE and FF, or with U+FFFD and FF, of which the first is well-formed, only the value under FF is read back |
| JsonRoundTrip.WellFormedKeys | status/json_private/encode.go:642-646 | Keys of well-formed UTF-8 are renamed by the suffix alone, and no two of them become equal |
| JsonMarshal.MarshalCompact | status/json_private/encode.go:143-150 | The output of Marshal is compact and escaped already: compacting it in the same mode changes nothing, and it has no character that the mode forbids |
| JsonMarshal.LessMeans | status/json_private/encode.go:840-844 | A key comes before another iff at the first byte where they differ it has the smaller one, or the other extends it |
| JsonLiterals.SuffixSpells | status/json_private/encode.go:642-646 | The type appended to a key is spelled (string) |
| NameMatch.FillMatrix | nameUtil_bak/nameUtil.go:20-34 | Indexing the lowered strings as the loops do runs past an end iff one of them is shorter than its original; else cell i*(n+1)+j holds the distance of the first i bytes from the first j |
| NameMatch.NewMatrix | nameUtil_bak/nameUtil.go:47-59 | The first row and column count up |
| NameMatch.NameMatch | nameUtil_bak/nameUtil.go:9-44 | False for an empty string; the panic exactly when lowering shortens a string and neither is empty; else true iff some script of single-byte edits, no longer than (1 - standard) times the greater length, leads from one lowered string, cut to the original length, to the other |
| NameMatch.EqualMatches | nameUtil_bak/nameUtil.go:36-42 | A string that lowering does not shorten matches itself for every standard up to 1 |
| NameMatch.KelvinPanics | nameUtil_bak/nameUtil.go:17-25 | The Kelvin sign, three bytes that are lowered to one, panics with every other string that is not empty |
| NameMatch.NameMatchSymmetric | nameUtil_bak/nameUtil.go:9-44 | The two strings can be exchanged |
| NameMatch.ShareBounds | nameUtil_bak/nameUtil.go:36-37 | The share compared with the standard is between 0 and 1 |
| EditDistance.DistanceIsLeast | nameUtil_bak/nameUtil.go:22-34 | The recurrence gives the least number of single-byte insertions, deletions and substitutions, at any positions, over all scripts |
| EditDistance.DistanceBounds | nameUtil_bak/nameUtil.go:36-36 | Between the difference of the lengths and the greater of them |
| EditDistance.DistanceSymmetric | nameUtil_bak/nameUtil.go:22-34 | The distance is symmetric |
| Fold.FoldFunc | status/json_private/fold.go:33-55 | bytes.EqualFold exactly for keys beyond ASCII; each fast form only where its comment allows it |
| Fold.EqualFoldRight | status/json_private/fold.go:61-103 | For an ASCII key, rune-wise equality up to case, with U+212A for k and U+017F for s |
| Fold.AsciiEqualFold | status/json_private/fold.go:109-128 | For an ASCII key without k and s, rune-wise equality up to case |
| Fold.SimpleLetterEqualFold | status/json_private/fold.go:133-143 | For a key of ASCII letters without k and s, rune-wise equality up to case |
| Fold.Compare | status/json_private/fold.go:16-55 | For every ASCII key the comparator that is picked decides rune-wise equality up to case; any other key is given to bytes.EqualFold |
| Fold.PlainFold | status/json_private/fold.go:109-143 | Without special letters the comparison rune by rune is one byte by byte |
| Alphabet.Folds | status/json_private/fold.go:16-32 | Up to case an ASCII character equals itself, the other case of a letter, and besides K the Kelvin sign and S the long s, and nothing else |

## Left out

- Memory model: atomic operations are sequentially consistent, and the locks are taken to work; only safety is proved, not fairness or progress of the compare-and-swap loops under contention.
- SyncMap: with one goroutine a second look at the read map finds what the first one found and a compare-and-swap succeeds at once, so the second loads and the retry loops are not repeated there; `MapProtocol` has them.
- MapReference: a call that holds the lock throughout is one step; only DeepCopyMap.LoadOrStore, which looks before it locks, is told what others published in between.
- MapLinearization.Linearization: Range is no part of the list, since it is not atomic; `RangeFaithful` says what it promises.
- JsonScanner.Scanner.Step: the ten states inside true, false and null are one state that carries the rest of the name, and the four states inside \u one state that counts digits.
- Fold.Compare: bytes.EqualFold is a parameter; what it answers for keys beyond ASCII is not modelled.
- NameMatch.NameMatch: strings.ToLower is a parameter, and the percentage is a real number, so rounding of float64 and the log line are not modelled.
- JsonEncoder.SortedKeys: the order that sort.Sort establishes is modelled, not its algorithm.
- JsonStream.Reader.Read: a reader that returns no bytes and no error, or whose error goes away, is not modelled.
- JsonMeaning.Denote: numbers are kept as literals, as with UseNumber; parsing and printing of floats is left out.
- Error texts and byte offsets in errors are left out; errors are told apart by kind only.
- Reflection in the encoder and decoder (struct targets, typed literals, Marshaler hooks, the encoder cache, typeFields) is left out: values are trees of null, booleans, numbers, strings, lists and maps with string keys.
- decodeState.next and RawMessage: used by reflection only.
- Encoder.Encode: it is Marshal, a line break and Indent, and adds nothing to them.
- Base64, block ciphers, character sets, HTTP, databases, Kafka, logging and status reporting are left out: foreign code or plumbing.
