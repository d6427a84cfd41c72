# rpiweatherd in Dafny

This project models the parts of the rpiweatherd weather daemon that carry its logic and proves what they promise:

- the JSON library it embeds (`Utf8`, `JsonString`, `JsonNumber`, `JsonValue`, `JsonSerializer`, `JsonParser`, `JsonRoundTrip`, `JsonParsed`, `JsonGrammar`, `JsonAccepted`, `JsonLayout`, `JsonPath`, `JsonObject`, `JsonMap`, `JsonEquality`, `JsonComments`),
- the JSON replies built with it (`Replies`, `ReplyText`),
- the threads and queues that serve a request (`DbHandler`, `Protocol`, `ProtocolSafety`, `ProtocolLiveness`, `ProtocolDraining`, `ProtocolAnswers`, `ProtocolRequests`, `ProtocolOrder`, `EndToEnd`),
- the INI scanner and the configuration file (`Ini`, `IniReader`, `IniLines`, `Config`, `ConfigHandler`, `ConfigRoundTrip`, `ConfigLines`),
- the request parser (`Http`, `HttpLine`, `HttpParser`).

`Bytes` and `CString` hold bytes, C strings and C strings inside buffers. `dafny verify dfyconfig.toml` checks everything.

How the model is set up:

- A `char` is a byte, and a C string is the sequence of bytes before its NUL. Code that advances a cursor or writes a buffer is a method on a position or an array, proved against a function on the remaining text; the laws are lemmas about that function.
- JSON numbers are exact reals. The printer writes 32-bit integers with `%d` and `%u` and everything else with six decimals; the scanner reads digits, a fraction and an exponent, and recognises hexadecimal notation, which is then refused.
- An object is the association list of the source with its capacity; `JsonObject.ObjectStore` is the mutable object with two arrays as long as its capacity.
- The protocol is a step relation. A step is one receive, one send, one close, or the work between them; senders block while a queue is full. The history of messages sent to the database, and of the times of insertion, is kept beside the state, to say what an answer has to reflect.
- Dates, sensor readings, the row clock and what a client asks for are parameters of the steps.

Results that a reader of the source may not expect:

- A worker that answers `current` or `config` sends to the queue it also reads from. All threads are stuck exactly in the states of `ProtocolLiveness.Deadlock`. These need 512 open connections besides one per worker (`DeadlockNeedsLoad`), and that many suffice from every initial state (`DeadlockIsReachable`). Below that number every request is finished once accepting stops, although the sampler goes on (`ProtocolDraining.EveryRequestFinishes`).
- An object holds at most 960 members, while a fetch may return 2048 rows. The reported length is the number of results exactly up to 960 rows (`Replies.LengthIsHonest`).
- JSON text restores a value exactly when its numbers are whole millionths and it is nested at most 19 deep (`JsonRoundTrip.RoundTrip`).
- Value equality is tolerant on numbers and therefore not transitive (`JsonEquality.NotTransitive`); numbers are all that can fail (`JsonEquality.TransitiveExactly`).
- The parser refuses texts that RFC 8259 allows: a lone zero with an exponent such as `0e1`, a surrogate without its partner, and repeated names (`JsonGrammar.SyntaxMeans`). Beyond RFC 8259 it accepts exactly vertical tabs and form feeds as white space, numerals such as `1.` and `-.5`, text behind the value, and a minus that starts no number (`JsonAccepted.TextAccepted`).
- A malformed request is answered unless its worker met an end of file at any time before: the flag for that is never reset (`ProtocolRequests.SawEofExactly`, `ProtocolRequests.EveryRequestIsAnswered`).
- A comment line in a configuration file changes nothing, with one exception: put in front of a byte order mark it makes the next line an error (`ConfigLines.CommentInserted`, `ConfigLines.CommentBeforeMark`).
- A query with a stray, doubled or trailing ampersand loses its last parameter, and is refused when that was the only one: `realloc` to size zero is taken to return NULL, as glibc does (`Http.ParamsKept`).
- The codes that the configuration handler returns for numbers out of range are not zero, so the scanner takes them for success; `errno` is never reset, so later numbers are not counted either (`ConfigHandler.FirstErrorExactly`, `ConfigHandler.CountExactly`, `ConfigRoundTrip.OverflowIsNotReported`). The model follows the code.
- A configuration is restored from its file exactly when its strings satisfy `ConfigRoundTrip.Restorable`.

## Model

| member | source | states |
|---|---|---|
| Utf8.VerifyAgreesWithGrammar | deps/parson.c:149-204 | the validator accepts a first character exactly when it is a UTF8-char of section 4 of RFC 3629, with the same length |
| Utf8.IsValidUtf8 | deps/parson.c:206-216 | the loop accepts exactly the UTF8-octets of section 4 of RFC 3629 |
| Utf8.DecodeAll | deps/parson.c:149-216 | every accepted string is the encoding, as section 3 of RFC 3629 defines it, of some sequence of scalar values |
| Utf8.EncodeAllIsValid | deps/parson.c:149-216 | conversely every such encoding is accepted |
| Utf8.CutAtNulIsValid | deps/parson.c:524-573 | a valid string stays valid when a NUL inside it cuts it |
| JsonString.SkipQuotes | deps/parson.c:461-479 | succeeds exactly when there is a closing quote, stops just past it and never passes the terminator |
| JsonString.ParseUtf16 | deps/parson.c:481-519 | decodes a \u escape or a surrogate pair and reads no byte behind the closing quote |
| JsonString.InStep | deps/parson.c:461-573 | each step of the unescaper consumes bytes that the quote scanner also passes over, so both end at the same quote |
| JsonString.SwitchStep | deps/parson.c:529-566 | the step of the switch, read byte by byte, is the specified one |
| JsonString.ReadStep | deps/parson.c:528-568 | every step stays inside the literal and inside a buffer as long as the literal |
| JsonString.ProcessString | deps/parson.c:524-573 | the result is the unescaping of exactly the bytes between the quotes; a buffer of their number plus one suffices |
| JsonString.GetQuotedString | deps/parson.c:577-586 | the decoded C string and the cursor behind its closing quote, or failure |
| JsonString.UnescapeEncoded | deps/parson.c:481-573 | on the UTF-8 of any characters the unescaper gives the UTF-8 of what section 7 of RFC 8259 says they stand for, and fails exactly when they stand for nothing |
| JsonString.DecodedIsValid | deps/parson.c:481-573 | valid UTF-8 between the quotes decodes to valid UTF-8 |
| JsonString.UnescapeEscape | deps/parson.c:900-959 | the unescaper undoes the escaper on every byte string |
| JsonString.QuoteEndEscape | deps/parson.c:900-959 | the closing quote of a printed string is the first one that the scanner stops at |
| JsonString.QuotedStringText | deps/parson.c:900-959 | reading a printed string gives the string and stops behind its closing quote, whatever follows |
| JsonNumber.CheckDecimal | deps/parson.c:218-230 | the loop refuses exactly superfluous leading zeros and hexadecimal markers |
| JsonNumber.ScanNumberText | deps/parson.c:731-742 | the scanner reads a printed number to its end and gives the number as printed, which JsonNumber.PrintedIsNearest says is the nearest |
| JsonNumber.PrintedExactly | deps/parson.c:870-889 | a printed number is the number itself exactly when it is a whole number of millionths |
| JsonNumber.PrintedIsNearest | deps/parson.c:870-889 | every number is printed as the nearest whole number of millionths, in a tie the one with an even last digit |
| JsonNumber.PointExactly | deps/parson.c:870-889 | there is a decimal point exactly when the number is no 32-bit integer, signed or unsigned |
| JsonNumber.SixDecimals | deps/parson.c:880 | and then exactly six digits follow it |
| JsonNumber.NumberFitsScratch | deps/parson.c:870-889 | every number below 10^309, and so every double, is printed within the scratch buffer of 1100 bytes |
| JsonValue.FindFirst | deps/parson.c:373-385 | lookup gives the first member of that name, and nothing exactly when there is none |
| JsonValue.AddLookup | deps/parson.c:313-338 | after adding, the new name has the new value and all others read as before |
| JsonValue.SetLookup | deps/parson.c:1617-1635 | after setting, the name has the value and all others read as before |
| JsonValue.RemoveLookup | deps/parson.c:1733-1752 | after removing, the name is gone and all others read as before, although the last member moved |
| JsonValue.AppendUntilFull | deps/parson.c:409-440 | an array that was never trimmed accepts values exactly up to 122880 |
| JsonValue.AddUntilFull | deps/parson.c:313-371 | an object that was never trimmed accepts new names exactly up to 960 |
| JsonSerializer.AppendString | deps/parson.c:970-975 | stores the string with a NUL and nothing else, or only counts it without a buffer |
| JsonSerializer.SerializeString | deps/parson.c:900-959 | counts, and with a buffer stores, exactly the quoted and escaped string, and ends it with a NUL |
| JsonSerializer.SerializeArray | deps/parson.c:775-806 | the same for the text of an array |
| JsonSerializer.SerializeObject | deps/parson.c:807-851 | the same for the text of an object |
| JsonSerializer.SerializeR | deps/parson.c:764-898 | with or without a buffer the same count; with one, exactly the text is stored, a NUL follows, and no byte behind it changes |
| JsonSerializer.SerializationSize | deps/parson.c:1350-1354 | the measuring pass gives the length of the text plus one |
| JsonSerializer.SerializeToBuffer | deps/parson.c:1356-1367 | succeeds exactly when text and NUL fit; otherwise the buffer is untouched |
| JsonSerializer.SerializeToString | deps/parson.c:1391-1408 | the allocated buffer holds exactly the text and its NUL |
| JsonParser.SkipWhitespaces | deps/parson.c:45 | the cursor moves over white space only and stops at the terminator |
| JsonParser.ParseScalar | deps/parson.c:704-751 | strings, booleans, numbers with exponents and null as specified on the remaining text; hexadecimal notation is refused |
| JsonParser.ParseValue | deps/parson.c:588-611 | on every C string parsing terminates, the cursor goes neither back nor past the NUL, nesting is bounded, and the result is the specified one |
| JsonParser.ParseItem | deps/parson.c:676-701 | one turn of the array loop; a further turn starts strictly later even if the element consumed nothing |
| JsonParser.ParseArray | deps/parson.c:664-702 | the array loop gives the specified result |
| JsonParser.ParseKey | deps/parson.c:627-633 | a key, white space and a colon, with the cursor behind them |
| JsonParser.ParseMember | deps/parson.c:626-661 | one turn of the object loop; repeated keys and full objects fail |
| JsonParser.ParseObject | deps/parson.c:613-662 | the object loop gives the specified result |
| JsonRoundTrip.ValueBack | deps/parson.c:588-751 | anywhere in a text, compact or pretty, a printed value parses to the value with members in order, numbers as printed and storage trimmed, the cursor at its end; it fails exactly when nested too deeply |
| JsonRoundTrip.ReparsedIsSame | deps/parson.c:870-889 | the parsed tree is the printed one exactly when all numbers are whole millionths |
| JsonRoundTrip.RoundTrip | deps/parson.c:764-959 | printing and parsing is the identity exactly for values nested at most 19 deep with numbers of whole millionths |
| JsonParsed.ParsedIsAdmissible | deps/parson.c:588-702 | on every input the result has distinct names, storage within the caps, C strings, trimmed storage and bounded nesting |
| JsonParsed.ParsePrintParse | deps/parson.c:1003-1008 | what was parsed, with numbers of whole millionths, prints to a text that parses to the same value |
| JsonGrammar.UnescapePieces | deps/parson.c:481-573 | characters and escapes of section 7 of RFC 8259 decode to the UTF-8 of what they stand for, or fail exactly for a surrogate without its partner |
| JsonGrammar.StringMeans | deps/parson.c:577-586 | every string literal of the grammar is read as the C string it stands for, and the cursor stops behind it |
| JsonGrammar.NumeralMeans | deps/parson.c:731-742 | every number of section 6 of RFC 8259, with fraction and exponent, is scanned to its end with its value, and so is one without digits behind its point, or before it behind a minus |
| JsonGrammar.NumeralIsDecimal | deps/parson.c:218-230 | it is refused exactly when it is a lone zero with an exponent |
| JsonGrammar.ElementsMean | deps/parson.c:664-702 | the elements of an array, with any white space, give the array denoted, or fail for a stated reason |
| JsonGrammar.PairsMean | deps/parson.c:613-662 | the members of an object, with any white space, give the object denoted, or fail for a stated reason |
| JsonGrammar.SyntaxMeans | deps/parson.c:588-751 | every value of the grammar of RFC 8259 with these numbers, anywhere in a text: the parser finds exactly the value it denotes and stops behind it; it refuses exactly lone surrogates, zeros with an exponent, repeated names, containers over their caps and nesting beyond 19 |
| JsonGrammar.EveryTextMeans | deps/parson.c:1003-1008 | the same for every JSON text of section 2 of RFC 8259 |
| JsonAccepted.StringAccepted | deps/parson.c:461-586 | conversely, every string that is accepted is a literal of the grammar without a lone surrogate, and the result is what it stands for |
| JsonAccepted.NumberAccepted | deps/parson.c:731-742 | every number that is accepted and consumes anything is a numeral of the grammar, or one with digits missing on one side of its point, and the result is its value |
| JsonAccepted.LoneMinus | deps/parson.c:731-742 | the only value that consumes nothing is a minus that starts no number, read as zero |
| JsonAccepted.ItemsShape | deps/parson.c:664-702 | what the array loop accepts are elements between commas, closed by a bracket |
| JsonAccepted.MembersShape | deps/parson.c:613-662 | what the object loop accepts are names, colons and values between commas, closed by a brace |
| JsonAccepted.ValueAccepted | deps/parson.c:588-751 | whatever is accepted at any depth is a value of the grammar behind white space, allowed there, denoting exactly the result, and ending where the parser stopped |
| JsonAccepted.TextAccepted | deps/parson.c:1003-1008 | a text is accepted with a value only if it spells that value, or is a lone minus |
| JsonAccepted.PrintedIsJson | deps/parson.c:764-959 | every printed value that is not nested too deeply is a text of the grammar with nothing around it |
| JsonAccepted.ShortestEscape | deps/parson.c:900-959 | every byte is printed in the shortest way that the grammar has for it, except that a slash is escaped |
| JsonLayout.TextSqueezed | deps/parson.c:775-851 | without its white space outside of strings, text of either form is the compact text, so that compact text has none |
| JsonLayout.TextLaid | deps/parson.c:961-968 | pretty text is the compact text with a line break behind each bracket and comma and before each closing bracket, four blanks for every open bracket and a space behind each colon; empty brackets stay together |
| JsonLayout.Layout | deps/parson.c:764-898 | the two forms of every value determine each other |
| JsonPath.SetThenGet | deps/parson.c:1653-1683 | after a successful write the path reads the value |
| JsonPath.SetElsewhere | deps/parson.c:1653-1683 | a path that diverges from the written one reads as before |
| JsonPath.SetThenGetBelow | deps/parson.c:1653-1683 | a path that continues the written one reads inside the value |
| JsonPath.SetThenGetAbove | deps/parson.c:1653-1683 | a path that the written one continues reads an object with the value inside |
| JsonPath.GetThenSet | deps/parson.c:1653-1683 | writing a copy of the value that is there changes nothing |
| JsonPath.SetTwice | deps/parson.c:1653-1683 | of two writes to one path the second wins |
| JsonPath.FailedSetChangesNothing | deps/parson.c:1653-1683 | a failed write leaves the whole tree as it was |
| JsonPath.SetSucceedsExactly | deps/parson.c:1653-1683 | a write succeeds exactly when every object it has to extend has room |
| JsonPath.EmptyAccepts | deps/parson.c:1667-1682 | writing into a fresh object never fails, so no half-made object is left over |
| JsonPath.GetJoined | deps/parson.c:1054-1061 | reading a joined path is reading its parts one after the other |
| JsonPath.DotSetKeepsValid | deps/parson.c:1653-1683 | writes keep names distinct and capacities within the caps at every level |
| JsonObject.ObjectStore.constructor | deps/parson.c:301-311 | a new object is empty with no storage |
| JsonObject.ObjectStore.Of | deps/parson.c:301-311 | arrays as long as the capacity, with the members in front |
| JsonObject.ObjectStore.IndexOf | deps/parson.c:373-385 | the loop finds the first member of that name |
| JsonObject.ObjectStore.Add | deps/parson.c:313-371 | stores behind the last member and inside the arrays, growing them when full; fails on a name that is there or on the cap, changing nothing |
| JsonObject.ObjectStore.Resize | deps/parson.c:340-371 | new arrays of the new length hold the same members; size zero is refused |
| JsonObject.ObjectStore.Trim | deps/parson.c:655-659 | the storage shrinks to the count and the members stay; it fails exactly without members |
| JsonObject.ObjectStore.SetValue | deps/parson.c:1617-1635 | replaces the value in place or adds the name |
| JsonObject.ObjectStore.Remove | deps/parson.c:1733-1752 | the last member takes the removed one's place |
| JsonObject.ObjectStore.Clear | deps/parson.c:1772-1783 | no members, same storage |
| JsonObject.ObjectStore.DotSetValue | deps/parson.c:1653-1683 | the status and the tree, also after a failure |
| JsonMap.CountIsSize | deps/parson.c:313-385 | with distinct names the count is the size of the map |
| JsonMap.ApplySimulates | deps/parson.c:1617-1783 | each operation on the lists is the operation on nested maps, a dotted write at every level of its path |
| JsonMap.DotSetSimulates | deps/parson.c:1653-1683 | a dotted write is the write along the path in nested maps |
| JsonMap.RunRefinesMap | deps/parson.c:313-385 | after every sequence of add, set, dotset, remove, clear and trim on any valid object, a parsed one too, the object is the nested map made by the same operations; at every level names are distinct, the count is at most the capacity and that at most 960 |
| JsonMap.AddFailsExactly | deps/parson.c:318-325 | a new name is refused exactly when the object is full and its capacity exceeds 480 |
| JsonMap.UntrimmedReachesCap | deps/parson.c:313-371 | without a trim, whatever else happened, names are accepted exactly up to 960 |
| JsonEquality.EqualsIsNear | deps/parson.c:1845-1904 | on all valid values, equality is: the same keys in the nested maps, the same lengths, and numbers within the tolerance |
| JsonEquality.EqualsIsSameDenotation | deps/parson.c:1845-1904 | with numbers of whole millionths, equality is equality of the nested key-to-value maps |
| JsonEquality.SameNames | deps/parson.c:1873-1888 | as many distinct names on both sides and each left one on the right: the names are the same |
| JsonEquality.Reflexive | deps/parson.c:1845-1904 | every valid value equals itself |
| JsonEquality.Symmetric | deps/parson.c:1845-1904 | equality is symmetric although only the left keys are walked |
| JsonEquality.NotTransitive | deps/parson.c:1895-1896 | three numbers of which neighbours are equal and the outer two are not; TransitiveExactly has the condition |
| JsonEquality.TransitiveExactly | deps/parson.c:1845-1904 | for all valid a, b, c with a equal to b and b to c: a equals c exactly when the numbers of a and c at shared paths are close |
| JsonEquality.SameTreeEquals | deps/parson.c:1845-1904 | trees that differ in storage only are equal |
| JsonEquality.DeepCopy | deps/parson.c:1274-1348 | never fails on a valid value and gives the same tree, again valid |
| JsonEquality.CopyArray | deps/parson.c:1283-1303 | the loop copies every item in order |
| JsonEquality.CopyObject | deps/parson.c:1304-1325 | the loop copies every member in order |
| JsonComments.RemoveComments | deps/parson.c:265-298 | the in-place loop leaves the specified text and the same terminator |
| JsonComments.StripOnlyBlanks | deps/parson.c:265-298 | the length stays and every changed byte is a space |
| JsonComments.StripIdentity | deps/parson.c:265-298 | a text without an opener outside of strings is left alone |
| JsonComments.CommentIsBlanked | deps/parson.c:265-298 | behind any text with no slash outside of its strings, a comment becomes as many spaces and what follows is stripped on its own |
| JsonComments.LeadingComment | deps/parson.c:265-298 | a comment in front of a text becomes as many spaces, and the text is stripped on its own |
| JsonComments.UnclosedComment | deps/parson.c:283-286 | an opener that is never closed is blanked out, and everything behind it stays |
| JsonComments.IndexIsFirst | deps/parson.c:283 | strstr finds the first occurrence, and none exactly when there is none |
| JsonComments.TextIsClean | deps/parson.c:900-959 | no printed value has an opener outside of its strings |
| JsonComments.CommentsDoNotMatter | deps/parson.c:1010-1023 | every printed value parses to the same value with and without comment support |
| Replies.WriteField | deps/parson.c:1685-1707 | one dotted write; a value that could not be made writes nothing |
| Replies.WriteFields | src/datastructures.c:206-247 | a sequence of writes, in order |
| Replies.EntryListToJson | src/datastructures.c:193-251 | the loop over the rows builds the specified object; no list, no reply |
| Replies.HeaderMembers | src/datastructures.c:206-214 | the reply starts with length, units, errcode and errmsg |
| Replies.UnitsRead | src/datastructures.c:276-286 | the units object holds the temperature unit of the request and the percent sign |
| Replies.RowReads | src/datastructures.c:220-247 | each of the six fields of a row reads as its value |
| Replies.ResultsAreFirstRows | src/datastructures.c:216-248 | the results are exactly the first rows, at most 960, in order |
| Replies.FetchReplyIs | src/datastructures.c:193-251 | all members of the reply for any rows with distinct ids; there is a results object exactly when there are rows |
| Replies.LengthIsHonest | src/datastructures.c:193-251 | the reported length is the number of results exactly up to 960 rows, none included |
| Replies.ResultReads | src/datastructures.c:216-248 | results.<id>.<field> reads the row's field for the first 960 rows and nothing for later ones |
| Replies.KeyFitsBuffer | src/datastructures.c:195-247 | every printed key fits the 32-byte buffer |
| ReplyText.DotSetWithin | deps/parson.c:1653-1683 | a write makes a tree no deeper than its path is long |
| ReplyText.ReplyIsGood | src/datastructures.c:193-251 | every fetch reply is a valid tree of depth at most three |
| ReplyText.DotGetAgain | deps/parson.c:1054-1061 | behind printing and parsing every path leads to the same value, as printed |
| ReplyText.ClientReads | src/datastructures.c:193-251 | the text of every fetch reply parses, and then reads the exact number of rows, the units, and under results.<id>.<field> the values of exactly the first 960 rows, ids exact and measurements to the nearest millionth |
| EndToEnd.AnswerSees | src/dbhandler.c:97-177 | in every run the table that an answer saw is the initial one and the samples taken first, as many as were sent before the message, each with the time of its insertion |
| EndToEnd.ClientIsTold | src/listener.c:185-317 | in every run, a worker handled just the query and unit of a fetch reply for its socket, and the parsed text of the reply reads exactly the rows which that query asks for, in order, out of the table that the answer saw, in that unit and to the nearest millionth |
| DbHandler.SelectFits | src/dbhandler.c:268-300 | no more rows are selected than were counted |
| DbHandler.ExecFetchQuery | src/dbhandler.c:268-326 | the loop never stores past the counted room and gives the specified list, of which DbHandler.FetchIsExact says what it holds |
| DbHandler.FilterIsExact | src/dbhandler.c:268-326 | a row is returned as often as it is in the table if it matches, and never otherwise; which rows match is in DbHandler.SelectIsExact |
| DbHandler.SelectIsExact | include/dbhandler.h:101-123 | the rows selected are, in the order of the table, exactly those with a stamp above, below or within the bounds asked for, or the first n |
| DbHandler.FetchIsExact | src/dbhandler.c:268-326 | a fetch reports exactly these rows in order, everything as stored and the temperature f of a stored c as c, or with 5(f - 32) = 9c; it is refused exactly when more than 2048 rows were asked for |
| DbHandler.FetchedIdsDiffer | src/dbhandler.c:268-326 | no id occurs twice in a fetch |
| Protocol.HandleEffect | src/listener.c:195-249 | a worker handed a new request either answers that socket itself, at most once, and is about to close it, or passes it on without a reply, completed exactly when the database is not needed; which of these for which request is in ProtocolRequests.RequestIsHandled |
| ProtocolSafety.StepKeepsShapes | src/listener.c:185-317 | every step keeps the shape of every message: writes never enter the worker queue, and what re-enters it is completed |
| ProtocolSafety.StepMovesSocket | src/listener.c:185-317 | a step moves a socket between places and neither copies nor loses it |
| ProtocolSafety.StepConserves | src/listener.c:135-317 | every step keeps each accepted socket in exactly one place or closed exactly once |
| ProtocolSafety.StepAnswersOnce | src/listener.c:192-313 | every step keeps replies at most one per socket, written only just before the close |
| ProtocolSafety.StepSendsNoStale | src/listener.c:192-313 | no left-over data is sent as a reply |
| ProtocolSafety.EveryRunIsSafe | src/listener.c:135-317 | all of these in every state of every run |
| ProtocolSafety.SocketFate | src/listener.c:135-317 | in every reachable state a socket has at most one reply and one close, and is closed exactly when no thread or queue holds it |
| ProtocolLiveness.StepKeepsBalance | src/listener.c:135-317 | every step keeps the number of open connections equal to the number of requests held, and only accepting adds one |
| ProtocolLiveness.DeadlockExactly | src/listener.c:185-317 | with a request open, no thread can step exactly when all workers wait to send on a full worker queue and the database side cannot go on |
| ProtocolLiveness.DeadlockNeedsLoad | src/listener.c:99-101 | such a state has at least 512 open connections more than there are workers |
| ProtocolLiveness.DeadlockIsReachable | src/listener.c:520-591 | from every initial state a run with exactly that many open connections ends in such a state |
| ProtocolLiveness.SomeThreadCanStep | src/listener.c:185-317 | with fewer open connections some thread can step whenever one is open |
| ProtocolLiveness.WorkerQueueNeverBlocks | src/listener.c:99-101 | with at most 512 open connections no sender finds the worker queue full |
| ProtocolLiveness.InternalStepProgresses | src/dbhandler.c:97-148 | every step of a thread lowers the amount of work left |
| ProtocolDraining.StepWorks | src/dbhandler.c:97-148 | every step but accepting lowers the work left for requests, or leaves it alone if it is the sampler's or handles a write that no queued request waits behind |
| ProtocolDraining.UsefulStepSoon | src/listener.c:185-317 | below the bound, with a connection open, a step that lowers it is enabled at once or after at most two steps of the database thread |
| ProtocolDraining.AcceptFreeRun | src/dbhandler.c:97-177 | in every run without accepting, however much is sampled, the useful steps are bounded by the work there was, and all steps of threads by that and three per sample |
| ProtocolDraining.EveryRequestFinishes | src/listener.c:185-317 | once accepting stops below the bound, while the sampler goes on: only so many useful steps can follow, one is never more than two database steps away while a connection is open, and when none can step every connection has been closed exactly once |
| ProtocolLiveness.ReachableIsBalanced | src/listener.c:135-317 | every reachable state meets what these lemmas ask for |
| ProtocolAnswers.StepKeepsFifo | src/dbhandler.c:97-148 | every step keeps the unexecuted messages in the order they were sent |
| ProtocolAnswers.StepKeepsRecord | src/dbhandler.c:162-218 | every step keeps the table equal to the initial rows and one row for each executed write, with its sample, the time of its insertion and the next id, and the counters equal to what was executed |
| ProtocolAnswers.ExecutedIsAnswer | src/dbhandler.c:97-148 | the database thread answers from the table made by the writes sent before the message |
| ProtocolAnswers.StepKeepsBacked | src/listener.c:192-313 | every step keeps every answer and reply the right one for its own request |
| ProtocolAnswers.EveryRunIsTruthful | src/dbhandler.c:97-148 | all of these in every state of every run |
| ProtocolAnswers.TableAtIs | src/dbhandler.c:162-177 | a message sees the initial rows followed by exactly the samples sent before it, with their times of insertion and ids counted up, all ids distinct |
| ProtocolAnswers.LaterSeesMore | src/dbhandler.c:97-148 | a later answer sees everything an earlier one saw |
| ProtocolAnswers.FetchRepliesAreTrue | src/listener.c:192-313 | in every reachable state a fetch reply is the query and unit of the message sent for its socket, applied to the initial rows and the samples sent before it; that the message is the one asked for is in ProtocolRequests.ReplyWasAskedFor |
| ProtocolAnswers.StatisticsAreTrue | src/dbhandler.c:328-370 | a statistics reply counts the fetch and statistics requests, and the writes, executed before it |
| ProtocolAnswers.SamplesAreKept | src/dbhandler.c:162-177 | no sample is lost, doubled or reordered between sampler and table, and each row has the time of its insertion |
| ProtocolAnswers.RunTakes | src/dbhandler.c:162-177 | over every run, the samples written are those taken, in order, and the times recorded those of the insertions |
| ProtocolAnswers.TableOfRun | src/dbhandler.c:162-177 | after every run the table is the initial one and a row for each sample inserted: in the order they were taken, with the time of its insertion and ids counted up; the samples on their way are exactly the rest |
| ProtocolRequests.RequestIsHandled | src/listener.c:195-249 | what handling a request does: a message made of its own query and unit, or exactly the reply it comes to, and nothing to any other socket |
| ProtocolRequests.StepTells | src/listener.c:185-317 | every step keeps every message and every reply what the request of its socket comes to |
| ProtocolRequests.EveryRunTells | src/listener.c:185-317 | the same in every state of every run |
| ProtocolRequests.SawEofExactly | src/listener.c:189-205 | the end-of-file flag of a worker is set exactly when it met an end of file before |
| ProtocolRequests.EveryRequestIsAnswered | src/listener.c:185-317 | in every run each socket has its request handled at most once, and once it has a reply or is closed, the replies are exactly what that request comes to |
| ProtocolRequests.ReplyWasAskedFor | src/listener.c:185-317 | for each kind of reply the request that was handled for its socket: a fetch of that very query and unit, statistics, current values in that unit, the configuration, or the failure |
| ProtocolOrder.StepInOrder | src/listener.c:135-193 | a step takes the first of the requests that wait, and accepting adds at their end |
| ProtocolOrder.FirstComeFirstServed | src/listener.c:135-193 | in every run workers take requests up in exactly the order in which the connections were accepted, although answers share their queue |
| Ini.RStrippedIs | deps/ini.c:28-34 | the longest prefix that does not end in white space |
| Ini.FindIsFirst | deps/ini.c:47-62 | the first delimiter or the first semicolon behind white space, and no earlier position |
| Ini.CallsSplit | deps/ini.c:100-168 | whole lines are scanned independently of what follows them |
| Ini.PairFirstCall | deps/ini.c:138-157 | a line name=value always makes a call for its name, with what of the value is in its first chunk |
| Ini.PairCalls | deps/ini.c:138-157 | it makes exactly the call with its value if and only if the value is trimmed, without line break or inline comment, and the line fits the buffer |
| Ini.HeadingCalls | deps/ini.c:125-137 | a section heading makes no call and starts its section |
| Ini.CallsAreShort | deps/ini.c:100-162 | no call ever carries a line break or more than 198 bytes |
| IniLines.CommentLine | deps/ini.c:113-116 | a line whose first byte behind white space is a semicolon or a hash makes no call and changes nothing, also behind a pair |
| IniLines.ContinuationLine | deps/ini.c:118-123 | any other indented line behind a pair calls the handler with the name of that pair and the stripped line |
| IniLines.PairSplits | deps/ini.c:138-157 | otherwise a line splits at its first equals sign or colon before any inline comment |
| IniLines.HeadingSplits | deps/ini.c:125-132 | and a heading at its first closing bracket |
| IniLines.BadLineExactly | deps/ini.c:133-162 | it is bad exactly when there is no such delimiter or bracket |
| IniLines.InlineComment | deps/ini.c:145-151 | a value ends before a semicolon behind white space and is stripped on both sides |
| IniLines.BomLine | deps/ini.c:103-110 | a byte order mark in front of the first line is skipped |
| IniLines.CommentCalls | deps/ini.c:100-116 | a comment of up to 199 bytes, whatever bytes it holds, makes no call and leaves the scanner as it was |
| IniLines.LongComment | deps/ini.c:100-116 | what follows the 199th byte of a comment is read as a line of its own |
| IniLines.ContinuedPair | deps/ini.c:118-157 | a pair and an indented line behind it make two calls for the name |
| IniLines.CallsFurtherDown | deps/ini.c:100-162 | the same lines further down in a file make the same calls, unless they start with a byte order mark that was first |
| IniReader.RStrip | deps/ini.c:28-34 | strips in place and changes nothing outside of the string |
| IniReader.LSkip | deps/ini.c:37-42 | the string behind leading white space |
| IniReader.FindCharsOrComment | deps/ini.c:47-62 | the specified position, without reading past the NUL |
| IniReader.GetLine | deps/ini.c:100 | one chunk of at most 199 bytes, up to and including a line end, with its NUL |
| IniReader.ReadHeading | deps/ini.c:125-137 | the section of a heading, or a bad line |
| IniReader.ReadName | deps/ini.c:142-144 | cuts off and strips the name, leaving the value intact |
| IniReader.ReadValue | deps/ini.c:145-151 | cuts an inline comment off the value and strips it |
| IniReader.ReadPair | deps/ini.c:138-162 | name, value and remembered name of a pair, or a bad line |
| IniReader.ReadLine | deps/ini.c:101-162 | what one line does: comment, continuation, heading, pair or bad line |
| Config.ConfigFile.InihCallback | src/confighandler.c:25-70 | the field set, the counter, the sticky range error and the return code for every name and value |
| Config.ConfigFile.ParseStream | deps/ini.c:73-175 | the loop hands the handler exactly the specified calls and returns the line of the first failure |
| Config.ConfigFile.ParseConfigFile | src/confighandler.c:104-112 | the same from a counter reset to zero, which becomes the number of entries |
| ConfigHandler.FirstErrorExactly | src/confighandler.c:25-70 | the result is 0 exactly when every call has a known name and a value, whatever numbers are out of range |
| ConfigHandler.FirstErrorIs | deps/ini.c:155-156 | otherwise it is the line of the first call that has not |
| ConfigHandler.CountExactly | src/confighandler.c:44-67 | the counter after any calls: those with a known name and a value, less the numbers at or after one out of range or after an earlier range error |
| ConfigHandler.EveryCallCounts | src/confighandler.c:44-67 | without failures every call is counted exactly when no number comes at or after an overflow |
| ConfigHandler.StringIsLast | src/confighandler.c:28-43 | after any calls a string is what the last call with a value for it says, or what it was |
| ConfigHandler.NumberIsLast | src/confighandler.c:44-62 | and a number what strtol makes of the last such value |
| ConfigRoundTrip.WriteConfigFile | src/confighandler.c:72-101 | the written text is that of the specified sections and settings |
| ConfigRoundTrip.FileCalls | deps/ini.c:73-175 | a written file makes at least one call for each setting, exactly one if all fit |
| ConfigRoundTrip.NumberBack | src/confighandler.c:44-62 | every printed number is read back, clamped to what a long holds |
| ConfigRoundTrip.FileCallsBounded | deps/ini.c:100-162 | every call that a written file makes fits its line, or sets a setting to something shorter than it is |
| ConfigRoundTrip.OverflowIsNotReported | src/confighandler.c:44-57 | a file with a number out of range is parsed without an error; it is stored clamped, and neither it nor the number behind it is counted |
| ConfigRoundTrip.ConfigRoundTrip | src/confighandler.c:72-112 | parsing a written configuration returns 0 and restores all fields if and only if its strings are not empty, trimmed, on one line that fits and free of inline comments; then it counts six, or three if a range error was left over from before |
| ConfigLines.CommentInserted | deps/ini.c:100-162 | a comment between any two lines of any file changes no setting, no count and no errno; an error stays, and its number counts the comment if it comes behind |
| ConfigLines.CommentBeforeMark | deps/ini.c:103-110 | the one exception: in front of a byte order mark it makes the line behind it the error |
| ConfigLines.BadLineReported | deps/ini.c:133-162 | a bad line in any file is the error, under its own number, unless there was one before |
| ConfigLines.ContinuationInFile | deps/ini.c:118-123 | an indented line behind a pair in any file is one more call for that pair's name |
| ConfigLines.StrToLIs | src/confighandler.c:44-62 | white space, a sign, digits and anything else: the number, clamped to 32 bits, and an overflow exactly when it was |
| ConfigLines.WrittenSections | src/confighandler.c:83-96 | read back, the six settings of a written file are two in each of the three sections, in order |
| Http.ParamsKept | src/http.c:135-178 | of a query with ampersands: all parameters are kept exactly when none is stray; otherwise the last is lost, and the request is refused exactly when that was the only one |
| Http.TrailingAmpersand | src/http.c:165-175 | a query such as a=1& is refused |
| Http.PiecesAndAmpersands | src/http.c:132-163 | never more pieces than the array has room for, and as many exactly for a clean query |
| Http.RepeatedExactly | src/http.c:180-189 | the nested counting finds a repetition exactly when two names are equal |
| Http.ParsedNamesDiffer | src/http.c:180-189 | no request whatever yields a command with a repeated name |
| Http.LineBack | src/http.c:46-89 | a request line built from plain parts splits into exactly these parts |
| Http.ParamsBack | src/http.c:132-178 | a query built from plain pairs gives exactly these pairs in order |
| Http.RequestRoundTrip | src/http.c:91-192 | a request built as in section 3.1.1 of RFC 7230 parses to exactly its command and pairs in order, or is rejected exactly when a name is repeated |
| HttpLine.StrTokExactly | src/http.c:54-84 | a token is found exactly where there is a text without delimiters behind any number of them, and none exactly where there are only delimiters |
| HttpLine.FirstLineExactly | src/util.c:122-146 | the first line is what stands before the first CR LF, if that is not empty |
| HttpLine.ParsedExactly | src/http.c:91-104 | only the first line counts, and the failure without a code is exactly that there is none |
| HttpLine.LineWithParts | src/http.c:46-115 | what becomes of a line with a verb and a command: malformed without a version, refused with another one, and otherwise the command with its query |
| HttpLine.MalformedExactly | src/http.c:46-89 | a line is refused as malformed exactly when a part is missing |
| HttpLine.WrongProtocolExactly | src/http.c:112-115 | and for its protocol exactly when all parts are there and the last is neither HTTP/1.0 nor HTTP/1.1 |
| HttpLine.ParamExactly | src/http.c:194-215 | name and value of any parameter, and exactly when each is missing |
| HttpParser.StrTokR | src/http.c:54-60 | splits in place: the token and the rest are C strings of the buffer |
| HttpParser.GetLine | src/util.c:122-146 | what precedes the first line end, or nothing |
| HttpParser.SplitLine | src/http.c:46-89 | the parts of the request line or bad format |
| HttpParser.ParseHttpParam | src/http.c:194-215 | name and value of a parameter |
| HttpParser.CountAmpersands | src/http.c:135 | the number of ampersands |
| HttpParser.FillParams | src/http.c:157-163 | fills one slot per piece and never stores past the array |
| HttpParser.HttpCmdParamCount | src/http.c:36-44 | how many parameters have the name |
| HttpParser.HasRepeated | src/http.c:180-189 | whether some name is counted more than once |
| HttpParser.CollectParams | src/http.c:132-178 | the parameters the command ends up with, or none when the array is cut to size zero |
| HttpParser.ParseHttpRequest | src/http.c:91-192 | the command or the error code of every request that stays within the buffers |
| HttpParser.BuiltLineFits | src/http.c:91-192 | requests built from plain parts within the buffer sizes meet what the parser relies on |

## Left out

- JsonRoundTrip.RoundTrip: numbers are exact reals; the rounding and overflow of doubles are not modelled, because they belong to the C library.
- JsonParser.ParseScalar: the value of a number is exact, and the notations for infinity and NaN that strtod takes behind a minus are refused here.
- JsonParser.ParseValue: inherits the numbers of JsonParser.ParseScalar.
- JsonParsed.ParsePrintParse: inherits the numbers of JsonParser.ParseScalar.
- JsonSerializer.SerializeR: the scratch buffer that numbers are printed to while measuring is not an array here; JsonNumber.NumberFitsScratch shows that they fit it.
- JsonPath.GetThenSet: holds for a copy of the value; storing the very value that is there is not allowed by the source, which frees the old value first (deps/parson.c:1625-1628).
- JsonObject.ObjectStore.Of: nested objects are values inside their parent, so a nested object is copied where the source follows a pointer.
- JsonObject.ObjectStore.DotSetValue: sharing of one nested object by several parents and parent pointers are not modelled, since nested objects are copied out and back.
- HttpParser.ParseHttpRequest: what the source leaves undefined is not modelled, namely parts longer than their buffers, a query of ampersands only, and a kept parameter without a name.
- JsonAccepted.TextAccepted: inherits the numbers of JsonParser.ParseScalar.
- HttpParser.SplitLine: asks for parts within the buffers, which the source does not check.
- Config.ConfigFile.InihCallback: strtol is modelled with a 32-bit long, as on the Raspberry Pi.
- EndToEnd.ClientIsTold: asks that the stored strings are C strings and that the unit is an ASCII character, which the database and the dispatcher provide.
- ProtocolDraining.EveryRequestFinishes: that an enabled thread is scheduled in the end is not modelled; a sampler that always wins the race for a freed queue slot could hold a worker up.
- Failing allocations, and the error returns of the serialiser that only they or an unknown type can cause.
- Sockets, POSIX message queues, thread cancellation, signals and reloading: only bounded first-in-first-out queues and atomic steps are kept.
- SQLite: a table is a sequence of rows in insertion order; errors of the database are not modelled.
- ProtocolRequests.ReplyWasAskedFor: of the current values and the configuration it says that they were asked for and in which unit, not what they hold, since devices and settings are outside of the protocol.
- Parsing of dates and units, and the choice of the query from the parameters of a fetch request (src/listener.c:402-515): the step takes the chosen query as a parameter.
- json_validate, the array operations besides append, the key-value lists of the statistics and configuration replies, and entry_to_json_value: they would only add easy members.
- src/trigger.c, src/device.c, the devices and the logging.
