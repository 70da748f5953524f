# Models of the Linux audit userspace

This project models the parts of the Linux audit userspace under `kernel_dev/libaudit/src`
whose behaviour is hardest to see from the code, and proves what they promise.

* **Event reassembly** (`EventTable`, `EventLog`, `EventRuns`, `EventTheorems`, `EventOrder`,
  `EventOutput`, `EventPacing`, `EventReorder`, `EventParser`). Interleaved records are grouped
  into events in a growable table of slots. The table is proved to refine a simple log without
  slots; conservation, independence of draining, the table invariant and the output order follow
  for every run. `EventPacing` gives the exact condition on the input under which the order of
  the output does not depend on draining. `EventParser` is the parser object with its loops,
  proved against the table functions.
* **The name cache** (`LruOrder`, `LruCache`, `NameCache`). A linked list and a table in
  bijection, in most-recently-used order for every run of calls, and lookups that agree with
  the database.
* **Search expressions** (`ExprLexer`, `ExprGrammar`, `ExprRoundTrip`, `ExprParsing`). The
  recursive descent parser accepts exactly the documented grammar and undoes printing.
* **Streaming buffers** (`DataBuf`, `Fgets`, `FeedOutput`). Output that depends on the bytes and
  not on how they were chopped; `FeedOutput` is the feed object, from bytes to events.
* **The dispatcher queue** (`DispatchQueue`, `DispatchRuns`). All interleavings of producers,
  consumers and reconfiguration at the granularity of the lock.
* **Fields and rule lines** (`Splitting`, `ValueCodec`, `RecordFields`, `RuleLine`,
  `ShellEscape`). Encoders, splitters and decoders from several files, composed into round
  trips.
* **Rules and tables** (`RuleData`, `GenTables`). Packed strings found again by adding lengths,
  and generated tables of either form with the meaning of their specification.

Objects that the original updates in place are classes with arrays and loops; each method is
proved against a function of the old state, and the theorems are about those functions.

## How the model reads the code

* Texts are NUL-terminated: a `string` or `seq<Byte>` stands for the bytes before the NUL, and
  allocation succeeds. Integers are unbounded except where a width matters and is written out:
  the 32-bit counter of the queue, unsigned 32-bit identities, signed bytes in the encoders.
* A record of an event carries the arrival number of its line. It stands for the line and file
  numbers the original keeps, and identifies the line in the theorems.
* The table functions speak about all slots. The loops of the original stop at the highest used
  slot or at a cached count of 0; the parser's methods do the same and are proved equal.
* An event that is completed by the record just added is handed out by the next call, as in the
  original; a new event is checked for at once.
* Growing the queue while its window wraps stalls its consumers and breaks the order, for every
  such queue. The exact condition and a concrete queue are given. The counter of used slots also
  goes down on a wake-up that finds nothing; the law for it counts those wake-ups.
* A value with a NUL byte is encoded in full but shown only up to the NUL, or without a first
  one. `ReadingIffNoNul` gives the exact condition.
* Rule lines lose arguments when these are many and short, and the first argument keeps its
  marks. The exact conditions are given.
* A mark byte in a rule line takes the byte after it along. If there is none in its token,
  unmarking steps over the end of the token; the exact condition and a concrete line are given,
  and the model says only that the line is overrun. If it is another byte than the mark, that
  byte is lost; `LosesNothingIffAligned` gives the exact condition.
* Which events there are does not depend on when they are drained, but their order can. The
  parser drains the table dry after a line that opens an event, after the end of the input and
  after a check against the clock, but not after a line that completes an event: whether it is
  drained there depends on where a chunk ended. A run that drains in at least those places is
  called settled; the parser object keeps its run settled. An event is ripe when it is complete
  and earlier than all events under construction. An input is steady when no event is opened
  that is earlier than a ripe one that was not ripe at any place where the parser has to drain;
  exactly then do all settled runs have the same order. `ReorderedExample` has three lines that
  are not steady.
* The encoder tests only as many bytes as the given length says, but copies an unencoded text
  whole. The exact condition and a concrete text are given.
* A head-preserving buffer that was advanced and is too small cannot be appended to;
  `AppendFits` gives the exact condition, `AppendOverflows` a concrete buffer. The original
  appends to such a buffer only before anything is read from it.
* With a buffer size of one, the test for more data succeeds on an empty buffer and the next call
  still reads; `MoreThenGet` gives the exact condition. A NUL among the bytes read hides newlines
  that follow it, for the line reader as in the original.
* With a size of more than the buffer and its terminator, 16385 bytes, the line reader copies
  more than it holds when the buffer is full and has no newline. `Get` says when that happens
  and nothing of what happens then; `LargeSizeOverreads` is a concrete case.

## Model

| member | source | states |
|---|---|---|
| EventRuns.RunRefinesLog | kernel_dev/libaudit/src/auparse/auparse.c:1380-1585 | For every sequence of feed, emit, free, finish and age steps the slot table together with the emitted events is exactly the reference log: same events, same records, building iff open, each held or emitted once |
| EventTheorems.Conservation | kernel_dev/libaudit/src/auparse/auparse.c:1514-1583 | Over whole runs each line with a time stamp is in exactly one event, held or emitted, and in none exactly when it is an end-of-event marker for an event that is not open |
| EventTheorems.EventsAreKeptLines | kernel_dev/libaudit/src/auparse/auparse.c:1514-1583 | Every held or emitted event consists of kept lines of its own identity in arrival order, and only its last record can be of a terminating type |
| EventTheorems.DrainsDoNotChangeGrouping | kernel_dev/libaudit/src/auparse/auparse.c:234-267 | Two runs with the same lines, age checks and ends of input, however often and wherever events are drained or slots freed, have the same events under construction and the same finished events |
| EventTheorems.TableProperties | kernel_dev/libaudit/src/auparse/internal.h:36-107 | In every reachable table the cached count equals the completed slots, slots above the highest used one are empty without a list, no identity is built in two slots and nothing under construction has received a terminating record |
| EventTheorems.CheckLeavesNothingStale | kernel_dev/libaudit/src/auparse/auparse.c:279-308 | After a check at a time no event under construction is two or more seconds older |
| EventTheorems.UnderConstructionIff | kernel_dev/libaudit/src/auparse/auparse.c:279-308 | In every run, an event that is under construction before a line that is recorded or an age check is so afterwards, with the line added if it is of its identity, if and only if the time of the check is less than its second plus 2 and its last record's type is not 1320, 1327, 2000, below 1300, at least 2100 or from 1406 to 1419; otherwise it is finished |
| EventTheorems.NewEventIff | kernel_dev/libaudit/src/auparse/auparse.c:1540-1583 | In every run, a line whose identity is not under construction opens an event of exactly that line, under construction or finished by the same test; a malformed line and an end-of-event marker change no event |
| EventOrder.EmittedIsEarliest | kernel_dev/libaudit/src/auparse/auparse.c:234-267 | An emitted event is no later than any event still held, building or complete: it has an earlier second, or the same second and an earlier millisecond, or the same of both and no greater serial number |
| EventOrder.SortedIffTimely | kernel_dev/libaudit/src/auparse/auparse.c:234-267 | Once nothing is held, the whole output is in order of second, millisecond and serial number if and only if no event was opened with a stamp earlier than one already emitted |
| EventOrder.OpeningInOrderSortsOutput | kernel_dev/libaudit/src/auparse/auparse.c:1657-1675 | Events opened in time-stamp order come out in time-stamp order |
| EventOrder.FlushEmitsEverything | kernel_dev/libaudit/src/auparse/auparse.c:318-331 | Ending the input and draining as often as events are ready empties the table, and what this adds to the output is sorted |
| EventOutput.SameOutputIffTimely | kernel_dev/libaudit/src/auparse/auparse.c:234-267 | Of two runs with the same input and distinct stamps, drained in any way until nothing is held, let one never have opened an event earlier than one already handed out; then the other has the same output if and only if it has not either |
| EventPacing.OrderFixedIffSteady | kernel_dev/libaudit/src/auparse/auparse.c:563-601 | For every input that completes all its events, which have distinct stamps: all settled runs on it hand the events out in the same order if and only if no event is opened that is earlier than one which is ripe by then and was not ripe where the parser had to drain |
| EventPacing.SteadyFixesOrder | kernel_dev/libaudit/src/auparse/auparse.c:563-601 | The same order for any two settled runs on a steady input, from the invariant that a settled run has handed out what the laziest run has and then, in order, only ripe events |
| EventPacing.UnsteadyLeavesOrderOpen | kernel_dev/libaudit/src/auparse/auparse.c:1514-1539 | For every event overtaken in this way, two settled runs, one of them drained just before the earlier event is opened, that hand out the two events in opposite orders |
| EventPacing.RipeIsHandedOut | kernel_dev/libaudit/src/auparse/auparse.c:234-267 | When a drain finds nothing, every event that is complete and earlier than all those under construction has been handed out |
| EventPacing.HandedOutIsRipe | kernel_dev/libaudit/src/auparse/auparse.c:234-267 | What a drain hands out is complete and earlier than all events under construction |
| EventPacing.OpeningInOrderIsSteady | kernel_dev/libaudit/src/auparse/auparse.c:1657-1675 | An input that opens its events in time-stamp order is steady |
| EventReorder.ChunkBoundaryChangesOrder | kernel_dev/libaudit/src/auparse/auparse.c:1514-1570 | For any event of two lines followed by an earlier event of one line: two settled runs, one drained between the second line and the third, hand out the two events in opposite orders, and only one of them in time-stamp order |
| EventReorder.ReorderedExample | kernel_dev/libaudit/src/auparse/auparse.c:1514-1570 | Three concrete lines, the two runs on them and their outputs |
| FeedOutput.ChunksDoNotMatter | kernel_dev/libaudit/src/auparse/auparse.c:603-615 | From bytes to events: two flushed feed objects given the same bytes in any chunks have taken in the same lines and handed out the same events, and in the same order if these lines are steady and the stamps distinct |
| FeedOutput.Feed.Give | kernel_dev/libaudit/src/auparse/auparse.c:603-609 | A chunk of bytes is appended, every complete line is read and taken in, and the events handed out are added to the output; the run stays settled and has taken in exactly the lines read |
| FeedOutput.Feed.Flush | kernel_dev/libaudit/src/auparse/auparse.c:611-615 | The end of the input is taken in after exactly the lines read, and the table is empty afterwards |
| FeedOutput.Feed.ReadLines | kernel_dev/libaudit/src/auparse/auparse.c:1043-1082 | All complete lines are read, in order, and none is left in the buffer |
| EventTable.NotAfterIsTotalPreorder | kernel_dev/libaudit/src/auparse/auparse.c:1657-1675 | The order by second, then millisecond, then serial number is a total preorder |
| EventTable.TimestampCompare | kernel_dev/libaudit/src/auparse/auparse.c:1657-1675 | The comparison is 1 exactly for a stamp that is later in these numbers, -1 for an earlier one and 0 for the same three numbers |
| EventTable.ReadyCountDecidesEmptyScan | kernel_dev/libaudit/src/auparse/auparse.c:234-267 | A cached count of 0 decides a drain exactly as a scan of all slots does |
| EventTable.AppendKeepsInv | kernel_dev/libaudit/src/auparse/auparse.c:193-222 | A new event goes into a slot that owns nothing, also when the table grows; no other slot changes and the table invariant holds |
| EventTable.IngestKeepsInv | kernel_dev/libaudit/src/auparse/auparse.c:1514-1583 | Taking a line keeps the table invariant, with completion, slot reuse and growth |
| EventTable.Lowest | kernel_dev/libaudit/src/auparse/auparse.c:245-258 | The slot chosen holds an event no later than any live one; none only if no slot is live |
| EventLog.LogStepKeepsInv | kernel_dev/libaudit/src/auparse/auparse.c:1514-1583 | Every step of the reference log keeps events disjoint, their records in order, and at most one open event per identity |
| EventRuns.StepLinked | kernel_dev/libaudit/src/auparse/auparse.c:1443-1584 | Each single step keeps table and log in agreement |
| EventParser.Parser.NextEvent | kernel_dev/libaudit/src/auparse/auparse.c:1380-1585 | The lines taken are a prefix of those pending; the event handed out is no later than any still held; no event means no line is pending and, at end of file, that the table is empty; each event handed out consumed lines or shrank the table; a settled run stays settled, and no event means that the table is dry where it has to be |
| EventParser.Parser.ConsumeFeed | kernel_dev/libaudit/src/auparse/auparse.c:563-601 | All pending lines are taken once and in order, the output is what the run emitted, a settled run stays settled and comes to rest, and a flush ends in an empty table |
| EventParser.Parser.AgeEvents | kernel_dev/libaudit/src/auparse/auparse.c:627-632 | A check against the clock followed by consuming the feed, as one run; a settled run at rest stays so |
| EventParser.Parser.TakeAndDrain | kernel_dev/libaudit/src/auparse/auparse.c:1503-1583 | One line is taken, and one drain follows before the next line is taken if and only if no event of its identity was under construction and it opened one |
| EventParser.Parser.GetReady | kernel_dev/libaudit/src/auparse/auparse.c:234-267 | Scanning only up to the highest used slot, behind the cached count, drains the table exactly as the full scan does; what comes out is no later than any live event by second, millisecond and serial number |
| EventParser.Parser.CheckAll | kernel_dev/libaudit/src/auparse/auparse.c:279-308 | The loop completes exactly the events under construction that are two seconds old or have received a record of a terminating type, by number, and keeps the count |
| EventParser.Parser.FinishAll | kernel_dev/libaudit/src/auparse/auparse.c:318-331 | The loop completes every event under construction and changes nothing else |
| EventParser.Parser.AppendEvent | kernel_dev/libaudit/src/auparse/auparse.c:193-222 | The loop with growth of the array appends as the table function does |
| EventParser.Parser.IngestLine | kernel_dev/libaudit/src/auparse/auparse.c:1503-1583 | One retrieved line updates the array as the table function does; the call reports a new event exactly when one was created |
| EventParser.Parser.FindEvent | kernel_dev/libaudit/src/auparse/auparse.c:1514-1537 | The scan up to the highest used slot finds the building event of this identity if there is one |
| EventParser.Parser.HasReady | kernel_dev/libaudit/src/auparse/auparse.c:619-625 | True exactly if some slot is complete |
| EventParser.Parser.FreeEmptied | kernel_dev/libaudit/src/auparse/auparse.c:1406-1421 | The sweep releases the lists of emitted events and nothing else |
| LruOrder.CachedIffLastChecked | kernel_dev/libaudit/src/auparse/lru.c:325-356 | After any run of checks and evictions a key is cached exactly if its last access was a check |
| LruOrder.MostRecentFirst | kernel_dev/libaudit/src/auparse/lru.c:325-356 | The list order is most recently used first, for every run |
| LruOrder.OrderIsDistinct | kernel_dev/libaudit/src/auparse/lru.c:325-356 | No run lists a key twice |
| LruOrder.Pigeonhole | kernel_dev/libaudit/src/auparse/lru.c:298-319 | A key that is not cached leaves fewer cached keys than slots, so the branch for a full queue is never entered |
| LruCache.Queue.CheckCache | kernel_dev/libaudit/src/auparse/lru.c:325-356 | The key's node is at the front, the list is well formed and in bijection with the table, the order is that of the run so far; a miss gives a fresh unset node |
| LruCache.Queue.EvictFront | kernel_dev/libaudit/src/auparse/lru.c:275-294 | The front node, which must be the key's, is removed from list and table; all else and the order stay |
| LruCache.Queue.Enqueue | kernel_dev/libaudit/src/auparse/lru.c:298-319 | A missing key gets a fresh front node in list and table; the branch that drops the last node is shown unreachable |
| LruCache.Queue.MoveToFront | kernel_dev/libaudit/src/auparse/lru.c:343-351 | A hit moves its node to the front and keeps the order of the others |
| LruCache.Queue.Hit | kernel_dev/libaudit/src/auparse/lru.c:343-353 | A cached key's node is at the front afterwards; the hit is counted, and a use only when the node had to move |
| LruCache.Queue.RemoveNode | kernel_dev/libaudit/src/auparse/lru.c:216-253 | In each of the four positions the node leaves the list and the rest stays linked in order |
| LruCache.Queue.InsertBefore | kernel_dev/libaudit/src/auparse/lru.c:184-198 | The new node stands before the given one and the list stays linked |
| LruCache.Queue.InsertBeginning | kernel_dev/libaudit/src/auparse/lru.c:200-214 | The new node becomes the front of an empty or non-empty list |
| LruCache.Queue.Dequeue | kernel_dev/libaudit/src/auparse/lru.c:256-272 | The last node is removed, down to an empty list |
| LruCache.TableIsKeySet | kernel_dev/libaudit/src/auparse/lru.c:298-319 | The non-null table entries are exactly the distinct keys of the list |
| NameCache.Names.Lookup | kernel_dev/libaudit/src/auparse/interpret.c:516-616 | With a fixed database every call, whatever was looked up before, returns unset, root, the name in the database or unknown with the number, clipped to the buffer, despite colliding keys and failed lookups |
| NameCache.SignedIs | kernel_dev/libaudit/src/auparse/interpret.c:556-560 | The number shown for an unknown name is the identity as a signed 32-bit number, in decimal digits |
| Common.DecimalIs | kernel_dev/libaudit/src/auparse/interpret.c:556-560 | The digits written for a number have its value, and no leading zero |
| NameCache.Names.Find | kernel_dev/libaudit/src/auparse/interpret.c:537-555 | The cached path finds the name if and only if the database has it |
| ExprGrammar.ParserImplementsGrammar | kernel_dev/libaudit/src/auparse/expression.c:77-97 | The parser returns an expression for a text if and only if the whole token sequence derives it in the documented grammar |
| ExprGrammar.Unambiguous | kernel_dev/libaudit/src/auparse/expression.c:77-97 | All derivations of a text mean the same expression: conjunction binds tighter and both operators group to the left |
| ExprGrammar.DerivedIsParsed | kernel_dev/libaudit/src/auparse/expression.c:788-817 | Every derivation of a text is what the parser returns |
| ExprGrammar.PrimarySound | kernel_dev/libaudit/src/auparse/expression.c:656-708 | What the primary parser accepts is explained by a grammar tree |
| ExprGrammar.PrimaryComplete | kernel_dev/libaudit/src/auparse/expression.c:656-708 | Every primary of the grammar is accepted with its meaning |
| ExprGrammar.AndComplete | kernel_dev/libaudit/src/auparse/expression.c:714-745 | Every chain of conjunctions of the grammar is read by the loop, grouped to the left |
| ExprGrammar.OrComplete | kernel_dev/libaudit/src/auparse/expression.c:751-782 | Every chain of disjunctions of the grammar is read by the loop, grouped to the left |
| ExprGrammar.ComparisonSound | kernel_dev/libaudit/src/auparse/expression.c:543-650 | Every accepted comparison, textual, by value or by regular expression, is one of the grammar |
| ExprGrammar.FieldNameInverse | kernel_dev/libaudit/src/auparse/expression.c:365-378 | The escaped field names and their identifiers correspond one to one |
| ExprGrammar.ValueParsedIff | kernel_dev/libaudit/src/auparse/expression.c:380-490 | A value is accepted exactly if it is the number or record type that its text stands for, ending with its token, or a time stamp, ending with the last of the characters time stamps are made of |
| ExprRoundTrip.PrintThenParse | kernel_dev/libaudit/src/auparse/expression.c:788-817 | Printing any tree of textual comparisons, value comparisons with fields and record types and regular expressions, quoted and escaped, with the fewest parentheses, and parsing it gives back the same tree |
| ExprRoundTrip.WrittenThenParsed | kernel_dev/libaudit/src/auparse/expression.c:788-817 | The same for every derivation of the grammar, with parentheses anywhere, but without written time stamps: writing out its tokens and parsing gives its meaning |
| ExprRoundTrip.UnquotedIsParsed | kernel_dev/libaudit/src/auparse/expression.c:543-650 | A comparison as users write it, a bare field, blanks, any of the six value operators, blanks and a bare value, is parsed as the comparison of that field with that value |
| ExprRoundTrip.LexWord | kernel_dev/libaudit/src/auparse/expression.c:330-361 | A bare word is a string of exactly its characters, and an error if it has more than 2147483647 |
| ExprRoundTrip.LexUnknown | kernel_dev/libaudit/src/auparse/expression.c:330-361 | A character that begins nothing is a token of its own |
| ExprRoundTrip.BlanksAreSkipped | kernel_dev/libaudit/src/auparse/expression.c:157-178 | Blanks, tabs and newlines before a token do not matter |
| ExprRoundTrip.FewestParens | kernel_dev/libaudit/src/auparse/expression.c:77-97 | No derivation of an expression in the grammar has fewer parentheses than the one that is printed |
| ExprRoundTrip.LexToken | kernel_dev/libaudit/src/auparse/expression.c:157-361 | The text of each token, the six value operators, the four textual ones, quoted strings and slashed regular expressions among them, is scanned as that token and ends where its text does |
| ExprRoundTrip.ReadsEscaped | kernel_dev/libaudit/src/auparse/expression.c:180-236 | A text in quotes or slashes with backslash escapes is scanned back to the text |
| ExprParsing.Parse | kernel_dev/libaudit/src/auparse/expression.c:788-817 | The stateful parser, which terminates on every text, computes the same result as the grammar defines |
| ExprParsing.Parsing.LexDelimited | kernel_dev/libaudit/src/auparse/expression.c:180-236 | The loop with its growing buffer returns the unescaped text and never reads past the terminator |
| ExprParsing.Parsing.Put | kernel_dev/libaudit/src/auparse/expression.c:209-228 | Each write leaves room for the terminator, and the buffer only doubles |
| ExprParsing.Parsing.Advance | kernel_dev/libaudit/src/auparse/expression.c:157-361 | One call of the scanner moves to the next token or reports the error |
| ExprParsing.Parsing.ParsePrimary | kernel_dev/libaudit/src/auparse/expression.c:656-708 | Negation, parentheses and comparisons, or the error |
| ExprParsing.Parsing.ParseAnd | kernel_dev/libaudit/src/auparse/expression.c:714-745 | The conjunction loop |
| ExprParsing.Parsing.ParseOr | kernel_dev/libaudit/src/auparse/expression.c:751-782 | The disjunction loop |
| ExprParsing.Parsing.ParseComparison | kernel_dev/libaudit/src/auparse/expression.c:543-650 | A whole comparison, with its virtual fields |
| ExprLexer.Lex | kernel_dev/libaudit/src/auparse/expression.c:157-361 | Every token lies inside the text, and only the end of the text gives the end token |
| DataBuf.ChunkingDoesNotMatter | kernel_dev/libaudit/src/auparse/auparse.c:1043-1082 | Two runs over the same bytes, chopped and read in any way until no line is left, take the same lines and leave the same rest |
| DataBuf.TakenAreFirstLines | kernel_dev/libaudit/src/auparse/auparse.c:1043-1082 | The lines taken are the first lines of all bytes given, for any mix of appending and reading |
| DataBuf.NothingLost | kernel_dev/libaudit/src/auparse/data_buf.c:199-295 | Lines taken and bytes still held always make up exactly the bytes given |
| DataBuf.LinesOfUnlines | kernel_dev/libaudit/src/auparse/auparse.c:1043-1082 | Joining lines with newlines and splitting gives the lines back |
| DataBuf.Buffer.TakesFirstLines | kernel_dev/libaudit/src/auparse/auparse.c:1043-1082 | The lines read from a buffer object are the first lines of all bytes appended to it, for any mix of appends and line reads |
| DataBuf.BuffersAgree | kernel_dev/libaudit/src/auparse/auparse.c:1043-1082 | Two buffer objects given the same bytes in any chunks have delivered the same lines and keep the same rest once neither has a line left |
| DataBuf.AppendOverflows | kernel_dev/libaudit/src/auparse/data_buf.c:212-236 | A concrete head-preserving buffer in which an append leaves the allocation |
| DataBuf.AppendFits | kernel_dev/libaudit/src/auparse/data_buf.c:199-244 | After rearranging there is room for the new bytes if and only if the buffer does not have to keep a head that was already advanced over while being too small |
| DataBuf.Buffer.Append | kernel_dev/libaudit/src/auparse/data_buf.c:199-244 | Stays inside the allocation exactly under the condition of `AppendFits`; then the window is all bytes given minus the consumed prefix, across shifting and growth, the history grows by this chunk and a preserved head stays intact |
| DataBuf.Buffer.MakeRoom | kernel_dev/libaudit/src/auparse/data_buf.c:212-231 | The allocation is rearranged as specified for every state, and when the bytes fit the window is kept |
| DataBuf.Buffer.Advance | kernel_dev/libaudit/src/auparse/data_buf.c:273-295 | The window loses its first bytes, all of them when asked for too many |
| DataBuf.Buffer.Reset | kernel_dev/libaudit/src/auparse/data_buf.c:297-309 | A head-preserving buffer goes back to the start of its allocation, and shows its whole text if its head is intact; any other is left alone with an error |
| DataBuf.Buffer.ShiftToBeginning | kernel_dev/libaudit/src/auparse/data_buf.c:118-129 | The window moves to the start unless the head is preserved |
| DataBuf.Buffer.ReadLine | kernel_dev/libaudit/src/auparse/auparse.c:1043-1082 | Takes the first line if there is one, else reports no line or no data and takes nothing; the history of the buffer grows by this step |
| Fgets.OutputDependsOnStream | kernel_dev/libaudit/src/common/audit-fgets.c:54-123 | Two readers asking for the same sizes deliver the same pieces when one stream begins with the other, whatever the sizes of the reads |
| Fgets.CutUnique | kernel_dev/libaudit/src/common/audit-fgets.c:89-104 | The pieces are determined by the stream and the sizes |
| Fgets.CutIsPieces | kernel_dev/libaudit/src/common/audit-fgets.c:89-104 | Each of them is a piece of what follows those before it: a beginning of it, no longer than the size less one, with a newline not hidden by a NUL only at its end, and with one there if it is shorter |
| Fgets.PieceIsUnique | kernel_dev/libaudit/src/common/audit-fgets.c:89-104 | There is only one such beginning for each size |
| Fgets.CutStable | kernel_dev/libaudit/src/common/audit-fgets.c:54-123 | Bytes that arrive later never change pieces already delivered |
| Fgets.PieceStable | kernel_dev/libaudit/src/common/audit-fgets.c:63-65 | A piece that is determined stays the same when more bytes arrive |
| Fgets.Reader.Get | kernel_dev/libaudit/src/common/audit-fgets.c:54-123 | For every size: one call reads at most once, and only if there is room, no end of file and neither a line nor enough bytes are held; it stays inside the bytes it holds if and only if not a full buffer of 16384 bytes without a newline meets a size beyond it; then it delivers a piece exactly if there is a line or there are enough bytes, and delivered plus buffered bytes are the bytes read |
| Fgets.LargeSizeOverreads | kernel_dev/libaudit/src/common/audit-fgets.c:96-112 | The concrete case: the smallest size beyond the buffer, and a full buffer without a newline, from which more is copied than it holds |
| Fgets.Reader.MoreThenGet | kernel_dev/libaudit/src/common/audit-fgets.c:45-123 | For every size: after the test for more data succeeds, the next call stays inside and reads if and only if the size is one, the buffer is empty and the end of file was not seen; otherwise it completes with the piece |
| Fgets.EmptyBufferStillReads | kernel_dev/libaudit/src/common/audit-fgets.c:45-123 | The concrete case: a new reader says there is more for a size of one, and then reads |
| Fgets.Reader.More | kernel_dev/libaudit/src/common/audit-fgets.c:45-52 | True exactly if a line or enough bytes for the size are held |
| Fgets.Reader.Store | kernel_dev/libaudit/src/common/audit-fgets.c:72-86 | New bytes are added after those buffered and end of file is noted |
| Fgets.Reader.Deliver | kernel_dev/libaudit/src/common/audit-fgets.c:105-121 | The piece is copied out and the rest moved to the front |
| DispatchRuns.RunConserves | kernel_dev/libaudit/src/audisp/queue.c:135-230 | In every state of every interleaving each event was offered as often as it is pending, queued, delivered or dropped together, and no growth loses one |
| DispatchRuns.RunBounded | kernel_dev/libaudit/src/audisp/queue.c:144-204 | No producer fails more than four times, and the counter of used slots is events accepted minus delivered minus empty wake-ups, modulo 2^32 |
| DispatchRuns.DroppedAfterFourFailures | kernel_dev/libaudit/src/audisp/queue.c:135-150 | In every run an event is dropped only when it is offered while processing is suspended, or after exactly four attempts to store it, each at a step of the run that found the ring full |
| DispatchRuns.TriesAreFailures | kernel_dev/libaudit/src/audisp/queue.c:151-171 | In every run a pending event has failed as often as there were steps that tried to store it in a full ring |
| DispatchRuns.FreeSlotIsTaken | kernel_dev/libaudit/src/audisp/queue.c:153-162 | An attempt before the fifth that finds a free slot stores the event and drops none |
| DispatchRuns.RefusedIffSuspended | kernel_dev/libaudit/src/audisp/queue.c:139-142 | An offered event is dropped at once exactly if processing is suspended, and otherwise waits to be stored |
| DispatchRuns.SuspendedIff | kernel_dev/libaudit/src/audisp/queue.c:96-133 | Processing is suspended exactly by dropping an event after its last attempt under that action, until it is resumed |
| DispatchRuns.FirstInFirstOut | kernel_dev/libaudit/src/audisp/queue.c:135-230 | In every run that grows only while the window does not wrap, the occupied slots are the cyclic window and events are delivered in the order accepted |
| DispatchRuns.WaitsOnlyWhenEmpty | kernel_dev/libaudit/src/audisp/queue.c:181-204 | In every such run a consumer waits if and only if every accepted event has been delivered, and otherwise finds the oldest one that has not |
| DispatchRuns.DeliveredByStep | kernel_dev/libaudit/src/audisp/queue.c:175-204 | What each step of such a run delivers: a consumer that does not see the reload flag takes the oldest undelivered event, or starts to wait if there is none; no other step delivers |
| DispatchQueue.GrowKeepsWindow | kernel_dev/libaudit/src/audisp/queue.c:216-230 | Growing keeps the window of queued events if and only if it does not wrap |
| DispatchQueue.WrappedGrowthStalls | kernel_dev/libaudit/src/audisp/queue.c:216-230 | After growing any wrapped queue and taking up to its old end, a consumer finds nothing until enough events are stored to pass that end, although all the others wait from slot 0 on |
| DispatchQueue.WrappedGrowthOvertakes | kernel_dev/libaudit/src/audisp/queue.c:216-230 | With one event more than that, this one comes out next while the one whose turn it is waits in slot 0 |
| DispatchQueue.WrappedGrowthReorders | kernel_dev/libaudit/src/audisp/queue.c:216-230 | A concrete wrapped queue in which growing makes a later event overtake earlier ones |
| DispatchQueue.StoreAppends | kernel_dev/libaudit/src/audisp/queue.c:153-162 | Storing appends to the cyclic window |
| DispatchQueue.TakeRemovesFirst | kernel_dev/libaudit/src/audisp/queue.c:196-202 | Taking removes the first event of the window |
| DispatchQueue.FullWhenAllUsed | kernel_dev/libaudit/src/audisp/queue.c:154-155 | The slot test finds the ring full exactly when all slots are used, and the oldest event first |
| DispatchQueue.Queue.TryStore | kernel_dev/libaudit/src/audisp/queue.c:151-171 | The locked part of one attempt to enqueue, with its counters |
| DispatchQueue.Queue.TryTake | kernel_dev/libaudit/src/audisp/queue.c:196-204 | The locked part of dequeue after the wait; the counter goes down even when nothing was found |
| DispatchQueue.Queue.IncreaseDepth | kernel_dev/libaudit/src/audisp/queue.c:216-230 | A larger depth adds free slots at the end; a smaller one does nothing |
| DispatchQueue.Queue.constructor | kernel_dev/libaudit/src/audisp/queue.c:47-70 | An empty ring of the given depth |
| Splitting.PiecesOfSum | kernel_dev/libaudit/src/common/strsplit.c:27-56 | A separator splits the work: the pieces of two texts joined by one are the pieces of each |
| Splitting.PiecesArePlain | kernel_dev/libaudit/src/common/strsplit.c:27-56 | Every piece is non-empty, free of separators and made of bytes of the text |
| Splitting.SplitsOffFirst | kernel_dev/libaudit/src/common/strsplit.c:38-55 | What one call splits off is the first piece, and it leaves the others |
| Splitting.Splitter.Next | kernel_dev/libaudit/src/common/strsplit.c:27-56 | Successive calls hand out the pieces in order, then nothing, though terminators are written into the text |
| Splitting.Splitter.SplitOff | kernel_dev/libaudit/src/common/strsplit.c:38-55 | One call skips separators, ends the piece with a terminator and remembers where |
| RecordFields.FieldSurvives | kernel_dev/libaudit/src/auparse/ellist.c:103-201 | A field written with the encoder anywhere in any record is read as the value given, one field or one per part of a combined key, and leaves the fields before and after it as they are |
| RecordFields.RecordRoundTrip | kernel_dev/libaudit/src/auparse/ellist.c:103-201 | A record written as a list of ordinary fields with NUL-free values is split and interpreted back to that list |
| RecordFields.RecordReading | kernel_dev/libaudit/src/auparse/ellist.c:122-201 | The same for all values and names, with what becomes of NULs, opening parentheses and combined keys |
| RecordFields.EncodeFieldWrites | kernel_dev/libaudit/src/lib/audit_logging.c:125-146 | The library call writes the field with the value its caller means if and only if that value has to be encoded or is the whole text; a missing value is written as a question mark |
| RecordFields.WholeTextIsWritten | kernel_dev/libaudit/src/lib/audit_logging.c:125-146 | It does for a NUL-terminated text and for a text given with its whole length |
| RecordFields.ShortLengthIsIgnored | kernel_dev/libaudit/src/lib/audit_logging.c:133-145 | A concrete text given with a shorter length that is written whole |
| RecordFields.FieldsOfSum | kernel_dev/libaudit/src/auparse/ellist.c:108-122 | Fields on either side of a space do not influence each other; everything after the interpretation separator is ignored |
| RecordFields.TokenOfField | kernel_dev/libaudit/src/auparse/ellist.c:124-172 | A token with a plain name is stored under it without its opening parenthesis and with its value trimmed |
| RecordFields.FieldIsRead | kernel_dev/libaudit/src/auparse/ellist.c:124-172 | A field followed by any of a closing parenthesis, a quote, a comma and a colon, in this order, and with or without an opening parenthesis before its name, is read as its name and its value without them |
| RecordFields.PunctuationIsTrimmed | kernel_dev/libaudit/src/auparse/ellist.c:152-172 | One of each of these is removed and no more; the parenthesis of (none) and (null) stays |
| RecordFields.MessageFieldIsRead | kernel_dev/libaudit/src/auparse/ellist.c:129-143 | The first field of a quoted message is read in the same way, without the message's name and quote |
| RecordFields.NoFieldIsRead | kernel_dev/libaudit/src/auparse/ellist.c:122-132 | The stamp of a record and a token without an equals sign give no field |
| RecordFields.InterpretationsAreIgnored | kernel_dev/libaudit/src/auparse/ellist.c:108-114 | Whatever follows the interpretation separator changes no field |
| RecordFields.PlainKeyIsKept | kernel_dev/libaudit/src/auparse/ellist.c:173-200 | A key that stands in parentheses or quotes or does not begin with two hexadecimal digits is one field with its value unchanged |
| RecordFields.StoredShown | kernel_dev/libaudit/src/auparse/ellist.c:173-200 | What is stored for an encoded value is shown as that value; an encoded key becomes one field for each of its parts |
| RecordFields.EscapeIsEncode | kernel_dev/libaudit/src/auparse/ellist.c:84-99 | The second encoder, which tests bytes as unsigned, agrees with the first, which tests them as signed |
| RecordFields.EncodedIsPlain | kernel_dev/libaudit/src/lib/audit_logging.c:85-123 | Encoded values contain no space or separator, and trimming does not touch them |
| RecordFields.ParseUpRecord | kernel_dev/libaudit/src/auparse/ellist.c:103-290 | The token loop collects exactly the record's fields, and fails exactly for a record without tokens |
| ValueCodec.PrintEncoded | kernel_dev/libaudit/src/auparse/interpret.c:798-829 | What a reader shows for an encoded value, for every value: it ends at a NUL, but a first NUL is dropped |
| ValueCodec.ReadingIffNoNul | kernel_dev/libaudit/src/auparse/interpret.c:798-829 | A value is shown unchanged if and only if it has no NUL |
| ValueCodec.UnescapedHex | kernel_dev/libaudit/src/auparse/interpret.c:341-394 | Unescaping the digits of a value gives the value |
| ValueCodec.DecodedHex | kernel_dev/libaudit/src/auparse/interpret.c:137-151 | Decoding undoes the encoding digit by digit |
| ValueCodec.NeedsEncodingIff | kernel_dev/libaudit/src/lib/audit_logging.c:85-98 | A value has to be encoded exactly if some byte is a double quote or not one of the printable characters after the space |
| ValueCodec.HexDigits | kernel_dev/libaudit/src/lib/audit_logging.c:103-123 | Each byte is written as its upper and then its lower hexadecimal digit, in upper case |
| ValueCodec.NibbleIs | kernel_dev/libaudit/src/auparse/interpret.c:137-151 | Digits of either case are decoded to their number |
| ValueCodec.IsHexIff | kernel_dev/libaudit/src/auparse/interpret.c:353-356 | Nothing else is a digit |
| ValueCodec.DecodedOdd | kernel_dev/libaudit/src/auparse/interpret.c:383-386 | A single last digit is decoded as the upper one of a byte |
| ValueCodec.UnescapedStopsAtNonDigit | kernel_dev/libaudit/src/auparse/interpret.c:353-356 | Digits are decoded up to the first byte that is none, whatever follows |
| ValueCodec.UnescapedOtherwise | kernel_dev/libaudit/src/auparse/interpret.c:347-373 | A text in parentheses is kept with them, and without a closing one refused |
| ValueCodec.UnescapedTooShort | kernel_dev/libaudit/src/auparse/interpret.c:375-382 | Fewer than two digits are refused |
| ValueCodec.PrintedOtherwise | kernel_dev/libaudit/src/auparse/interpret.c:798-829 | An unclosed quote is shown as a space, and what is not an encoding as it is |
| ValueCodec.DecodeInPlace | kernel_dev/libaudit/src/auparse/interpret.c:374-392 | Decoding in the buffer that holds the digits reads every digit before it is overwritten and stays inside the buffer |
| ValueCodec.Unescape | kernel_dev/libaudit/src/auparse/interpret.c:341-394 | The whole routine, with its forms in parentheses, its stop at the first non-digit and its refusal of fewer than two digits |
| ValueCodec.EncodeValue | kernel_dev/libaudit/src/lib/audit_logging.c:103-123 | The loop writes two digits per byte and a terminator and nothing beyond |
| ValueCodec.ValueNeedsEncoding | kernel_dev/libaudit/src/lib/audit_logging.c:85-98 | The scan finds whether any byte is special, with signed comparison |
| RuleLine.RuleLineRoundTrip | kernel_dev/libaudit/src/src/auditctl.c:1302-1333 | Arguments written with escaped spaces and backslashes come back unchanged after the first one, as many as there is room for; a first argument starting with # makes a comment |
| RuleLine.NothingLostIffRoom | kernel_dev/libaudit/src/src/auditctl.c:1304-1333 | All arguments come back if and only if there are at most a third of the line's length plus one |
| RuleLine.LongTokensFit | kernel_dev/libaudit/src/src/auditctl.c:1304-1328 | There is room for all tokens of at least two bytes |
| RuleLine.ShortArgumentIsLost | kernel_dev/libaudit/src/src/auditctl.c:1304-1331 | A concrete line of three single letters of which the last is lost |
| RuleLine.FirstArgument | kernel_dev/libaudit/src/src/auditctl.c:1327-1328 | The first argument, which is not unmarked, comes back if and only if it has no space or backslash |
| RuleLine.StopsAtEndIffPaired | kernel_dev/libaudit/src/src/auditctl.c:1220-1236 | Unmarking stops at the terminator if and only if no mark that it reaches is the last byte, and otherwise just after it |
| RuleLine.LosesNothingIffAligned | kernel_dev/libaudit/src/src/auditctl.c:1220-1236 | Unmarking stays inside a token and steps over no byte but the twin of a mark if and only if every mark that it reaches is followed by its twin |
| RuleLine.StrayMarkLosesByte | kernel_dev/libaudit/src/src/auditctl.c:1220-1236 | For every token that begins with a mark and another byte: unmarking stays inside, and that byte is lost |
| RuleLine.OverrunIff | kernel_dev/libaudit/src/src/auditctl.c:1302-1333 | Reading a line runs past the end of a token if and only if the line is a rule and some token after the first that there is room for ends in a mark that unmarking reaches |
| RuleLine.LoneMarkOverruns | kernel_dev/libaudit/src/src/auditctl.c:1220-1230 | A concrete line with a single mark byte as its second token, on which unmarking steps over the terminator |
| RuleLine.MarkFreeIsInside | kernel_dev/libaudit/src/src/auditctl.c:1184-1240 | A line without mark bytes is never overrun, and no byte of its tokens is lost |
| RuleLine.OtherEscapesStay | kernel_dev/libaudit/src/src/auditctl.c:1184-1208 | A backslash before a byte other than a space or a backslash stays, with that byte |
| RuleLine.BlankIffNoTokens | kernel_dev/libaudit/src/src/auditctl.c:1306-1317 | A line has no tokens exactly when it is blank, so a line that is not skipped always has one |
| RuleLine.TokensOfWritten | kernel_dev/libaudit/src/src/auditctl.c:1314-1315 | The tokens of a written line are its arguments, marked |
| RuleLine.ReadLine | kernel_dev/libaudit/src/src/auditctl.c:1302-1333 | Reading any line step by step gives what its tokens define: blank, a comment, a rule, or an overrun |
| RuleLine.FillFields | kernel_dev/libaudit/src/src/auditctl.c:1324-1333 | The argument vector is never overrun: it holds as many fields as leave an entry for the terminator, unless a token is |
| RuleLine.Preprocess | kernel_dev/libaudit/src/src/auditctl.c:1184-1208 | The loop marks escaped spaces and backslashes in place |
| RuleLine.Postprocess | kernel_dev/libaudit/src/src/auditctl.c:1211-1240 | The loop puts the marked bytes back in place and stays inside the text exactly if it stops at the terminator |
| RuleData.ReaderStep | kernel_dev/libaudit/src/src/auditctl-listing.c:43-73 | Adding up lengths leads a reader to every text at the place where the builder put it |
| RuleData.TextInPool | kernel_dev/libaudit/src/lib/libaudit.c:1634-1651 | A text stands in the buffer where the texts before it end, whatever is added later |
| RuleData.NumbersDoNotMatter | kernel_dev/libaudit/src/lib/libaudit.c:717-723 | Changing numeric values moves no text |
| RuleData.Rule.AddString | kernel_dev/libaudit/src/lib/libaudit.c:1483-1653 | A string field is added exactly if there is room for it among 64, its length is within its limit, its filter and kernel allow it and a key has something to belong to, all given in numbers, with the reason otherwise; the buffer stays the texts in order, the fields given before are kept, and what later keys may depend on is noted |
| RuleData.Rule.CheckString | kernel_dev/libaudit/src/lib/libaudit.c:1608-1639 | The checks and what they note for later keys |
| RuleData.Rule.AddNumber | kernel_dev/libaudit/src/lib/libaudit.c:1433-1434 | A numeric field is added exactly if there is room and the value is a number |
| RuleData.Rule.Push | kernel_dev/libaudit/src/lib/libaudit.c:1640-1652 | The next entry takes the field and its length or number, and the count stays below the limit |
| RuleData.Rule.AddWatch | kernel_dev/libaudit/src/lib/libaudit.c:751-794 | An empty rule becomes a watch of the path with all permissions, to which a key may be added; other rules and types are refused |
| RuleData.Rule.UpdatePerms | kernel_dev/libaudit/src/lib/libaudit.c:707-739 | All permission fields are updated, or one is added if there is none and room |
| RuleData.Rule.KeyMatch | kernel_dev/libaudit/src/src/auditctl-listing.c:43-73 | True exactly if no key is asked for or it stands somewhere in the text of some key field given to the builder |
| RuleData.Rule.ListTexts | kernel_dev/libaudit/src/src/auditctl-listing.c:318-383 | The strings listed are those given to the builder, in order, combined keys part by part |
| RuleData.TextsOfSum | kernel_dev/libaudit/src/src/auditctl-listing.c:318-383 | The strings listed for two lists of fields are those of the first and then those of the second |
| RuleData.TextsOfOne | kernel_dev/libaudit/src/src/auditctl-listing.c:318-383 | A string field is listed as its number and text, and a key without separators too; a numeric field is not listed |
| RuleData.ContainsIff | kernel_dev/libaudit/src/src/auditctl-listing.c:43-73 | The search for a key succeeds exactly if the key stands at some place in the text |
| GenTables.TableFindsFirstSpecified | kernel_dev/libaudit/src/lib/gen_tables.c:255-337 | For every number the table finds the name specified first for it, at its place in the pool, and nothing for numbers without one |
| GenTables.OutputTable | kernel_dev/libaudit/src/lib/gen_tables.c:255-337 | Whichever form is chosen means the sorted list; the one with a cell for every number is chosen exactly if the greatest number exceeds the least by at most twice the count of numbers; generation is given up exactly for forbidden duplicates |
| GenTables.OutputDirect | kernel_dev/libaudit/src/lib/gen_tables.c:285-312 | The table with a cell for every number means its list |
| GenTables.OutputSearch | kernel_dev/libaudit/src/lib/gen_tables.c:313-334 | The two arrays mean their list, and the numbers increase strictly |
| GenTables.Unique | kernel_dev/libaudit/src/lib/gen_tables.c:273-281 | Keeping the first of equal numbers changes no meaning |
| GenTables.HasDuplicates | kernel_dev/libaudit/src/lib/gen_tables.c:262-271 | Neighbours are compared, which finds every duplicate of a sorted list |
| GenTables.OffsetPoints | kernel_dev/libaudit/src/lib/gen_tables.c:144-171 | Every offset points at its NUL-terminated name in the pool |
| GenTables.OutputStrings | kernel_dev/libaudit/src/lib/gen_tables.c:144-171 | Every name is placed, and the pool that is emitted has each name at its offset's place |
| GenTables.PlaceNames | kernel_dev/libaudit/src/lib/gen_tables.c:149-153 | The first loop gives every value the length of the names before it |
| GenTables.EmitNames | kernel_dev/libaudit/src/lib/gen_tables.c:156-170 | The second loop emits the names in order, each with its terminator |
| GenTables.FirstIsFirstSpecified | kernel_dev/libaudit/src/lib/gen_tables.c:108-126 | With ties broken by position, the first entry of a number in sorted order is the one specified first |
| ShellEscape.EscapedIsDecodable | kernel_dev/libaudit/src/auparse/interpret.c:196-247 | Both escape modes have an inverse that recovers every text |
| ShellEscape.EscapedIsInjective | kernel_dev/libaudit/src/auparse/interpret.c:196-247 | Different texts have different escaped forms |
| ShellEscape.ByteForms | kernel_dev/libaudit/src/auparse/interpret.c:196-247 | Which bytes are written as a backslash and three octal digits, which with a backslash, in each mode, and that all others are written as they are |
| ShellEscape.CountedIff | kernel_dev/libaudit/src/auparse/interpret.c:182-228 | A byte is counted exactly if it is escaped, or is above the ASCII range in the mode that compares it as signed |
| ShellEscape.CountBoundsLength | kernel_dev/libaudit/src/auparse/interpret.c:3103-3105 | The space computed from the count is enough for the escaped text |
| ShellEscape.NothingCounted | kernel_dev/libaudit/src/auparse/interpret.c:182-228 | Skipping the escape when nothing is counted changes no text; in quoting mode the count is 0 exactly then |
| ShellEscape.Escape | kernel_dev/libaudit/src/auparse/interpret.c:196-247 | The loop writes the escaped text and its terminator inside the space set aside |
| ShellEscape.Need | kernel_dev/libaudit/src/auparse/interpret.c:182-228 | The counting loop |
| ShellEscape.Interpretation | kernel_dev/libaudit/src/auparse/interpret.c:3093-3110 | The text handed out is the escaped one, whether or not the escape was skipped |

## Left out

- Evaluating search expressions (`expr_eval`, value comparison): it adds only case analysis over opaque field lookups.
- Extracting time stamps, record types and node names from a line: a line is given already parsed or malformed, and the record type of a line is part of it.
- `auparse_reset`, `au_lol_clear`, destroy functions and the cursor functions over records and fields: they release or walk what the model keeps.
- Reading from files, several logs, sockets and descriptors, callbacks, the wall clock and interrupted system calls: their results are parameters.
- Allocation failure: every allocation succeeds.
- `GetReady` in its testing mode is `HasReady`; the debugging output of the table is not modelled.
- EventPacing.OrderFixedIffSteady: does not cover events with equal time stamps and serial numbers, such as one that is opened again after it was complete; among these the lower slot comes out first, which depends on which slots were free.
- FeedOutput.Feed.Give: reads all complete lines before it takes in the first, where the original reads each when it takes it in; nothing else touches the buffer in between.
- ExprRoundTrip.PrintThenParse: does not cover comparisons with time stamps, whose text is not part of the expression; ExprGrammar.ValueParsedIff says how they are read.
- EventParser.Parser.ConsumeFeed: does not model what the callback does with an event, only which events it is given and in which order.
- RecordFields.ParseUpRecord: does not model records of type AVC and USER_AVC, whose unlabelled tokens become fields, and the bookkeeping of type, architecture, system call and arguments while a record is split; only tokens with an equals sign become fields.
- The escaping of combined keys and of terminal output: the latter does not escape backslashes and has no inverse.
- Overflow actions of the queue other than suspending (system log, run levels) and the queue's state report: no effect on the queue.
- The wait of a consumer is split into a step that starts waiting and a step that wakes; spurious wake-ups are among the steps.
- RuleData.Rule.AddNumber: does not model the checks of each numeric field, its operators and its names, which are a long table of cases; a numeric field is given with its number or without one.
- RuleData.Rule.AddWatch: does not limit the path's length to 32 bits, as the original does not either.
- Printing of rules apart from the strings of their fields; `print_rule` is modelled for fields whose names are known, as those of string fields are.
- The lookup helpers for generated tables are not part of this model; the meaning of a table is given directly, and the numbers of the search form are proved to increase strictly.
- Sorting in the table generator is the C library's: the sorted list is any list with the same values that the comparison accepts as sorted.
- The linked lists behind records and fields and their cursors: a record's fields are a sequence.
- The string-to-number tables, the configuration parsers, event normalisation and the numeric interpreters: many shallow cases without a common invariant.
