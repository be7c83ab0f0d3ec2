# The protocol engine of hiredis, modelled and proved

hiredis is the C client library for Redis that is bundled under `redis/hiredis`. This project models
the part of it that turns commands into bytes and bytes into replies, and proves what that part is
for. Each C file has its modules here; code that works in place is modelled in place.

| C file | modules |
|---|---|
| `sds.c` | `Sds` (header, slack, buffer with its NUL), `Decimal` (printers and the number scanner), `Quoting`, `QuotedLines` (how a line may be written), `Split` |
| `read.c` | `Resp` (reply trees, encodings, the recursive grammar), `ReaderMachine` (the explicit-stack reader on values), `Reader` (the reader itself: buffer, nine stack frames, reply objects on the heap) |
| `hiredis.c` | `Command` and `Format` (the three formatters), `Connection` (output buffer, error and reader of a context) |
| `async.c` | `Arguments` (the second decoder of commands), `CommandSort` (which commands change the mode), `AsyncMachine` (the connection on values), `AsyncRuns` (what every run keeps), `AsyncLedger` (what the user asks for and is given), `AsyncTraffic` (bytes counted from the events, and how it ends), `CallbackLists` and `Async` (the linked queue and the context itself) |
| `dict.c` | `Dictionary`, `DictIterator` |

`Bytes` and `Socket` hold what they share. The value-level modules carry the theorems; the classes
are proved against them, method by method, with the whole new state in each contract.

The main results:

- **The reader refines a recursive grammar.** The reader keeps its recursion in nine frames and can
  stop at any byte. On all byte strings it emits what the recursive grammar parses, waits exactly
  when the grammar needs more bytes, fails exactly when the grammar rejects, and writes through a NULL
  pointer exactly when the grammar says so; array counts are converted to `int` as in the code.
- **Chunking does not matter.** For all bytes, cut and polled in any way, the replies and the final
  state are those of one feed.
- **Commands round-trip twice.** The three formatters write the same bytes, exactly as many as
  they announced. The reader gives the arguments back as one array of bulk strings, and so does
  `nextArgument`.
- **The asynchronous connection keeps its promises in every run.** User code is an arbitrary function
  from all that has happened to a list of API calls. Callbacks leave the queue in the order they were
  issued, each once, and each is called with what it leaves with. While the context lives, every reply
  received is with its callback, the k-th with the k-th; NULL is given only after an error or a free by
  the user. Exactly the commands asked for before the first call that closes the connection are accepted,
  from outside and in callbacks, and exactly the bytes the socket has taken are gone from their texts.
  The drain ends although callbacks call the API; the assertion of a clean disconnect never fires; no
  byte of output is lost or reordered, and what is written reads back as the accepted commands. When a
  requested disconnect goes through is stated exactly, for single events and for runs.
- **Quoting, splitting, decimal printing** have exact inverses, and appending is amortised. Which lines
  `sdssplitargs` splits, into what, and which ones it refuses is stated by how they are written.
- **The hash table is a finite map** under every sequence of operations, resizing included, and its iterator
  visits every entry once even when entries are deleted on the way.

Three things the code does that its documentation does not say:

- The comment in `redis/hiredis/async.c:498` promises to try again while a connection attempt is in
  progress. But asking the socket (`redis/hiredis/net.c:238-242`) has set the error of the context,
  nothing clears it, and the first real event then disconnects: `AsyncRuns.InProgressIsFinal`, with a
  run in `AsyncRuns.ReportReached`. `AsyncRuns.TriesAgainExactly` says when the promise does hold: a
  context that waits for its connection can still move a byte exactly when no event has reported the
  attempt as in progress.
- The assertion of `redis/hiredis/async.c:463` depends on the server, and `AsyncRuns.AbortedReached` is
  a run in which it fails. `AsyncRuns.AbortsExactlyWhen` gives the exact condition for one turn and
  `AsyncRuns.AbortedExactlyWhen` for runs: a server that answers no more than it was asked never causes it.
- The count of an array is a `long` where it is tested (`redis/hiredis/read.c:320`, `344`) and an `int`
  where the array is made (`read.h:65`, `hiredis.c:134`). A positive count that is not positive as an
  `int` opens an array without a vector for its children, and the first child is then written through
  NULL: `ReaderMachine.LostReached` with the smallest such count, 2147483648, and
  `AsyncRuns.CrashedReached` with a connection it ends. `ReaderMachine.VectorlessExactlyWhen`,
  `AstrayExactlyWhen` and `LostExactlyWhen` give the exact conditions on the reader and
  `AsyncRuns.CrashedExactlyWhen` those on runs; no tree has an encoding with such a count. Other counts
  come out as other arrays: 4294967297 takes one child (`CutCountReached`), -4294967295 gives an array
  with one NULL slot (`HollowReached`).

Conventions: a byte is an integer below 256 and a string of them a sequence. Sizes and counts are
unbounded unless a width matters; the number scanner wraps at 64 bits, the hash at 32, array counts and
the length that `nextArgument` reads are converted to `int`, the length of a command and the slots of
the hash table are bounded as their `int` demands. A program that has written through NULL is `Lost`
(reader) or `Crashed` (connection) for good; the reader class marks this with an error code of its own.
What the operating system reports (`Socket`) and what user code does are parameters. In contracts,
`old(State())` and `State()` are the value-level states before and after. Some methods stand for a
part of a C function (`ReadText`, `Fetch`, `HasSlot`); they are named in comments and have no row below.

## Model

| member | source | states |
|---|---|---|
| Decimal.LongLongFits | redis/hiredis/sds.c:292-298 | every number from the minimum long long (exclusive) to the maximum unsigned one prints in at most 20 bytes, so that text and NUL fit in SDS_LLSTR_SIZE |
| Decimal.CountDigits | redis/hiredis/hiredis.c:192-203 | the four-digits-at-a-time count is the length of the decimal text that the printers emit |
| Decimal.ReverseInPlace | redis/hiredis/sds.c:316-327 | the swap loop reverses the first l bytes in place and leaves the others alone |
| Decimal.LongLongToStr | redis/hiredis/sds.c:299-328 | for every long long but the minimum: the decimal text, then NUL, in a buffer of SDS_LLSTR_SIZE bytes |
| Decimal.UnsignedToStr | redis/hiredis/sds.c:331-357 | the same for unsigned values |
| Decimal.FromLongLong | redis/hiredis/sds.c:719-732 | filling backwards gives the same text as reversing does |
| Decimal.ReadLongLong | redis/hiredis/read.c:148-173 | the scan up to the first CR, with 64-bit wrap-around written out, computes the number function on all bytes; any other byte makes it -1 |
| Decimal.DecimalRoundTrip | redis/hiredis/read.c:148-173 | scanning a printed long long (not the minimum) followed by CR gives it back, whatever follows, and no intermediate value exceeds LLONG_MAX |
| Decimal.MinimumRoundTrip | redis/hiredis/read.c:148-173 | so does scanning the printed minimum, which wraps twice on the way |
| Resp.ReadBodyAppend | redis/hiredis/read.c:215-300 | what one item is read as does not change when more bytes arrive behind it, unless it was still incomplete |
| Resp.ParseEncode | redis/hiredis/read.c:367-413 | the recursive grammar parses every encoding of a tree back to that tree and stops exactly behind it; nil may be spelled as a bulk string or as an array of length -1, an integer with a plus sign |
| Resp.ParseEncodeAll | redis/hiredis/read.c:302-365 | the same for the children of an array, in order, each in an encoding of its own |
| Resp.EncodableExactly | redis/hiredis/read.c:367-413 | exactly the trees with one-line texts, 64-bit integers (the minimum included), array counts within int, bulk lengths within long long and at most 8 array levels have an encoding |
| ReaderMachine.BreaksExactlyWhen | redis/hiredis/read.c:302-413 | processing an item is a protocol error exactly when a type byte is read that is none of the five or is a * with 8 enclosing arrays |
| ReaderMachine.VectorlessExactlyWhen | redis/hiredis/read.c:302-365 | an array is opened without a vector for its children exactly when its count is positive and the low 32 bits of it, as an int, are not |
| ReaderMachine.AstrayExactlyWhen | redis/hiredis/hiredis.c:102-189 | an object is written through NULL exactly when the innermost array has no vector and its first child, of whatever type, is there in full |
| ReaderMachine.GetReply | redis/hiredis/read.c:477-525 | the reader state stays well-formed (at most 8 open arrays, each with fewer items than its positive count, save that the innermost may have no vector), a reply consumes at least one byte, and a failed or lost reader stays that |
| ReaderMachine.GetReplyFeed | redis/hiredis/read.c:445-525 | feeding more bytes does not change a reply that could be taken before |
| ReaderMachine.DrainFeed | redis/hiredis/read.c:445-525 | taking replies, feeding and taking again equals feeding first |
| ReaderMachine.ChunkingDoesNotMatter | redis/hiredis/read.c:445-525 | for every list of feeds and calls for a reply, on any bytes: the replies given and the final state, error included, are those of one feed of all the bytes |
| ReaderMachine.StackParses | redis/hiredis/read.c:190-413 | with any stack of open arrays, the explicit-stack reader agrees with the recursive parser on the item in progress |
| ReaderMachine.StackRefinesRecursion | redis/hiredis/read.c:190-525 | on any bytes, the explicit-stack reader emits what the recursive grammar parses, waits exactly when the grammar is incomplete, fails exactly when it rejects and writes through NULL exactly when it is lost |
| ReaderMachine.GetReplyEncoded | redis/hiredis/read.c:477-525 | a buffer that starts with any encoding of a tree of at most 8 array levels yields exactly that tree and leaves exactly the rest unread |
| ReaderMachine.EncodedStream | redis/hiredis/read.c:445-525 | a stream of encoded trees, each in any of its encodings, cut into feeds anywhere with calls in between, comes out as exactly those trees, and the reader is clean again |
| ReaderMachine.CountOutcome | redis/hiredis/read.c:302-365 | for every long long as the count of an array with one encoded reply behind it: nil, an array without children, an array of that reply, a wait for more, or a write through NULL, decided by the count as a long and as an int |
| ReaderMachine.LostExactlyWhen | redis/hiredis/read.c:343-357 | that program writes through NULL if and only if the count is positive and its low 32 bits, as an int, are not |
| ReaderMachine.LostReached | redis/hiredis/read.c:343-357 | the smallest such count, followed by an empty status, does so |
| ReaderMachine.CutCountReached | redis/hiredis/hiredis.c:134-157 | a count of 4294967297 takes a single child for the whole array |
| ReaderMachine.HollowReached | redis/hiredis/hiredis.c:134-157 | a count of -4294967295 gives an array with one NULL slot |
| Sds.AmortisedGrowth | redis/hiredis/sds.c:129-249 | over any sequence of appends to an empty string below SDS_MAX_PREALLOC, the bytes carried over by reallocations are at most twice the final length |
| Sds.SlackBounded | redis/hiredis/sds.c:129-147 | at any size, appends never leave more slack than the content or the preallocation limit |
| Sds.String.constructor | redis/hiredis/sds.c:51-66 | the content is the initial bytes, with a NUL behind it and no slack |
| Sds.String.MakeRoomFor | redis/hiredis/sds.c:129-147 | the content stays and the header changes as the growth policy says; enough room is the only case without a new buffer |
| Sds.String.CatLen | redis/hiredis/sds.c:237-249 | the content becomes old content plus appended bytes, with a NUL behind it |
| Sds.String.Range | redis/hiredis/sds.c:575-603 | in place, the content becomes the requested slice, negative and overlong indices included; no byte of the allocation is lost |
| Sds.SliceMeans | redis/hiredis/sds.c:559-603 | the requested slice in terms of plain indices: both ends included, negative ones counted from the end, clamped on both sides, nothing when they cross |
| Sds.String.CatAll | redis/hiredis/sds.c:237-249 | after any sequence of appends the content is the concatenation of the pieces with a NUL behind it, and the header is the one that the growth lemmas speak of |
| Sds.Collect | redis/hiredis/sds.c:129-249 | the appends at work from the empty string: the content is the concatenation, at most twice its length has been carried over, and at most twice its length is allocated |
| Sds.String.CatFmt | redis/hiredis/sds.c:425-526 | appends exactly the expansion of the format: %s, %S, %i, %I, %u, %U, %T, %% and an unknown directive as its own letter |
| Sds.DirectivesMean | redis/hiredis/sds.c:449-510 | %s stops at the NUL, %S does not, %i and %u print the number, any letter that is no directive stands for itself |
| Sds.String.RenderArg | redis/hiredis/sds.c:449-510 | one directive becomes its text, numbers through the stack buffer of SDS_LLSTR_SIZE bytes |
| Split.SplitUnique | redis/hiredis/sds.c:658-705 | a string has exactly one list of tokens that are free of the separator, end leftmost and join to it |
| Split.SplitLen | redis/hiredis/sds.c:658-705 | for every string and non-empty separator, the tokens are that list, the vector is never indexed outside its slots, and an empty separator gives NULL |
| Split.JoinSds | redis/hiredis/sds.c:962-971 | the tokens with the separator between them |
| Split.SplitThenJoin | redis/hiredis/sds.c:658-705 | joining what sdssplitlen returns gives the string back |
| Quoting.CatRepr | redis/hiredis/sds.c:740-763 | appends the quoted form: escapes for quote, backslash, control letters, two lower-case hex digits for what does not print |
| Quoting.ReprExactly | redis/hiredis/sds.c:740-763 | the quoted form of each of the 256 bytes |
| Quoting.ReadRepr | redis/hiredis/sds.c:833-855 | reading one quoted byte in double quotes gives that byte, all 256 of them |
| Quoting.DoubleStep | redis/hiredis/sds.c:832-866 | one step inside double quotes follows the reading function, hex escapes and the closing-quote rule included |
| Quoting.SingleStep | redis/hiredis/sds.c:867-881 | one step inside single quotes follows the reading function |
| Quoting.PlainStep | redis/hiredis/sds.c:882-888 | one step outside quotes follows the reading function |
| Quoting.SplitArgs | redis/hiredis/sds.c:815-923 | on every line up to its NUL the result is that of the reading function: the arguments, or NULL for unbalanced quotes |
| QuotedLines.SplitsExactly | redis/hiredis/sds.c:787-923 | a line is split into these arguments if and only if it is written as words that mean them, with gaps: words without quotes, and words that end in a part in double quotes (escapes, hex digits) or in single quotes, a blank or nothing behind it |
| QuotedLines.RefusedExactly | redis/hiredis/sds.c:800-923 | a line is refused if and only if, after such words, a quote is never closed or is closed with something other than a blank behind it |
| QuotedLines.PlainWords | redis/hiredis/sds.c:882-903 | words without blanks and quotes, joined by spaces, are split into themselves |
| Quoting.QuotingRoundTrip | redis/hiredis/sds.c:740-923 | for every list of byte strings, NULs and quotes included, splitting their quoted forms joined by spaces gives exactly that list |
| Quoting.QuoteThenSplit | redis/hiredis/sds.c:740-971 | the code at work: quoting every argument, joining with spaces and splitting returns the arguments |
| Command.CommandRoundTrip | redis/hiredis/hiredis.c:530-566 | fed to the reader in any pieces, the text of a command yields one array of bulk strings equal to its arguments, and nothing is left over |
| Command.CommandEncodes | redis/hiredis/hiredis.c:530-566 | the text of a command is an encoding of the array of its arguments |
| Command.SizesFitExactly | redis/hiredis/hiredis.c:540-549 | every partial sum of the lengths stays below INT_MAX exactly when the length of the whole command does; then so do its count and every argument length |
| Command.BulkLen | redis/hiredis/hiredis.c:206-208 | the length of an encoded bulk string |
| Command.TotalLength | redis/hiredis/hiredis.c:540-545 | the length computed before anything is written is the length of the whole text |
| Command.FormatCommandArgv | redis/hiredis/hiredis.c:530-566 | the buffer holds exactly the text of the command and a NUL, and its asserted length is right |
| Command.FormatSdsCommandArgv | redis/hiredis/hiredis.c:477-519 | the string built through sdscatfmt and sdscatlen holds the same text, byte for byte, its asserted length is right, and that length is returned as an int |
| Command.CatBulk | redis/hiredis/hiredis.c:509-512 | appends one encoded bulk string |
| Format.WordsAreTheFormat | redis/hiredis/hiredis.c:210-442 | the words of a format, put together, are the format without its gaps, and no word holds a gap or is empty |
| Format.ScanFillsWords | redis/hiredis/hiredis.c:231-391 | interpolating while scanning gives the words of the format, split at its spaces first, each filled with its arguments |
| Format.ScanIsMeaning | redis/hiredis/hiredis.c:231-391 | the same from the start of a format: an interpolated value never splits a word and an empty one never drops it |
| Format.Interpolate | redis/hiredis/hiredis.c:259-271 | one directive appends its argument: up to the first NUL for %s, whole for %b |
| Format.SplitFormat | redis/hiredis/hiredis.c:226-394 | the scan over a format of literals, spaces, %s, %b and %% gives the filled words |
| Format.VFormatCommand | redis/hiredis/hiredis.c:210-442 | the result is, byte for byte, the text that redisFormatCommandArgv gives for the filled words |
| Arguments.StrChr | redis/hiredis/async.c:566-578 | strchr on NUL-terminated text |
| Arguments.NextArgument | redis/hiredis/async.c:566-578 | on any NUL-terminated text, finds the next argument as the value-level function says; NULL when no $ is left |
| Arguments.NextInCommand | redis/hiredis/async.c:566-578 | from the position of argument j of a formatted command it delivers exactly argument j and the position of the next one, and NULL behind the last; its assertion holds |
| Arguments.AllArguments | redis/hiredis/async.c:566-578 | iterated over a formatted command it yields exactly the arguments, in order, then NULL, whatever bytes they hold |
| CommandSort.StrNCaseEq | redis/hiredis/async.c:608-629 | the comparison without case against a whole word |
| CommandSort.FindSort | redis/hiredis/async.c:600-640 | which of the four branches a formatted command takes, from its text alone, is what its list of arguments says |
| CommandSort.TakenForExactly | redis/hiredis/async.c:604-629 | a name is taken for a mode-changing word exactly when it is that word, each letter small or capital, or starts with it and a line end |
| CommandSort.ModesRecognised | redis/hiredis/async.c:600-632 | monitor, subscribe, unsubscribe and the pattern variants are recognised in small letters, capitals or both, subscribe only with an argument |
| AsyncMachine.ClosingStays | redis/hiredis/async.c:275-317 | while the connection is closing, whatever a callback calls, queue, output and everything but the two closing flags stay as they are |
| AsyncMachine.DoFree | redis/hiredis/async.c:275-317 | entered only with DISCONNECTING or FREEING set; the drain ends with an empty queue and the context freed |
| AsyncMachine.DoDisconnect | redis/hiredis/async.c:331-349 | the assertion of a clean disconnect, no callback pending, is its precondition, which every call in the model meets |
| AsyncMachine.PerformKeeps | redis/hiredis/async.c:265-272 | what user code in a callback cannot touch: reader, error, departed callbacks, replies taken, bytes read and written |
| AsyncMachine.TakeTurn | redis/hiredis/async.c:411-489 | a turn of the reply loop that is followed by another has taken a reply from the reader and has ended outside any callback |
| AsyncRuns.TurnKeeps | redis/hiredis/async.c:411-489 | one turn keeps the invariant of a live context, or leaves a context in order |
| AsyncRuns.AbortsExactlyWhen | redis/hiredis/async.c:447-465 | in one turn the assertion that the context is subscribed or monitoring fails exactly when a reply arrives that is not an error while no callback is queued |
| AsyncRuns.AbortedExactlyWhen | redis/hiredis/async.c:447-465 | in every run it fails only when the received bytes spell out more replies than there were commands and the first one too many is no error; unless the user has freed the context, it fails exactly then |
| AsyncRuns.AbortedReached | redis/hiredis/async.c:447-465 | a run in which it fails: a new connection is greeted with a status |
| AsyncRuns.CrashedExactlyWhen | redis/hiredis/async.c:411-489 | in every run the program writes through NULL only when the received bytes lead the reader there and spell out no more replies than there were commands; unless the user has freed the context, exactly then |
| AsyncRuns.CrashedReached | redis/hiredis/async.c:411-489 | a run in which it does: a new connection is greeted with an array of 2147483648 and a status |
| AsyncRuns.CallDisconnects | redis/hiredis/async.c:351-362 | a requested disconnect goes through at once exactly when no callback is pending |
| AsyncRuns.QuietReadDisconnects | redis/hiredis/async.c:411-430 | a read event with nothing to read disconnects exactly when a disconnect is requested, no callback is pending and the output buffer is empty; any other context it leaves as it was |
| AsyncRuns.ReadDisconnects | redis/hiredis/async.c:411-535 | after any read event no live context is left with a disconnect requested, nothing pending and nothing to send |
| AsyncRuns.WriteDisconnects | redis/hiredis/async.c:537-562 | a write event disconnects exactly on a write error; sending the last byte leaves the context live, idle if nothing is pending |
| AsyncRuns.IdleUntilRead | redis/hiredis/async.c:351-562 | over any run, an idle context with a disconnect requested lives exactly as long as there are only write events and commands, which change nothing |
| AsyncTraffic.RefusedForGood | redis/hiredis/async.c:351-595 | once the user has asked to disconnect or to free, from outside or in a callback, no later command is accepted in any run |
| AsyncTraffic.AskedDisconnectGoesThrough | redis/hiredis/async.c:411-535 | in every run, a read event that leaves nothing pending and nothing to send on a context that has been asked to disconnect ends it, by a free unless the server has sent what nobody asked for or what loses the program |
| AsyncRuns.StepKeeps | redis/hiredis/async.c:323-562 | every event, on every context that is in order, leaves a context in order |
| AsyncRuns.RunKeepsOk | redis/hiredis/async.c:323-562 | so does every run |
| AsyncLedger.PerformMeans | redis/hiredis/async.c:319-362 | what any list of calls made in a callback comes to: the commands before the first closing call join queue and output in order, none on a closing connection; a disconnect or a free among the calls leaves its mark |
| AsyncLedger.CommandIssued | redis/hiredis/async.c:583-648 | a command issued from outside puts its callback at the end of the queue and its text at the end of the output; on a closing connection it changes nothing |
| AsyncLedger.CallbackMeans | redis/hiredis/async.c:265-272 | a callback that is not NULL is called with its reply and with what has happened so far, and its calls come to what they mean; a NULL callback is not called |
| AsyncLedger.ReplyGiven | redis/hiredis/async.c:411-484 | a reply that a callback waits for takes it off the queue and is what it is called with; the commands it issues are accepted, the disconnect it asks for is marked, and a free it asks for goes through |
| AsyncLedger.EveryReplyToItsCallback | redis/hiredis/async.c:227-489 | in every run, whatever callbacks do: callbacks leave in the order they were issued, each once, the k-th with the k-th reply that the received bytes spell out or with NULL; exactly those that are not NULL have been called, with what they left with and with what had happened by then, and have made the calls the user then makes; while the context lives, as many have left as there are replies; when it is freed or the assertion has failed none is left in the queue; a reply is withheld only after a free by the user or when the server sent too many, and NULL is given only after an error or a free by the user |
| AsyncLedger.CommandsAsAsked | redis/hiredis/async.c:319-648 | in every run the accepted commands are those asked for, from outside and in callbacks, before the first call that closes the connection: their callbacks are those issued, in order, their texts the bytes written and waiting; the calls from outside are those among the events; a live context is disconnecting exactly when that has been asked for, and nobody has asked to free it |
| AsyncTraffic.OutputConserved | redis/hiredis/hiredis.c:794-918 | in every run, of the texts of the accepted commands exactly as many bytes have been written, from the front, as the socket has taken, and exactly the others wait; what has been read is what the socket has yielded |
| AsyncTraffic.WriteTraffic | redis/hiredis/hiredis.c:831-858 | a write event on which the socket takes n bytes moves exactly the first n bytes of the output buffer out |
| AsyncTraffic.ReadTraffic | redis/hiredis/hiredis.c:794-820 | a read event adds exactly what the socket yields to what has been received |
| AsyncTraffic.DrainMeans | redis/hiredis/async.c:275-317 | the drain gives NULL to every callback that is left, in order, and does nothing else |
| AsyncTraffic.FailureEnds | redis/hiredis/async.c:331-562 | a refused attempt, an error or the end of the stream on reading and an error on writing free the context and give NULL to every pending callback; no reply is taken and no command accepted any more |
| AsyncTraffic.FreeEnds | redis/hiredis/async.c:319-328 | so does a free by the user from outside |
| AsyncTraffic.FreeInCallbackEnds | redis/hiredis/async.c:469-475 | and a free that a callback asks for, once it has returned: the callbacks still pending, those of commands it has just issued included, get NULL |
| AsyncRuns.EncodedRepliesReachTheirCallbacks | redis/hiredis/async.c:411-489 | when the server sends encoded replies, perhaps cut off, the program never writes through NULL and every reply that has arrived whole is with its callback while the context lives; the assertion fails only on a reply beyond the number of commands that is no error |
| AsyncRuns.ServerReadsTheCommands | redis/hiredis/hiredis.c:831-918 | when everything is written, reading it yields the accepted commands, each as one array, and nothing is left over |
| AsyncRuns.DoneMeansAllSent | redis/hiredis/hiredis.c:831-858 | the output buffer is empty after a write exactly when every accepted command has been written |
| AsyncRuns.InProgressIsFinal | redis/hiredis/async.c:494-511 | once the socket has reported an attempt as in progress, the context stays but never reads, writes or takes a reply again in any run |
| AsyncRuns.EstablishedReads | redis/hiredis/async.c:494-535 | an unconnected context without an error receives what the server sends with the event that establishes the connection |
| AsyncRuns.MovesExactly | redis/hiredis/async.c:494-562 | from an unconnected live context some run moves a byte exactly when no error is pending |
| AsyncRuns.FailedSince | redis/hiredis/async.c:494-511 | as long as a context stays live and unconnected, an error is pending exactly when it was before or an event has reported an attempt in progress |
| AsyncRuns.TriesAgainExactly | redis/hiredis/async.c:494-511 | after any run that leaves the context waiting for its connection, some continuation moves a byte exactly when no event has reported the attempt as in progress |
| AsyncRuns.ReportReached | redis/hiredis/async.c:494-535 | two runs that differ only in such a report: one receives the data, the other nothing |
| CallbackLists.CallbackList.Push | redis/hiredis/async.c:227-247 | the linked list, by its head and tail, holds the old queue and the new callback at the end |
| CallbackLists.CallbackList.Shift | redis/hiredis/async.c:249-263 | takes the callback at the head; an error exactly when the queue is empty, which it leaves alone |
| Connection.RedisContext.AppendCommand | redis/hiredis/hiredis.c:907-918 | the output buffer grows by the command at its end; the reader is untouched |
| Connection.RedisContext.BufferRead | redis/hiredis/hiredis.c:794-820 | what arrives is fed to the reader; any failure and the end of the stream set the error, after which nothing is read |
| Connection.RedisContext.BufferWrite | redis/hiredis/hiredis.c:831-858 | of the output buffer exactly what lies behind the n bytes taken is left; done exactly when it is empty; after an error nothing is written |
| Connection.RedisContext.GetReply | redis/hiredis/hiredis.c:862-868 | the next reply of the reader as a tree of objects, or none; a protocol error becomes the error of the context |
| Async.AsyncContext.constructor | redis/hiredis/async.c:105-137 | a new context stands for the initial state |
| Async.AsyncContext.AsyncCommand | redis/hiredis/async.c:633-648 | a formatted command that its text shows to be plain is refused, with nothing changed, exactly when the context is closing; otherwise its callback is at the end of the queue and its text at the end of the output |
| Async.AsyncContext.Submit | redis/hiredis/async.c:684-687 | a command formatted by redisFormatCommandArgv and handed over: its callback is at the end of the queue and its text at the end of the output, unless the context is closing |
| Async.AsyncContext.AsyncDisconnect | redis/hiredis/async.c:351-362 | marks, which is all it does in a callback or with callbacks pending; otherwise disconnects at once |
| Async.AsyncContext.AsyncFree | redis/hiredis/async.c:319-328 | marks, which is all it does in a callback; otherwise frees at once |
| Async.AsyncContext.RunCallback | redis/hiredis/async.c:265-272 | the callback is called with the reply unless it is NULL; the whole new state after a callback that calls the API again as it likes |
| Async.AsyncContext.FreeNow | redis/hiredis/async.c:275-317 | the drain loop over the linked queue reaches the state of the drain function, and ends although callbacks call the API |
| Async.AsyncContext.DisconnectNow | redis/hiredis/async.c:331-349 | its assertion holds and the whole new state is that of the disconnect function |
| Async.AsyncContext.Turn | redis/hiredis/async.c:415-484 | one turn of the loop: the whole new state and whether there is another |
| Async.AsyncContext.ProcessCallbacks | redis/hiredis/async.c:411-489 | the loop reaches the state of the reply function and ends |
| Async.AsyncContext.HandleConnect | redis/hiredis/async.c:494-511 | the whole new state after the first event on a connection |
| Async.AsyncContext.HandleRead | redis/hiredis/async.c:513-535 | the whole new state after a read event |
| Async.AsyncContext.HandleWrite | redis/hiredis/async.c:537-562 | the whole new state after a write event |
| Async.AsyncContext.Handle | redis/hiredis/async.c:323-562 | for any finite sequence of events the objects go through exactly the run of the state machine, so that everything proved of runs holds of them |
| Reader.SeekNewline | redis/hiredis/read.c:120-144 | the first CRLF of the given bytes or none; it may look one byte further, which the string keeps at NUL |
| Reader.TreeAt | redis/hiredis/hiredis.c:102-189 | following the child pointers of a complete object spells out the reply it stands for |
| Reader.RedisReader.constructor | redis/hiredis/read.c:416-435 | a new reader stands for the fresh state |
| Reader.RedisReader.MoveToNextTask | redis/hiredis/read.c:190-213 | every array that the new item completes is closed and the stack of read tasks mirrors the open arrays; both assertions hold |
| Reader.RedisReader.ReadLine | redis/hiredis/read.c:175-188 | the line up to the first CRLF, the position moved behind it, or nothing |
| Reader.RedisReader.NumberAt | redis/hiredis/read.c:148-173 | the number at a position |
| Reader.RedisReader.CreateComplete | redis/hiredis/hiredis.c:102-189 | a finished object is linked into the next free slot of its parent |
| Reader.RedisReader.CreateArray | redis/hiredis/hiredis.c:134-157 | an array object with an int for its count and all its slots empty, none if that is not positive, linked into the next free slot of its parent |
| Reader.RedisReader.ProcessLineItem | redis/hiredis/read.c:215-247 | the new state is the one the machine gives, for all three line types, a missing slot for the object included |
| Reader.RedisReader.ProcessBulkItem | redis/hiredis/read.c:249-300 | the new state is the one the machine gives; an incomplete body changes nothing |
| Reader.RedisReader.ProcessMultiBulkItem | redis/hiredis/read.c:302-365 | the new state is the one the machine gives: nil, an array without children, a pushed frame with the count as an int, the depth error, or the write through NULL |
| Reader.RedisReader.ProcessItem | redis/hiredis/read.c:367-413 | the new state is the one the machine gives, or the protocol error for an unknown type byte |
| Reader.RedisReader.Feed | redis/hiredis/read.c:445-475 | the unread bytes grow by the chunk, also when the buffer is replaced by an empty one first; an error state stays |
| Reader.RedisReader.GetReplyStep | redis/hiredis/read.c:492-495 | each processed item makes the unread bytes strictly fewer, the one that completes a reply included |
| Reader.RedisReader.Compact | redis/hiredis/read.c:505-511 | discarding 1024 or more consumed bytes in place changes nothing of what the reader stands for |
| Reader.RedisReader.GetReply | redis/hiredis/read.c:477-525 | the new state and the reply are those of the machine; a reply is a tree of complete objects that spells it out |
| Reader.RedisReader.Serve | redis/hiredis/read.c:445-525 | for any list of feeds and calls, the replies of the object and its final state are those of the machine |
| Dictionary.GenHashFunction | redis/hiredis/dict.c:53-59 | the hash is the base-33 number of the bytes behind 5381, modulo 2 to the 32: shifting and adding in unsigned int wraps no otherwise |
| Dictionary.MaskIsMod | redis/hiredis/dict.c:98-118 | for a power of two, masking with size - 1 is the remainder, so a slot is below the size |
| Dictionary.NextPower | redis/hiredis/dict.c:306-315 | a power of two, at least 4 and at least the size asked for, and below twice that size unless it is 4; LONG_MAX for sizes that large |
| Dictionary.Dict.constructor | redis/hiredis/dict.c:69-85 | a new table stands for the empty map |
| Dictionary.Rehash | redis/hiredis/dict.c:88-132 | relinking every entry in place into the new table keeps the map, puts every entry into its new slot and leaves none behind, as asserted |
| Dictionary.MoveChain | redis/hiredis/dict.c:112-124 | moving one chain, entry by entry, keeps both sides in order |
| Dictionary.Dict.Expand | redis/hiredis/dict.c:88-132 | the mapping and the entries stay; the new size is a power of two and large enough; refused, with nothing changed, when the size asked for is too small |
| Dictionary.Dict.ExpandIfNeeded | redis/hiredis/dict.c:295-303 | afterwards there is room for one more entry; the size stays, is 4, or has doubled a full table |
| Dictionary.Dict.KeyIndex | redis/hiredis/dict.c:320-337 | the slot of a new key, returned as an int, or -1 exactly for a key that is there |
| Dictionary.Dict.Add | redis/hiredis/dict.c:135-154 | in a table whose slots an int can index, the map gains the key exactly when it was absent; otherwise an error and the same map |
| Dictionary.Dict.Replace | redis/hiredis/dict.c:160-179 | the map has the key with the new value; 1 exactly when the key is new |
| Dictionary.Dict.Delete | redis/hiredis/dict.c:182-210 | the map loses exactly the key and only its entry is unlinked; an error exactly when the key is absent |
| Dictionary.Dict.Find | redis/hiredis/dict.c:243-256 | the entry with the key and the value that the map has for it, NULL exactly when it has none |
| Dictionary.PerformAll | redis/hiredis/dict.c:135-256 | under every sequence of add, replace, delete and find, the table reports and holds exactly what a finite map does |
| Dictionary.CallbackTable | redis/hiredis/dict.c:53-256 | the same for a new table that hashes with dictGenHashFunction |
| DictIterator.Advance | redis/hiredis/dict.c:268-286 | the search for the next entry follows the flattened table and ends |
| DictIterator.Iterator.constructor | redis/hiredis/dict.c:258-266 | all entries are still to come |
| DictIterator.Iterator.Next | redis/hiredis/dict.c:268-286 | the next of the entries to come, NULL exactly when there is none; it stays right after the entry returned before has been deleted |
| DictIterator.Iterator.DeleteCurrent | redis/hiredis/dict.c:182-210 | deleting the entry just returned leaves the entries to come as they are |
| DictIterator.Visit | redis/hiredis/dict.c:258-286 | iterating to the end, deleting any of the entries on the way, returns every stored key exactly once and leaves exactly the entries not deleted |

## Left out

- Sockets, connecting, timeouts and the event-loop adapters: what the socket reports arrives as a parameter of a step.
- The blocking path of `redisGetReply`, which loops over reads and writes until a reply is there.
- Running out of memory, `malloc` and `free` themselves (freed objects are simply no longer referred to), and the texts in `errstr`.
- Readers with custom or NULL object functions, and freeing of replies and of the context's own memory.
- printf conversions in `redisvFormatCommand` and `sdscatvprintf`; a format with any other directive is outside the model.
- Calls of the argv formatters without lengths, where `strlen` supplies them: every argument comes with its length.
- Pub/sub and monitor mode. `CommandSort` decides which commands enter them; `Async` and `AsyncMachine` take the commands that do not.
- User code in `onConnect` and `onDisconnect`.
- Numbers outside the C types: the minimum long long in the printers, command lengths of INT_MAX and more where they are added up in an `int`, tables of more than 2^31 slots (of more than INT_MAX slots where the iterator casts the size). Digit strings beyond long long are covered by the wrap-around of the scanner.
- Resp.ParseEncode: lengths and counts are spelled as the decimal printers do, without signs or leading zeros; negative bulk lengths other than -1 and array counts below -1, which the reader takes, are no encodings.
- Sds.String.CatLen: strings of 2^31 bytes and more, the reader's buffer included; the header fields and the arguments of `sdsrange` are `int`s (`sds.h:45-46`) that nothing bounds here.
- Reader.RedisReader.CreateArray: the vector of child pointers is a sequence field of the array object and not an object of its own, so aliasing of that vector is not captured.
- Arguments.NextArgument: requires a line end behind the `$` it finds, which is the source's own assertion.
- Dictionary.Dict.Find: compares keys as byte strings, as the callback tables do; other key types of the table are not modelled, and values are callbacks.
- Dictionary.Dict.Add: requires at most 2^31 slots, after doubling a full table, because a slot is returned as an `int`.
- DictIterator.Iterator.Next: additions to the table during an iteration are not modelled; the source allows only deletion of the entry just returned.
- Async.AsyncContext.AsyncCommand: takes commands that the source itself would classify as plain, in a buffer that ends with their NUL.
- Async.AsyncContext.HandleRead: is entered, as an event loop does, outside callbacks and on a context that has not been freed.
- Async.AsyncContext.RunCallback: user code may call the API but does not feed events to its own context from within a callback.
- Growing and counting of strings by `sdsgrowzero`, `sdstrim`, `sdsmapchars` and the other plain helpers of `sds.c`: easy members.
- The benchmark around the client (generators, workloads, database drivers): floating point, randomness and calls into libraries.
