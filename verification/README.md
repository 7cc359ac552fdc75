# Movid, verified

A Dafny model of the parts of Movid and of the libraries it ships where most can go wrong, with
proofs of what they are for.

* **The finger matcher** (`Assignment`, `BitMask`, `Hungarian`, `Distances`, `Matcher`): the
  assignment solver of `contrib/bitmap_munkres`, its five mutually calling steps over 32-bit masks
  and a flat matrix, proved to terminate with an optimal assignment. The proof carries potentials
  (dual values) along with the matrix: every entry is its original cost less the potentials of its
  row and column, stars and primes are zeros, and lines that never had a star are never covered,
  which is what makes rectangular problems come out optimal.
* **The DNS resolver of libevent** (`DnsName`, `Rings`, `Resolver`): names with compression
  pointers (section 4.1.4 of RFC 1035), written and read in place, and the circular lists of
  requests and servers.
* **Movid's pipeline** (`Observers`, `WakeUp`, `Words`, `PipelineFile`, `PipelineParser`,
  `PipelineRoundTrip`, `PipelineExact`, `PipelineWhole`, `PipelineLines`): the graph of streams and modules, the
  protocol between notifiers and a worker thread as a state machine over its atomic steps, and the
  text format that pipelines are saved in.
* **The core of libevent** (`TimerHeap`, `EventLoop`, `EvBuffer`, `Tagging`, `Poll`): the timer heap
  with back pointers, the accounting of event queues, the sliding buffer, tagged records on top of
  it, and the descriptor index of the poll backend.
* **Wire formats** (`OscWords`, `Osc`, `OscWire`, `OscObjects`, `Json`, `JsonMemory`, `JsonWire`,
  `JsonText`): messages and
  nested bundles of Open Sound Control 1.0, and JSON (section 2 of RFC 4627) as cJSON prints and parses it.

`Lists`, `Octets`, `Options` and `Decimal` hold what the others share. Code that works by changing
things is modelled by classes, arrays and loops; each such method is proved against a function or
predicate, and the theorems are about those. Answers of the allocator, of sockets and of the
kernel's polling interface are parameters of the methods. `dafny verify dfyconfig.toml` checks
everything.

Some results say where the code does not do what one might expect:

* The second and every later blob of an OSC message is only safe when more strings than blobs come
  before it, because the array of blobs is then allocated with the number of strings
  (`Osc.MsgRoundTrip`, `Osc.TwoBlobsLost`).
* The closing zero of a DNS name is written without a look at the room that is left: one byte
  behind the buffer exactly when the labels fill it (`DnsName.ZeroBeyond`). Queries have room enough
  (`DnsName.RequestDataBuild`). A name with an empty label is written, and read back only up to it
  (`DnsName.DecodesExactly`).
* A long text in a pipeline file loses empty lines and lines that start with a number sign, and
  gains a final line end; a line of white space makes the file unreadable, and a boundary line turns
  the rest of the text into commands (`PipelineExact.ComesBackExactly`). A short value of more than
  a word is lost (`PipelineWhole.ComesBackWhole`), and so is the second input of a module on one
  stream (`PipelineWhole.SecondInputLost`).
* JSON strings lose control characters that have no short escape (`Json.RoundTrip`, `Json.ControlLost`).
  A JSON text that ends too early is read on behind its terminator (`JsonMemory.ReadsBehind`).
* Tagged records are not read from buffers between 2^31 and 2^32 bytes (`Tagging.LargeIsLost`).
* When name servers are cleared, the requests in flight do go in front of the waiting ones as the
  comment there says, but in reverse order (`Resolver.Queues.Suspend`). Resuming without a server
  uses a null pointer as soon as a request could go out (`Resolver.Queues.Resume`).

## Model

| member | source | states |
|---|---|---|
| `Matcher.MtdevMatch` | contrib/bitmap_munkres/match.c:386-389 | for every cost matrix of up to 32 by 32 integers the rows end up with distinct columns, exactly min(nrow, ncol) of them (-1 elsewhere), at a total original cost that no other such assignment undercuts; nothing behind the used parts of the arrays changes; and every value the matrix goes through, write by write, is between 0 and twice the width of any window that holds the costs |
| `Matcher.Solver.IxOptimal` | contrib/bitmap_munkres/match.c:88-186 | both preliminary reductions lead to a run that ends with an optimal assignment |
| `Matcher.Solver.ReduceRows` | contrib/bitmap_munkres/match.c:111-131 | after the row minima are subtracted all entries are non-negative and are the original costs less potentials (no stars yet) |
| `Matcher.Solver.ReduceColumns` | contrib/bitmap_munkres/match.c:145-164 | the same for column minima when there are more rows than columns |
| `Matcher.Solver.StarRows` | contrib/bitmap_munkres/match.c:132-143 | the greedy stars are a matching of zeros, and exactly the starred columns are covered |
| `Matcher.Solver.StarColumns` | contrib/bitmap_munkres/match.c:166-179 | the same, column by column, with all row covers gone afterwards |
| `Matcher.Solver.BuildIxVector` | contrib/bitmap_munkres/match.c:56-67 | once min(nrow, ncol) zeros are starred, the vector read off them is an optimal assignment |
| `Matcher.Solver.Step2a` | contrib/bitmap_munkres/match.c:189-209 | from any matching of zeros without covers the rest of the run terminates in an optimal assignment |
| `Matcher.Solver.CoverStarredColumns` | contrib/bitmap_munkres/match.c:195-203 | the covered columns are exactly the starred ones |
| `Matcher.Solver.Step2b` | contrib/bitmap_munkres/match.c:212-234 | as many covered columns as the smaller dimension means done, and fewer means that a star can be added |
| `Matcher.Solver.CountCovered` | contrib/bitmap_munkres/match.c:218-222 | the count is the number of covered columns |
| `Matcher.Solver.Step3` | contrib/bitmap_munkres/match.c:237-284 | zeros are primed until one has no star in its row or none is uncovered; the call cycle terminates because covered rows and then stars grow |
| `Matcher.Solver.Sweep` | contrib/bitmap_munkres/match.c:244-279 | one sweep over the columns ends with a zero from which a path can start, or with more rows covered, or with no uncovered zero left |
| `Matcher.Solver.PrimeZero` | contrib/bitmap_munkres/match.c:255-276 | priming an uncovered zero either asks for an augmentation or swaps one column cover for one row cover, and keeps every invariant |
| `Matcher.Solver.Step4` | contrib/bitmap_munkres/match.c:287-335 | with one more star the run goes on to an optimal assignment |
| `Matcher.Solver.AugmentAlongPath` | contrib/bitmap_munkres/match.c:293-324 | the alternating path ends, its prime search always succeeds, and exactly one star more results, still a matching of zeros under the same potentials |
| `Matcher.Solver.MoveStar` | contrib/bitmap_munkres/match.c:303-322 | one turn of the path moves the star of a row to its prime |
| `Matcher.Solver.Step5` | contrib/bitmap_munkres/match.c:338-384 | when no uncovered zero is left the potentials move and the run goes on |
| `Matcher.Solver.LeastUncovered` | contrib/bitmap_munkres/match.c:344-362 | some entry is uncovered, so the early return is unreachable, and `h` is the least such entry |
| `Matcher.Solver.Shift` | contrib/bitmap_munkres/match.c:364-378 | the two update loops move the potentials by `h`, keep all entries non-negative, stars and primes zero, and all covers right |
| `Matcher.Solver.RaiseRows` | contrib/bitmap_munkres/match.c:364-370 | after the first update loop every entry of the matrix is between 0 and twice the width of the cost window |
| `Matcher.Solver.LowerColumns` | contrib/bitmap_munkres/match.c:372-378 | the second loop brings every entry back and completes the shift |
| `Assignment.CertifiedIsOptimal` | contrib/bitmap_munkres/match.c:88-186 | weak duality for rectangular problems: an assignment of tight entries is optimal when the potentials of what is left out have the right sign |
| `Assignment.TotalAtLeast` | contrib/bitmap_munkres/match.c:88-186 | every assignment costs at least the sum of the potentials, corrected for free rows and columns |
| `Hungarian.FullStarsOptimal` | contrib/bitmap_munkres/match.c:223-226 | a full set of starred zeros under the invariant is an optimal assignment |
| `Hungarian.FreeRowAndColumn` | contrib/bitmap_munkres/match.c:212-234 | while stars are missing some row and some column has none |
| `Hungarian.FreeUncovered` | contrib/bitmap_munkres/match.c:344-362 | a row and a column that never had a star are uncovered, so step 5 finds an entry |
| `Hungarian.PrimeKeeps` | contrib/bitmap_munkres/match.c:255-276 | covering the row of a prime and uncovering the column of its star keeps the covering invariant |
| `Hungarian.ShiftKeeps` | contrib/bitmap_munkres/match.c:364-378 | the shift of step 5 keeps the dual and the covering invariant |
| `Hungarian.RaisedBound` | contrib/bitmap_munkres/match.c:364-370 | a covered row raised by `h` stays within twice the cost window |
| `Hungarian.WalkStep` | contrib/bitmap_munkres/match.c:303-322 | each turn of the alternating path keeps the partial exchange of stars consistent and moves to an earlier prime, so it cannot cycle |
| `Hungarian.WalkEnd` | contrib/bitmap_munkres/match.c:324-330 | at the end of the path the exchanged stars are a larger matching of zeros |
| `BitMask.SetBit` | contrib/bitmap_munkres/match.c:46-52 | setting a bit of a word changes the membership of that index only |
| `BitMask.ClearBit` | contrib/bitmap_munkres/match.c:46-52 | clearing a bit of a word changes the membership of that index only |
| `BitMask.MaskMatrix.Set` | contrib/bitmap_munkres/match.c:50-52 | a bit matrix with one word for each column is a partial map from rows to columns, updated at one row |
| `Distances.Buffer.Store` | contrib/bitmap_munkres/match.c:101-180 | the only way an entry is ever written: the log of writes that leads from the first matrix to this one gains one, and all values in it are between 0 and twice the width of the cost window |
| `Distances.UnflattenAt` | contrib/bitmap_munkres/match.c:244-279 | the buffer holds the matrix column by column: entry (r, c) is at r + nrow * c |
| `DnsName.DnsNameToLabels` | contrib/libevent-1.4.13-stable/evdns.c:1370-1433 | the writing loop computes the specified encoding, error codes and label table, in place, for buffers of any size, and tells whether its closing zero went behind the buffer |
| `DnsName.NameParse` | contrib/libevent-1.4.13-stable/evdns.c:756-809 | the reading loop computes the specified decoding: text, terminator and the offset after the name, or failure |
| `DnsName.PointerWritten` | contrib/libevent-1.4.13-stable/evdns.c:1377-1398 | a name that is in the table is written as two bytes, 0xc0 plus the high six bits of its offset and then the low eight, and nothing else changes |
| `DnsName.ParsePointer` | contrib/libevent-1.4.13-stable/evdns.c:775-790 | a byte from 64 on is a pointer: its low six bits times 256 and the next byte are the offset; outside the packet, or followed once too often, it is malformed |
| `DnsName.WireNames` | contrib/libevent-1.4.13-stable/evdns.c:756-809 | the bytes of `a.b`, and of a compressed name in an answer, read as they should |
| `DnsName.EncodeWrites` | contrib/libevent-1.4.13-stable/evdns.c:1370-1433 | whatever is written without error stands in the buffer as labels and backward pointers, and bytes before it are untouched |
| `DnsName.EncodeNameKeepsTable` | contrib/libevent-1.4.13-stable/evdns.c:1329-1367 | every entry of the shared table still stands for its own name after another name was written |
| `DnsName.ParseLaidOut` | contrib/libevent-1.4.13-stable/evdns.c:770-806 | the reader follows any layout to its end, exactly when the text and a closing zero have room; pointers, which are 14-bit offsets with the high bits first, lead strictly backwards, so their count never runs out |
| `DnsName.DecodeStanding` | contrib/libevent-1.4.13-stable/evdns.c:756-809 | a name that stands in a packet decodes to itself, up to a final dot, and to the offset just past it, exactly when there is room for it |
| `DnsName.JoinSplit` | contrib/libevent-1.4.13-stable/evdns.c:1380-1431 | splitting at dots and joining again gives the name back, up to a final dot |
| `DnsName.EncodeFits` | contrib/libevent-1.4.13-stable/evdns.c:1370-1433 | a name never needs more than its length and two bytes |
| `DnsName.MessageFits` | contrib/libevent-1.4.13-stable/evdns.c:1370-1433 | with that much room for every name all of them are written |
| `DnsName.EncodeOutcome` | contrib/libevent-1.4.13-stable/evdns.c:1370-1433 | for every name, table, offset and buffer: success exactly when the labels that are written out have at most 63 bytes and the room asked for is there; then the offset returned is known exactly, with one more for the closing zero; otherwise -2 when the labels fit, and -1 when one is too long and there is room |
| `DnsName.ZeroBeyond` | contrib/libevent-1.4.13-stable/evdns.c:1426-1430 | the closing zero is written behind the announced room exactly when a name without a final dot, none of whose tails is in the table, ends exactly there; it is never further out than one byte |
| `DnsName.ZeroBeyondTwoBytes` | contrib/libevent-1.4.13-stable/evdns.c:1426-1430 | the smallest such call: one letter into two bytes |
| `DnsName.RequestDataBuild` | contrib/libevent-1.4.13-stable/evdns.c:1439-1478 | a query is built exactly when its labels and the room allow it; with the room reserved for it no byte goes behind the buffer; its twelve header bytes and the four bytes of type and class are given one by one, high bytes first, and its name decodes |
| `DnsName.MessageRoundTrip` | contrib/libevent-1.4.13-stable/evdns.c:1329-1433 | any number of names written through one table decode, each from its own offset, to themselves (up to a final dot) and to the next offset; and every entry of the table, old or new, decodes to its own name |
| `DnsName.DecodesExactly` | contrib/libevent-1.4.13-stable/evdns.c:1370-1433 | a name that was written, with any table that stands or without one, decodes to itself (up to a final dot) and to the offset past it exactly when none of its labels is empty |
| `DnsName.EmptyLabelEnds` | contrib/libevent-1.4.13-stable/evdns.c:1399-1424 | an empty label is written as the zero that ends a name, so the reader stops before the end of what was written |
| `DnsName.TwoDotsLost` | contrib/libevent-1.4.13-stable/evdns.c:1399-1424 | the name `a..b` reads back as `a` |
| `DnsName.LabelTable.Lookup` | contrib/libevent-1.4.13-stable/evdns.c:1329-1339 | the position of the first entry with that name, or -1 |
| `DnsName.LabelTable.Insert` | contrib/libevent-1.4.13-stable/evdns.c:1341-1357 | an entry is added at the end unless the table has 128 |
| `Rings.Insert` | contrib/libevent-1.4.13-stable/evdns.c:2209-2221 | a request goes to the end of a doubly linked ring |
| `Rings.Unlink` | contrib/libevent-1.4.13-stable/evdns.c:554-564 | any member leaves a doubly linked ring, the rest keeps its order |
| `Rings.StepBack` | contrib/libevent-1.4.13-stable/evdns.c:2087-2091 | moving the head back by one turns the ring |
| `Rings.InsertServer` | contrib/libevent-1.4.13-stable/evdns.c:2148-2159 | a new server goes after the head of its ring |
| `Resolver.Pool.Pick` | contrib/libevent-1.4.13-stable/evdns.c:1122-1152 | while the good-server counter is positive the first working server from the head on is returned and the ring turned just past it, without ever coming back to the start; with none working the next server is returned |
| `Resolver.Pool.MarkDown` | contrib/libevent-1.4.13-stable/evdns.c:486-502 | the good-server counter stays the number of working servers |
| `Resolver.Pool.Add` | contrib/libevent-1.4.13-stable/evdns.c:2112-2170 | a known address or a failed socket adds nothing; otherwise the server joins the ring and counts as working |
| `Resolver.Queues.NameserverFailed` | contrib/libevent-1.4.13-stable/evdns.c:486-530 | when a working server fails and another still works, no request that was not sent yet stays assigned to it; no other assignment changes, and the counter follows |
| `Resolver.Queues.NameserverUp` | contrib/libevent-1.4.13-stable/evdns.c:533-542 | the server works and the counter follows |
| `Resolver.Queues.NameserverAdd` | contrib/libevent-1.4.13-stable/evdns.c:2112-2170 | a known address or a failed socket adds nothing, otherwise a new, working server with that address joins the ring; both request lists and all assignments stay |
| `Resolver.Queues.Transmit` | contrib/libevent-1.4.13-stable/evdns.c:1942-1981 | a choked or full socket leaves the request due, and a full one chokes its server; otherwise it counts as sent, also when its server failed on the way and is down now |
| `Resolver.Queues.TransmitDue` | contrib/libevent-1.4.13-stable/evdns.c:2017-2036 | sending what is due moves no request between the lists; each due request is sent once or stays due, and if no socket is full none stays due |
| `Resolver.Queues.Pump` | contrib/libevent-1.4.13-stable/evdns.c:615-641 | exactly as many waiting requests as there is room for move, in order, to the end of those in flight, until none waits or the limit is reached, and each is sent once or due; if no socket is full nothing stays due; the counters stay the lengths of two disjoint rings; with room, a waiting request and no server a null pointer is used, and only then |
| `Resolver.Queues.Submit` | contrib/libevent-1.4.13-stable/evdns.c:2233-2288 | a new request is in flight, and sent or due, if there is room and a server, else at the end of the waiting ones without a server; it is in one list and the others stay |
| `Resolver.Queues.Probe` | contrib/libevent-1.4.13-stable/evdns.c:1998-2012 | a probe is in flight, and sent or due, whether there is room or not |
| `Resolver.Queues.Finish` | contrib/libevent-1.4.13-stable/evdns.c:553-585 | exactly the finished request leaves, then waiting ones move up |
| `Resolver.Queues.PushAll` | contrib/libevent-1.4.13-stable/evdns.c:2074-2096 | walking a ring while its members are relinked elsewhere visits each once; they end up in front of the waiting ones in reverse order, as if they had never been sent |
| `Resolver.Queues.Suspend` | contrib/libevent-1.4.13-stable/evdns.c:2053-2101 | no server is left, nothing is in flight, and every request waits; none is lost; those that were in flight are as if they had never been sent, and their order survives exactly when there was at most one |
| `Resolver.Queues.Resume` | contrib/libevent-1.4.13-stable/evdns.c:2105-2109 | the requests of both lists together stay the same, and some still wait only if the limit is reached; without a server a null pointer is used exactly when a request could go out |
| `PipelineRoundTrip.RoundTrip` | src/moPipeline.cpp:218-422 | for pipelines whose short values are words and whose long texts have no boundary line among others: loading the saved file succeeds exactly when no long text has a line of white space and no module's last text is just the boundary; it then rebuilds the same modules in order, the same property values (long texts as far as a file can carry them) and the same connections with the observers of every stream in order, whatever order the properties are written in |
| `PipelineRoundTrip.KeptSame` | src/moPipeline.cpp:237-302 | what is kept of a text is the text itself exactly when it is empty or all its lines end, are not empty and do not start with a number sign |
| `PipelineRoundTrip.UnchangedWhenOrdinary` | src/moModule.cpp:403-448 | a module that was restored has all its values back exactly when its long texts are of that kind |
| `PipelineRoundTrip.WhiteSpaceLost` | src/moPipeline.cpp:245-255 | a line of white space in any long text of such a pipeline makes its file impossible to load |
| `PipelineRoundTrip.SpaceLine` | src/moPipeline.cpp:245-255 | the smallest such text: a space and a line end |
| `PipelineRoundTrip.EmptyLineLost` | src/moPipeline.cpp:240-243 | a text that loses an empty line and gains a final line end |
| `PipelineRoundTrip.CommentLineLost` | src/moPipeline.cpp:240-243 | a text that is lost because it looks like a comment |
| `PipelineExact.ComesBackExactly` | src/moPipeline.cpp:218-422 | for every pipeline, whatever its long texts hold: all of them come back from its file exactly when each is empty or made of lines that end, are not empty, do not start with a number sign, hold more than white space and do not start with the boundary |
| `PipelineExact.TextMade` | src/moPipeline.cpp:255-299 | whatever commands a text may smuggle in, a file that loads has set every long text, to the empty string, to one word or to lines that can be carried |
| `PipelineExact.StepKeeps` | src/moPipeline.cpp:237-391 | no line of any kind can undo that a property was made by the file or is still waited for |
| `PipelineExact.BoundaryCuts` | src/moPipeline.cpp:255-299 | a boundary line inside a text gives the property the lines before it and turns what follows into another block or into commands |
| `PipelineWhole.ComesBackWhole` | src/moPipeline.cpp:218-422 | for every pipeline, whatever its short values and long texts hold: the file gives the same modules, kinds, values and connections back exactly when every short value is a word or nothing and every long text is empty or made of lines that end, are not empty, do not start with a number sign, hold more than white space and do not start with the boundary |
| `PipelineWhole.OddLost` | src/moPipeline.cpp:320-362 | the first short value that is more than a word is lost, whatever commands it smuggles in: two words on its first line make the file impossible to load, otherwise at most a word or a long text is in its place |
| `PipelineWhole.ShortStep` | src/moPipeline.cpp:237-391 | no line of any kind puts more than a word into a short property |
| `PipelineWhole.SeveralWordsRefused` | src/moPipeline.cpp:337-350 | a short value of several words makes its own line fail |
| `PipelineWhole.SecondInputLost` | src/moModule.cpp:452-469 | of several inputs of a module on one stream only the first is saved: if the file loads, the others are not connected |
| `PipelineLines.SetLineMeans` | src/moPipeline.cpp:337-350 | `pipeline set id name w`, for every state: refused when no module has the id; otherwise the first such module has the property assigned and nothing else changes |
| `PipelineLines.SetStringAssigns` | src/moProperty.cpp:54-107 | what assigning a word does: a string becomes the word, a boolean true exactly for `true`, `True`, `TRUE` and `1`, an integer the number the word is the decimal text of; what is read-only stays |
| `PipelineLines.ValuesPrinted` | src/moProperty.cpp:85-107 | a string is written as itself, a boolean as `true` or `false`, an integer in decimal |
| `PipelineLines.ConfigLineMeans` | src/moPipeline.cpp:305-310 | `config delay n` sets the delay, any other setting is ignored, one without a value is an error |
| `PipelineLines.CreateLineMeans` | src/moPipeline.cpp:314-335 | `pipeline create kind id` is accepted exactly when the id is new and the kind known, and adds one module of that kind with its properties and a fixed id at the end |
| `PipelineLines.SetTextLineMeans` | src/moPipeline.cpp:352-362 | `pipeline settext id name tag` makes the property wait for its block |
| `PipelineLines.ConnectLineMeans` | src/moPipeline.cpp:364-386 | `pipeline connect` is accepted exactly when the input exists and takes the format; an input that was connected moves, the stream it had loses one observer and the new one gains it at the end; an output that is not there disconnects |
| `PipelineLines.OtherLines` | src/moPipeline.cpp:240-253 | empty lines and comments do nothing; every other line outside a block is an error: one word, an unknown command, or the wrong number of words |
| `PipelineLines.BoundaryLineMeans` | src/moPipeline.cpp:255-297 | thirty equals signs end a block and deliver its text; a label behind them opens the next |
| `PipelineLines.TextLineMeans` | src/moPipeline.cpp:299-303 | any other line in a block is added to its text as it is |
| `PipelineLines.DeliverMeans` | src/moPipeline.cpp:261-287 | at the end of a block every property that waits for it gets the text, the others still wait in order, and a missing module is an error |
| `PipelineLines.SavedLinesAre` | src/moModule.cpp:403-469 | the lines that are saved, as text |
| `PipelineLines.HeaderIs` | src/moPipeline.cpp:402-405 | the four header lines, as text |
| `PipelineLines.WholeFile` | src/moPipeline.cpp:395-422 | a whole saved file, line by line: modules, then connections, then texts |
| `PipelineLines.FindMeans` | src/moPipeline.cpp:165-173 | a module is found by its id exactly when there is one, and it is the first |
| `PipelineRoundTrip.SavedRun` | src/moPipeline.cpp:395-422 | when the texts can be read every line of a saved file is accepted, and the state after the last one is the rebuilt pipeline with no text still missing; when one cannot, the reading fails |
| `PipelineRoundTrip.CreateRun` | src/moPipeline.cpp:314-362 | the creation lines rebuild all modules with their short properties and note the long ones |
| `PipelineRoundTrip.ConnsRun` | src/moPipeline.cpp:364-386 | connections to free inputs are made one after the other |
| `PipelineRoundTrip.SavedInputs` | src/moModule.cpp:452-469 | the saved connections are exactly the connected inputs |
| `PipelineRoundTrip.SavedObservers` | src/moModule.cpp:452-469 | the saved connections of a stream are its observers, in order |
| `PipelineRoundTrip.DataRun` | src/moPipeline.cpp:255-299 | the blocks of data reach exactly the properties that wait for them |
| `PipelineParser.Serialize` | src/moPipeline.cpp:395-422 | the loops over modules, connections and texts write exactly the specified lines |
| `PipelineParser.WriteModule` | src/moModule.cpp:403-426 | a module is written as its creation line, a line for each property and an empty line |
| `PipelineParser.WriteTexts` | src/moModule.cpp:428-446 | each long text is written as a block, with a closing boundary if there was one |
| `PipelineParser.WriteConnections` | src/moModule.cpp:452-469 | a line for each observer of each output, with the first input that reads the stream |
| `PipelineParser.Parser.Parse` | src/moPipeline.cpp:218-393 | the line loop accepts a text exactly when the specified run over its lines does, and leaves its result |
| `PipelineParser.Parser.DeliverAll` | src/moPipeline.cpp:258-289 | the loop that restarts after every erased entry delivers a text to every property that waits for it |
| `PipelineParser.Parser.GetModuleById` | src/moPipeline.cpp:165-173 | the first module with that id |
| `Words.LinesJoined` | src/moPipeline.cpp:237-242 | reading lines undoes writing them |
| `Words.TokensSpaced` | src/moPipeline.cpp:245-250 | splitting at white space undoes joining with spaces |
| `Words.TokensSplit` | src/moPipeline.cpp:245-250 | a line falls apart at every space, tab, line feed, vertical tab, form feed and carriage return |
| `Words.TokensWhole` | src/moPipeline.cpp:245-250 | what holds none of these is one word |
| `Decimal.AtoiRoundTrip` | src/moProperty.cpp:102-107 | `atoi` undoes `%d` |
| `Decimal.PrintedDigits` | src/moProperty.cpp:102-107 | digit i of a printed number, from the right, is the number divided by the power of ten, modulo ten |
| `Decimal.PrintedBound` | src/moProperty.cpp:102-107 | a number is printed with no more digits than needed |
| `Decimal.AtoiReads` | src/moPipeline.cpp:376-377 | `atoi` skips white space, takes a sign and zeros, and stops at the first other character |
| `Decimal.AtoiNothing` | src/moPipeline.cpp:376-377 | `atoi` of anything else is 0 |
| `Observers.Module.SetInput` | src/moModule.cpp:563-601 | an accepted, a refused and a missing stream each leave every module as often among the observers of a stream as it has inputs on it; the input is the stream or empty, and exactly a wrong index and a refused stream are errors |
| `Observers.AcceptsMeans` | src/moDataStream.cpp:25-31 | an input takes a stream exactly when its type is an asterisk, or the format is not empty, has no comma, and stands in the type between commas or ends |
| `Observers.RewiringKeepsLinks` | src/moModule.cpp:583-600 | moving one link on both sides keeps the two sides in agreement for all modules and streams |
| `Observers.FreeIsLinked` | src/moModule.cpp:563-601 | modules without connected inputs and streams without observers agree |
| `Observers.Stream.RemoveObserver` | src/moDataStream.cpp:71-80 | the first occurrence goes |
| `Observers.Stream.RemoveObservers` | src/moDataStream.cpp:104-119 | the restart loop terminates, empties every input on the stream and leaves nothing for the final clear |
| `Observers.Pipeline.DisconnectInputs` | src/movid.cpp:796-804 | the removed module is gone from the observers of every stream |
| `Observers.Pipeline.WebPipelineRemove` | src/movid.cpp:793-819 | afterwards no surviving stream has the removed module as observer and no surviving module reads one of its streams |
| `Observers.Pipeline.RemoveElement` | src/moPipeline.cpp:79-89 | the first occurrence leaves the module list |
| `WakeUp.RunKeeps` | src/moModule.cpp:191-241 | the protocol invariant holds in every state of every run, for any number of notifiers |
| `WakeUp.AsleepOnlyWhenIdle` | src/moModule.cpp:382-401 | a blocked worker has nothing pending that is not about to be posted, and nobody has posted a stop |
| `WakeUp.NotifyIsServed` | src/moModule.cpp:371-401 | no notify is lost: once the worker has taken five steps after it without a stop, an update has started after it |
| `WakeUp.NotifyUnblocks` | src/moModule.cpp:371-380 | with a notify not yet served and all posts made the worker can move |
| `WakeUp.StopIsHeard` | src/moModule.cpp:227-241 | once a stop has posted the worker is never blocked and exits within seven steps |
| `WakeUp.NothingUncalled` | src/moModule.cpp:191-241 | in every run no more updates have started than there were notifies, and the worker has not come through its wait more often than somebody posted |
| `TimerHeap.Heap.Push` | contrib/libevent-1.4.13-stable/min_heap.h:65-71 | the contents gain the event, the heap stays ordered, every member knows its slot; a refused allocation changes nothing |
| `TimerHeap.Heap.Pop` | contrib/libevent-1.4.13-stable/min_heap.h:73-83 | a least event leaves with index -1 |
| `TimerHeap.Heap.Erase` | contrib/libevent-1.4.13-stable/min_heap.h:85-104 | any member leaves with index -1 and the rest stays an ordered heap with right slots; a non-member is refused |
| `TimerHeap.Heap.Reserve` | contrib/libevent-1.4.13-stable/min_heap.h:106-120 | growing doubles the room, from 8, or takes what is asked for, and keeps the contents; a refused allocation changes nothing |
| `TimerHeap.Heap.ShiftUp` | contrib/libevent-1.4.13-stable/min_heap.h:122-132 | the hole climbs until the event fits, by a permutation |
| `TimerHeap.Heap.ShiftDown` | contrib/libevent-1.4.13-stable/min_heap.h:134-147 | the hole sinks, then climbs, until the event fits, by a permutation |
| `TimerHeap.Heap.TopLeast` | contrib/libevent-1.4.13-stable/min_heap.h:63-63 | no member is earlier than the top |
| `TimerHeap.TopIsLeast` | contrib/libevent-1.4.13-stable/min_heap.h:63-63 | the first key of a heap is a least one |
| `TimerHeap.ReplaceLoosens` | contrib/libevent-1.4.13-stable/min_heap.h:85-104 | any key put into a slot leaves a heap that is loose only above or only below it |
| `TimerHeap.MinusKeepsOrder` | contrib/libevent-1.4.13-stable/evutil.h:135-155 | subtracting one offset with the single borrow keeps timevals normal and their order |
| `TimerHeap.TimevalsAreMicros` | contrib/libevent-1.4.13-stable/evutil.h:115-165 | comparing, adding and subtracting normal timevals is comparing, adding and subtracting microseconds |
| `TimerHeap.ShiftedIsHeap` | contrib/libevent-1.4.13-stable/event.c:868-901 | the same offset off every key leaves a heap |
| `TimerHeap.Heap.ShiftClock` | contrib/libevent-1.4.13-stable/event.c:892-899 | the loop over the slots takes the offset off every member and leaves order and slots as they are |
| `EventLoop.EventBase.EventAdd` | contrib/libevent-1.4.13-stable/event.c:699-775 | success puts the event on the queues it asked for and nothing else, with each flag given: a timer takes an event that timed out off its active queue; failure of the heap or of the backend changes no queue, flag or counter; normal timevals keep all deadlines normal |
| `EventLoop.EventBase.EventDel` | contrib/libevent-1.4.13-stable/event.c:777-815 | the event leaves every queue it was on and carries none of their flags; deadlines stay normal |
| `EventLoop.EventBase.EventActive` | contrib/libevent-1.4.13-stable/event.c:817-830 | an active event is not queued twice |
| `EventLoop.EventBase.TimeoutProcess` | contrib/libevent-1.4.13-stable/event.c:903-925 | exactly the timers due by now fire, in deadline order, and exactly the others remain; a fired event is active because of its timeout and on no other queue |
| `EventLoop.EventBase.TimeoutCorrect` | contrib/libevent-1.4.13-stable/event.c:868-901 | when a clock that can be set has gone back every timer moves by the same amount, all stay normal, and no queue changes |
| `EventLoop.EventBase.InsertActive` | contrib/libevent-1.4.13-stable/event.c:955-987 | flags mirror membership and the counters count it |
| `EventLoop.EventBase.RemoveActive` | contrib/libevent-1.4.13-stable/event.c:927-953 | flags mirror membership and the counters count it |
| `EventLoop.EventBase.InsertTimer` | contrib/libevent-1.4.13-stable/event.c:955-987 | the heap holds exactly the events with the timer flag |
| `EventLoop.EventBase.RemoveTimer` | contrib/libevent-1.4.13-stable/event.c:927-953 | the heap holds exactly the events with the timer flag |
| `EventLoop.FireAllOk` | contrib/libevent-1.4.13-stable/event.c:903-925 | firing any timers keeps the accounting of queues, flags and counters |
| `EventLoop.FireAllShape` | contrib/libevent-1.4.13-stable/event.c:903-925 | the fired events stand at the end of the queue of their priority, in firing order |
| `EventLoop.DeletedOk` | contrib/libevent-1.4.13-stable/event.c:777-815 | deleting keeps the accounting of queues, flags and counters |
| `EvBuffer.Buffer.Expand` | contrib/libevent-1.4.13-stable/buffer.c:263-297 | on the realign path and on the grow path the content is unchanged and the requested room is there; a refused allocation changes nothing |
| `EvBuffer.Buffer.Add` | contrib/libevent-1.4.13-stable/buffer.c:299-317 | append |
| `EvBuffer.Buffer.Drain` | contrib/libevent-1.4.13-stable/buffer.c:319-341 | drop a prefix |
| `EvBuffer.Buffer.Remove` | contrib/libevent-1.4.13-stable/buffer.c:192-203 | split: the returned bytes and what is left are the old content |
| `EvBuffer.Buffer.AddBuffer` | contrib/libevent-1.4.13-stable/buffer.c:99-134 | concatenate and empty, also on the swap shortcut; a buffer added to itself ends up empty |
| `EvBuffer.Buffer.Align` | contrib/libevent-1.4.13-stable/buffer.c:253-260 | realigning changes no content |
| `Tagging.RecordsRoundTrip` | contrib/libevent-1.4.13-stable/event_tagging.c:187-351 | any sequence of records followed by any bytes unmarshals to the same tags and payloads and leaves exactly those bytes, exactly when the buffer length, cut to an `int`, covers each header in its turn |
| `Tagging.SmallRoundTrip` | contrib/libevent-1.4.13-stable/event_tagging.c:144-173 | so it does whenever there are fewer than 2^31 bytes in all |
| `Tagging.LargeIsLost` | contrib/libevent-1.4.13-stable/event_tagging.c:144-173 | between 2^31 and 2^32 bytes no record is read |
| `Tagging.RecordRoundTrip` | contrib/libevent-1.4.13-stable/event_tagging.c:265-351 | one record: if its header is covered, unmarshalling and consuming leave the same rest and the peeked length is the encoded length, otherwise all three fail |
| `Tagging.FailureLeaves` | contrib/libevent-1.4.13-stable/event_tagging.c:315-351 | what is left of the buffer when a tag, a length or a payload cannot be read |
| `Tagging.TagNotOverlong` | contrib/libevent-1.4.13-stable/event_tagging.c:121-173 | a 32-bit tag takes at most five bytes, so reading one never shifts beyond its word |
| `Tagging.TagBytesAt` | contrib/libevent-1.4.13-stable/event_tagging.c:121-142 | byte i of a tag holds bits 7i to 7i + 6, and its high bit is set unless it is the last |
| `Tagging.IntBytesAt` | contrib/libevent-1.4.13-stable/event_tagging.c:90-119 | the halves of the bytes of a number: the count of its digits less one, the digits from the lowest on, and a zero |
| `Tagging.NibblesAt` | contrib/libevent-1.4.13-stable/event_tagging.c:90-119 | digit i is the number divided by 16 to the i, modulo 16 |
| `Tagging.NibblesEnough` | contrib/libevent-1.4.13-stable/event_tagging.c:90-119 | no more digits than needed |
| `Tagging.WireExamples` | contrib/libevent-1.4.13-stable/event_tagging.c:90-142 | the bytes of tag 300 and of 0x1234; a count above eight is no number |
| `Tagging.IntRoundTrip` | contrib/libevent-1.4.13-stable/event_tagging.c:226-257 | whatever packs the nibbles of a 32-bit number reads back as that number, with its length, exactly when the length that is looked at covers it |
| `Tagging.PackingIsUnique` | contrib/libevent-1.4.13-stable/event_tagging.c:90-119 | only one byte string packs a number |
| `Tagging.IntRecordRoundTrip` | contrib/libevent-1.4.13-stable/event_tagging.c:355-383 | an integer record reads back under its tag exactly when its header is covered |
| `Tagging.EncodeTag` | contrib/libevent-1.4.13-stable/event_tagging.c:121-142 | the shift loop writes seven bits a byte, low ones first |
| `Tagging.DecodeTag` | contrib/libevent-1.4.13-stable/event_tagging.c:144-173 | the scan, bounded by the length as an `int`, computes the tag modulo 2^32 and its length, or finds no end; the flag tells exactly when a sixth byte is shifted beyond its word |
| `Tagging.PackInt` | contrib/libevent-1.4.13-stable/event_tagging.c:90-119 | the nibble loop packs the digits of the number behind their count |
| `Tagging.DecodeInt` | contrib/libevent-1.4.13-stable/event_tagging.c:226-257 | the nibble loop computes the number and its length |
| `Tagging.Marshal` | contrib/libevent-1.4.13-stable/event_tagging.c:187-194 | the record is appended to the buffer |
| `Tagging.MarshalInt` | contrib/libevent-1.4.13-stable/event_tagging.c:197-206 | an integer record is appended by way of the scratch buffer |
| `Tagging.UnmarshalRecord` | contrib/libevent-1.4.13-stable/event_tagging.c:330-351 | the record moves from one buffer to the end of another |
| `Tagging.ConsumeRecord` | contrib/libevent-1.4.13-stable/event_tagging.c:315-327 | the record is gone from the front |
| `Poll.Poller.Add` | contrib/libevent-1.4.13-stable/poll.c:204-302 | the event takes its place among those that wait on its descriptor and nobody else is affected, through array and index growth; a refused allocation affects nobody; the answer tells exactly when memory is refused and when a negative descriptor is used as an index |
| `Poll.Poller.Del` | contrib/libevent-1.4.13-stable/poll.c:309-360 | the event no longer waits and nobody else is affected, also when the last slot moves; a descriptor nobody waits on is reported, and one outside the index is read outside it |
| `Poll.Poller.Enter` | contrib/libevent-1.4.13-stable/poll.c:279-299 | slot, bits, back pointers and index after the updates for a new event |
| `Poll.Poller.Leave` | contrib/libevent-1.4.13-stable/poll.c:327-356 | slot, bits, back pointers and index after the updates for an event that goes |
| `Poll.Poller.GrowSlots` | contrib/libevent-1.4.13-stable/poll.c:217-257 | growth in three steps, with a refusal at any of them, changes nothing for anybody |
| `Poll.Poller.GrowIndex` | contrib/libevent-1.4.13-stable/poll.c:258-277 | the index grows past the descriptor, new entries are unused |
| `Poll.DropKeeps` | contrib/libevent-1.4.13-stable/poll.c:341-356 | moving the last slot into a freed one keeps index and slots inverse to each other and bits and back pointers in agreement |
| `Poll.JoinKeeps` | contrib/libevent-1.4.13-stable/poll.c:290-299 | setting the bits and back pointers of an event keeps the whole invariant |
| `Poll.ClearKeeps` | contrib/libevent-1.4.13-stable/poll.c:327-335 | clearing them keeps the invariant but for a slot that may be empty now |
| `Poll.FreshKeeps` | contrib/libevent-1.4.13-stable/poll.c:283-288 | a new slot at the end keeps index and slots inverse |
| `Poll.SlotsAreWatched` | contrib/libevent-1.4.13-stable/poll.c:101-130 | the slots in use are exactly the descriptors somebody waits on, each once |
| `Osc.RoundTrip` | contrib/WOscLib-00.09/WOscBundle.cpp:77-155 | an encoded bundle of any depth, with any bytes around it, decodes to its time tag, its messages in order and its sub-bundles in order exactly when the blobs of all its messages fit; otherwise it is lost |
| `Osc.BundleRoundTrip` | contrib/WOscLib-00.09/WOscBundle.cpp:77-155 | the same at any position of a packet, level by level |
| `Osc.MessagesRoundTrip` | contrib/WOscLib-00.09/WOscBundle.cpp:105-118 | the messages among the elements come back in order, whatever elements follow |
| `Osc.MsgRoundTrip` | contrib/WOscLib-00.09/WOscMessage.cpp:134-214 | an encoded message decodes to its address and arguments in order exactly when each of its blobs fits the array that is allocated for it |
| `Osc.OneBlobFits` | contrib/WOscLib-00.09/WOscMessage.cpp:625-643 | at most one blob always fits |
| `OscWire.RoomMeans` | contrib/WOscLib-00.09/WOscMessage.cpp:625-643 | a later blob has room exactly when more strings than blobs come before it |
| `Osc.BlobsWithoutStringsLost` | contrib/WOscLib-00.09/WOscMessage.cpp:625-643 | several blobs and no string never decode: the array is sized by the number of strings |
| `Osc.TwoBlobsLost` | contrib/WOscLib-00.09/WOscMessage.cpp:625-643 | the smallest such message |
| `Osc.BundleLength` | contrib/WOscLib-00.09/WOscBundle.cpp:557-569 | at every level the announced length is the number of bytes written, a multiple of 4 |
| `Osc.MsgAligned` | contrib/WOscLib-00.09/WOscMessage.cpp:384-482 | an encoded message is a multiple of 4 bytes long |
| `OscWords.WordRoundTrip` | contrib/WOscLib-00.09/WOscUtil.cpp:168-188 | big-endian words read back |
| `OscWire.WordBytesAt` | contrib/WOscLib-00.09/WOscUtil.cpp:168-188 | byte i of a word of k bytes is the word divided by 256 to the k - 1 - i, modulo 256 |
| `OscWire.ArgumentBytes` | contrib/WOscLib-00.09/WOscUtil.cpp:168-188 | the four bytes of an integer and of a float, high byte first, and the zeros behind a string |
| `OscWire.BlobBytes` | contrib/WOscLib-00.09/WOscMessage.cpp:625-643 | a blob is its size in four bytes, its bytes, and zeros up to a multiple of 4 |
| `OscWire.ArgumentsInOrder` | contrib/WOscLib-00.09/WOscMessage.cpp:384-482 | the arguments stand one behind the other |
| `OscWire.MessageBytes` | contrib/WOscLib-00.09/WOscMessage.cpp:384-482 | a message is its address and zeros, a comma, a letter for each argument and zeros, and the arguments |
| `OscWire.LettersAre` | contrib/WOscLib-00.09/WOscMessage.cpp:134-214 | the letters are i, f, s and b |
| `OscWire.SmallMessage` | contrib/WOscLib-00.09/WOscMessage.cpp:384-482 | the twelve bytes of `/a` with the number 1 |
| `OscWire.BundleBytes` | contrib/WOscLib-00.09/WOscBundle.cpp:290-327 | a bundle starts with the characters of `#bundle`, a zero and its time tag, high byte first |
| `OscWire.MessageElements` | contrib/WOscLib-00.09/WOscBundle.cpp:290-327 | every message in a bundle has its length in four bytes in front |
| `OscWire.BundleElements` | contrib/WOscLib-00.09/WOscBundle.cpp:290-327 | so has every bundle in a bundle |
| `OscWire.ReadsWord` | contrib/WOscLib-00.09/WOscUtil.cpp:168-188 | four bytes read as a number, negative from the top bit on |
| `OscWire.OddMessages` | contrib/WOscLib-00.09/WOscMessage.cpp:134-214 | no slash, no message; no type tag, no arguments |
| `OscWire.OddLetters` | contrib/WOscLib-00.09/WOscMessage.cpp:150-210 | an unknown letter ends the arguments, a comma is skipped |
| `OscWire.OddBundles` | contrib/WOscLib-00.09/WOscBundle.cpp:77-155 | an element whose size is negative, cut off or too large makes the bundle fail |
| `OscWire.OddHeaders` | contrib/WOscLib-00.09/WOscBundle.cpp:77-100 | fewer than 16 bytes, or other first eight bytes, are no bundle |
| `OscObjects.Message.GenerateBuffer` | contrib/WOscLib-00.09/WOscMessage.cpp:384-482 | the two scans of the type tag, with an index into each typed array, write exactly the encoding of the arguments in order |
| `OscObjects.Message.AddInt` | contrib/WOscLib-00.09/WOscMessage.cpp:527-544 | the argument comes last, the others stay, and the buffer is the new encoding |
| `OscObjects.Message.AddFloat` | contrib/WOscLib-00.09/WOscMessage.cpp:496-513 | the same for a float |
| `OscObjects.Message.AddString` | contrib/WOscLib-00.09/WOscMessage.cpp:558-575 | the same for a string |
| `OscObjects.Message.AddBlob` | contrib/WOscLib-00.09/WOscMessage.cpp:625-643 | the same for a blob that fits its array; the answer tells exactly when it does not |
| `OscObjects.ParseMessage` | contrib/WOscLib-00.09/WOscMessage.cpp:134-214 | the scan of a received type tag builds the decoded message, or fails where the decoding does |
| `OscObjects.NewMessage` | contrib/WOscLib-00.09/WOscMessage.cpp:71-102 | an address that does not start with a slash is refused |
| `OscObjects.GenerateBundle` | contrib/WOscLib-00.09/WOscBundle.cpp:290-327 | the cursor over a buffer of the announced length writes exactly the encoding |
| `OscObjects.BundleBufferLen` | contrib/WOscLib-00.09/WOscBundle.cpp:557-569 | the loops compute the length of the encoding |
| `OscObjects.ParseBundle` | contrib/WOscLib-00.09/WOscBundle.cpp:77-155 | the element loop with its size checks computes the decoding |
| `Json.RoundTrip` | contrib/cJSON/cJSON.c:231-242 | however doubles are rounded beyond 2^53: parsing the formatted or unformatted print of any tree of null, booleans, integers up to 2^53, strings, arrays and objects gives the tree with unprintable characters dropped from its strings, and the same tree exactly when there are none |
| `Json.ControlLost` | contrib/cJSON/cJSON.c:184-215 | a string that loses its only character |
| `Json.ValueRoundTrip` | contrib/cJSON/cJSON.c:245-275 | the same in any context: what follows the printed value is left |
| `Json.StringRoundTrip` | contrib/cJSON/cJSON.c:136-215 | a printed string parses to its printable characters |
| `JsonWire.CharPrinted` | contrib/cJSON/cJSON.c:184-215 | every character of a string is printed as its spelling, whatever is around it |
| `JsonWire.EscapesPrinted` | contrib/cJSON/cJSON.c:200-209 | the printed escapes, spelled out one by one |
| `JsonWire.EscapeParsed` | contrib/cJSON/cJSON.c:150-175 | a backslash and a letter stand for the character of section 2.5 of RFC 4627, also letters that are never printed |
| `JsonWire.PlainParsed` | contrib/cJSON/cJSON.c:150-153 | any other character stands for itself |
| `JsonWire.EndParsed` | contrib/cJSON/cJSON.c:150-181 | a quote ends a string, and so do a control character and the end of the text |
| `JsonWire.LeavesPrinted` | contrib/cJSON/cJSON.c:260-275 | words, numbers, strings and empty collections, as text |
| `JsonWire.ItemsPrinted` | contrib/cJSON/cJSON.c:306-354 | commas between items, and a space behind each when formatted |
| `JsonWire.MembersPrinted` | contrib/cJSON/cJSON.c:392-447 | names, colons, values and commas; tabs and line ends when formatted |
| `JsonWire.LastMemberPrinted` | contrib/cJSON/cJSON.c:392-447 | the last member and the closing brace |
| `JsonWire.ArrayRead` | contrib/cJSON/cJSON.c:278-303 | white space may stand around every item and inside an empty array |
| `JsonWire.ObjectRead` | contrib/cJSON/cJSON.c:357-389 | white space may stand around every name, colon and value and inside an empty object |
| `JsonWire.ItemsRefused` | contrib/cJSON/cJSON.c:293-302 | after an item comes a comma or the bracket, and nothing else |
| `JsonWire.MembersRefused` | contrib/cJSON/cJSON.c:366-388 | a member without a quoted name, a colon, or a comma or brace behind its value is refused |
| `JsonWire.SkipMeans` | contrib/cJSON/cJSON.c:228-228 | white space is every character up to a space |
| `JsonWire.OddValues` | contrib/cJSON/cJSON.c:92-113 | a number may have one zero in front; no other character begins a value |
| `JsonWire.TrailingIgnored` | contrib/cJSON/cJSON.c:231-238 | what follows a whole value is not looked at |
| `Json.NumberRoundTrip` | contrib/cJSON/cJSON.c:92-129 | a printed integer up to 2^53 parses to itself, on doubles with any rounding beyond that, when no digit, point or exponent follows |
| `Json.RoundingUnseen` | contrib/cJSON/cJSON.c:92-113 | while the number stays below 2^53 the digit loop on doubles is exact at every step |
| `JsonMemory.ReadsBehind` | contrib/cJSON/cJSON.c:228-238 | the result depends on what lies in memory behind the terminator exactly when the text is read past its end, which is white space alone or a value that is not finished; otherwise it is the same whatever is there, and then some bytes complete it to a value |
| `JsonMemory.OverreadsShort` | contrib/cJSON/cJSON.c:228-238 | the empty text and an open bracket are read on behind their end |
| `JsonMemory.PrintedEnds` | contrib/cJSON/cJSON.c:231-242 | a printed tree is never read past its end, so it parses back wherever it lies |
| `JsonText.PrintTree` | contrib/cJSON/cJSON.c:260-275 | the recursive printers compute the specified text |
| `JsonText.PrintStringPtr` | contrib/cJSON/cJSON.c:184-215 | the measured length covers every character written, and the text is the specified one |
| `JsonText.PrintInteger` | contrib/cJSON/cJSON.c:115-129 | 21 characters are enough for any 32-bit integer |
| `JsonText.PrintArray` | contrib/cJSON/cJSON.c:306-354 | the length summed over the items covers every character written |
| `JsonText.PrintObject` | contrib/cJSON/cJSON.c:392-447 | the length summed over the members covers every character written, tabs and terminators included |
| `JsonText.ScanString` | contrib/cJSON/cJSON.c:136-181 | the measured length covers every character written, and the result is the specified one |
| `JsonText.ScanNumber` | contrib/cJSON/cJSON.c:92-113 | the digit loop computes the specified number, rounded as doubles are |
| `JsonText.ScanArray` | contrib/cJSON/cJSON.c:278-303 | the comma loop computes the specified items of what lies in memory, or fails where they do |
| `JsonText.ScanObject` | contrib/cJSON/cJSON.c:357-389 | the comma loop computes the specified members of what lies in memory, or fails where they do |
| `JsonText.ParseText` | contrib/cJSON/cJSON.c:228-238 | what lies in memory parses as specified; a text that is not read past its end gives its own result whatever follows it, and one that was printed gives its tree back |

## Left out

- HTTP handlers, image processing, logging, daemon start-up and the signal and kernel backends other than poll are input, output or foreign code.
- 32-bit overflow in the matcher: entries are unbounded integers; the bound of twice the cost window is proved instead, so a window below 2^30 keeps every entry in range.
- The matcher's tail calls are calls here, with loops taken out into methods of their own; the early return of step 5 is proved unreachable and has no counterpart.
- DnsName.DnsNameToLabels: running out of memory for a table entry is not modelled.
- DnsName.NameParse: a label that would run past the packet fails at once, where the source fails at its next test.
- Resolver.Queues.Resume: nothing is claimed of the state after a null pointer was used; transaction ids, timeouts, search domains and `evdns_shutdown` are left out, and so are the `prev` links of servers.
- Resolver.Queues.Finish: user callbacks, which could submit further requests in between, are left out.
- PipelineRoundTrip.RoundTrip: is about pipelines with unique ids, short values of one word or none, distinct block labels and at most one input of a module on a stream, and leaves texts with a boundary line among others to `PipelineExact.ComesBackExactly`, other short values to `PipelineWhole.ComesBackWhole` and doubled inputs to `PipelineWhole.SecondInputLost`; decimal and point-list properties, property callbacks, internal observers and outputs without a stream are left out; running off a line of white space inside a block counts as an error.
- PipelineExact.ComesBackExactly: is about long texts that a new module lets be set.
- PipelineWhole.ComesBackWhole: the same, and what cannot be changed in a new module is a word or nothing.
- PipelineWhole.SecondInputLost: is about pipelines without a boundary line in a text.
- Observers.Module.SetInput: an input slot without storage, and streams whose format changes later, are left out.
- WakeUp.NotifyIsServed: is about a module that has been started; the late start inside `notifyUpdate` is left out.
- EventLoop.EventBase.EventAdd: events that were given a pending call count, signals and `event_process_active` are left out.
- EvBuffer.Buffer.Add: callbacks, `evbuffer_readline`, `evbuffer_find` and the functions that read from or write to descriptors are left out.
- Tagging.Marshal: memory is assumed to be there; strings, fixed blocks and timevals as payloads add nothing new.
- Tagging.DecodeTag: what a shift by more than the word gives is undefined; the model cuts the number to 32 bits then and sets its flag.
- Tagging.UnmarshalRecord: the same, with the flag handed on.
- EvBuffer.Buffer.AddBuffer: a buffer that is added to itself and has to grow copies from its old allocation, which is gone; those bytes are drained again at once.
- Poll.Poller.Add: what a write outside the index does is not modelled, and nobody is affected then; signals go elsewhere and are left out; a back pointer is the value of the event, and bits the kernel reports are not kept.
- Poll.Poller.Del: what a read outside the index returns is not modelled; the event is then left alone.
- OscObjects.Message.AddBlob: nothing is claimed of an object after a write outside its array.
- OscObjects.ParseBundle: sizes are unbounded integers; where 32-bit sums would wrap, the source goes on to read outside the packet, which counts as failure here. Ownership of messages and sub-bundles and taking them out again are left out.
- Osc.MsgRoundTrip: pattern matching, time-tag arithmetic and the switched-off priority queue are left out.
- Json.RoundTrip: fractions, exponents and `\u` escapes are left out; memory is assumed to be there, and children are sequences instead of linked nodes.
- JsonMemory.ReadsBehind: a text that ends in the middle of a fraction or of a `\u` escape is left out with them.
