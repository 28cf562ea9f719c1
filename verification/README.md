# Verified model of a coroutine HTTP server

A model of the protocol and memory layers of `coroutine-asio-http-server` and proofs of what
they promise. Each module follows one component of the server. Pure logic is functions and
lemmas; objects that change are classes whose methods are proved against specification
functions, and the promises are lemmas about those functions or invariants of the classes.
`dafny verify dfyconfig.toml` checks the whole project.

| modules | component |
|---|---|
| `Bits`, `Fields`, `Options` | bytes, bit strings, header fields, optional values |
| `Huffman`, `HuffmanDecoder`, `HuffmanTable` | the canonical Huffman code and its windowed decoder |
| `HpackPrimitives`, `StaticTable`, `HpackTable`, `Hpack` | HPACK integers, strings, tables, blocks (RFC 7541) |
| `Representations` | header blocks by their bytes, from any encoder |
| `RadixTree`, `Routes`, `Registrations`, `Router` | the compressed prefix-tree router, its routes told from the calls |
| `RegionLayout`, `RegionPool`, `SessionRegion`, `Worker` | the memory pool, session regions, many sessions on one pool |
| `Frames`, `Settings`, `FrameBatch`, `Output` | the HTTP/2 frame layer, the batch loop, the output buffer (RFC 7540) |
| `WireFormat` | the standards' byte layouts, one by one |
| `FlowControl`, `StreamManager`, `Connection` | windows, streams and what each frame does |
| `Requests` | what becomes of a request, from its frames' bits and bytes to its handler |
| `Lifecycle`, `Runs`, `Session`, `Response` | the HTTP/2 connection over whole runs, the object that refines them, what it answers |
| `WebSocket` | the WebSocket frame codec (RFC 6455) |
| `Upstream` | the upstream pool |
| `Percentiles`, `Metrics` | request counters and latency percentiles |
| `Http1` | the HTTP/1.1 parser and the proxy's request printer |

## Main results

- Huffman decoding succeeds exactly on encodings of a text, for every length table with Kraft
  sum below one, and the server's table is one (`HuffmanDecoder.HuffmanDecode`, `HuffmanTable.HuffLensValid`).
- HPACK decoding inverts encoding; on arbitrary bytes the dynamic table stays the longest newest
  part of the entries stored that fits, and these are the entries sent exactly when every indexed
  name survives its own insertion (`Hpack.BlockRoundTrip`, `Hpack.BlockKeepsSound`, `Hpack.MeantExactly`).
- Any header block from any encoder, given by its bytes in all six forms, delivers exactly the fields
  named, in order, and inserts exactly the incremental ones (`Representations.BlockRead`).
- The router, changed in place, answers every path from the flat map of its routes alone, by
  longest-prefix lookup exactly when no non-empty key begins all others (`Router.Router.Lookup`, `Routes.AnswerExactly`);
  the handler found is told from the registration calls alone (`Registrations.MethodLaw`, `Registrations.KeyLaw`).
- Whatever sessions do on one pool, references into a region keep reading back their bytes, exactly
  unless an allocation's end wraps at 2^64 (`Worker.Worker.Run`, `Worker.StableExactly`).
- Under every interleaving the output is the encodings of the appended frames in order, and reads
  back as those frames (`Output.H2Output.Run`, `Output.OutputReparses`).
- Flow-control windows are those of RFC 7540 computed from the whole run, on 32 bits, and the
  updates written are the credits booked (`FlowControl.H2FlowControl.Run`, `Lifecycle.FrameBooked`, `FlowControl.LegalExactly`).
- Splitting a header block over CONTINUATION frames changes nothing but the end of the stream,
  and exactly when that matters (`Connection.ContinuationTransparent`).
- Over whole runs of a connection both stream maps agree and no stream reaches its handler twice
  that was not asked to become a WebSocket; the connection object refines these runs
  (`Runs.RunSafe`, `Session.H2Session.Run`).
- A request in HEADERS and DATA frames is queued exactly once, with exactly the fields its block names,
  whatever other streams do in between, and reaches its handler exactly under stated conditions; a reset
  one never does (`Requests.RequestQueuedOnce`, `Requests.HandlerReached`, `Requests.ResetNeverHandled`).
- What a peer reads from the output is what was written, a response's fields and a streamed body
  included (`Output.MessagesRead`, `Response.ResponseRead`, `Response.SinkSafe`).
- Requests made are those in the counters, in the ring and overwritten (`Metrics.MetricsCollector.Run`).
- From its third failure in a row an upstream server is out for exactly ten seconds, over every run
  (`Upstream.OutForTenSeconds`).
- WebSocket streams are read back exactly; round robin is fair exactly under a condition on the
  64-bit counter; percentiles are ordered; printed requests are parsed back
  (`WebSocket.StreamRoundTrip`, `Upstream.FairExactly`, `Percentiles.ComputePercentiles`, `Http1.RequestArrives`, `Http1.ProxyRoundTrip`).

## Where the code and its intent part

- Raising the HPACK table limit from outside does not bring evicted entries back; `SetMaxTableSize`
  is not called by the server (`HpackTable.ResizeRefinesIff`, `HpackTable.RaisingForgets`).
- An insertion that evicts the entry its own name is taken from stores bytes of freed memory as the
  name (`HpackTable.NameEvictedByItself`, `Hpack.MeantExactly`).
- A Huffman coded empty string loses the rest of its header block, which is accepted all the same
  (`HpackPrimitives.HuffmanStrRoundTrip`, `Hpack.EmptyValueLosesRest`).
- Names and values are views into the region while a field is read. A value copied and then stored by
  a stream context can move the region twice, onto the bytes an entry is read from; `Hpack.MeantExactly`
  takes the copies as values and does not cover this.
- Entry 16 of the static table has no value; in Appendix A of RFC 7541 it has one (`StaticTable.NoGzip`).
- A header field without a name is written but not accepted back (`Hpack.BlockAcceptedIff`).
- Root paths are answered by the root node whatever its segment (`Routes.RootPathGoesToApi`,
  `Routes.AnswerExactly`). "/" need not be registered first, only at some time.
- A failed bump in the pool is not undone, so after the first failure only the free list serves
  (`SessionRegion.RefusedAfterOverflow`).
- An allocation whose rounded end is 2^64 or more gives out a place and moves the mark back, so that
  later copies overwrite earlier ones. The parser allocates any announced content length before the body
  limit is looked at (`SessionRegion.SessionRegion.Alloc`, `Worker.StableExactly`, `Worker.AnnouncedLengthOverwrites`).
- The length of a request body is cut to 32 bits, so one of 2^32 bytes or more never completes
  (`Http1.RequestArrives`, `SessionRegion.BodyInsideExactly`).
- END_STREAM on a HEADERS frame without END_HEADERS is lost, and so is the queueing of a WebSocket
  request that ends in a CONTINUATION frame (`Connection.SplitRequestUnqueued`).
- Of a request body in several DATA frames only the last piece is kept (`Requests.BodyWholeExactly`).
- Frames too short for the padding or priority fields their flags announce are read past their end
  (`Connection.InsideExactly`, `Connection.EmptyPaddedHeaders`, `Connection.EmptyPaddedData`).
- Window updates of 0, or cut to 31 bits, can be written (`FlowControl.LegalExactly`, `FlowControl.ZeroIncrement`,
  `Lifecycle.IncrementCutToZero`).
- Response headers that are to be left out pass in unusual spellings (`Response.ForbiddenExactly`).
- A DATA frame charges the connection twice (`FlowControl.H2FlowControl.ChargeData`), and the connection
  window follows the initial size, which section 6.9.2 of RFC 7540 keeps for streams.
- A WebSocket frame cut off inside its length or key is given as an empty frame of its own kind, not as
  the one that stands for the end (`WebSocket.CutFrame`).
- A WebSocket payload above a mebibyte stays unread behind its header (`WebSocket.FrameRoundTrip`).
- The documentation of the upstream pool speaks of weights; the code does not use them.
- The fallback of 16000 after the percentile loop is never reached (`Percentiles.ComputePercentiles`).
- Two flushes of one worker into one slot lose the requests of the first (`Metrics.DoubleFlushLoses`).
- An HTTP/1.1 line cut between CR and LF is joined with the next line, and a header is lost, unless the
  next chunk has no whole line break (`Http1.CutInBreak`, `Http1.CutBreakLosesHeader`).
- A request body in the chunk that ends the headers is dropped (`Http1.RequestRoundTrip`), and a request
  whose body found no room never completes (`Http1.BodyArrives`).
- The proxy forwards a client's Content-Length and adds its own (`Http1.ProxyRoundTrip`).

## Reading the model

- Bytes are integers below 256. `uint32_t` and `int32_t` are integers reduced modulo 2^32 where they
  can wrap; bitwise or of disjoint fields is addition, masks and shifts are `%` and `/`.
- Shifting a 32-bit value by 32 or more, undefined in C++, gives 0 in `DecodeInteger`.
- Views and references into a region are values. What the memory does is a parameter: whether a copy
  fits, what freed bytes read as, and what lies behind a short frame (`mem`, `fits`).
  `SessionRegion` proves that copies that succeed keep their bytes.
- A coroutine's code between two suspension points is one step. The clock, the peer's bytes, how a
  stream cuts them, what middleware and router answer, and whether a handler throws are parameters.
- `size_t` arguments of the region are 64-bit values, and a text in memory is shorter than 2^63 bytes.
- `double` is `real`.

## Model

| member | source | states |
|---|---|---|
| `Huffman.CodesFillKraft` | http/http2/parser/HPACK.cpp:173-193 | the code space used up to each length, scaled to 32 bits, is exactly the Kraft sum of the lengths so far |
| `Huffman.CodeFits` | http/http2/parser/HPACK.cpp:173-193 | for every length table with Kraft sum below one, each canonical code fits its length and is never all ones |
| `Huffman.PrefixFree` | http/http2/parser/HPACK.cpp:173-193 | for every such table, a code that is a prefix of another is the same symbol's code |
| `Huffman.ZeroLengthBreaksFit` | http/http2/parser/HPACK.cpp:175-184 | why zero lengths must not be counted: a single one makes every real code overflow its length |
| `Huffman.InitHuffmanTable` | http/http2/parser/HPACK.cpp:173-193 | the three loops with 32-bit arithmetic compute the canonical code of every symbol |
| `Huffman.CountLengths` | http/http2/parser/HPACK.cpp:175-177 | the first loop: how many symbols have each length |
| `Huffman.FirstCodes` | http/http2/parser/HPACK.cpp:179-184 | the second loop: the first code of each length, none of which wraps at 32 bits |
| `Huffman.AssignCodes` | http/http2/parser/HPACK.cpp:186-192 | the third loop: symbols of one length get consecutive codes in symbol order |
| `HuffmanTable.HuffLensValid` | http/http2/parser/HPACK.cpp:151-168 | the 256 lengths of the server have Kraft sum 1 - 2^-30, so all of the above applies to them |
| `HuffmanTable.LengthOfSymbol` | http/http2/parser/HPACK.cpp:151-168 | the same table by code length: every one of the 256 symbols is among those Appendix B of RFC 7541 lists for the length the server has for it |
| `HuffmanDecoder.ParseUnique` | http/http2/parser/HPACK.cpp:318-334 | a bit string splits into codes in at most one way, and padding of ones is no code |
| `HuffmanDecoder.EncodesUnique` | http/http2/parser/HPACK.cpp:302-353 | no byte string is the encoding of two texts |
| `HuffmanDecoder.Refill` | http/http2/parser/HPACK.cpp:311-316 | the refill loop keeps the unread bits and ends with more than 32 of them in the register or all that is left |
| `HuffmanDecoder.MatchSymbol` | http/http2/parser/HPACK.cpp:318-334 | the scan finds the one symbol whose code is next in the register, or reports that there is none |
| `HuffmanDecoder.Finish` | http/http2/parser/HPACK.cpp:338-351 | the end: success exactly if fewer than eight one-bits are left |
| `HuffmanDecoder.HuffmanDecode` | http/http2/parser/HPACK.cpp:302-353 | decoding succeeds exactly on codes of a text padded with fewer than eight ones, and returns that text; on everything else it returns nothing (section 5.2 of RFC 7541) |
| `HpackPrimitives.DecodeInteger` | http/http2/parser/HPACK.cpp:241-262 | the prefixed integer of the specification, modulo 2^32, and the rest of the input |
| `HpackPrimitives.EncodeInteger` | http/http2/parser/HPACK.cpp:497-521 | the prefix and continuation bytes of a 32-bit value are appended |
| `HpackPrimitives.IntRoundTrip` | http/http2/parser/HPACK.cpp:241-262 | every 32-bit value written with a prefix of 4 to 7 bits is read back, with exactly its bytes consumed, whatever follows |
| `HpackPrimitives.DecodeString` | http/http2/parser/HPACK.cpp:268-296 | the string literal of the specification, plain or Huffman coded, with its losses on bad input |
| `HpackPrimitives.EncodeString` | http/http2/parser/HPACK.cpp:523-528 | length and plain bytes are appended |
| `HpackPrimitives.StrRoundTrip` | http/http2/parser/HPACK.cpp:268-296 | a written string is read back and exactly its bytes are consumed |
| `HpackPrimitives.HuffmanStrRoundTrip` | http/http2/parser/HPACK.cpp:268-296 | a Huffman coded string from any encoder is read back with exactly its bytes consumed if and only if there is room for the text or, for the empty text, nothing is behind it |
| `HpackPrimitives.EmptyHuffmanDropsRest` | http/http2/parser/HPACK.cpp:283-287 | the one byte that is the Huffman form of the empty text loses whatever is behind it in the block |
| `HpackPrimitives.HuffmanTextIs` | http/http2/parser/HPACK.cpp:302-353 | whatever meets the decoder's specification computes the one text a byte string stands for |
| `StaticTable.LookupStatic` | http/http2/parser/HPACK.cpp:479-486 | the first static entry equal to the field, or 0 when there is none |
| `StaticTable.LookupStaticNameOnly` | http/http2/parser/HPACK.cpp:488-495 | the first static entry with the name, or 0 when there is none |
| `StaticTable.PseudoEntries` | http/http2/parser/HPACK.cpp:14-93 | entries 1 to 14 are those of Appendix A of RFC 7541, each by index, name and value |
| `StaticTable.AcceptEntries` | http/http2/parser/HPACK.cpp:14-140 | entries 15 to 22, likewise; accept-encoding has no value |
| `StaticTable.ContentEntries` | http/http2/parser/HPACK.cpp:14-140 | entries 23 to 32 |
| `StaticTable.ConditionEntries` | http/http2/parser/HPACK.cpp:14-140 | entries 33 to 43 |
| `StaticTable.LocationEntries` | http/http2/parser/HPACK.cpp:14-140 | entries 44 to 53 |
| `StaticTable.ServerEntries` | http/http2/parser/HPACK.cpp:14-140 | entries 54 to 61 |
| `StaticTable.NoGzip` | http/http2/parser/HPACK.cpp:78-140 | entry 16 is not the one of the appendix, which has a value |
| `HpackTable.Evict` | http/http2/parser/HPACK.cpp:222-229 | eviction leaves the longest newest-first part that fits, and the running size stays the sum of the entry sizes |
| `HpackTable.InsertRefines` | http/http2/parser/HPACK.cpp:412-420 | inserting keeps the table the longest newest-first part of what was stored that fits (sections 4.1 and 4.4 of RFC 7541), oversized entries included |
| `HpackTable.StoredAsMeant` | http/http2/parser/HPACK.cpp:412-420 | an entry is stored as it was sent, whatever freed memory holds, exactly when the table entry its name is taken from survives making room for it |
| `HpackTable.NameEvictedByItself` | http/http2/parser/HPACK.cpp:412-420 | a concrete table and field for which it does not: the insertion evicts the entry its own name comes from |
| `HpackTable.ShrinkRefines` | http/http2/parser/HPACK.cpp:422-427 | a size update from the peer, which can only lower the limit, keeps that |
| `HpackTable.ResizeRefinesIff` | http/http2/parser/HPACK.cpp:231-235 | an arbitrary new limit keeps that exactly when it is not raised or nothing was evicted that would now fit |
| `HpackTable.RaisingForgets` | http/http2/parser/HPACK.cpp:231-235 | a concrete table for which raising the limit loses it |
| `HpackTable.LookupIsHistory` | http/http2/parser/HPACK.cpp:359-372 | index 62 + k is the k-th newest insertion while it fits, and nothing afterwards |
| `HpackTable.StaticInversion` | http/http2/parser/HPACK.cpp:359-372 | indices found by the encoder's searches are resolved by the decoder to the same field and name |
| `Hpack.FieldKeepsSound` | http/http2/parser/HPACK.cpp:384-470 | one field representation keeps the table refining the history |
| `Hpack.BlockKeepsSound` | http/http2/parser/HPACK.cpp:378-473 | a header block of arbitrary bytes, good or bad, keeps the table refining the entries stored, whatever copies fail |
| `Hpack.MeantExactly` | http/http2/parser/HPACK.cpp:378-473 | for every block of bytes, copies into the region being values: the entries stored are those the block describes, whatever freed memory holds, exactly when every indexed name survives its own insertion |
| `Hpack.KeptNamesSound` | http/http2/parser/HPACK.cpp:378-473 | then the table refines the insertions the block describes |
| `Hpack.HpackDecoder.EvictTo` | http/http2/parser/HPACK.cpp:222-229 | the loop is the specification's eviction |
| `Hpack.HpackDecoder.SetMaxTableSize` | http/http2/parser/HPACK.cpp:231-235 | evicts, then takes the new limit |
| `Hpack.HpackDecoder.AddEntry` | http/http2/parser/HPACK.cpp:412-420 | evicts to make room and inserts, or empties the table for an oversized entry; a name taken from an evicted entry is read from freed memory |
| `Hpack.HpackDecoder.ReadLiteral` | http/http2/parser/HPACK.cpp:395-408 | the name by index or as a string, the value, and rejection of an empty name |
| `Hpack.HpackDecoder.DecodeOne` | http/http2/parser/HPACK.cpp:384-470 | one representation does what the specification says to table, history, delivered fields and cursor; a rejected one changes nothing. What that is, form by form: Representations.RepRead |
| `Hpack.HpackDecoder.Decode` | http/http2/parser/HPACK.cpp:378-473 | the loop is the block specification, and the table refines the entries stored after it. What it delivers: Representations.BlockRead |
| `Hpack.Encode` | http/http2/parser/HPACK.cpp:530-557 | the block of a header list, field after field |
| `Hpack.FieldRoundTrip` | http/http2/parser/HPACK.cpp:530-557 | one encoded field is decoded to that field, table untouched, exactly its bytes consumed |
| `Hpack.BlockRoundTrip` | http/http2/parser/HPACK.cpp:530-557 | decoding an encoded list of fields with names delivers exactly that list in order, consumes every byte and leaves the dynamic table and history unchanged |
| `Hpack.BlockAcceptedIff` | http/http2/parser/HPACK.cpp:530-557 | an encoded block is accepted exactly when every name is non-empty |
| `Hpack.EmptyValueLosesRest` | http/http2/parser/HPACK.cpp:283-287 | for every name: a literal with such a value is accepted, the block with it, and every field behind it is lost |
| `Representations.IntBytesAre` | http/http2/parser/HPACK.cpp:241-262 | the prefix patterns and bytes of section 5.1 of RFC 7541, written out, are what the decoder's integer law speaks of |
| `Representations.StrRead` | http/http2/parser/HPACK.cpp:268-296 | a string in either form, from any encoder, is read as its text and exactly its bytes are consumed, the Huffman form of the empty text apart |
| `Representations.IndexedRead` | http/http2/parser/HPACK.cpp:383-391 | an index, static or of the newest insertions that fit, delivers that field and changes nothing else |
| `Representations.IncrementalRead` | http/http2/parser/HPACK.cpp:395-420 | a literal with incremental indexing is delivered and inserted, its name by any index or spelled |
| `Representations.UnindexedRead` | http/http2/parser/HPACK.cpp:429-465 | a literal without indexing, or never indexed, is delivered and not inserted |
| `Representations.SizeUpdateRead` | http/http2/parser/HPACK.cpp:422-427 | a size update lowers the limit and delivers nothing |
| `Representations.RepRead` | http/http2/parser/HPACK.cpp:384-470 | so each of the six forms of section 6 of RFC 7541, by its bytes, does what that section says |
| `Representations.BlockRead` | http/http2/parser/HPACK.cpp:378-473 | any concatenation of such forms, from any encoder that follows the insertions: exactly the fields named are delivered, in order, exactly the incremental ones are inserted, the limit is the last one named; up to the first value in the Huffman form of the empty text |
| `RadixTree.SplitOk` | handler/router.cpp:286-319 | cutting a node keeps the tree a compressed radix tree: children found by their first character, keys distinct, every longer key below |
| `RadixTree.GrowOk` | handler/router.cpp:343-347 | hanging a new leaf where no child begins with its first character keeps that |
| `RadixTree.DeadEndIsEnd` | handler/router.cpp:403-411 | when no child can match the next character, no node further down is on the way to the path |
| `Routes.SetThenGet` | handler/router.cpp:13-42 | a handler set for one method is found for it and changes no other, except that HEAD falls back to GET |
| `Routes.FlatLookupMeaning` | handler/router.cpp:362-457 | the flat reference lookup: the exact route, else the longest prefix route that is a byte-wise prefix, nothing only if there is none |
| `Routes.SplitSlots` | handler/router.cpp:286-319 | moving a node's handlers down in a split leaves the registered routes unchanged |
| `Routes.GrowSlots` | handler/router.cpp:343-347 | a new leaf adds no route by itself |
| `Routes.AssignSlot` | handler/router.cpp:321-327 | giving a node handlers changes exactly the route of its key |
| `Routes.Mismatch` | handler/router.cpp:383-387 | a segment that does not match leaves only the fallback seen so far |
| `Routes.NoChild` | handler/router.cpp:403-411 | no child for the next character leaves only the fallback seen so far |
| `Routes.PassNode` | handler/router.cpp:400-401 | a node passed on the way is the new fallback exactly if it is a prefix route |
| `Routes.AnswerExactly` | handler/router.cpp:368-375 | for every set of routes: all paths are answered as the flat map answers them exactly when no non-empty registered key begins every registered key |
| `Routes.RootPathGoesToApi` | handler/router.cpp:368-375 | a concrete registration for which they are not: with "/api" alone, "/" is answered by it |
| `Routes.RootIsRootRoute` | handler/router.cpp:368-375 | the root node holds the route that begins every registered key, if there is one |
| `Routes.TightMeets` | handler/router.cpp:284-319 | cutting the root's segment where a new key parts from it keeps it the longest common beginning of all keys |
| `Routes.LeavesHere` | handler/router.cpp:329-347 | a node without a child for the next character is where a path leaves the registered keys |
| `Routes.PlainIsStatic` | handler/router.cpp:183-196 | paths without colon and star can always be registered |
| `Routes.RegisteredIsFound` | handler/router.cpp:154-163 | a handler registered for a method is found for it, and no other key changes |
| `Registrations.RoutesTold` | handler/router.cpp:131-163 | over every sequence of calls to Add and AddRoute: which keys are routes, which of them prefix routes, and each handler slot, told from the calls alone |
| `Registrations.MethodLaw` | handler/router.cpp:474-486 | a method match at a key gives the handler last registered there for the method; for HEAD without one that for GET; else the one last given for all methods; nothing only if there is none of these |
| `Registrations.PathLaw` | handler/router.cpp:463-472 | a match by path gives the handler last given for all methods, else that for GET, else that for POST |
| `Registrations.KeyLaw` | handler/router.cpp:362-457 | which key answers a path other than the root: its own if a call registered it, else the longest one added with a trailing slash that the path extends; none only if there is none |
| `Registrations.MatchLaw` | handler/router.cpp:463-486 | both matches, for every path but the root: the handler of the key that answers, told from the calls; nothing only if no key does |
| `Registrations.SlashServesBelow` | handler/router.cpp:131-152 | after Add of x with a trailing slash every path that extends x, with no longer route on its way, is answered by that handler |
| `Router.LongestCommonPrefix` | handler/router.cpp:169-175 | the longest common prefix |
| `Router.Router.SplitNode` | handler/router.cpp:286-319 | in place: the node keeps the front of its segment, a new node takes the end, the children and the handlers; no route changes |
| `Router.Router.AddChild` | handler/router.cpp:343-347 | in place: a new node is hung under an existing one and indexed by its first byte; no route changes |
| `Router.Router.Assign` | handler/router.cpp:321-327 | in place: the node's key becomes the route with these handlers |
| `Router.Router.Consume` | handler/router.cpp:284-319 | matches a segment, cutting it where it parts from the path, and says what is left |
| `Router.Router.Walk` | handler/router.cpp:275-349 | the insertion loop ends, at a node whose key is the path, without changing any route; the root's key is cut exactly where the path parts from it |
| `Router.Router.Insert` | handler/router.cpp:275-349 | the routes are the flat map with this one registration, and still determine the tree's shape; for every path that adds no wildcard behind the registered keys |
| `Router.Router.Add` | handler/router.cpp:131-152 | the same for a handler of every method; a trailing slash makes the route a prefix route |
| `Router.Router.AddRoute` | handler/router.cpp:154-163 | the same for a handler of one method, an empty method name included |
| `Router.Router.Call` | handler/router.cpp:131-163 | one call of either kind, in place |
| `Router.Router.SetUp` | handler/router.cpp:131-163 | any registrations into a new router: its routes are those of the calls, of which the laws of Registrations speak |
| `Router.Router.Visit` | handler/router.cpp:380-456 | one turn of the lookup: the flat lookup's answer, or a child with strictly less path left |
| `Router.Router.Lookup` | handler/router.cpp:362-457 | after any registrations every path is answered as the routes alone say: the flat lookup, and for root paths the route that begins all others |
| `Router.Router.MatchPath` | handler/router.cpp:463-472 | the handler of that route, by path alone; which one it is: Registrations.PathLaw |
| `Router.Router.MatchMethod` | handler/router.cpp:474-486 | the handler of that route, for the method; which one it is: Registrations.MethodLaw |
| `RegionLayout.SortedOk` | net/region_pool.cpp:61-65 | sorting gives the same slots in order of offset |
| `RegionLayout.MergedGapped` | net/region_pool.cpp:67-79 | merging an ordered list leaves no two slots touching, all aligned |
| `RegionLayout.MergedCovers` | net/region_pool.cpp:67-79 | merging keeps the set of covered bytes |
| `RegionLayout.GappedPairs` | net/region_pool.cpp:58-80 | in a coalesced list any two slots are apart by at least a byte |
| `RegionLayout.TakeSlot` | net/region_pool.cpp:32-39 | handing out a free slot keeps outstanding and free regions disjoint, aligned and covering exactly the space handed out so far |
| `RegionLayout.BumpTop` | net/region_pool.cpp:41-49 | handing out new space keeps that |
| `RegionLayout.GiveBack` | net/region_pool.cpp:52-80 | giving a region back and coalescing keeps that |
| `RegionPool.Need` | net/region_pool.cpp:28-30 | requests are rounded up to whole regions of 4096 bytes |
| `RegionPool.RegionPool.FirstFit` | net/region_pool.cpp:32-39 | the first slot large enough, or none if no slot is |
| `RegionPool.RegionPool.Acquire` | net/region_pool.cpp:27-50 | the first free slot that fits, taken out of the list, else new space behind all space handed out so far; recorded as outstanding, held by nobody else; size 0 exactly when no slot fits and the bump overflows or has overflowed before |
| `SessionRegion.RefusedAfterOverflow` | net/region_pool.cpp:41-49 | a concrete run: after a session that attached and one region that grew to the pool's size, a single byte is refused though almost all of the pool is unused |
| `RegionPool.RegionPool.Release` | net/region_pool.cpp:52-56 | the region is no longer outstanding and the free list is the coalesced one |
| `RegionPool.RegionPool.Coalesce` | net/region_pool.cpp:58-80 | sorting and the two-index compaction compute the merged list |
| `RegionPool.RegionPool.Compact` | net/region_pool.cpp:67-79 | the compaction in place, with its read and write index |
| `RegionPool.SortFree` | net/region_pool.cpp:61-65 | the list in order of offset |
| `SessionRegion.SessionRegion.Reset` | net/session_region.cpp:32-35 | the region is empty afterwards |
| `SessionRegion.SessionRegion.Migrate` | net/session_region.cpp:69-90 | the region is at least doubled, exactly (in whole regions) when new space is taken, unless the pool refuses or offers offset 0; the content is unchanged by moving, and no other session's bytes change |
| `SessionRegion.SessionRegion.Alloc` | net/session_region.cpp:37-52 | on 64-bit sizes: aligned space behind the content, which is kept, or nothing, if and only if the rounded end is below 2^64; else the place is given and the content is cut instead. It refuses only if the space does not fit, after moving too unless the pool refused |
| `SessionRegion.BumpedExactly` | net/session_region.cpp:40-50 | the code's rounding and addition give the true end exactly when it is below 2^64, and otherwise a place not behind the mark |
| `SessionRegion.BodyInsideExactly` | http/http1.1/parser.cpp:127-132 | the reference to a request body, its length cut to 32 bits, lies in the space reserved for it exactly under that condition; otherwise it is longer than the pool |
| `SessionRegion.SessionRegion.Dup` | net/session_region.cpp:54-60 | all or nothing: the copy reads back and what was there before is kept |
| `SessionRegion.SessionRegion.DupOff` | net/session_region.cpp:62-67 | the reference reads back the bytes, and what was there before is kept |
| `SessionRegion.SessionRegion.Write` | net/session_region.cpp:92-101 | all or nothing: the bytes are appended without padding |
| `SessionRegion.SessionRegion.WriteUint` | net/session_region.cpp:107-119 | the decimal digits of any 64-bit number are appended |
| `SessionRegion.FormatUint` | net/session_region.cpp:107-119 | the buffer filled back to front holds the digits of the number |
| `SessionRegion.DecimalSpells` | net/session_region.cpp:107-119 | those digits spell the number |
| `SessionRegion.SessionRegion.Init` | net/session_region.cpp:11-30 | the session is attached and empty: with the region it had, or a new one unless the pool refuses; detached from a pool, it gives its region back; no other region is given up |
| `SessionRegion.SessionRegion.Close` | net/session_region.cpp:5-9 | the region is given back, except the one at offset 0 |
| `Worker.Worker.OthersUndisturbed` | net/session_region.cpp:11-101 | a step of one session on a shared pool changes no byte that another session wrote |
| `Worker.Worker.StepKeepsValid` | net/session_region.cpp:11-101 | after such a step all references given out still read back |
| `Worker.Worker.TakeRef` | net/session_region.cpp:62-67 | the reference taken is added to those that must keep reading back |
| `Worker.Worker.StartOver` | net/session_region.cpp:11-35 | only the references of the session that starts over are given up |
| `Worker.Worker.EndSession` | net/session_region.cpp:5-9 | a session that ends gives up its own references and region only |
| `Worker.Worker.Run` | net/session_region.cpp:11-119 | after any run of operations by any sessions on one pool: how far every session's mark moved at each step, exactly which references that leaves, and that each of them reads back its bytes |
| `Worker.Worker.Allot` | net/session_region.cpp:37-52 | an allocation leaves all references live if its end is below 2^64; otherwise those that are no longer live are those that can no longer be read |
| `Worker.StableExactly` | net/session_region.cpp:37-52 | offset stability, over every run: a reference whose session does not start over stays if and only if no allocation whose end wraps cuts it off |
| `Worker.SmallSizesStable` | net/session_region.cpp:37-52 | so every such reference stays while allocations leave room for the pool below 2^64 |
| `Worker.DecimalRead` | http/http1.1/parser.cpp:205-213 | any 64-bit number can be announced as a content length |
| `Worker.CopyAfterWrap` | net/session_region.cpp:37-60 | after an allocation whose end wraps, whatever is copied next overwrites the content from where it wrapped to |
| `Worker.AnnouncedLengthOverwrites` | http/http1.1/parser.cpp:127 | a concrete case: a content length of 2^64 - 16 and one more copy, and the reference to an earlier one reads other bytes |
| `Frames.HeaderRoundTrip` | http/http2/parser/BFL.hpp:77-103 | a frame header with a 24-bit length and a 31-bit stream survives encoding and decoding |
| `Frames.HeaderBounds` | http/http2/parser/BFL.hpp:77-89 | whatever the bytes, the decoded length and stream are within those widths |
| `Frames.Be31RoundTrip` | http/http2/parser/BFL.hpp:303-317 | a 31-bit field survives; the reserved bit is dropped |
| `Frames.Be31Cuts` | http/http2/parser/BFL.hpp:303-317 | a larger value is cut to its low 31 bits |
| `WireFormat.BeAt` | http/http2/parser/BFL.hpp:77-103 | every byte of a field of any width, most significant first |
| `WireFormat.HeaderBytes` | http/http2/parser/BFL.hpp:94-103 | the nine bytes of every frame header, one by one, the reserved bit zero (section 4.1 of RFC 7540) |
| `WireFormat.HeaderReadBytes` | http/http2/parser/BFL.hpp:77-89 | and what any nine bytes are read as, the reserved bit ignored |
| `Settings.DecodeSettings` | http/http2/parser/BFL.hpp:175-195 | the loop reads every six-byte parameter, the last one of a kind wins, unknown ones are ignored |
| `Settings.WriteSettings` | http/http2/parser/BFL.hpp:198-216 | the parameters that are present, in order of their identifiers |
| `Settings.SettingsRoundTrip` | http/http2/parser/BFL.hpp:175-216 | decoding inverts encoding for every pattern of present parameters |
| `Settings.DecodedFits` | http/http2/parser/BFL.hpp:175-195 | decoded parameters are 32-bit values, whatever the bytes |
| `WireFormat.SettingRead` | http/http2/parser/BFL.hpp:175-195 | any six bytes set the parameter of the registry their first two name to the number in the last four, and nothing else |
| `FrameBatch.SegmentEncoded` | http/http2/session.cpp:106-125 | encoded frames within the limit in force, then a part of one, come apart as they were put together, SETTINGS changing the limit on the way |
| `FrameBatch.SegmentExact` | http/http2/session.cpp:106-130 | for any bytes: the frames cut off are within the limit, what is left is a suffix that is incomplete or too large, and together they account for every byte |
| `FrameBatch.CutFrames` | http/http2/session.cpp:106-125 | the loop over the read buffer computes that segmentation |
| `FrameBatch.ParseBatch` | http/http2/session.cpp:91-130 | preface skipping, the loop, and the move of the rest to the front of the buffer |
| `FrameBatch.BatchIsFrames` | http/http2/session.cpp:94-130 | a batch of preface, whole frames and a partial one dispatches exactly those frames in order and keeps exactly the partial one |
| `FrameBatch.PrefaceIsNoFrame` | http/http2/session.cpp:94-104 | read as a frame header the preface announces 0x505249 bytes |
| `WireFormat.PrefaceBytes` | http/http2/session.cpp:94-104 | the 24 bytes of the connection preface (section 3.5 of RFC 7540) |
| `FrameBatch.BatchWithoutPreface` | http/http2/session.cpp:94-130 | so below that limit a batch without preface loses nothing |
| `Output.H2Output.Append` | http/http2/session.cpp:579-646 | every frame writer appends the frame's encoding and nothing else |
| `Output.H2Output.FlushBegin` | http/http2/session.cpp:503-516 | while a write is in flight nothing happens; otherwise the whole buffer goes out and an empty one takes its place |
| `Output.H2Output.FlushEnd` | http/http2/session.cpp:516-526 | the bytes in flight count as sent |
| `Output.H2Output.Run` | http/http2/session.cpp:503-646 | under every interleaving of appends, flushes and completions, sent, in-flight and waiting bytes are the encodings of all appended frames in order, at most one write being in flight |
| `Output.OutputReparses` | http/http2/session.cpp:579-646 | re-parsing those bytes gives exactly the frames appended (payloads below 2^24) |
| `Output.MessageRead` | http/http2/parser/BFL.hpp:145-160 | what each of the seven frame writers writes is decoded to the same message, error codes modulo 2^32, stream ids and increments modulo 2^31 |
| `Output.FrameTypes` | http/http2/session.cpp:579-646 | type, flags and stream of every frame written, by the numbers of section 11.2 of RFC 7540 |
| `Output.MessagesRead` | http/http2/session.cpp:579-646 | from the bytes of any sequence of such messages a peer gets exactly those messages in order |
| `Output.OwnFramesPlain` | http/http2/session.cpp:53-62 | the server's own settings and frames do not change the limit they are re-parsed with |
| `Output.OversizedMisread` | http/http2/parser/BFL.hpp:94-103 | a payload of 2^24 bytes or more is announced modulo 2^24, so the bound is needed |
| `FlowControl.CreditPlusConsumed` | http/http2/parser/flow_control.cpp:60-90 | credit plus consumed bytes is the initial size modulo 2^32, and exactly that if and only if their difference is a signed 32-bit value |
| `FlowControl.PoppedPlusConsumed` | http/http2/parser/flow_control.cpp:83-90 | credits announced plus outstanding bytes are all bytes charged, exactly while fewer than 2^32 are outstanding |
| `FlowControl.HalfIsAvailable` | http/http2/parser/flow_control.cpp:73-81 | a half open window leaves the peer at least half of the initial size |
| `FlowControl.H2FlowControl.constructor` | http/http2/parser/flow_control.cpp:8-13 | no bytes charged, no credit announced |
| `FlowControl.H2FlowControl.SetInitialWindow` | http/http2/parser/flow_control.cpp:15-26 | every window, that of unknown streams too, follows the new size; nothing else changes |
| `FlowControl.H2FlowControl.GetOrCreate` | http/http2/parser/flow_control.cpp:40-54 | a stream heard of first gets the initial size; no window changes |
| `FlowControl.H2FlowControl.ConsumeBytes` | http/http2/parser/flow_control.cpp:60-71 | the stream and the connection are charged, others are not |
| `FlowControl.H2FlowControl.PopCredit` | http/http2/parser/flow_control.cpp:83-90 | the credit is what was consumed, counting starts over, and it is booked to that entity alone |
| `FlowControl.H2FlowControl.ChargeData` | http/http2/session.cpp:367-370 | a DATA frame charges its stream once and the connection twice, and nobody else |
| `FlowControl.H2FlowControl.AnnounceData` | http/http2/session.cpp:391-399 | an update is announced for either exactly when at least half of its window is used, worth all that is used; afterwards less than half of either is |
| `FlowControl.LegalExactly` | http/http2/session.cpp:391-399 | every increment announced is legal (section 6.9 of RFC 7540) exactly when less than 2^31 bytes are outstanding for either and, with an initial size below 2, some are |
| `FlowControl.OrdinaryLegal` | http/http2/session.cpp:391-399 | so it is after any frame that keeps less than 2^31 bytes outstanding |
| `FlowControl.ZeroIncrement` | http/http2/session.cpp:391-399 | a concrete case in which increments of 0 are announced |
| `FlowControl.H2FlowControl.Run` | http/http2/parser/flow_control.cpp:8-90 | after any run every window is that of section 6.9 of RFC 7540 computed from the whole run: initial size in force, plus updates announced, minus bytes charged |
| `StreamManager.LiveChanges` | http/http2/parser/stream_manager.cpp:7-57 | how each state change changes the number of live streams |
| `StreamManager.H2StreamManager.OnStreamOpen` | http/http2/parser/stream_manager.cpp:7-25 | opens exactly odd identifiers above the last one while fewer than the limit are live; such an identifier was never open before |
| `StreamManager.H2StreamManager.OnStreamEndStream` | http/http2/parser/stream_manager.cpp:27-35 | an open stream becomes half closed, nothing else changes, the counter stays right |
| `StreamManager.H2StreamManager.OnStreamClose` | http/http2/parser/stream_manager.cpp:37-46 | the stream is closed and counted down once; the counter is never zero then |
| `StreamManager.H2StreamManager.RemoveStream` | http/http2/parser/stream_manager.cpp:48-57 | the entry is gone and the counter stays the number of live streams |
| `StreamManager.H2StreamManager.Dequeue` | http/http2/parser/stream_manager.cpp:88-94 | first in, first out; 0, which is never a stream, when empty |
| `StreamManager.H2StreamManager.GcClosed` | http/http2/parser/stream_manager.cpp:109-118 | exactly the closed entries go |
| `Connection.HeadersFrameRead` | http/http2/parser/BFL.hpp:324-341 | the header block comes out of a HEADERS frame whatever padding and priority fields surround it |
| `Connection.InsideExactly` | http/http2/parser/BFL.hpp:324-357 | for every frame: the code's 64 and 32-bit length arithmetic stays inside the payload exactly when the padding and priority fields announced by the flags fit into it |
| `Connection.EmptyPaddedHeaders` | http/http2/parser/BFL.hpp:332-341 | a concrete frame for which it does not: an empty padded HEADERS frame has a block of almost 2^64 bytes |
| `Connection.EmptyPaddedData` | http/http2/parser/BFL.hpp:349-357 | an empty padded DATA frame has almost 2^32 bytes, more than the pool |
| `Connection.ContinueJoins` | http/http2/session.cpp:285-316 | CONTINUATION frames collect their pieces and only the last one decodes |
| `Connection.ContinuationTransparent` | http/http2/session.cpp:246-316 | a block cut anywhere into HEADERS and CONTINUATION frames, with any padding, delivers the same fields to the same contexts, leaves the same dynamic table and sends the same frames as one HEADERS frame; stream states and queue agree too exactly when decoding failed or there was neither END_STREAM nor a WebSocket request to carry over |
| `Connection.SplitRequestUnqueued` | http/http2/session.cpp:246-316 | a concrete request that is queued from one frame and never queued from two |
| `Connection.RefusedInPieces` | http/http2/session.cpp:233-293 | a stream refused as a whole is reset, refused in pieces it ends the connection |
| `Connection.DeliveredTold` | http/http2/stream_context.cpp:16-40 | what a stream's context tells in terms of the fields delivered: method and path are the last such values, the headers the first 64 that are no pseudo-headers, the content length that of the last such header among them, and a WebSocket is asked for exactly if the field is there |
| `Lifecycle.HeadersAligned` | http/http2/session.cpp:229-279 | a HEADERS frame keeps the two stream maps aligned, at most a hundred streams live, and opens only a new identifier |
| `Lifecycle.ContinuationAligned` | http/http2/session.cpp:285-345 | a CONTINUATION frame keeps that and opens none |
| `Lifecycle.DataAligned` | http/http2/session.cpp:351-416 | a DATA frame keeps that and opens none |
| `Lifecycle.RstAligned` | http/http2/session.cpp:422-438 | a RST_STREAM frame keeps that and opens none |
| `Lifecycle.FrameAligned` | http/http2/session.cpp:169-185 | so does any frame |
| `Lifecycle.FrameMarks` | http/http2/session.cpp:169-185 | a stream is marked as a WebSocket only if a header field delivered to it asked for one |
| `Lifecycle.FrameBooked` | http/http2/session.cpp:169-185 | whatever the frame, the WINDOW_UPDATE frames written so far are worth, per entity and modulo 2^31 per increment, the credit booked to it |
| `Lifecycle.IncrementCutToZero` | http/http2/session.cpp:622-629 | a concrete run of charges after which the client reads an increment of 0 for 2^31 bytes |
| `Lifecycle.PingEchoed` | http/http2/session.cpp:444-453 | a peer reads in the answer the eight bytes it sent; acknowledgements, so the answer itself, and short frames get none, and nothing else changes |
| `Lifecycle.GoAwayAnswered` | http/http2/session.cpp:459-470 | a GOAWAY is answered with the last stream the client opened, exactly if none was written before |
| `Requests.DataCompletes` | http/http2/session.cpp:351-416 | a DATA frame for a stream that takes a body puts its number, and no other, into the queue if and only if bit 0 of the flags is set; an open stream is then half closed, no other stream changes, and the body is the frame's data if there are some and there is room |
| `Requests.DataForWebSocket` | http/http2/session.cpp:372-415 | for a WebSocket the data goes to its handler; bit 0 ends the stream, and nothing is queued |
| `Requests.DataRefused` | http/http2/session.cpp:355-389 | for a stream that is not there, and for a body announced too large, a reset with error 5 or 7 and nothing else but charges |
| `Requests.DataFrameRead` | http/http2/parser/BFL.hpp:344-357 | a DATA frame with any padding is read as its data |
| `Requests.HeadersOpen` | http/http2/session.cpp:229-279 | a header block from any encoder in one HEADERS frame, with any padding and priority: the stream is opened, its context tells of exactly the fields named, and it is queued exactly if the frame ends the stream or the fields ask for a WebSocket |
| `Requests.HeadersRefused` | http/http2/session.cpp:233-240 | HEADERS for an even or old identifier, or beyond a hundred live streams, change nothing and get a reset with error 7 |
| `Requests.HeadersUndecodable` | http/http2/session.cpp:256-266 | a block the decoder rejects is not queued and gets a reset with error 9 |
| `Requests.ContinuationStray` | http/http2/session.cpp:285-293 | a CONTINUATION frame of another stream than the one being collected gets GOAWAY with error 1 |
| `Requests.ContinuationEnds` | http/http2/session.cpp:285-345 | one of that stream is collected; the last one ends the collecting, and a stream that is gone, or a block the decoder rejects, is reset with error 1 or 9 |
| `Requests.FrameOnlyOwn` | http/http2/session.cpp:169-185 | whatever the frame: it queues at most its own stream and changes no other |
| `Requests.RunReached` | http/http2/session.cpp:46-163 | in every run from the start: both maps agree, the decoder's table holds the newest insertions under the first limit, and queue and coroutines know only streams that were opened |
| `Requests.StillIncoming` | http/http2/session.cpp:351-416 | over any steps of a run, frames of other streams, handlers and WebSockets included, a request is not queued before its last frame |
| `Requests.RequestQueuedOnce` | http/http2/session.cpp:229-416 | in every reachable state: HEADERS and any DATA frames of a stream, the last one flagged, leave it in the queue exactly once, half closed, with exactly the fields named, whatever else happens in between |
| `Requests.BodyWholeExactly` | http/http2/stream_context.cpp:42-52 | over every run: the body a handler is given is all data of its stream exactly if there was at most one piece with data, and room for it |
| `Requests.ResetEnds` | http/http2/session.cpp:422-438 | RST_STREAM closes its own stream in both maps, and no other |
| `Requests.ResetNeverHandled` | http/http2/session.cpp:696-708 | in every run: a stream that was reset is never handed to a handler afterwards |
| `Requests.SettingsObeyed` | http/http2/session.cpp:191-223 | from the bytes of any settings: the initial window is taken over and they are acknowledged, or, for a frame size out of bounds, answered by GOAWAY with error 1 |
| `Requests.FrameSizeObeyed` | http/http2/session.cpp:211-219 | from the same bytes: the frame size, if legal, is the limit for the frames that follow |
| `Requests.FrameIgnored` | http/http2/session.cpp:169-196 | acknowledgements, a GOAWAY too short and the types the server has no use for change nothing |
| `Requests.HandlerReached` | http/http2/session.cpp:696-754 | the oldest queue entry reaches a handler if and only if the stream is there, was not reset, announces no more than the limit, middleware did not answer, and there is a handler |
| `Requests.RequestFinished` | http/http2/session.cpp:756-923 | afterwards the stream is gone from both maps, except a WebSocket request with a handler that did not throw and is no streaming one, or was answered by middleware: it stays, active, with a coroutine of its own |
| `Requests.RequestRefused` | http/http2/session.cpp:713-720 | it is reset with error 7 if too large or a WebSocket without handler, with error 2 if the handler throws, and otherwise not |
| `Runs.GoAwayOncePerRun` | http/http2/session.cpp:459-470 | that is so after every run of a connection, whichever frames were in it |
| `Runs.TakenUpOnce` | http/http2/session.cpp:696-754 | taking up a stream cannot be the second time, unless it asked for a WebSocket |
| `Runs.SkippedOnce` | http/http2/session.cpp:909-923 | forgetting a stream keeps that |
| `Runs.StepKeeps` | http/http2/session.cpp:46-163 | every step keeps the whole invariant: aligned maps, booked credits, marked WebSockets, and the count of handlers reached |
| `Runs.RunKeeps` | http/http2/session.cpp:46-163 | so does every run |
| `Runs.RunSafe` | http/http2/session.cpp:46-163 | after every run of a new connection: the maps have the same keys, at most 100 streams are live, the updates written are the credits booked, and a stream reached its handler twice only if a header field delivered to it asked for a WebSocket |
| `Session.H2Session.constructor` | http/http2/session.cpp:17-29 | a connection without streams, handlers or frames |
| `Session.H2Session.Absorb` | http/http2/session.cpp:256-262 | the block goes through the decoder into the stream's context, field after field, also the fields before a bad one |
| `Session.H2Session.OnHeaders` | http/http2/session.cpp:229-279 | a HEADERS frame is refused, kept for CONTINUATION frames, rejected, or delivered and perhaps queued, as specified |
| `Session.H2Session.OnContinuation` | http/http2/session.cpp:285-345 | a CONTINUATION frame ends the connection, is collected, or completes its block, as specified |
| `Session.H2Session.OnData` | http/http2/session.cpp:351-416 | a DATA frame is refused, kept as body or queued for the WebSocket, charged, and may complete the request, as specified; when it does: Requests.DataCompletes |
| `Session.H2Session.OnSettings` | http/http2/session.cpp:191-223 | acknowledged, or ends the connection for a frame size out of bounds; window and frame size are taken over |
| `Session.H2Session.ProcessFrame` | http/http2/session.cpp:169-185 | each frame has exactly the effect of its type, other types have none, and the frame size limit is the one the batch loop goes on with |
| `Session.H2Session.ReadBatch` | http/http2/session.cpp:89-131 | for any bytes in the buffer, the frames of the batch take effect one after the other; a too large one ends the connection |
| `Session.TooLargeEnds` | http/http2/session.cpp:110-117 | a frame above the limit is answered by GOAWAY with error 6 and the last stream opened, and ends the connection |
| `Session.H2Session.BeginHandle` | http/http2/session.cpp:696-815 | the oldest queue entry: a stale one is skipped, a reset stream forgotten, any other taken up; exactly when the handler is reached, what is refused, and what follows |
| `Session.H2Session.EndHandle` | http/http2/session.cpp:769-923 | an upgraded stream stays and is marked active, any other is gone from both maps; the region is reset exactly when a clean-up leaves no stream |
| `Session.H2Session.EndWebSocket` | http/http2/session.cpp:785-803 | the stream is gone from both maps, at whatever suspension point |
| `Session.H2Session.Run` | http/http2/session.cpp:46-163 | the object refines the runs: after any frames, handler steps and WebSocket ends its state is theirs, so both stream maps have the same keys, the counter is the number of live streams and at most 100, identifiers were odd and increasing, and no stream that did not ask for a WebSocket reached its handler twice (sections 5.1 and 5.1.1 of RFC 7540) |
| `Response.WriteResponseHeaders` | http/http2/session.cpp:652-684 | one HEADERS frame whose block encodes the status and the kept headers |
| `Response.ResponseRead` | http/http2/session.cpp:652-684 | a client's HPACK decoder gets exactly those fields in order, and its table stays as it was |
| `Response.ForbiddenExactly` | http/http2/session.cpp:670-679 | no field that is to be left out (connection, transfer encoding, date) is written exactly when each is spelled in one of the two ways looked for |
| `Response.CapitalsPass` | http/http2/session.cpp:670-679 | a concrete header, in capitals, that passes |
| `Response.KeptJoins` | http/http2/session.cpp:666-681 | each header is written or not by itself, in order |
| `Response.KeptValues` | http/http2/session.cpp:666-681 | under every name but connection, transfer-encoding and date all values are written, in order |
| `Response.H2StreamSink.Run` | http/http2/session.cpp:533-561 | any use of a sink appends the frames of the specification |
| `Response.SinkSafe` | http/http2/session.cpp:533-561 | over every use: the frames carry the chunks in order, END_STREAM comes at most once and last, and exactly if the handler ended the response before a flush failed |
| `WebSocket.XorTwice` | net/ws_frame.hpp:50-54 | masking a byte twice with one key byte is the identity |
| `WebSocket.MaskedTwice` | net/ws_frame.hpp:50-54 | unmasking undoes masking for every key and payload (section 5.3 of RFC 6455) |
| `WebSocket.MaskedZero` | net/ws_frame.hpp:142-149 | the writer's zero key leaves the payload as it is |
| `WebSocket.UnmaskPayload` | net/ws_frame.hpp:50-54 | in place, every byte with the key byte of its position |
| `WireFormat.XorAt` | net/ws_frame.hpp:50-54 | exclusive or, bit by bit: set exactly where the two differ |
| `WireFormat.MaskedAt` | net/ws_frame.hpp:50-54 | byte i is masked with byte i modulo 4 of the key |
| `WebSocket.LengthRoundTrip` | net/ws_frame.hpp:74-86 | all three length forms are read back, up to 64 bits |
| `WebSocket.FrameRoundTrip` | net/ws_frame.hpp:56-108 | a frame, masked with any key or not, is read back with exactly its bytes consumed, exactly when its payload is at most a mebibyte |
| `WebSocket.CutFrame` | net/ws_frame.hpp:58-108 | a frame cut off at any place by the end of the stream has no payload and leaves nothing; it is the empty binary frame that stands for the end, but inside the length or the key an empty frame of its own kind |
| `WebSocket.StreamRoundTrip` | net/ws_frame.hpp:56-154 | any sequence of such frames is read back in order with exactly its bytes consumed |
| `WebSocket.Stream.ReadExactly` | net/ws_frame.hpp:30-47 | all the bytes asked for however they arrive in pieces, or none at the end of the stream |
| `WebSocket.Stream.ReadExtended` | net/ws_frame.hpp:74-86 | the extended length, one byte after the other |
| `WebSocket.Stream.ReadFrame` | net/ws_frame.hpp:58-108 | one frame of the specification, its failures included |
| `WebSocket.Stream.WriteFrame` | net/ws_frame.hpp:112-154 | the frame's bytes are written and nothing else |
| `WebSocket.WriteLong` | net/ws_frame.hpp:136-140 | eight bytes, the most significant first |
| `WireFormat.FrameHead` | net/ws_frame.hpp:112-154 | where every part of a frame stands: end flag and opcode, mask flag and the length in 7, 16 or 64 bits, key, payload (section 5.2 of RFC 6455) |
| `WireFormat.Hello` | net/ws_frame.hpp:112-154 | the two examples of section 5.7 of RFC 6455, byte by byte |
| `Upstream.EveryServerVisited` | handler/upstream_pool.cpp:18-22 | a round that does not wrap the 64-bit counter badly looks at every server |
| `Upstream.RoundCovers` | handler/upstream_pool.cpp:18-22 | one round of attempts looks at every server exactly when it does not cross the counter's wrap or the number of servers divides 2^64 |
| `Upstream.OneRound` | handler/upstream_pool.cpp:21-22 | any n consecutive counter values name each of n servers once |
| `Upstream.FairExactly` | handler/upstream_pool.cpp:19-26 | k rounds choose each server exactly k times if and only if they do not cross the wrap, the number of servers divides 2^64, or whole rounds are left behind the wrap |
| `Upstream.UnfairAcrossWrap` | handler/upstream_pool.cpp:21-22 | a concrete round across the wrap that names one of three servers twice and one not at all |
| `Upstream.UpstreamPool.Pick` | handler/upstream_pool.cpp:12-43 | the first eligible server in turn, revived if its cooldown is over; nobody exactly when the pool is empty or, in an even round, nobody is eligible |
| `Upstream.UpstreamPool.ReportFailure` | handler/upstream_pool.cpp:45-65 | that server alone counts a failure and dies, as of now, at the third |
| `Upstream.UpstreamPool.ReportSuccess` | handler/upstream_pool.cpp:67-84 | that server alone is alive without failures |
| `Upstream.UpstreamPool.Run` | handler/upstream_pool.cpp:12-84 | in every run alive means fewer than three failures, and every choice is the one the events alone determine: servers are looked at in turn, and the first is chosen that has fewer than three failures in a row or had the third ten seconds ago |
| `Upstream.ChosenExactly` | handler/upstream_pool.cpp:12-43 | in every run a pick chooses a server exactly if it looks at it and the events before say that it may be chosen |
| `Upstream.OutForTenSeconds` | handler/upstream_pool.cpp:28-65 | in every run: from its third failure in a row, at time t, a server is not chosen before t + 10000 unless a success was reported for it, and a pick at that time or later that looks at it chooses it |
| `Upstream.UpstreamPool.PickRounds` | handler/upstream_pool.cpp:12-43 | with every server alive, k rounds of picks choose each k times exactly under the condition of FairExactly |
| `Percentiles.BucketUnique` | handler/metrics.cpp:30-53 | the bucket where the cumulative count reaches a target is unique |
| `Percentiles.PercentileAt` | handler/metrics.cpp:35-48 | the value is interpolated in the bucket where the count first reaches the target |
| `Percentiles.PercentilesOrdered` | handler/metrics.cpp:11-59 | percentiles are ordered like their targets |
| `Percentiles.PercentileByCounts` | handler/metrics.cpp:35-48 | by counts alone: t percent of the requests or more lie up to the percentile's bucket and fewer before it, and the value is as far into the bucket as the share of its requests, rounded down |
| `Percentiles.FillBucket` | handler/metrics.cpp:35-52 | the inner loop fills every target reached in this bucket |
| `Percentiles.ComputePercentiles` | handler/metrics.cpp:11-59 | all three targets are filled by the main loop with the declared percentile, p50 <= p90 <= p99 <= 32000; all zero for an empty histogram |
| `Metrics.FindBucket` | handler/metrics.cpp:113-120 | the one bucket whose bounds hold the latency |
| `Metrics.MetricsCollector.OnRequest` | handler/metrics.cpp:96-122 | counts the request once, in one bucket and one protocol, for that worker alone |
| `Metrics.MetricsCollector.Flush` | handler/metrics.cpp:136-183 | the counters move to the slot of this second, overwriting what this worker had there; its total is the sum over the workers |
| `Metrics.SumWorkers` | handler/metrics.cpp:169-183 | the total of a slot is the sum of its workers |
| `Metrics.MetricsCollector.Run` | handler/metrics.cpp:96-183 | in every run every counter set has its bucket sum equal to its request count, every flush takes the requests since the one before, and for every worker the requests in its counters, in the ring and overwritten there are all requests made; nothing is lost exactly when no flush with requests is followed by another into its slot |
| `Metrics.RingAccounts` | handler/metrics.cpp:136-183 | over every history of flushes, requests in the ring plus those overwritten are those flushed |
| `Metrics.LostExactly` | handler/metrics.cpp:136-183 | nothing is lost exactly when no flush goes into a slot in which the same worker has requests |
| `Metrics.DistinctSeconds` | handler/metrics.cpp:136-183 | so nothing is lost while a worker's flushes are in different slots |
| `Metrics.DoubleFlushLoses` | handler/metrics.cpp:136-183 | a concrete history, two flushes in one second, that loses requests |
| `Http1.LineTaken` | http/http1.1/parser.cpp:34-90 | a line without carriage return and its line break are taken as a whole |
| `Http1.HeadersRead` | http/http1.1/parser.cpp:115-143 | header lines and the empty line are processed in order; what is behind is not looked at |
| `Http1.HeaderLineRefused` | http/http1.1/parser.cpp:177-180 | a header line without a colon makes the parser give up |
| `Http1.LineTooLong` | http/http1.1/parser.cpp:68-72 | a whole line of 4095 bytes or more does |
| `Http1.LineBegunTooLong` | http/http1.1/parser.cpp:48-50 | and so does one begun, with the next byte |
| `Http1.PrefaceSeen` | http/http1.1/parser.cpp:10-16 | a chunk that begins with the HTTP/2 preface, where a request may begin, is taken for it |
| `Http1.PrefaceDetected` | http/http1.1/parser.cpp:10-16 | HTTP/2 is detected exactly by such a chunk |
| `Http1.RequestLineRead` | http/http1.1/parser.cpp:145-175 | every request line with a known method: method, path, and version 1.0 exactly if the last word says so |
| `Http1.RequestLineRefused` | http/http1.1/parser.cpp:145-166 | a request line without two spaces, or whose first word is none of the six methods, makes the parser give up |
| `Http1.KeptForLater` | http/http1.1/parser.cpp:41-55 | the bytes of a line begun are kept |
| `Http1.CutLine` | http/http1.1/parser.cpp:34-90 | a line cut once, anywhere before its line break, is read as if it came whole |
| `Http1.CutInBreak` | http/http1.1/parser.cpp:34-90 | cut inside its line break it is, if the next chunk has no whole line break of its own |
| `Http1.CutBreakLosesHeader` | http/http1.1/parser.cpp:34-90 | if it has one, the two lines are read as one: after every request line cut so the first header field is lost |
| `Http1.StoredAll` | http/http1.1/parser.cpp:177-216 | the first 64 headers are kept, and the content length is that of the last such header among them |
| `Http1.RequestRoundTrip` | http/http1.1/parser.cpp:8-216 | a request printed in the proxy's format and fed in one chunk to a ready parser gives the same method, path and headers, names in lower case and values without leading spaces; it is complete exactly when no body is announced, and what follows it in the chunk is dropped |
| `Http1.H1Parser.Feed` | http/http1.1/parser.cpp:8-113 | the loop is the specification for every chunk and every parser state, with the preface check; complete exactly if the request is done, an error exactly if the parser gave up or saw the preface |
| `Http1.H1Parser.Turn` | http/http1.1/parser.cpp:32-90 | one turn: a whole line, the second half of a split line break, or bytes kept for later |
| `Http1.H1Parser.UseLine` | http/http1.1/parser.cpp:115-143 | request line, header line or empty line, the body's length cut to 32 bits; an unusable line makes the parser give up |
| `Http1.H1Parser.ParseRequestLine` | http/http1.1/parser.cpp:145-175 | method, path and version, or failure |
| `Http1.H1Parser.ParseHeaderLine` | http/http1.1/parser.cpp:177-216 | name in lower case and value are stored up to the limit, the content length is read |
| `Http1.H1Parser.ReadBody` | http/http1.1/parser.cpp:92-105 | body bytes are taken up to the announced length |
| `Http1.BodyArrives` | http/http1.1/parser.cpp:92-105 | however the body is cut into chunks, the buffer holds its bytes in order up to its size, and the request is complete exactly when the whole body has come and the buffer was large enough |
| `Http1.RequestArrives` | http/http1.1/parser.cpp:8-229 | a printed request and its body in any chunks, if the region gives a place: the bytes come in order up to the announced length cut to 32 bits; complete exactly when that is not cut and all have come, and then the body is those bytes |
| `Http1.BuildRequest` | handler/reverse_proxy.cpp:165-207 | the request the proxy sends: its own headers and those of the client that are not meant for one hop; which these are: Http1.ForwardedValues |
| `Http1.ForwardedValues` | handler/reverse_proxy.cpp:182-195 | of host, connection, transfer-encoding, proxy-connection, keep-alive and upgrade nothing is forwarded; under every other name the same values in the same order |
| `Http1.ForwardedJoins` | handler/reverse_proxy.cpp:188-195 | each field is forwarded or not by itself, in order |
| `Http1.PrintedText` | handler/reverse_proxy.cpp:168-195 | the printer's separators, line breaks and version, as text |
| `Http1.ProxyValues` | handler/reverse_proxy.cpp:165-207 | name by name, what the upstream server gets: the proxy's host and connection, the client's values of every name not of this hop, and behind them the proxy's content length |
| `Http1.ProxyRoundTrip` | handler/reverse_proxy.cpp:165-207 | what the proxy sends is parsed upstream as the client's method, path and fields, unchanged and without those of this hop, between the proxy's own |

## Left out

- Wildcard routes (`:param`, `*catchAll`), path parameters, and the lock around the router.
- Router.Router.Insert: registrations that add a wildcard node behind the registered keys are not modelled; a colon or star elsewhere is.
- Router.Router.Add: likewise.
- Router.Router.AddRoute: likewise.
- Carry-over of a partial frame between read batches: the next batch starts by resetting the count.
- Independence of the HTTP/1.1 parser from any number of cuts in the header section: the code does not have it; a line cut once, and a section in one chunk, are claimed.
- H1Parser: copies of path and headers into the region always succeed, and a body buffer starts as zeros and is memory of its own; what is written through one that does not lie in the region is not modelled.
- Aliasing of a stream context that a WebSocket request, queued twice, uses after its first coroutine ended.
- Copies of header fields into a stream's context always succeed.
- Session.H2Session.OnHeaders: what lies behind a short frame is arbitrary bytes; that reading it may crash is not modelled.
- Session.H2Session.OnData: likewise; a short frame's data is not copied into the body.
- Write errors, and everything after the main loop: the last GOAWAY and the sweep of closed streams from one of the two maps.
- Session.H2Session.Run: frames written by handlers are not part of a step; they are events of `Output.H2Output.Run`.
- Session.H2Session.EndHandle: the region's reset is reported, the region itself is not part of the connection's state.
- FlowControl.H2FlowControl.Run: `Available`, which only serves debugging, is not modelled.
- RegionPool.RegionPool.Acquire: the bump offset, which every refusal moves on by at most the pool's size, is not wrapped at 64 bits; a failing `mmap` is not modelled.
- Upstream.UpstreamPool.Run: one thread; the counter's atomicity and the data race on server fields are not modelled.
- Metrics.MetricsCollector.Run: connection counts, alerts and rendering are not modelled; counters do not wrap at 64 bits.
- PRIORITY payloads, which the server ignores, and the error codes of received RST_STREAM and GOAWAY frames, likewise.
- Response.WriteResponseHeaders: the digits of the status are a parameter; a block above the peer's frame size is not split, as in the code.
- Sockets, TLS, timers, DNS, files, reloading, databases, gRPC, configuration, logging, JSON and HTML rendering.
- Middleware chain, connection and object pools, RPC load balancing and retries: single-branch facts only.
