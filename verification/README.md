# Verification model of the shellinabox web server

shellinabox puts a terminal into a browser: a small embedded web server (`libhttp`) talks HTTP and WebSockets,
and `shellinaboxd` connects its requests to child processes on pseudo terminals. This project models the
byte-level engine of that program in Dafny and proves what it is for. Every piece of code that works in place
is modelled in place, with the fields, positions and branches of the C (or JavaScript) code, and is proved
against a specification that does not mention them; the properties are then proved about the specification.

`dafny verify dfyconfig.toml` checks the whole project.

| file | what it models |
|---|---|
| `Bytes.dfy`, `Text.dfy` | byte strings, lines, hexadecimal digits, `memmove` |
| `WebSocket.dfy`, `WebSocketSend.dfy` | WebSocket framing (draft-hixie-thewebsocketprotocol-75, section 5.3), both directions |
| `Machine.dfy`, `Reading.dfy` | what the bytes on one connection mean: an automaton that takes a byte at a time, and what single reads make of it |
| `Connection.dfy`, `Requests.dfy` | the connection as it runs: arbitrary reads, `partial`, negative offsets, the payload collector |
| `Deliveries.dfy` | the payloads that the request handlers get over the whole life of a connection |
| `Headers.dfy`, `Output.dfy` | header rewriting in place, and the queue of outgoing data |
| `EventLoop.dfy` | the two parallel tables of the event loop |
| `TrieSpec.dfy`, `Trie.dfy` | the radix trie as a value, and as linked nodes that are split and extended in place |
| `HashMap.dfy` | the hash map with recursive rehashing and swap-with-last deletion |
| `Url.dfy`, `Base64.dfy` | percent encoding, query strings, PEM decoding |
| `CommandLine.dfy`, `Tokenizer.dfy` | the command line of a service: its meaning, and the pass over the buffer |
| `Json.dfy`, `Session.dfy` | terminal output on its way to the browser |
| `Utf8.dfy`, `Keys.dfy` | keystrokes on their way to the terminal |
| `Conditionals.dfy`, `Expander.dfy` | conditional text in served files: its meaning, and the expansion in place |

The main results, in words:

- **How reads are cut does not matter**, with two exceptions that are stated exactly below: a read that exceeds the
  limit on a request, and one that is confused. Two connections that get the same bytes in different pieces end in the
  same state, with the same application state and the same WebSocket frames, if nothing that is put off holds a
  newline; and if something does, then they will be in the same state once it has been processed. The invariant behind
  this is that the automaton in front of `partial` has still to see the bytes in `partial`, and nothing else. Every
  line reaches the parsers once, in order, with the right positions of colon and blanks. Over the whole life of a
  connection the POST handlers are called once for every payload, in order, each with exactly the body, and the last one
  with what has arrived of it if the connection ends within it.
- **The indexes are maps.** The trie, after any insertions, agrees with a finite map and finds the longest stored
  prefix; the hash map agrees with a finite map through every rehash and deletion, and through an iteration that
  filters it; the tables of the event loop agree with a map from descriptors to connections through swaps, deletion
  and compaction, while handlers open, close and change other connections. In one turn of the loop an entry that was
  passed to `poll` is called, once, exactly if it is ready or overdue when its turn comes and no handler has closed it
  by then.
- **Round trips.** Text frames, JSON strings, UTF-8, hexadecimal keys, Base64 and command lines come back as they
  were. Percent encoding is invisible to the other side, for malformed text too.
- **Nothing is lost.** Terminal output, outgoing data and keystrokes are queues: over any run, what has gone out and
  what is pending are together all that came in, in order, but for the exceptions that are stated below. The browser
  sees the terminal output whatever requests arrive, as a HEAD request only ever opens a session.

Some natural claims are false of the code. They are stated with the exact condition:

- a binary frame comes back if and only if it is shorter than 128 bytes (`BinaryRoundTrip`);
- a read leaves the state its bytes demand if and only if no newline follows the body of a POST in the bytes that are
  processed (`Receive`, with the predicate `NoLineBehind`, which `BehindPayload` spells out); otherwise the line is put
  off with its newline, and is parsed in a later read (`LineBehindPayload` is such a read);
- the bytes that are put off again are the right ones if and only if the read is not confused (`PutOff`, with the
  predicate `Confused`): the loop stops among bytes that had been put off, the lines that were parsed are together as
  long as the read, and what is stored is not what is left. Then lines are parsed once more, and the read is forgotten
  (`ParsedAgain`). Without a newline in `partial` no read is ever confused;
- a payload is handed over whole if and only if it is complete when the connection ends: at the end of the stream,
  after a read that exceeds the limit, and when the connection is destroyed, the handler gets what has arrived, and is
  not told that this is not all (`Serve`, `ShortAtEnd`; `TruncatedPost`, and `LongPostPrefix` for a request that is
  answered with 413);
- a payload that is too long is answered with 400 by exactly those reads that take it beyond 64 KiB while they
  themselves stay within the limit for reads (`RefusedRead`). As that limit counts payload too and comes first, the
  answer is 413 unless a read has ended one request and begun the payload of the next (`NeverBadRequest`,
  `TooBigFirst`, `LongPostTooBig`; `BadRequestBehindGet` gets 400);
- at most one request with keys is in flight in a run if and only if it never happens that a reply from before a
  reconnect comes while a request is in flight, and then keys go out, kept ones or new ones, before that request has
  been answered (`OneAtATimeIff`; in `TwoInFlight` there are two);
- the flag that tells the event loop of an expired deadline is set early if and only if the deadline `d` is in the
  future and below `now + last - last / 1000`, because milliseconds are added to seconds (`FlagIsEarly`, with the
  example `EarlyFlag`); no deadline is ever missed, though (`NoDeadlineMissed`);
- in one turn of the event loop every connection that is due is called if the handlers act on their own connections,
  and on those that they open (`Turn`). In general, an entry that `poll` was asked about is called if and only if no
  earlier call of that turn has closed it and it is ready, or overdue by its deadline as of then (`CalledIff`). Every
  connection that was ready and closed before its turn leaves an event uncounted, which lets at most one other entry
  be called for what is left in its `revents` from earlier (`FewExtra`; `LeftOver` is such a turn). A connection is
  destroyed twice if and only if its handler closes it and then reports a failure (`Conserved`);
- iterating over the hash map with a function that deletes the entry it is called for, as the program does for a dropped
  request, removes exactly that entry if and only if it is the last one of its bucket; otherwise another one is destroyed
  as well (`IterateOwn`; `BothDestroyed` for any two keys in a bucket);
- all the output of a terminal is kept if and only if no read comes after the deadline while no request is pending: the
  bytes of that read are dropped (`HandleSession`, `Run` in `Session.dfy`; `TooLate` is a session that loses all its
  output);
- all that is queued for the socket is taken or pending if and only if nothing has been given up (`Run` in
  `Output.dfy`); a write that fails for good, and the deadline of the connection, give up exactly what is pending then
  (`Write`, `Expire`; `TooSlow`);
- served text is expanded as its conditionals demand if and only if no conditional is closed that was opened behind
  an else line (`ExpandFile`, with the predicate `Sound`; `ReopenedAndClosed` is a text without it). At the end of
  such a conditional the loop still has the position of the earlier else line, which is in front of it; too much is
  kept then, or the part to be kept has a negative length.

Where a comment and the code disagree, the code is modelled. `libhttp/httpconnection.c` says at line 1398 that
the end-of-frame flag of text frames is set only at the end; the code sets it at the end of every buffer.

## Model

| member | source | states |
|---|---|---|
| `Connection.SameBytes` | libhttp/httpconnection.c:1408-1604 | the same bytes, cut into reads in any two ways: unless a read of one of the connections exceeds the limit or is confused, they mean the same, and are in the same state, with the same application state, WebSocket frames and closed flag, if no newline is put off. Reads without a line behind a payload are never confused, and 64 KiB in all never exceed the limit |
| `Connection.HttpConnection.ReceiveAll` | libhttp/httpconnection.c:1408-1604 | any number of reads, whatever they leave behind: the connection is what the reads make of it one by one, and means one run over the concatenated bytes unless a read exceeds the limit or is confused; without a line behind a payload it is what the automaton answers with, read by read |
| `Connection.HttpConnection.Receive` | libhttp/httpconnection.c:1419-1440 | one successful read: the limit on `headerLength` comes first, and beyond it the request is answered with 413 and wound up; within it, unless the read is confused, nothing is lost or reordered, and the state is the one the bytes demand if and only if no line follows a payload. `headerLength` starts again at 0 exactly when the read finishes a request |
| `Connection.HttpConnection.HandleRead` | libhttp/httpconnection.c:1493-1604 | the inner loop over what was put off and one buffer: the automaton, the bytes that are put off, and the count are those of `ReadOnce`, for every state and every buffer |
| `Connection.LineBehindPayload` | libhttp/httpconnection.c:1547-1586 | a read with a body and a line: the connection is not in the state the bytes demand, and `partial` holds the line with its newline, but it means what they demand |
| `Connection.ParsedAgain` | libhttp/httpconnection.c:1570-1590 | three reads after which a line that has been parsed is still put off, and the last read is forgotten |
| `Reading.PutOff` | libhttp/httpconnection.c:1570-1602 | the bytes that are put off are those that have not been processed if and only if the read is not confused |
| `Reading.ReadWhole` | libhttp/httpconnection.c:1493-1602 | a read that is not confused adds its bytes to what the connection means, wherever the loop stops |
| `Reading.StopsProperly` | libhttp/httpconnection.c:1493-1602 | the loop stops in line mode, behind a line or a payload, or at the end; with a newline left only behind a payload |
| `Reading.StopsRight` | libhttp/httpconnection.c:1547-1602 | no newline is left if and only if no line follows a payload |
| `Reading.ConfusedRead` | libhttp/httpconnection.c:1570-1590 | a read of the length of the line that was put off, without a newline, is confused, and its bytes are missing |
| `Reading.PoliteReads` | libhttp/httpconnection.c:1408-1604 | reads without a line behind a payload put off nothing but an unfinished line, and are never confused |
| `Connection.HttpConnection.ScanLine` | libhttp/httpconnection.c:1503-1527 | the scan over `partial` and the buffer finds the first newline and the positions of the first colon, the first blank and the last blank, as a scan over the joined text would |
| `Connection.HttpConnection.GetChar` | libhttp/httpconnection.c:952-961 | negative offsets address the end of `partial`, the others the buffer; together they are one text |
| `Connection.HttpConnection.LineTurn` | libhttp/httpconnection.c:1500-1546 | a complete line is parsed and consumed with its newline; an incomplete one is pushed back whole, and the loop stops |
| `Connection.HttpConnection.PayloadTurn` | libhttp/httpconnection.c:1547-1561 | one turn in a payload hands over no more than is expected; what is behind it is pushed back, and the loop stops there |
| `Connection.HttpConnection.ParsePayload` | libhttp/httpconnection.c:1245-1272 | payload that had been put off is handed over first, and removed from the front of `partial`, which keeps the offsets right; then what is in the buffer |
| `Connection.HttpConnection.SavePartial` | libhttp/httpconnection.c:1570-1590 | what is stored is exactly what has not been consumed, unless that begins among the stored bytes and is as long as they are: then they stay as they are |
| `Connection.HttpConnection.HandleEof` | libhttp/httpconnection.c:1528-1546 | at the end of the stream what was saved is parsed as a line, up to its first newline if it has one; a request that is not finished is handled with what there is: headers that are not complete, and payload as far as it has arrived; and the connection is back in the COMMAND state |
| `Connection.HttpConnection.LastLine` | libhttp/httpconnection.c:1528-1546 | what was saved counts as a line without a newline, with the positions found in it; if it has a newline, its first line is parsed and the rest dropped |
| `Connection.HttpConnection.FinishCommand` | libhttp/httpconnection.c:237-250 | the collector hands what it has to the request handler, a WebSocket handler is told that the connection is closed |
| `Connection.HttpConnection.HandleClosed` | libhttp/httpconnection.c:1607-1629 | a connection that was closed is wound up the next time it is looked at |
| `Connection.HttpConnection.Destroy` | libhttp/httpconnection.c:410-430 | a connection that is destroyed finishes the request it is in |
| `Deliveries.Serve` | libhttp/httpconnection.c:1408-1629 | over the whole life of a connection, however its bytes are cut into reads: the request handlers are called once for every payload that is read, in order; all of them are whole but the last, which is short exactly if the connection ends within it, and then has what has arrived. Those handed over and those in what is put off are the payloads of the bytes, unless a read is confused |
| `Deliveries.PayloadsOfStream` | libhttp/server.c:156-192 | the payloads that have been handed over, and those in what is put off, are the payloads of the request stream, however it is cut |
| `Deliveries.WholeSoFar` | libhttp/server.c:156-192 | as long as the stream goes on, only whole payloads are handed over |
| `Deliveries.ShortAtEnd` | libhttp/httpconnection.c:326-334 | what is handed over at the end is never whole, and it is the payload that is being collected |
| `Deliveries.RunRecorded` | libhttp/server.c:156-192 | these are the calls: handlers that record what they are called with have recorded exactly that |
| `Deliveries.EndRecorded` | libhttp/httpconnection.c:1607-1629 | the same for the end of a connection |
| `Connection.HttpConnection.ConsumePayload` | libhttp/httpconnection.c:1172-1243 | for a known length: takes the smaller of what there is and what is expected, and the automaton takes the same steps |
| `Connection.HttpConnection.CollectPayload` | libhttp/server.c:156-192 | the collector hands the payload to the handler when it is complete, and refuses what is longer than it keeps |
| `Connection.HttpConnection.HandleWebSocket` | libhttp/httpconnection.c:1274-1406 | decoding from any position, in `partial` or in the buffer, is a run of the frame decoder over the bytes that are left, and fails exactly if a length is too long |
| `Connection.HttpConnection.HeaderByte` | libhttp/httpconnection.c:1279-1305 | one byte of a frame header |
| `Connection.HttpConnection.BinaryData` | libhttp/httpconnection.c:1306-1371 | a piece of a binary frame, with the start and end flags |
| `Connection.HttpConnection.TextData` | libhttp/httpconnection.c:1372-1403 | a piece of a text frame up to the terminator or to the end of the buffer |
| `Connection.DecoderOfInjective` | libhttp/httpconnection.c:1279-1305 | `websocketType` and `expecting` are determined by the decoder state: equal states have equal fields |
| `Machine.FirstOf` | libhttp/httpconnection.c:1508-1527 | the first position with a property, as the scan records it |
| `Machine.LastOf` | libhttp/httpconnection.c:1508-1527 | the last position with a property, as the scan records it |
| `Machine.RunConcat` | libhttp/httpconnection.c:1493-1604 | the automaton can be stopped and resumed anywhere |
| `Machine.RunLine` | libhttp/httpconnection.c:1528-1543 | a whole line is one step of the parser |
| `Machine.RunBody` | libhttp/server.c:156-192 | a piece of a payload is added to what has been collected; if it completes the payload or exceeds the limit, that is the end of it |
| `Machine.RunSocket` | libhttp/httpconnection.c:1562-1567 | in the WebSocket state all the bytes belong to frames |
| `Machine.BehindPayload` | libhttp/httpconnection.c:1547-1586 | behind a payload, a read is as it has to be if and only if the payload closes the connection or no newline follows |
| `Machine.SavedRight` | libhttp/httpconnection.c:1572-1590 | taking bytes for the beginning of a line is right if and only if there is no newline among them |
| `Machine.AnsweredIsRun` | libhttp/httpconnection.c:1419-1440 | as long as no read exceeds the limit, with a count that starts again after every request, only the bytes matter |
| `Machine.FinishesConcat` | libhttp/httpconnection.c:326-356 | whether a request is finished by some bytes does not depend on how they are cut |
| `Requests.SplitLossless` | libhttp/httpconnection.c:1493-1604 | splitting into lines loses nothing and leaves no newline inside a line or in the rest |
| `Requests.LinesReachParser` | libhttp/httpconnection.c:1500-1546 | every non-empty line reaches the parser once, in order, with the right positions; the unfinished line is exactly what is left |
| `Requests.PayloadDeliveredOnce` | libhttp/server.c:156-192 | the handler is not called before the last byte, and with it once, with the whole payload and nothing else (section 3.3.3 of RFC 7230); if the stream ends before that, or the connection is destroyed, it is called with what has arrived |
| `Requests.TruncatedPost` | libhttp/httpconnection.c:1607-1629 | a POST request that is cut short within its payload: the handler gets what has arrived, as if that were all |
| `Requests.LongPostPrefix` | libhttp/httpconnection.c:1422-1427 | the handler of a POST request that is answered with 413 gets the part of the payload that was in front of the read that exceeds the limit |
| `Requests.LongPayloadRefused` | libhttp/server.c:161-166 | the collector, seen alone: it refuses a payload if and only if that is above the limit, and the handler never sees it |
| `Requests.RefusedRead` | libhttp/server.c:161-166 | a read within the limit for reads is answered with 400 if and only if it takes the payload, and the length that was announced is, beyond the limit for payload |
| `Requests.NeverBadRequest` | libhttp/httpconnection.c:1422-1427 | 400 is never given, unless a read has ended one request and begun the payload of the next |
| `Requests.TooBigFirst` | libhttp/httpconnection.c:1422-1427 | unless there is such a read, bytes the collector would refuse exceed the limit for reads first |
| `Requests.LongPostTooBig` | libhttp/httpconnection.c:1422-1427 | a POST request with a payload that is too long is answered with 413, however it is cut into reads |
| `Requests.AheadOfCount` | libhttp/server.c:161-166 | if some of the payload has not been counted, a long one is answered with 400, however the rest is cut |
| `Requests.BadRequestBehindGet` | libhttp/server.c:161-166 | a run that gets 400: a read with the end of a request, the first line of the next and one byte of its payload |
| `Requests.PostRequest` | libhttp/httpconnection.c:1547-1561 | a whole POST: the handler gets exactly the body, and the connection waits for the next command |
| `WebSocket.Run` | libhttp/httpconnection.c:1278-1404 | the length of a frame and the number of bytes that are expected stay within 31 bits |
| `WebSocket.RunConcat` | libhttp/httpconnection.c:1278-1404 | decoding can be stopped and resumed at any byte |
| `WebSocket.RunBinary` | libhttp/httpconnection.c:1306-1371 | inside a binary frame the handler gets the bytes in order; the frame is over exactly after the number of bytes that was announced |
| `WebSocket.RunTextEnd` | libhttp/httpconnection.c:1372-1403 | a text frame is what lies in front of the terminator |
| `WebSocket.RunFailed` | libhttp/httpconnection.c:1284-1286 | after a length that is too long nothing more is delivered |
| `WebSocket.DeliverTwice` | libhttp/httpconnection.c:1346-1368 | two pieces of a frame are handed over as one piece would be |
| `WebSocketSend.SendTextMsg` | libhttp/httpconnection.c:1822-1854 | the frame that is sent is the type byte, the UTF-8 encoding and 0xFF, and the precomputed length is exact |
| `WebSocketSend.Utf8Length` | libhttp/httpconnection.c:1827-1832 | the length that is computed in advance is that of the frame |
| `WebSocketSend.TextRoundTrip` | libhttp/httpconnection.c:1805-1855 | the output for any list of messages, fed to the decoder, delivers every message that is not empty in a frame of its own |
| `WebSocketSend.DeliveredIsUtf8` | libhttp/httpconnection.c:1836-1845 | the delivered payloads decode to the original messages, and contain no 0xFF (section 3 of RFC 3629) |
| `WebSocketSend.WriteDigits` | libhttp/httpconnection.c:1867-1874 | the digit loop writes the base-128 digits, least significant first, and clears the top bit of the last one written |
| `WebSocketSend.ReverseDigits` | libhttp/httpconnection.c:1876-1881 | the exchange loop reverses them in place |
| `WebSocketSend.SendBinaryMsg` | libhttp/httpconnection.c:1857-1886 | the frame is the type byte, these digits and the data; six bytes more than the data are enough |
| `WebSocketSend.SentDigitsDenote` | libhttp/httpconnection.c:1867-1881 | the digits denote the length, and there are at most five |
| `WebSocketSend.BinaryRoundTrip` | libhttp/httpconnection.c:1867-1885 | a binary frame is delivered as it was sent if and only if it has fewer than 128 bytes |
| `WebSocketSend.LongBinaryFrame` | libhttp/httpconnection.c:1874-1881 | a longer frame is cut: what is delivered first has fewer than 128 bytes, because the continuation bit is cleared before the digits are reversed |
| `Utf8.RoundTrip` | libhttp/httpconnection.c:1836-1845 | UTF-8 decoding inverts the encoding, for every list of code points |
| `TrieSpec.BuildAgreesWithMap` | libhttp/trie.c:111-175 | after any insertions, with splits at any depth and overwrites, looking up a key gives what a finite map would give |
| `TrieSpec.InsertFind` | libhttp/trie.c:111-175 | an insertion changes the value of its key and of no other |
| `TrieSpec.LongestIsLongest` | libhttp/trie.c:177-228 | a lookup with `diff` finds the longest prefix of the query that is stored, or that there is none |
| `TrieSpec.InsertConserves` | libhttp/trie.c:146-172 | an insertion adds its value and releases the value it replaces; all the others stay, through splits too |
| `TrieSpec.ReleasedOnce` | libhttp/trie.c:73-86 | over any insertions and the final destruction every value is released exactly once |
| `Trie.Trie.Add` | libhttp/trie.c:111-175 | the insertion into linked nodes makes of the tree what the insertion into a value does, and destroys what that replaces |
| `Trie.Trie.Split` | libhttp/trie.c:117-145 | a node is split in place: the lower half takes over the children |
| `Trie.Trie.Append` | libhttp/trie.c:161-173 | a child is added at the end of the child array |
| `Trie.Trie.FindMismatch` | libhttp/trie.c:117-118 | the first position at which the key and the segment differ |
| `Trie.Trie.Get` | libhttp/trie.c:177-228 | the walk finds the exact key, and with `diff` the longest stored prefix and the position behind it |
| `Trie.Trie.ScanChildren` | libhttp/trie.c:194-226 | the scan over the children finds the one to go on with, and the end of a key, whichever comes first |
| `Trie.Trie.Destroy` | libhttp/trie.c:73-86 | the destructor gets the values in order, and no interior node carries one |
| `Trie.BuildAndDestroy` | libhttp/trie.c:73-175 | building by any insertions and destroying: the destructor gets every value exactly once |
| `HashMap.StringHash` | libhttp/hashmap.c:96-102 | the hash is that of the string, modulo 2 to the 32 |
| `HashMap.HashMap.Get` | libhttp/hashmap.c:188-208 | a lookup gives what the map gives |
| `HashMap.HashMap.Add` | libhttp/hashmap.c:104-156 | an insertion updates the map and releases what it replaces, through every rehash; there are never more keys than `numEntries`, nor than 80% of the buckets |
| `HashMap.HashMap.Grow` | libhttp/hashmap.c:106-131 | rebuilding keeps the map, never replaces an entry, leaves room for the new key, and ends although it may rebuild recursively |
| `HashMap.HashMap.Put` | libhttp/hashmap.c:132-155 | the entry is stored in its bucket, in place of an older one or at its end |
| `HashMap.HashMap.Delete` | libhttp/hashmap.c:158-186 | a deletion removes one key and releases its entry; the last entry of the bucket takes its place |
| `HashMap.HashMap.Iterate` | libhttp/hashmap.c:210-239 | the function is called exactly once for every key; what it refuses is removed and released exactly once, with the value it has been given; the rest stays, with the new values |
| `HashMap.HashMap.IterateOwn` | libhttp/hashmap.c:210-239 | for a function that deletes its own key and then refuses it: exactly that key is removed, and released once, if and only if its entry is the last of its bucket; otherwise another entry is released that is still in the map |
| `HashMap.IterateDeleting` | libhttp/hashmap.c:214-236 | the loop over one bucket, with the deletion in the middle of it: what is in the slot afterwards is released |
| `HashMap.BothDestroyed` | libhttp/hashmap.c:214-236 | two entries in a bucket, of which the function deletes the first: both are destroyed |
| `HashMap.IterateBucket` | libhttp/hashmap.c:214-236 | in one bucket every entry is visited once although entries are moved during the visit |
| `HashMap.KeysPermuted` | libhttp/hashmap.c:227-234 | moving entries within a bucket keeps its keys |
| `HashMap.KeptKeys` | libhttp/hashmap.c:219-236 | every key that is visited is either kept or dropped |
| `EventLoop.Server.Turn` | libhttp/server.c:540-667 | one turn of the loop, with handlers that open, close and change other connections: which entries are looked at and what they are told about; the table, the map and the calls of destroyConnection are what the handlers have made of them one after the other, and exactly the entries that are marked are gone. If the handlers act on their own connections and on those they open, every connection that is ready or overdue is called exactly once, with what is ready, and nobody else |
| `EventLoop.Server.SortIdle` | libhttp/server.c:544-570 | both arrays are permuted in lockstep; exactly the entries that expect events come first; the result is the earliest of all the deadlines that are set |
| `EventLoop.Server.Swap` | libhttp/server.c:551-563 | two entries change places in both arrays |
| `EventLoop.Server.Dispatch` | libhttp/server.c:630-656 | the entries are looked at in turn, those that handlers add included, and that ends; an entry is told about what `poll` has reported, one that `poll` was not asked about is told about what is left over exactly while there are lost events, and the loop stops early exactly when all events are accounted for |
| `EventLoop.Server.HandleEntry` | libhttp/server.c:633-655 | one entry: its handler is called if it is due, and does to the tables what it does; on success the new events are stored, on failure it is marked and destroyed |
| `EventLoop.Server.Perform` | libhttp/server.c:424-528 | what a handler does to the tables: opening and closing connections, and changing the events and the deadline of one, changes the entry of that descriptor and no other |
| `EventLoop.CalledIff` | libhttp/server.c:630-656 | an entry is called in its turn if and only if no earlier call has closed its descriptor and it is ready, or its deadline as of then has passed |
| `EventLoop.EntryHistory` | libhttp/server.c:630-656 | every entry is what the earlier calls, its own turn, and the later calls have made of it, and is called once at most |
| `EventLoop.ClosedIff` | libhttp/server.c:448-456 | an entry is closed exactly if its descriptor is closed |
| `EventLoop.LaterEffects` | libhttp/server.c:630-656 | calls for other entries change an entry only by what their handlers do to its descriptor |
| `EventLoop.FewExtra` | libhttp/server.c:630-652 | at most as many entries are told about something left over as connections were closed that were ready |
| `EventLoop.LeftOver` | libhttp/server.c:630-652 | a turn in which a connection that waits for nothing is called for something left over |
| `EventLoop.RestNotDue` | libhttp/server.c:630-632 | what the loop does not come to is neither ready nor overdue |
| `EventLoop.Progresses` | libhttp/server.c:630-656 | the loop ends although handlers add entries: every call costs an event or a deadline that has passed |
| `EventLoop.Conserved` | libhttp/server.c:644-650 | every connection that has been opened is open or destroyed; it is destroyed twice exactly if its handler closes it and then reports a failure |
| `EventLoop.ModestRun` | libhttp/server.c:630-656 | if handlers act on their own connections, and on those they open, every entry is as it was when its turn comes, and no event is lost |
| `EventLoop.Server.Compact` | libhttp/server.c:657-666 | exactly the entries that are marked are removed, the others keep their order and stay paired |
| `EventLoop.Server.RemoveAt` | libhttp/server.c:659-664 | the two moves close the same gap in both arrays |
| `EventLoop.Server.Add` | libhttp/server.c:424-446 | a connection is added at the end, with no deadline and waiting for input |
| `EventLoop.Server.Get` | libhttp/server.c:481-512 | the entry of an open descriptor is found, whatever the hint |
| `EventLoop.Server.Delete` | libhttp/server.c:448-456 | the entry is marked and its connection destroyed once; other entries are untouched |
| `EventLoop.NoDeadlineMissed` | libhttp/server.c:572-600 | if a deadline has passed, then the flag is set with which all the connections are looked at |
| `EventLoop.FlagExactly` | libhttp/server.c:572-600 | for any deadlines and any clock: exactly when the flag is set |
| `EventLoop.FlagIsEarly` | libhttp/server.c:572-600 | the flag is set although the earliest deadline is in the future if and only if that is below `now + last - last / 1000`, for the deadlines of connections and of the server |
| `EventLoop.EarlyFlag` | libhttp/server.c:572-600 | it is set at once for a deadline in five minutes |
| `EventLoop.SwapAgrees` | libhttp/server.c:551-563 | exchanging entries keeps what the table stands for |
| `EventLoop.CallsDiffer` | libhttp/server.c:630-656 | no descriptor is called twice in one turn |
| `EventLoop.AllDue` | libhttp/server.c:630-656 | then the calls are exactly those of the entries that are due |
| `EventLoop.NothingLeft` | libhttp/server.c:630-632 | when all the events that were counted have been found and no deadline has passed, nothing is left to do |
| `Headers.RemoveHeader` | libhttp/httpconnection.c:522-549 | removal in place ends, and leaves the text without the lines of that name |
| `Headers.RemovedIsFilter` | libhttp/httpconnection.c:532-548 | that is the text without the logical lines, continuations included, that start with the name in upper or lower case; the others keep their order |
| `Headers.TooShort` | libhttp/httpconnection.c:532 | text that is shorter than the name need not be looked at |
| `Headers.AddHeader` | libhttp/httpconnection.c:551-572 | a line is added in front of the blank line |
| `Headers.RemovedBlock` | libhttp/httpconnection.c:532-548 | removing lines from a header leaves a header |
| `Headers.RewrittenHeader` | libhttp/httpconnection.c:669-672 | removing and adding leaves a header that ends in a blank line: the other lines, then the new length and the encoding |
| `Headers.OneLength` | libhttp/httpconnection.c:669-672 | there is exactly one Content-Length afterwards, which is the new one, and exactly one Content-Encoding |
| `Headers.KeptTwice` | libhttp/httpconnection.c:669-670 | no other line gets lost |
| `Headers.DecimalDenotes` | libhttp/httpconnection.c:671 | the length that is written down in digits is the length |
| `Output.Run` | libhttp/httpconnection.c:684-754 | over any run, what the socket has taken, what has been given up and what is pending are together all that was to go out, in order; nothing is missing if and only if nothing has been given up, as when no write fails for good and the deadline of the connection does not pass |
| `Output.Output.Transfer` | libhttp/httpconnection.c:574-754 | a part of a reply is queued: compressed, with a new header, if it is the first and that is possible, and unchanged otherwise |
| `Output.Output.SendInParts` | libhttp/httpconnection.c:635-728 | if compression fails, the copy of the header and the rest of the message are together the message |
| `Output.Output.Put` | libhttp/httpconnection.c:687-728 | data is appended behind what is pending |
| `Output.Output.Write` | libhttp/httpconnection.c:1633-1658 | a short write keeps the rest; a fatal error gives up all that is pending and closes the connection; would-block changes nothing |
| `Output.Output.Expire` | libhttp/httpconnection.c:1677-1685 | when the deadline has passed, all that is pending is given up |
| `Output.TooSlow` | libhttp/httpconnection.c:1677-1685 | a reply that the socket does not take in time never goes out |
| `Output.Output.FindBlankLine` | libhttp/httpconnection.c:588-633 | the end of the header is the first blank line |
| `Output.CompressedReply` | libhttp/httpconnection.c:646-728 | a compressed reply is a header that announces the compressed body, and that body, for headers with continuation lines too |
| `Output.BlankLineOf` | libhttp/httpconnection.c:588-633 | the end of the header is found behind its last line, if no line of it looks like a blank one |
| `Url.UnescapeEscape` | shellinabox/launcher.c:516-523 | unescaping the escaped text gives what unescaping the text gives, for all texts, malformed percent sequences included (section 2.1 of RFC 3986) |
| `Url.EscapeUrl` | shellinabox/launcher.c:514-523 | the rewriting loop ends, since there are fewer unsafe characters every time, and escapes all of them and nothing else |
| `Url.EscapedIsSafe` | shellinabox/launcher.c:516-523 | no unsafe character is left |
| `Url.UnescapeInPlace` | libhttp/url.c:69-95 | the in-place loop never writes ahead of where it reads, and leaves the unescaped text |
| `Url.DecodeAt` | libhttp/url.c:73-90 | one character: plus, a percent sign with two digits, with one, or with none |
| `Url.ParseQueryString` | libhttp/url.c:116-145 | the single pass adds every field of the query in turn, unescaped |
| `Base64.RoundTrip` | libhttp/ssl.c:485-521 | decoding gives back any byte string from its encoding (section 4 of RFC 4648), with blanks inserted anywhere |
| `Base64.BlanksIgnored` | libhttp/ssl.c:506-507 | blanks do not matter, in front of the padding or behind it |
| `Base64.DecodeText` | libhttp/ssl.c:481-524 | the decoder computes this, refuses what is malformed, and never writes more than the buffer holds |
| `Base64.Shift` | libhttp/ssl.c:513-520 | the wrapping 32-bit accumulator always holds the pending bits, of which there are 0, 2, 4 or 6 |
| `CommandLine.RoundTrip` | shellinabox/launcher.c:1316-1452 | writing down any assignments and arguments, every character escaped, and reading them back gives exactly those, with every variable replaced by its value |
| `CommandLine.ParsePieces` | shellinabox/launcher.c:1349-1387 | the value of a variable becomes part of the word as it is: quotes, blanks, dollar signs and equals signs in it mean nothing |
| `CommandLine.ParseWord` | shellinabox/launcher.c:1403-1448 | an empty word, written as two quotes, is an argument |
| `Tokenizer.Tokenize` | shellinabox/launcher.c:1316-1455 | the pass over the buffer computes the meaning of the command line |
| `Tokenizer.Tokenizer.ExpandVariable` | shellinabox/launcher.c:1349-1387 | a variable is replaced in place and stepped over |
| `Tokenizer.Tokenizer.Toggle` | shellinabox/launcher.c:1331-1348 | a quote is removed and toggles the quoting |
| `Tokenizer.Tokenizer.Escape` | shellinabox/launcher.c:1388-1394 | a backslash is removed and the next character kept |
| `Tokenizer.Tokenizer.TakeWord` | shellinabox/launcher.c:1412-1444 | the word in the buffer becomes an assignment or an argument, and its meaning is that of the text it was made from |
| `Tokenizer.Tokenizer.SetVariable` | shellinabox/launcher.c:1415-1435 | an existing variable of the environment is overridden in place, a new one added at the end |
| `Json.RoundTrip` | shellinabox/shellinaboxd.c:132-194 | a JSON parser gets back the bytes that were escaped (section 7 of RFC 8259) |
| `Json.JsonEscape` | shellinabox/shellinaboxd.c:158-194 | the two passes: the space computed first is exactly what is filled |
| `Json.EscapedLength` | shellinabox/shellinaboxd.c:135-156 | the first pass computes the length of the escaped string |
| `Session.Run` | shellinabox/shellinaboxd.c:208-515 | over any run, whatever requests arrive, what the browser can see and the buffered bytes are together exactly what was read from the terminal, in order, with one bell for every failure to write keys, at its place; only the bytes of the last read can be missing, and only if it came after the deadline |
| `Session.Session.CompletePendingRequest` | shellinabox/shellinaboxd.c:208-282 | without a request the data is saved; otherwise at most `maxLength` bytes of what there is are sent and the rest is kept; the session ends exactly when it is done and drained |
| `Session.Session.TakeData` | shellinabox/shellinaboxd.c:227-253 | the four branches that split the data into a reply and a rest |
| `Session.Session.HandleOutput` | shellinabox/shellinaboxd.c:302-336 | reading stops when the buffer is full, and it never grows far beyond that |
| `Session.Session.HandleSession` | shellinabox/shellinaboxd.c:302-346 | what has been read is dropped if and only if the deadline has passed and no request is pending; then the session is given up, and what was buffered before stays |
| `Session.TooLate` | shellinabox/shellinaboxd.c:318-324 | a session whose first output comes after the deadline: the browser never gets it |
| `Session.Session.HandlePoll` | shellinabox/shellinaboxd.c:481-515 | a pending request is answered first; a new one is answered at once if there is data, and waits otherwise |
| `Session.Session.HandleExit` | shellinabox/shellinaboxd.c:284-293 | when the child is gone a pending request is answered, and the session ends if there is nothing left to send |
| `Session.Session.HandleDrop` | shellinabox/shellinaboxd.c:359-383 | a browser that drops its pending request ends the session, and no output is lost by that |
| `Session.Session.HandleData` | shellinabox/shellinaboxd.c:375-515 | a request reaches this session only with its key; keys that cannot be written ring the bell; a HEAD request, for which arguments are not parsed, changes nothing |
| `Session.Session.constructor` | shellinabox/shellinaboxd.c:417-515 | the request that opens a session is answered at once, with no data, HEAD requests included |
| `Session.Open` | shellinabox/shellinaboxd.c:417-455 | a request that would open a session is refused exactly if it brings keys |
| `Session.ChunkSent` | shellinabox/shellinaboxd.c:227-272 | what a reply shows and what is kept back are together what there was |
| `Keys.ShellInABox.SendKeys` | shellinabox/shell_in_a_box.jspp:231-260 | keys are dropped without a connection, kept while a request is in flight or there is no session, and sent otherwise, behind those that were kept; nothing is lost, doubled or reordered, and the limit of one request is kept |
| `Keys.ShellInABox.Answered` | shellinabox/shell_in_a_box.jspp:262-269 | the reply to the request in flight sends what has been kept |
| `Keys.ShellInABox.StaleAnswered` | shellinabox/shell_in_a_box.jspp:262-269 | after a reply from before a reconnect there is at most one request in flight if and only if there was none, or nothing was kept for it, or there is no connection or session |
| `Keys.ShellInABox.Restart` | shellinabox/shell_in_a_box.jspp:146-167 | a reconnect starts with nothing pending and nothing in flight; the requests under way are forgotten |
| `Keys.ShellInABox.KeysPressed` | shellinabox/shell_in_a_box.jspp:271-302 | what is typed goes through this channel as UTF-8 in hexadecimal digits |
| `Keys.AlwaysInOrder` | shellinabox/shell_in_a_box.jspp:128-312 | over any run, what the server has got and what is kept are together what was typed since the last reconnect, in order |
| `Keys.OneAtATimeIff` | shellinabox/shell_in_a_box.jspp:231-269 | there is at most one request in flight over a run if and only if no reply is mistaken for that to the request in flight with keys, kept or new, before its own reply |
| `Keys.OneAtATimeIfOnTime` | shellinabox/shell_in_a_box.jspp:231-269 | that is so if no reply from before a reconnect comes while a request is in flight |
| `Keys.TwoInFlight` | shellinabox/shell_in_a_box.jspp:146-269 | a run with two requests in flight, for any keys and sessions |
| `Keys.Run` | shellinabox/shell_in_a_box.jspp:128-312 | the browser as it runs goes through the states of these runs |
| `Keys.HexOf` | shellinabox/shell_in_a_box.jspp:274-299 | the digits computed from the bits of a character are those of its UTF-8 encoding, for all four lengths |
| `Keys.AllArrives` | shellinabox/shell_in_a_box.jspp:231-302 | once nothing is pending, the bytes on the server decode to exactly what was typed |
| `Keys.DecodeKeys` | shellinabox/shellinaboxd.c:455-473 | the server decodes pairs of digits up to the first character that is none, into half as many bytes as there are characters |
| `Keys.HexIsHex` | shellinabox/shellinaboxd.c:460-473 | decoding the digits gives back the bytes |
| `Keys.KeysArrive` | shellinabox/shell_in_a_box.jspp:246-249 | whatever is in front of it in the form, the field with the keys is read as it was sent |
| `Conditionals.ExpandWellFormed` | shellinabox/shellinaboxd.c:531-624 | a text of plain lines and well-formed conditionals becomes the plain lines and the chosen branches |
| `Conditionals.EvalTagIsAny` | shellinabox/shellinaboxd.c:561-580 | a tag holds if and only if one of its comma-separated conditions does |
| `Conditionals.EvalTagKeeps` | shellinabox/shellinaboxd.c:561-580 | a tag that does not end in a comma is the same afterwards |
| `Expander.ExpandFile` | shellinabox/shellinaboxd.c:525-626 | the expansion in place ends with exactly the expansion of the text, line by line, and `bodyEnd` is its length, if and only if no conditional is closed that was opened behind an else line; otherwise the text that is left is longer than that, or the part to be kept has a negative length or would overwrite what has not been read |
| `Conditionals.ReopenedAndClosed` | shellinabox/shellinaboxd.c:586-622 | such a text: the position of the else line is not forgotten when the next conditional is opened |
| `Expander.Expander.Close` | shellinabox/shellinaboxd.c:600-622 | the end of a conditional: what does not apply and the three directive lines are removed |
| `Expander.Expander.CloseLate` | shellinabox/shellinaboxd.c:606-622 | the end of a conditional that does not hold and was opened behind an else line: everything behind that line is kept |
| `Expander.Expander.Kept` | shellinabox/shellinaboxd.c:606-617 | the part that is kept is found from the remembered positions |
| `Expander.Misplaced` | shellinabox/shellinaboxd.c:586-622 | a conditional is closed while the else line that is remembered belongs to an earlier one only if the text is one of these |
| `Expander.Expander.Evaluate` | shellinabox/shellinaboxd.c:561-580 | the loop over the conditions stops at the first one that holds |
| `Expander.Short` | shellinabox/shellinaboxd.c:537 | fewer than six characters at the end cannot be a directive |

## Left out

- Sockets, `poll`, files, processes, pseudo terminals, PAM, utmp and SSL: reads, writes and readiness are parameters. A connection starts in the COMMAND state; the detection of SSL in its first bytes is not part of the model.
- The parsers of command and header lines and the request handlers (`libhttp/httpconnection.c` 787-1170): arbitrary functions of the line and the positions found in it. A payload handler and a WebSocket handler return HTTP_DONE.
- Connection.HttpConnection.ReceiveAll: suspended requests, replies in pieces, payload of unknown length and DISCARD_PAYLOAD, in which the inner loop makes no progress, are not modelled.
- Connection.SameBytes: has the same limits as `ReceiveAll`.
- Connection.HttpConnection.ParsePayload: a collector that refuses payload that had been put off, while more is in the buffer, is called once more by the original, which stops the program with a failed check; here the connection is closed.
- Connection.HttpConnection.ConsumePayload: the handler returns HTTP_DONE, and the length is known.
- Connection.HttpConnection.CollectPayload: the handler returns HTTP_DONE.
- Connection.HttpConnection.FinishCommand: the buffer the collector starts with is taken to be not NULL, so that the handler of a request is called at the end of a connection before any payload has arrived.
- Connection.HttpConnection.Receive: the limit of 64 KiB counts body and WebSocket bytes as the code does, so a long WebSocket stream runs into it.
- Connection.HttpConnection.BinaryData: the handler never refuses a piece. What it refuses could depend on how a frame is cut into pieces, and then the cuts would matter.
- Connection.HttpConnection.TextData: the same, and the end flag of text frames, which depends on the cuts, is not kept.
- Connection.HttpConnection.HandleWebSocket: as for `BinaryData`.
- Trie.Trie.Add: the `goto nextNode` loop is a tail call; the trie has a destructor, as the server's has. A trie without one aborts when it is destroyed.
- HashMap.HashMap.Add: `numEntries` is proved to be an upper bound of the number of keys only, as rebuilding counts keys twice; the destruction of a whole map, and integer overflow of sizes, are not modelled.
- HashMap.HashMap.Iterate: the function that is called does not use the map itself; the one that deletes its own key is the subject of `IterateOwn`.
- HashMap.HashMap.IterateOwn: what the original does behind the destruction of an entry that is still in the map is not modelled.
- EventLoop.Server.Turn: what a handler does to the tables is a function of its arguments; a descriptor that is open is not given out again. Pointers to entries that handlers keep across a reallocation, the exit of the loop and nested loops are not modelled.
- Headers.RemoveHeader: the name contains no newline, as the two names that are used do not.
- Output.Output.Transfer: the sanity checks that abort the server on a malformed reply are not modelled, and `deflate` and the choice of an encoding are oracles; `msgOffset`, which is always zero, is left out. What happens to the connection behind a suspended reply is not modelled.
- Url.ParseQueryString: the hash map is represented by the map it stands for. Multipart forms and `urlMemstr` are left out; the latter misses a match at the last position.
- Base64.DecodeText: the search for the PEM markers is not modelled.
- Tokenizer.Tokenize: that there is at least one argument is checked behind it and not modelled; the table of variables is a map.
- Session.Run: one session. The peer check, the size of the window, the format of the reply around the data, timeouts of the HTTP connections and the graveyard of sessions are not modelled; buffers that are NULL are empty.
- Keys.ShellInABox.SendKeys: requests are delivered in the order in which they are sent; what a failed request carried is lost, as in the code.
- Session.Session.HandleDrop: the original runs it inside the iteration over all sessions that `HashMap.HashMap.IterateOwn` is about, which may destroy another session; here it is one session.
- Expander.ExpandFile: where the original would move a part with a negative length, or over what has not been read, the model stops and says so; what becomes of the buffer is not modelled. The copy of the file is made at once and not at the first conditional. Conditions are an arbitrary predicate in place of the user agent and the defines.
- Conditionals.EvalTagIsAny: text without NUL characters; the string functions of C would stop at one.
- Memory allocation never fails, and `malloc` and `realloc` are new arrays.
- User CSS, service and option parsing, static files, MIME types, logging, the terminal emulation in the browser and the packaging would only add easy members.
