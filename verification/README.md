# VeltrixDB clients and benchmarks: a verified model

This project models the parts of the VeltrixDB tool repository that carry logic, and proves what they
are meant to guarantee.

- **Wire protocol** (`Arithmetic`, `Bytes`, `Framing`, `Wire`, `Replies`). Requests and replies are
  length-prefixed frames; batches carry sub-frames. Encoders, a parser of the documented request
  layout, and the reply readers as functions of bytes, with a map as the server.
- **Python client and pool** (`Client`, `ConnectionPool`, `PoolProtocol`, `Linearizability`). A connection is an object
  whose incoming bytes are cut into arbitrary pieces with failures between them; the pool is a queue
  of such objects. `PoolProtocol` is the state machine of any number of threads, the pool and the
  server, all interleaved, with any well-formed replies; idle connections are always in step and each
  call gets its own reply. `Linearizability` adds that calls are linearizable when the server is a map.
- **Go client** (`GoClient`). A buffered connection, specified by the Python readers of the same bytes:
  where the two clients agree, and exactly where they part.
- **YCSB binding** (`Records`, `Codec`, `Ycsb`, `MergeUpdates`). Ordered field maps and their codec as
  functions, the cursor loops that implement them, the operations that refine an abstract table, and
  concurrent merge updates with their read and write apart.
- **dbbench** (`Keys`, `Dbbench`, `StoredKeys`, `Buckets`, `Digests`, `Percentiles`, `Moments`, `BenchStats`,
  `Tracker`). Zero-padded keys, the ticket counter and the benchmark list as a state machine, what the
  benchmarks leave stored, the bucketed histogram and the sort-based percentile it approximates.
- **Compaction benchmark** (`Compaction`). The bulk writer and its overwrite rounds.

Latencies are exact reals, integers are unbounded unless a width is written out (16- and 32-bit
length fields, Java's int arithmetic), and names, keys and values are byte sequences.

Where code and comments disagree the code is followed. The comment on `formatKey`
(dbbench/main.go:63-66) promises 8 digits and a prefix fitted to the key size; the code writes at
least 16 digits after the bare prefix, and the ordering it promises holds only below 10^16
(`Keys.KeyOrder` says exactly when). The comment on `conn.get` (dbbench/client.go:85-86) calls every
error an I/O failure; `readResp` also returns errors the server reported.

Some promises hold only under a condition, and then the exact condition is proved: a failed MGET entry
must carry no value bytes (`Replies.ReadValuesExactly`), a refused batch no payload
(`Replies.InStepAfterCall`), a put batch needs a TTL for each entry (`Client.SentIsUnderstood`), a
record must fit its length fields (`Records.RoundTripExactly`, `Ycsb.MergeIsFaithfulExactly`), Go
batches agree with single gets only without empty values (`GoClient.MultiGetIsGetsExactly`), concurrent
merge updates are serial only when nothing they do not supply has changed
(`MergeUpdates.RunsAreSerialExactly`), and idle plus held connections do grow again when a lost
connection is replaced (`PoolProtocol.OnlyReplacementsAdd`).

## Model

| member | source | states |
|---|---|---|
| `Wire.StreamDecodes` | benchmarks/client.py:5-11 | Any list of requests, single-key and batched, written one after another is decoded by a parser of the documented layout to exactly that list: commands, keys, values, TTLs, nothing left over. Lengths must fit their 16- and 32-bit fields. |
| `Wire.StreamIsUnambiguous` | benchmarks/client.py:5-11 | Two different lists of requests are never the same bytes. |
| `Wire.ParseRequestInverts` | benchmarks/client.py:107-113 | One frame, batch frames with their per-entry sub-frames included, decodes to its request and leaves what follows untouched. |
| `Wire.SingleLayout` | benchmarks/client.py:5-6 | The bytes of a single command: command, two bytes of key length and four of value length, least significant first, key, value. |
| `Wire.BatchLayout` | benchmarks/client.py:107 | The bytes of a batch: 6 or 7, two zeros, four bytes of count, entries. |
| `Wire.EntryLayout` | benchmarks/client.py:111-113 | The bytes of a batch entry: key length, value length, TTL in two's complement, key, value; or key length and key. |
| `Bytes.LittleEndian` | benchmarks/client.py:5-7 | Length fields are least significant byte first, written and read. |
| `Wire.UncheckedFrameDecodes` | dbbench/client.go:105-133 | A frame written without length checks, single or batched, is understood exactly when every length, count and TTL fits its field: a wrapped length is never undone. |
| `Client.SentIsUnderstood` | benchmarks/client.py:96-114 | What any call sends decodes to the request the caller means, TTL 0 normalised to -1, exactly when a put batch has a TTL for each entry; with fewer the frame announces entries that never come. |
| `Client.BatchSent` | benchmarks/client.py:104-114 | A batch put sends, exactly if all lengths and TTLs fit, the frame of its entries, which decodes to them: with TTL -1 each when no TTLs are given, and else with the TTL given, -1 for 0. |
| `Client.OthersSent` | benchmarks/client.py:132-137 | Single commands and batch gets send their frame exactly if all lengths fit. |
| `Client.PutFrame` | benchmarks/client.py:107-113 | The growing buffer of multi_put ends as the frame of all entries, pairing entries with TTLs as far as the shorter list goes, or packing raises exactly when a field does not fit. |
| `Client.GetFrame` | benchmarks/client.py:132-136 | The growing buffer of multi_get ends as the frame of all keys, or packing raises exactly when a key or the count does not fit. |
| `Client.VeltrixDBClient.Recv` | benchmarks/client.py:173-182 | For every cutting of the incoming bytes into pieces, and failures anywhere between them, the loop ends: with exactly the next n bytes if n arrive, with an error if not. |
| `Client.VeltrixDBClient.Resp` | benchmarks/client.py:160-171 | On every incoming stream the reply reader returns or raises what the reply frame says and leaves the bytes after it; with too few bytes it raises an I/O error. |
| `Client.VeltrixDBClient.SendCmd` | benchmarks/client.py:155-158 | Exactly one frame is sent, or none when a length does not fit. |
| `Client.VeltrixDBClient.Command` | benchmarks/client.py:69-88 | put, get, delete, ping and info: one frame out, one reply frame in; nothing is touched when packing raises. |
| `Client.VeltrixDBClient.Put` | benchmarks/client.py:69-71 | Sends one frame with command 1 and returns nothing unless the reply raises. |
| `Client.VeltrixDBClient.Get` | benchmarks/client.py:73-75 | Sends one frame with command 2 and returns what the reply says. |
| `Client.VeltrixDBClient.Delete` | benchmarks/client.py:77-79 | Sends one frame with command 3 and returns nothing unless the reply raises. |
| `Client.VeltrixDBClient.Ping` | benchmarks/client.py:81-83 | Sends one frame with command 4 and returns nothing unless the reply raises. |
| `Client.VeltrixDBClient.Info` | benchmarks/client.py:85-88 | Sends one frame with command 5 and returns the text of the reply, empty for none. |
| `Client.VeltrixDBClient.MultiPut` | benchmarks/client.py:96-125 | One frame out, statuses of one reply in; an empty batch touches nothing; a packing error sends nothing. |
| `Client.VeltrixDBClient.MultiGet` | benchmarks/client.py:127-153 | One frame out, values of one reply in, read entry by entry; an empty batch touches nothing; a packing error sends nothing. |
| `Client.VeltrixDBClient.ReceiveEntries` | benchmarks/client.py:144-153 | The loop over MGET entries gives the entries of the incoming stream in order and stops right after the last. |
| `Client.VeltrixDBClient.Call` | benchmarks/client.py:69-153 | Every call agrees with the byte-level reader of its operation on every stream. |
| `Replies.ReadInverts` | benchmarks/client.py:116-182 | The readers of all operations invert the documented reply encoding: the right result, and exactly one frame consumed, save the payload of a refused batch. |
| `Replies.SingleMeans` | benchmarks/client.py:160-171 | Status by status, over the bytes of the reply: 0 is the payload or None if empty, 2 is None, anything else raises the payload. |
| `Replies.StatusesMean` | benchmarks/client.py:116-125 | Over the bytes of a batch put reply: an entry is None exactly if its byte is 0, and else reports that byte. |
| `Replies.ValuesMean` | benchmarks/client.py:139-153 | Over the bytes of a batch get reply: an entry is its value exactly if its status is 0 and the value not empty, else None. |
| `Replies.RefusalMeans` | benchmarks/client.py:116-118 | A batch reply with any other status raises with its payload unread. |
| `Replies.InStepAfterCall` | benchmarks/client.py:116-118 | After a well-formed reply nothing of it is left unread exactly when it is not a refused batch carrying a payload. |
| `Replies.ReadValuesExactly` | benchmarks/client.py:144-153 | multi_get returns the right values and stops at the end of its reply exactly when no failed entry carries value bytes. |
| `Replies.ReadExtends` | benchmarks/client.py:160-182 | Once a reader has its reply, further bytes change neither its result nor where it stops. |
| `Replies.NormalReturnNeedsWholeReply` | benchmarks/client.py:116-182 | A call that returns normally on a beginning of its reply has read the whole reply and nothing is left. |
| `Replies.MultiGetAgreesExactly` | benchmarks/client.py:144-168 | Whatever the server answers for each of any keys, multi_get gives what the individual gets give exactly when every answer is OK or NOT_FOUND; an empty stored value is None in both. |
| `Replies.MultiGetIsGets` | benchmarks/client.py:73-75 | For any store and any keys, multi_get returns a list exactly when its elements are, in order, what the individual gets return. |
| `ConnectionPool.VeltrixDBPool.Execute` | benchmarks/client.py:212-233 | Whatever arrives during the call, in any pieces with failures anywhere: idle connections stay in step, a normal return is the answer to this very request and puts the connection back, an exception discards it and puts a new one in if dialling succeeds. |
| `ConnectionPool.VeltrixDBPool.Acquire` | benchmarks/client.py:212-219 | The head of the queue is lent out and no longer idle, or the pool is exhausted. |
| `ConnectionPool.VeltrixDBPool.Release` | benchmarks/client.py:222 | The connection joins the end of the queue, for which there is room. |
| `ConnectionPool.VeltrixDBPool.Replace` | benchmarks/client.py:223-229 | The old connection never comes back; a fresh one joins the queue if dialling succeeds and there is room. |
| `ConnectionPool.CallAnswered` | benchmarks/client.py:173-182 | A call on a connection in step returns normally only with its own whole reply read, leaving the connection in step. |
| `PoolProtocol.StepKeepsInv` | benchmarks/client.py:212-241 | Every step of every thread and of a server that may answer with any well-formed reply keeps the joint invariant: exclusive ownership, streams in step, faithful results, one use of each answer, the bound on connections. |
| `PoolProtocol.PoolIsSafe` | benchmarks/client.py:208-229 | In every reachable state, whatever well-formed replies the server gives: idle connections have no unread bytes; no connection is idle twice, held twice, or both; idle + held <= pool_size; a releasing thread always finds room, so its put never waits; a thread whose reply is there can read it. |
| `PoolProtocol.CallsGetTheirOwnReplies` | benchmarks/client.py:96-182 | In every run each completed call returned what the reply to its own request says, and that reply was given after the call was sent. |
| `PoolProtocol.SlotsNeverIncrease` | benchmarks/client.py:222-227 | No step increases the idle connections plus the threads inside their block, one dialling a replacement included. |
| `PoolProtocol.OnlyReplacementsAdd` | benchmarks/client.py:222-229 | Idle plus held connections grow on a step exactly when a replacement is put into a queue with room, fall exactly on a call that raises, another exception or close(), each time by one, and stay on every other step, a clean exit included. |
| `PoolProtocol.CleanExitsLoseNothing` | benchmarks/client.py:220-222 | In every run whose blocks are all left normally, idle + held = pool_size at every state, each connection the pool began with is idle or held, a thread finds one whenever fewer than pool_size are held, and every answer of the server is the result of one completed call or still to be read. |
| `PoolProtocol.QueueIsFifo` | benchmarks/client.py:208-241 | Connections leave the queue at its head and enter at its end: the one acquired is the head, the one released the last, and no other step moves any. |
| `PoolProtocol.AnswersAreAccounted` | benchmarks/client.py:212-229 | An answer is logged as one completed call or about to be, except exactly when its caller gave up. |
| `Linearizability.CallsAreLinearizable` | benchmarks/client.py:96-182 | In every run whose server is a map (it may refuse whole requests and single entries, and answer ping and info with any text) each completed call took effect at one point after it was sent: a get returned what is stored there, a put or delete happened, a batch put stored exactly the entries it reports as stored, a batch get returned what is stored key by key or None for a failed key, and a call that raised an error of the server changed nothing. Requests whose callers gave up may be executed late. |
| `Linearizability.LegalAnswersSay` | benchmarks/client.py:116-171 | One legal answer makes the result the client draws from it true of the store before and after. |
| `Linearizability.PutStoredSays` | benchmarks/client.py:119-125 | After a batch put each key has the value of its last stored entry, or what it had if none was stored. |
| `Linearizability.PlainServerIsLegal` | benchmarks/client.py:5-11 | The server that answers every request from a map is such a server, with the effects its replies tell. |
| `PoolProtocol.OrderRespectsRealTime` | benchmarks/client.py:212-229 | A call that a thread sends after some state of the run, in progress or completed, is answered after every call completed by that state. |
| `PoolProtocol.AnswersAreUsedOnce` | benchmarks/client.py:212-229 | No two completed calls use the same answer of the server. |
| `Linearizability.GetsAreLinearizable` | benchmarks/client.py:73-75 | A get that returns normally returns the value stored at its point of the serial execution, None for an absent or empty one. |
| `GoClient.Conn.ReadFull` | dbbench/client.go:230-249 | Through the read buffer, for every cutting of the incoming bytes, exactly the next n bytes are taken and none is lost, or fewer than n arrive before a failure. |
| `GoClient.Conn.ReadResp` | dbbench/client.go:233-264 | On every incoming stream: the same bytes consumed as by the Python reader, the same value (nil for none), found exactly on status OK, an error exactly where Python raises. |
| `GoClient.Conn.SendCmd` | dbbench/client.go:215-228 | Success means exactly one frame was written; failure means some beginning of it, and that every later write fails. |
| `GoClient.Conn.Flush` | dbbench/client.go:227 | Everything buffered is written, or a beginning of it and every later write fails. |
| `GoClient.Conn.Command` | dbbench/client.go:77-101 | put, get and del: one frame written, then the outcome that follows from the Python reader of the same bytes; a failed write reads nothing. |
| `GoClient.Conn.Put` | dbbench/client.go:77-83 | One frame with command 1, then only whether the reply was an error. |
| `GoClient.Conn.Get` | dbbench/client.go:87-93 | One frame with command 2, then what readResp makes of the reply. |
| `GoClient.Conn.Del` | dbbench/client.go:95-101 | One frame with command 3, then only whether the reply was an error. |
| `GoClient.Conn.WritePuts` | dbbench/client.go:111-130 | The pieces written add up to the put batch of all entries, each with TTL -1. |
| `GoClient.Conn.WriteGets` | dbbench/client.go:162-174 | The pieces written add up to the get batch of all keys. |
| `GoClient.Conn.MultiPut` | dbbench/client.go:105-153 | One frame written; the count returned is the number of entries without an error in the Python reading of the same reply. |
| `GoClient.Conn.MultiGet` | dbbench/client.go:157-210 | One frame written; values and found flags are those of the Python reading of the same reply, found exactly where Python has a value. |
| `GoClient.SingleReads` | dbbench/client.go:233-264 | Status by status, over the bytes of the reply: 0 is found with its payload, 2 not found, anything else an error with the payload as message if there is one. |
| `GoClient.CountReads` | dbbench/client.go:141-152 | multiPut returns the number of status bytes that are 0. |
| `GoClient.GotsReads` | dbbench/client.go:187-209 | Over the bytes of a batch get reply: found exactly where the status is 0 and the value not empty. |
| `GoClient.RefusalReads` | dbbench/client.go:138-140 | A batch reply with any other status is an error with its payload unread. |
| `GoClient.DefaultBatchIsGoBatch` | dbbench/client.go:111-130 | A Python batch put without TTLs is byte for byte the Go batch of the same entries. |
| `GoClient.MultiGetIsGetsExactly` | dbbench/client.go:195-209 | From the reply bytes of a map server multiGet reads, in order, what get reads from the replies to the single keys, exactly when none of the keys has an empty value stored. |
| `GoClient.KeptConnectionStaysInStep` | dbbench/main.go:212-218 | On a connection released after every call, failed or not, each call of a run reads exactly its own reply and leaves just the later ones, exactly when no refused batch carries a payload. |
| `GoClient.OwnRepliesGiveResults` | dbbench/main.go:212-218 | And then the results of the run are those its replies say. |
| `GoClient.RefusedBatchShiftsReplies` | dbbench/main.go:212-218 | When one does and the payload is itself a frame, the next get is given its contents and its own reply is left for the call after it. |
| `Records.RoundTripExactly` | ycsb-binding/src/main/java/site/ycsb/db/VeltrixDBYCSBClient.java:267-327 | An encoded record decodes to the same fields in the same order exactly when it has at most 65535 fields and no name over 65535 bytes. |
| `Records.TruncatedDecode` | ycsb-binding/src/main/java/site/ycsb/db/VeltrixDBYCSBClient.java:300-327 | Decoding any beginning of an encoding returns exactly the fields wholly contained in it, in order, and never raises. |
| `Records.RecordLayout` | ycsb-binding/src/main/java/site/ycsb/db/VeltrixDBYCSBClient.java:249-253 | The bytes of a record: two bytes of field count and, per field, two bytes of name length, four of value length, name, value, least significant byte first. |
| `Records.ListDecodes` | ycsb-binding/src/main/java/site/ycsb/db/VeltrixDBYCSBClient.java:306-326 | Of fields with repeated names, announced by a smaller count and followed by anything, the first count are put into the map one after another. |
| `Records.UnsoundLengths` | ycsb-binding/src/main/java/site/ycsb/db/VeltrixDBYCSBClient.java:311-321 | A negative value length is an empty value; lengths whose sum overflows an int underflow the buffer. |
| `Records.WrapIsInt` | ycsb-binding/src/main/java/site/ycsb/db/VeltrixDBYCSBClient.java:271-277 | 32-bit wrap-around is the one int that agrees up to multiples of 2^32. |
| `Records.WholeIsExact` | ycsb-binding/src/main/java/site/ycsb/db/VeltrixDBYCSBClient.java:308-315 | The number of fields returned is the largest whose encodings fit in the bytes kept. |
| `Records.FilteredDecodeRestricts` | ycsb-binding/src/main/java/site/ycsb/db/VeltrixDBYCSBClient.java:303-325 | On every byte string, even malformed, decoding with a filter is decoding everything and restricting to the filter; a null or empty filter keeps all. |
| `Records.RestrictSelects` | ycsb-binding/src/main/java/site/ycsb/db/VeltrixDBYCSBClient.java:323-325 | A nonempty filter selects exactly the fields it names; a null or empty one selects all. |
| `Records.DecodedShape` | ycsb-binding/src/main/java/site/ycsb/db/VeltrixDBYCSBClient.java:306-325 | Whatever the bytes, a decoded map has distinct names, at most 65535 of them, none over 65535 bytes as read; names that are valid encodings keep that length when written back. |
| `Records.PutAllFind` | ycsb-binding/src/main/java/site/ycsb/db/VeltrixDBYCSBClient.java:205-207 | A merge is map override: supplied fields have their new values, all others their old ones. |
| `Records.PutAllNames` | ycsb-binding/src/main/java/site/ycsb/db/VeltrixDBYCSBClient.java:205-207 | A merge keeps the order of the old fields and appends the new ones in the order supplied. |
| `Records.MergesAgreeExactly` | ycsb-binding/src/main/java/site/ycsb/db/VeltrixDBYCSBClient.java:205-207 | The same merge into two maps gives the same map exactly when the results list the same names in order and the maps agree on every field not supplied. |
| `Records.EncodeIsInjective` | ycsb-binding/src/main/java/site/ycsb/db/VeltrixDBYCSBClient.java:267-289 | Different records that fit the format have different encodings. |
| `Codec.SerializeBytes` | ycsb-binding/src/main/java/site/ycsb/db/VeltrixDBYCSBClient.java:267-289 | The two loops over the buffer produce the encoding, or raise exactly when its size is not an int. |
| `Codec.WriteFields` | ycsb-binding/src/main/java/site/ycsb/db/VeltrixDBYCSBClient.java:280-287 | The second loop completes exactly when the buffer has room for the encoding, which is then what it holds. |
| `Codec.TotalBytes` | ycsb-binding/src/main/java/site/ycsb/db/VeltrixDBYCSBClient.java:271-278 | The first loop computes the encoding size, wrapped to 32 bits. |
| `Codec.ReadField` | ycsb-binding/src/main/java/site/ycsb/db/VeltrixDBYCSBClient.java:308-321 | One turn of the decoding loop: it stops, underflows or takes a field as the remaining bytes say, 32-bit overflow of the lengths included. |
| `Codec.DeserializeToBytes` | ycsb-binding/src/main/java/site/ycsb/db/VeltrixDBYCSBClient.java:300-327 | On every byte string and filter the cursor loop computes the decoding function, or underflows where it does. |
| `Ycsb.VeltrixDBYCSBClient.Read` | ycsb-binding/src/main/java/site/ycsb/db/VeltrixDBYCSBClient.java:137-151 | The status and fields of the byte-level call; ERROR when the server call fails. |
| `Ycsb.VeltrixDBYCSBClient.Insert` | ycsb-binding/src/main/java/site/ycsb/db/VeltrixDBYCSBClient.java:222-231 | Either the effect and status of the byte-level call, or ERROR (or an unchecked exception) and an unchanged store. |
| `Ycsb.VeltrixDBYCSBClient.Update` | ycsb-binding/src/main/java/site/ycsb/db/VeltrixDBYCSBClient.java:191-215 | Merge mode reads, patches and writes back, overwrite mode replaces; either the effect and status of the byte-level call, or ERROR (or an unchecked exception) and an unchanged store. |
| `Ycsb.VeltrixDBYCSBClient.Delete` | ycsb-binding/src/main/java/site/ycsb/db/VeltrixDBYCSBClient.java:237-245 | The record is gone and OK, or ERROR and an unchanged store. |
| `Ycsb.CallRefines` | ycsb-binding/src/main/java/site/ycsb/db/VeltrixDBYCSBClient.java:137-245 | Each call on bytes is the same call on an abstract table of ordered field maps, same response: insert and overwrite replace, merge overrides, a filtered read restricts. |
| `Ycsb.RunRefines` | ycsb-binding/src/main/java/site/ycsb/db/VeltrixDBYCSBClient.java:137-245 | Any sequence of such calls on bytes gives the responses of the same sequence on the table, and a store representing its result. |
| `Ycsb.WritesReadBack` | ycsb-binding/src/main/java/site/ycsb/db/VeltrixDBYCSBClient.java:137-245 | On the stored bytes: an inserted or overwritten record reads back as the fields supplied, in order, with OK; a deleted one is NOT_FOUND. |
| `Ycsb.MergesReadBack` | ycsb-binding/src/main/java/site/ycsb/db/VeltrixDBYCSBClient.java:191-215 | After a merge update a field reads as supplied if it was and else as before; old fields keep their order and new ones follow. |
| `Ycsb.OthersUnchanged` | ycsb-binding/src/main/java/site/ycsb/db/VeltrixDBYCSBClient.java:137-245 | No call changes what reading any other record gives. |
| `Ycsb.MergeIsFaithfulExactly` | ycsb-binding/src/main/java/site/ycsb/db/VeltrixDBYCSBClient.java:197-210 | A merge update reports OK, and leaves bytes that decode to the overridden map exactly when that map fits the format. |
| `MergeUpdates.StepKeepsInv` | ycsb-binding/src/main/java/site/ycsb/db/VeltrixDBYCSBClient.java:197-210 | With the read and the write of a merge update apart, every step that keeps in-flight records disjoint keeps every snapshot current and the store the serial result so far. |
| `MergeUpdates.RunsAreSerialExactly` | ycsb-binding/src/main/java/site/ycsb/db/VeltrixDBYCSBClient.java:197-210 | A run of any number of clients whose merges fit the format equals, at every step, its writes made one after another exactly when at each late write the record read and the record stored now agree on all fields not supplied and lead to the same field order. |
| `MergeUpdates.CommitIsAtomicExactly` | ycsb-binding/src/main/java/site/ycsb/db/VeltrixDBYCSBClient.java:201-209 | A late write does what the whole merge would do at that moment exactly under that condition; an absent record counts as empty. |
| `MergeUpdates.ApartIsHarmless` | ycsb-binding/src/main/java/site/ycsb/db/VeltrixDBYCSBClient.java:197-210 | Runs that keep records in flight apart meet the condition at every write. |
| `MergeUpdates.RunsAreSerial` | ycsb-binding/src/main/java/site/ycsb/db/VeltrixDBYCSBClient.java:197-210 | Runs that keep records in flight apart end in the store their writes make one after another, merges that do not fit the format or raise included. |
| `MergeUpdates.EffectIsCall` | ycsb-binding/src/main/java/site/ycsb/db/VeltrixDBYCSBClient.java:191-245 | The changes of the serial order are what uninterrupted calls of the binding do. |
| `MergeUpdates.LostUpdate` | ycsb-binding/src/main/java/site/ycsb/db/VeltrixDBYCSBClient.java:197-210 | Without the condition: two merges of different fields into one new record, both reading first, end in a store neither order of the two produces. |
| `Dbbench.StepKeepsInv` | dbbench/main.go:92-418 | Every step of every worker, background writer and the main loop keeps the joint invariant on tickets, counts and stored keys. |
| `Dbbench.EveryTicketOnce` | dbbench/main.go:92-152 | In count mode, under every interleaving, each ticket below the limit is claimed by exactly one worker and no other ticket by anyone; the counter ends at the limit plus the number of workers. |
| `Dbbench.NoTicketTwice` | dbbench/main.go:92-152 | Also with the duration cut-off and in the middle of a benchmark, no ticket is claimed twice. |
| `Dbbench.CountsAreConserved` | dbbench/main.go:102-418 | Merged statistics: ops + errors = tickets used, which in count mode is num exactly when there is a worker (or nothing to do); ops = histogram samples = total = sum of bucket counts; found + notFound = ops for readers. |
| `Dbbench.LimitIs` | dbbench/main.go:192-193 | Tickets number num, or for fillbatch just enough batches of the batch size for num; workers number threads, less one for readwhilewriting but at least one. |
| `Dbbench.OperationIndex` | dbbench/main.go:143-312 | The sequential benchmarks use their claimed ticket as index, readmissing an index in num..2*num, the others one below num. |
| `Dbbench.OperationTakesEffect` | dbbench/main.go:143-226 | After an operation that reached the store its key is stored exactly if it was a put; no other key is affected, and reads affect none. |
| `Dbbench.MissingNeverFound` | dbbench/main.go:284-335 | Starting from an empty store, after any list of benchmarks and with background writers lingering, readmissing records no key as found. |
| `StoredKeys.StepKeepsStoreInv` | dbbench/main.go:143-418 | Every step keeps the store in line with which tickets are completed, and nothing is deleted between benchmarks. |
| `StoredKeys.FillSeqLoadsAll` | dbbench/main.go:143-166 | In count mode, fillseq without errors leaves exactly the keys of 0..num stored, under every interleaving, whatever ran before and whatever writers linger. |
| `StoredKeys.DeleteSeqRemovesAll` | dbbench/main.go:374-395 | In count mode, deleteseq without errors and without lingering writers leaves the store empty. |
| `StoredKeys.StoreIsNetEffect` | dbbench/main.go:143-418 | Without lingering writers any fill, random or batched, leaves what was there and exactly the keys it put, any delete what was there but the keys it deleted, any read what was there. |
| `StoredKeys.ReadsAfterLoadFindAll` | dbbench/main.go:228-282 | Read benchmarks after such a load, with any others but deletes in between, find every key they ask for: found = ops = num - errors. |
| `Keys.FormatKeyInjective` | dbbench/main.go:67-69 | Different indices of any size have different keys. |
| `Keys.FormatKeyIs` | dbbench/main.go:67-69 | The key is the prefix and then decimal digits that read as the index, at least 16, without leading zeros beyond 16. |
| `Keys.KeyOrder` | dbbench/main.go:63-69 | For any two indices, byte order of the keys agrees with numeric order exactly when the smaller, filled up with zeros to the digits of the larger, does not exceed it. |
| `Keys.KeyOrderBelowLimit` | dbbench/main.go:63-69 | Below 10^16 all keys are equally long and byte order is numeric order. |
| `Keys.KeyOrderBreaks` | dbbench/main.go:63-69 | From 10^16 on the promised order fails, for every pair within a factor of ten across the limit. |
| `Buckets.BucketIsUnique` | dbbench/stats.go:57-67 | The bucket of a value is the one interval bounds[i-1] <= x < bounds[i] that contains it. |
| `Buckets.EdgeIsFloor` | dbbench/stats.go:96-100 | The lower edge of the bucket of a value is the largest boundary it reaches, or 0 if it reaches none. |
| `Buckets.BoundIsListed` | dbbench/stats.go:14-26 | The 90 boundaries are the listed ones, each decade from 12 on ten times the one before. |
| `Buckets.BoundStep` | dbbench/stats.go:14-26 | The boundaries strictly ascend and from 4 on grow by at most a quarter. |
| `BenchStats.Histogram.Search` | dbbench/stats.go:57-66 | The bisection ends at the bucket of the value, for every value. |
| `BenchStats.Histogram.Add` | dbbench/stats.go:45-68 | All fields become those of the histogram fed one more sample. |
| `BenchStats.Histogram.Merge` | dbbench/stats.go:71-84 | All fields become those of one histogram fed the samples of both, also when merged with itself. |
| `BenchStats.Histogram.Percentile` | dbbench/stats.go:86-104 | For 0 < p <= 100 the largest boundary reached by the one sample that at least p percent of the samples are at most while less than p percent are smaller; 0 for lower p or no samples, the maximum for higher p. |
| `BenchStats.Histogram.FirstReaching` | dbbench/stats.go:92-95 | The loop ends at the first bucket whose running count reaches the threshold, or past the last if none does. |
| `BenchStats.Histogram.Average` | dbbench/stats.go:106-111 | Times the number of samples it is their sum; it lies between the reported min and max. |
| `BenchStats.Histogram.Variance` | dbbench/stats.go:113-121 | Times the number of samples it is the sum of their squared distances from their mean; never negative and never clamped. |
| `Digests.SpreadingLosesNothing` | dbbench/stats.go:70-84 | However samples are spread over per-thread histograms and in whatever order these are merged, counts, total, sums, min and max are those of one histogram fed all samples. |
| `Digests.DigestConcat` | dbbench/stats.go:71-84 | Merging two histograms is the histogram of both lists of samples. |
| `Digests.DigestPermutes` | dbbench/stats.go:45-68 | A histogram does not depend on the order of its samples. |
| `Digests.CountsSumToTotal` | dbbench/stats.go:45-68 | Total, number of samples and sum of the bucket counts agree. |
| `Digests.ExtremesAreExact` | dbbench/stats.go:50-55 | Every sample lies between min and max, which for nonnegative samples in the float range are themselves samples. |
| `Percentiles.FirstReachingBucket` | dbbench/stats.go:91-103 | The first bucket whose running count reaches ceil(n*p/100) is the bucket of the ceil(n*p/100)-th smallest sample; the loop falls through to max exactly when p > 100. |
| `Percentiles.RankSampleByCounting` | dbbench/stats.go:91 | The ceil(n*p/100)-th smallest sample is a sample that at least p percent of the samples are at most, while less than p percent are smaller. |
| `Percentiles.PercentileSampleIsUnique` | dbbench/stats.go:91 | There is only one such sample. |
| `Percentiles.PercentileIsFloor` | dbbench/stats.go:86-104 | The histogram percentile is the largest boundary that sample reaches, and within a factor 1.25 below it between 4 and a million. |
| `Percentiles.TrackerIndexIs` | benchmarks/write_benchmark.py:70-71 | The index of the sort-based percentile is floor(n*p/100), or n-1 if that is less. |
| `Percentiles.PercentileMonotone` | dbbench/stats.go:86-104 | Percentiles never decrease in p. |
| `Percentiles.HistogramApproximatesTracker` | dbbench/stats.go:86-104 | On nonnegative samples the histogram percentile never exceeds the sort-based one, and is within a factor 1.25 below the exact rank sample between 4 and a million microseconds. |
| `Percentiles.SortSorts` | benchmarks/write_benchmark.py:69 | The sorting used is a sorted permutation. |
| `Percentiles.SortRanks` | benchmarks/write_benchmark.py:69-71 | The sample at index i of the sorted samples is one that at least i+1 samples are at most and at least n-i samples are at least. |
| `Percentiles.RankIsUnique` | benchmarks/write_benchmark.py:69-71 | Only one value has that property. |
| `Percentiles.BelowSorted` | dbbench/stats.go:92-95 | More than r sorted samples lie in the first k buckets exactly when the r-th does. |
| `Moments.SpreadIsNonnegative` | dbbench/stats.go:113-118 | total*sumSq >= sum*sum over all adds and merges. |
| `Moments.VarianceIsNonnegative` | dbbench/stats.go:117-121 | So the negative-variance branch is dead in exact arithmetic. |
| `Moments.VarianceIsMeanSquare` | dbbench/stats.go:117-118 | n times the variance is the sum of the squared distances of the samples from their mean. |
| `Moments.ZeroVarianceIsConstant` | dbbench/stats.go:117-118 | The variance is 0 exactly when all samples are equal. |
| `Moments.AverageIsMean` | dbbench/stats.go:106-111 | The average times the number of samples is their sum. |
| `Moments.AverageIsBetween` | dbbench/stats.go:106-111 | min <= average <= max for every nonempty histogram. |
| `BenchStats.Stats.RecordOp` | dbbench/stats.go:200-204 | One more operation, its payload, and one more sample of which 1000 times is the nanoseconds; the other counters stay; total of the histogram stays equal to ops. |
| `BenchStats.OpsRecorded` | dbbench/stats.go:200-204 | A list of operations leaves, in order, a sample of a thousandth of its nanoseconds for each, and the sum of all payloads. |
| `BenchStats.MergedOpsRecorded` | dbbench/main.go:117-121 | However operations are spread over threads, the merged statistics count them all, and hold the sum of all payloads and a thousandth of the sum of all nanoseconds. |
| `BenchStats.MergedCountsAddUp` | dbbench/stats.go:211-218 | Every merged counter is the sum of that counter over all threads. |
| `BenchStats.Stats.Merge` | dbbench/stats.go:211-218 | All counters add up and the histogram is that of all samples. |
| `BenchStats.MergePerThread` | dbbench/main.go:117-121 | The statistics returned are the merge of all per-thread ones, in order. |
| `Tracker.LatencyTracker.Record` | benchmarks/write_benchmark.py:48-52 | One more sample in milliseconds, one sample for each operation. |
| `Tracker.LatencyTracker.Merge` | benchmarks/write_benchmark.py:58-64 | All samples and counters of both. |
| `Tracker.LatencyTracker.Percentile` | benchmarks/write_benchmark.py:66-71 | With i the lesser of floor(n*p/100) and n-1: a recorded sample that at least i+1 samples are at most and at least n-i samples are at least; 0 without samples. |
| `Compaction.BulkWrite` | benchmarks/compaction_benchmark.py:85-105 | The batches partition the indices from 0 as far as the loop gets, which is all of them unless some call raises something other than a VeltrixDBError; every key that far and not lost has the value, whatever batches are refused; errors counts the refused batches. |
| `Compaction.PartitionIsExact` | benchmarks/compaction_benchmark.py:89-91 | Each index lies in exactly one batch, and batches hold nothing else. |
| `Compaction.BatchesAre` | benchmarks/compaction_benchmark.py:89-90 | The k-th batch runs from k times the batch size to the next multiple, or to the end. |
| `Compaction.RefusedIsCount` | benchmarks/compaction_benchmark.py:94-95 | errors is the number of batches that were refused. |
| `Compaction.FilledIsExact` | benchmarks/compaction_benchmark.py:91-93 | Exactly the written keys have the new value; all other keys are as before. |
| `Compaction.FillAndOverwrite` | benchmarks/compaction_benchmark.py:232-249 | Fill and overwrite rounds leave the store of the given rounds, without errors, when every batch and entry succeeds. |
| `Compaction.RoundsKeepTheKeys` | benchmarks/compaction_benchmark.py:243-249 | After overwrite round r there are exactly num_keys keys, the benchmark's, each with a value of length value_size + r. |
| `Keys.MakeKeyIs` | benchmarks/compaction_benchmark.py:76-77 | The key is "gc_test:" and then lower-case hexadecimal digits that read as the index, at least 16, without leading zeros beyond 16. |
| `Keys.MakeKeyInjective` | benchmarks/compaction_benchmark.py:76-77 | Different indices have different keys. |

## Left out

- Sockets, TLS, dialling, AUTH handshakes and time-outs: a connection is a byte stream that may fail anywhere.
- The VeltrixDB server and its Java client: a map that answers or refuses requests, and for the pool's safety any well-formed replies.
- TTL expiry: TTLs are encoded and decoded, stored values do not expire.
- UTF-8: names, keys and messages are byte sequences. Java replaces malformed bytes of a decoded name, so such a name can be written back longer than it was read.
- Memory limits: any announced length can be allocated.
- PoolProtocol.SlotsNeverIncrease: counts a thread that is dialling a replacement as still holding its place; `PoolProtocol.OnlyReplacementsAdd` says when idle plus held connections proper grow.
- A caller of the Python pool that catches an exception inside its own `with` block and goes on using the connection: none in the repository does.
- Client.VeltrixDBClient.SendCmd: a socket failure while sending is not a case of its own; the call then raises as it does when a failure comes before the first reply byte, and in `PoolProtocol` a call may fail at any point.
- ConnectionPool.VeltrixDBPool.Execute: follows one call at a time; interleaved threads are in `PoolProtocol`, where a reply becomes readable as a whole.
- The Go pool itself: a channel that is drained and refilled like the Python queue, whose discarding operation is never called; when bufio flushes early is not modelled, only what has been written after a flush.
- GoClient.Conn.MultiGet: the partly filled slices returned next to an error are not modelled; callers of the method ignore them.
- Ycsb.VeltrixDBYCSBClient.Update: a failed write is taken not to have reached the server.
- Ycsb.VeltrixDBYCSBClient.Read: the result map is taken to be empty at the call.
- scan: it repeats the decoding of read over rows chosen by the server.
- MergeUpdates.RunsAreSerialExactly: speaks of every step of the run; a run that is not serial at some step may still end in a store some order of its writes makes. Merges that do not fit the format are in `MergeUpdates.RunsAreSerial` only.
- Dbbench and StoredKeys: an operation that fails takes effect at once or never, and each operation gets the reply to its own request; when that holds on connections that are released after errors is the subject of `GoClient`.
- Dbbench: a fillbatch ticket has no ops + errors identity, since entries with failed statuses are counted in neither; 64-bit wrap-around of the ticket counter and of 2*num is not modelled; a negative num or number of threads is not modelled; num = 0 is, except that the background writer of readwhilewriting, which then panics, does nothing.
- Float rounding, the square root in stddev, wall-clock time and random number quality.
- Tracker.LatencyTracker.Percentile: for p >= 0 only; for negative p Python indexes from the end.
- Compaction.BulkWrite: batches go straight to a map instead of through the pool; a batch that raises may have stored some of its entries, and entries that fail singly are not counted as errors, as in the source.
- makeValue of dbbench and the random values of the other benchmarks: nothing reads them back.
- Report printing, JSON and CSV export, flag and YAML parsing, metric scraping, shell scripts and deployment files.
