# DTimeDB: a verified model

DTimeDB is a time-series database. This project models the parts of it in which the code itself
decides something difficult, and proves what they guarantee, in each case for all inputs and, where
there is state, for all runs. Code that changes objects in place is modelled by classes and methods
with loops, each tied by its postcondition to a specification function; the lemmas are about those
functions and about runs of them.

| part | modules |
|---|---|
| TSM storage: out-of-order window, skip list, block codecs, the 512-byte file, the flush loop, the loader | Bytes, Columns, TsmFile, FlushQueue, FlushInvariant, FlushRuns, Writer, FirstBlock, Compression, LostBlock, SkipList, Window, Storage, SeriesRead |
| queries: tag extraction, shard pruning, inverted index, row assembly | QueryRewrite, InvertedIndex, RowAssembly |
| wire protocol: pooled and growing buffers, framing, delivery | BufferPool, IoBuffers, Wire, Connection |
| SQL expressions: lexer, precedence climbing, printer | Chars, Lexer, Pratt, SqlText |
| JSON: values, printer, parser | Json, JsonText |
| timers: array heap with a position index | TimerQueue |

## Where the code does less than it seems to

Each of these is a branch of the code, modelled as it stands. The lemma named gives the exact
condition under which the intended behaviour holds, or a family of inputs for which it does not.

- `heap_hold` calls itself on the slot it just repaired, not on the one it moved the event to, so it
  sifts down one level only. A pop or a deletion keeps the heap exactly if the last event fits
  (`TimerQueue.RemoveKeepsHeap`), a run exactly if every removal does (`TimerQueue.RunsStayHeaps`),
  and `get_timo` can leave due events queued (`TimerQueue.FireExact`).
- The first block of a file passes no guard. If it does not fit, the block meets the index block or
  the footer (`FirstBlock.RangesMeet`), and is kept only if the bytes agree there
  (`LostBlock.LostExactly`); the margin stays negative, and, compared as an unsigned number, it never
  has the file given up (`FirstBlock.NeverGivenUp`). If it fits, and only then, everything holds
  (`FirstBlock.InvExactly`). Every compressor has blocks that do not fit
  (`LostBlock.EveryCompressorMisfits`).
- Before the first index flush the footer is zero, and the loader does not see an empty file
  (`FlushRuns.ReadBack`).
- The loader cuts keys at a zero byte (`Bytes.CStringWhole`).
- A point at time zero is counted in the block header and left out of the columns
  (`Window.BlockOfWindow`).
- A message without payload at the very end of the input aborts the connection
  (`Wire.AbortsOnEmptyLast`); a failed send drops the oldest queued bytes, not its own, and unless the
  queue was empty the next send or write fails an assert (`Connection.TcpConn.SendData`).
- A JSON key is cut at a zero character (`JsonText.PutFinds`, `JsonText.KeyIsCut`), which can leave an
  escape behind that does not read back (`JsonText.CutEscape`).
- Tags below an `or` are demanded as if they stood under `and`, and a side that is all tags makes an
  `and` of the `or`. What is answered is exactly `QueryRewrite.AnswersExactly`; an `or` loses rows
  exactly as `QueryRewrite.OrLosesExactly` says, be it that a series lacks a tag of one side
  (`QueryRewrite.OrLosesRows`) or that it carries them all (`QueryRewrite.OrForgetsTags`).
- A query that demands anything of a field reads no shard (`QueryRewrite.FieldsReadNothing`), and a
  query without tags finds no series (`InvertedIndex.IntersectIsMade`). The SQL lexer makes a single
  equals sign of `=` and knows neither `==` nor `!=`: of the equalities a query can hold, `time = x`
  reads no shard and would throw on a row (`QueryRewrite.SingleEqualsFails`). What
  `QueryRewrite.NotEqualDropsDay` and the cases of `==` say is about `evaluate_shard` and
  `compare_timestamps` alone, which no query reaches.
- Series keys have no separator, so different series can share one (`InvertedIndex.KeysCollide`).
- A query follows only the first entry of an index block, and an index flush usually writes up to ten:
  the points of the other entries are not found (`SeriesRead.AllComeBack`).
- `TagSetIterator::next` compares the number of points read with the number of blocks, so later
  blocks can be missed (`RowAssembly.DrainComplete`), and `has_next` never reaches a second shard
  after one with data (`RowAssembly.RootIterator.Collect`).

## Model

| member | source | states |
|---|---|---|
| Columns.RestoreDifferences | engine/tsm/tsm.cpp:384-441 | Restoring the differences of a timestamp list gives the list back. |
| Columns.DifferencesRestore | engine/tsm/tsm.cpp:384-441 | The differences of restored timestamps are the differences one started from: the two are mutual inverses. |
| Columns.NonNegativeNeverOverflows | engine/tsm/tsm.cpp:384-416 | With non-negative 64-bit timestamps no difference leaves 64 bits. |
| Columns.CalculateDifferences | engine/tsm/tsm.cpp:384-416 | The loop computes the specified differences. |
| Columns.RestoreTimestamps | engine/tsm/tsm.cpp:418-470 | The running sum computes the specified restoration; the list and the vector variant are this one function. |
| Columns.DifferencesRoundTrip | engine/tsm/tsm.cpp:472-506 | Eight-byte encoding then decoding succeeds with the same list. |
| Columns.DifferenceStands | engine/tsm/tsm.cpp:472-482 | Difference k stands in bytes 8k to 8k + 7. |
| Columns.DecodedAgain | engine/tsm/tsm.cpp:484-506 | What decodes to differences is their encoding. |
| Columns.DecodesWholeWords | engine/tsm/tsm.cpp:484-506 | Decoding differences succeeds if and only if the length is divisible by eight. |
| Columns.SerializeDifferences | engine/tsm/tsm.cpp:472-482 | The loop computes the specified encoding. |
| Columns.DeserializeDifferences | engine/tsm/tsm.cpp:484-506 | The loop computes the specified decoding, errors included. |
| Columns.StringsRoundTrip | engine/tsm/tsm.cpp:508-574 | Length-prefixed strings shorter than 2^31 bytes decode to what was encoded. |
| Columns.StringsExactly | engine/tsm/tsm.cpp:508-574 | Bytes decode to strings if and only if they are the encoding of strings shorter than 2^31 bytes. |
| Columns.SerializeStrings | engine/tsm/tsm.cpp:508-521 | The loop computes the specified encoding, the 32-bit truncation of the length included. |
| Columns.DeserializeStrings | engine/tsm/tsm.cpp:523-574 | The loop computes the specified decoding; the list and the vector variant are this one function. |
| TsmFile.ReadStored | engine/tsm/tsm.cpp:48-125 | A data block standing in the file at an offset reads back, there, as the stored type, count, timestamps and values, for any compressor with its inverse law. |
| Bytes.CStringWhole | engine/tsm/iterator.cpp:42-47 | The key the loader rebuilds from a character buffer is the written key if and only if it has no zero byte. |
| Bytes.CStringCut | engine/tsm/iterator.cpp:42-47 | That key is what stands before the first zero byte. |
| TsmFile.EntryRoundTrip | engine/tsm/tsm.cpp:127-168 | A 28-byte index entry reads back as it was written. |
| TsmFile.EntryFields | engine/tsm/tsm.cpp:127-153 | Greatest time, least time, offset and size stand in an entry in this order. |
| TsmFile.IndexSizeIsLength | engine/tsm/tsm.cpp:273-309 | The size the flush loop subtracts from the tail (28 an entry, 8 and the key) is the length of what gets written. |
| TsmFile.ParseEncodedIndex | engine/tsm/iterator.cpp:12-82 | The loader reads one written index block back and stops exactly behind it. |
| TsmFile.ParsesWhatIsThere | engine/tsm/iterator.cpp:34-76 | An index block loads if and only if the file holds its head, its key and as many entries of 28 bytes as it counts. |
| TsmFile.TypesLoad | engine/tsm/tsm.cpp:170-195 | The type of a column is written behind the key, and loaded from there, as 0 for integers, 1 for strings, 2 for floats. |
| TsmFile.LoadWritten | engine/tsm/iterator.cpp:12-82 | If the blocks fill the file from the tail to the footer and the footer holds the tail, the loader returns exactly those blocks in file order. |
| TsmFile.GroupedLooks | engine/tsm/iterator.cpp:77-78 | Under a key the query finds exactly its blocks, in the order they were loaded. |
| TsmFile.LoadShard | engine/tsm/iterator.cpp:12-82 | Over the files of a shard: the blocks of all of them, grouped by key; nothing where a file does not load. |
| TsmFile.File.WriteHeader | engine/tsm/tsm.cpp:12-30 | Overwrites the first eight bytes with magic, version and what the object leaves behind. |
| TsmFile.File.WriteFooter | engine/tsm/tsm.cpp:235-256 | Overwrites the last eight bytes before the given end with the offset. |
| TsmFile.File.WriteData | engine/tsm/tsm.cpp:48-87 | Writes the four header words and both columns at the offset as one overwrite of the encoded block; returns its size. |
| TsmFile.File.ReadData | engine/tsm/tsm.cpp:89-125 | Reads field by field what the specification reads. |
| TsmFile.File.WriteIndexMeta | engine/tsm/tsm.cpp:170-195 | Writes key length, key, type and count as one overwrite of the encoded meta. |
| TsmFile.File.WriteIndexEntry | engine/tsm/tsm.cpp:127-153 | Writes the four fields as one overwrite of the encoded entry. |
| TsmFile.File.WriteSeriesIndexBlock | engine/tsm/tsm.cpp:273-309 | Meta, all entries and the footer leave the file as the specification says and touch nothing else. |
| TsmFile.File.LoadTsmIndexEntry | engine/tsm/iterator.cpp:12-82 | The loop follows the footer and returns what the specification loads. |
| FlushQueue.ReservedTake | engine/tsm/write.cpp:305-320 | The space held back is a sum over the fields with waiting entries: any field can be taken out of it first. |
| FlushInvariant.IndexKeepsInv | engine/tsm/write.cpp:150-199 | Writing the index block of a queued field keeps the whole invariant: contiguous data, index blocks up to the footer, booking, queue without duplicates, one entry a block. |
| FlushInvariant.IndexKeepsSpace | engine/tsm/write.cpp:163-198 | An index flush leaves the margin unchanged although the tail moves, because what it needs was held back. |
| FlushInvariant.DataKeepsInv | engine/tsm/write.cpp:207-332 | Writing a data block that passes the guard, or a first block that fits, keeps the whole invariant. |
| FlushInvariant.AppendKeepsSpace | engine/tsm/write.cpp:296-330 | After a block, margin = tail - head - (28 for every waiting entry and 8 + key for every reserved meta), and it stays non-negative. |
| FlushInvariant.TaskHasRoom | engine/tsm/write.cpp:150-187 | A queued field always has waiting entries, a field record and room for its index block above the data. |
| FlushInvariant.BlockHasRoom | engine/tsm/write.cpp:248-253 | A block that passes the guard of an open file fits with its entry and meta between the data and everything held back for the index. |
| FlushRuns.StepKeepsInv | engine/tsm/write.cpp:131-334 | Each event (a field appears, a block arrives, the monitor looks, an index flush, a block write) keeps the invariant. |
| FlushRuns.RunsKeepInv | engine/tsm/write.cpp:131-334 | With no guard on the first block of a file: the invariant holds after every run over one file in which that block fits, from every state that has it. |
| FlushRuns.WriteExactly | engine/tsm/write.cpp:248-253 | With a file open the next block is written to it if and only if the margin is at least the size of the block and 40 and the length of its key. |
| FlushRuns.WriteWraps | engine/tsm/write.cpp:248-253 | A negative margin is compared 2^64 larger. |
| FlushRuns.LookQueuesExactly | engine/tsm/write.cpp:397-409 | A look of the monitor queues a field, behind those that wait, if and only if ten of its entries wait, or five seconds have gone by and one does. |
| FlushRuns.WriteQueuesExactly | engine/tsm/write.cpp:302-327 | A written block leaves one more entry waiting and queues its field if and only if ten wait now or five seconds have gone by; no other field is queued. |
| FlushRuns.ReadBack | engine/tsm/iterator.cpp:12-82 | In every state with the invariant, so after every run whose first block fits: the loader returns exactly the flushed index blocks, newest first with their entries in order, if and only if at least one was flushed; and every written block reads back whole from the offset in its entry. |
| FlushRuns.LoadedEntryReads | engine/tsm/iterator.cpp:134-192 | Every entry the loader returns belongs to a written block of its field, and reading at its offset gives that block. |
| FlushRuns.StepConserves | engine/tsm/write.cpp:215-332 | Each event takes blocks from the front of the data queue to the end of the history, and changes nothing else about them. |
| FlushRuns.BlocksConserved | engine/tsm/write.cpp:442-461 | Written blocks followed by queued blocks are the blocks that arrived, in order: none lost, doubled or reordered. |
| FlushRuns.RegionsNeverMeet | engine/tsm/write.cpp:98-117 | After every run whose first block fits 5 <= head <= tail <= 504 and the margin is exact. |
| FirstBlock.InvExactly | engine/tsm/write.cpp:246-294 | Over every run the invariant holds if and only if the first block of the file fits, which is exactly when the margin is not negative. |
| FirstBlock.MisfitOverbooks | engine/tsm/write.cpp:296-330 | Once the first block did not fit, the margin is negative after every further event. |
| FirstBlock.NeverGivenUp | engine/tsm/write.cpp:248-253 | Over any such run of less than 2^62 bytes the margin stays negative, the guard, reading it as unsigned, never asks for a new file, and every further block is written to the same one. |
| FirstBlock.RangesMeet | engine/tsm/write.cpp:163-198 | After the first block and its index flush the bytes of the block meet those of the index block or the footer if and only if 36 + key + size exceeds 499. |
| LostBlock.LostExactly | engine/tsm/write.cpp:163-198 | After the first block and its index flush the block still stands in the file if and only if its bytes agree with those of the index block and of the footer wherever they meet. |
| Compression.SomeValueStays | engine/tsm/write.cpp:215-243 | Whatever compressor with an inverse is used, of the values of any one length below 2^31 there is one whose column comes out no shorter than the value. |
| LostBlock.EveryCompressorMisfits | engine/tsm/write.cpp:246-308 | For every compressor and every length from 448 to 2^30 there is a value of that length whose block, arriving first, does not fit: over its run the bytes of the block meet those of its index block or the footer, and it stands there only if they agree. |
| LostBlock.ZerosAreLost | engine/tsm/write.cpp:276-308 | An example, with the compressor that changes nothing (snappy would shrink these values): a first block of 480 zero bytes or more, after which reading the block back does not give it. |
| FlushRuns.EntryOfBlock | engine/tsm/write.cpp:302-308 | The entry of a written block has its minimum and maximum and its size in the file. |
| Storage.WindowReadsBack | engine/tsm/iterator.cpp:134-192 | After any further run a reader at the entry of a window's block gets the window back point by point, in time order. |
| Storage.WindowIsQueried | engine/tsm/iterator.cpp:134-192 | The iterator of a query makes of such a block the points of the window, each time with its own data, character by character. |
| Storage.FirstWriteReadsBack | engine/tsm/field.cpp:36-121 | Every value read there is the first one written for its time among the writes that filled the window. |
| SeriesRead.PointsPair | engine/tsm/iterator.cpp:97-129 | The points of a block pair each time with the value at its own place; the characters of a value are its bytes. |
| SeriesRead.FindsFirstEntries | engine/tsm/iterator.cpp:97-129 | From the file to the iterator of one series: in every state with the invariant and an index block, a query for a field with a key of its own finds the blocks behind the first entries of the index blocks of the field, newest first. |
| SeriesRead.AllComeBack | engine/tsm/iterator.cpp:97-192 | A query gets exactly the points written of a field if and only if none of its entries waits for an index block, each of its index blocks has exactly one entry, and the iterator does not stop early. |
| Writer.Write.FlushIndexBlock | engine/tsm/write.cpp:150-199 | Module one performs exactly the index step, always enabled when a field is queued. |
| Writer.Write.WriteDataBlock | engine/tsm/write.cpp:207-332 | Module two, for a first block of any size: write, entry, booking, check for a due field; the invariant is kept if the block has room. |
| Writer.OpenedFits | engine/tsm/write.cpp:248-298 | A block with room leaves the index region alone once the file is open. |
| Writer.Write.AppendBlock | engine/tsm/write.cpp:296-330 | Once a file is open: block bytes at the head, one new entry with that offset and size, margin and head moved. |
| Writer.Write.BookEntry | engine/tsm/write.cpp:302-330 | The booking half: entry queued, margin less block, entry and, once, meta. |
| Writer.Write.CreateTsmFile | engine/tsm/write.cpp:98-117 | A new file of 512 bytes has margin 499, head 5, tail 504, header and a footer of zero. |
| Writer.Write.ShouldFlushIndex | engine/tsm/write.cpp:397-409 | Ten entries, or time gone by and at least one. |
| Writer.Write.PushTask | engine/tsm/write.cpp:506-517 | A field is queued, and no field twice; the set follows the list. |
| Writer.Write.PopTask | engine/tsm/write.cpp:519-530 | First in, first out; the set follows the list. |
| Writer.Write.PushIndexToDeque | engine/tsm/write.cpp:463-474 | The entry goes behind those waiting for the same field. |
| Writer.Write.FlushPass | engine/tsm/write.cpp:134-333 | One pass is at most one index step and one data step. |
| Writer.Write.QueueFlushDisk | engine/tsm/write.cpp:131-334 | The loop terminates (measure 2 * blocks + queued fields); it is a run of flush steps that leaves a block in the queue only if the margin is less than its size and 40 and the length of its key, and with an empty field queue if it held at most one. |
| SkipList.SkipList.Put | engine/tsm/skip_list.h:168-204 | Whatever level is drawn, the points become the sorted insertion of the key unless it is there already; the caller gets the stored value: the first written. |
| SkipList.SkipList.Get | engine/tsm/skip_list.h:207-226 | Finds the value of a key, if and only if it is there. |
| SkipList.SkipList.Del | engine/tsm/skip_list.h:229-262 | The key is gone from the points and unlinked from every level. |
| SkipList.SkipList.Clear | engine/tsm/skip_list.h:265-283 | No points are left. |
| SkipList.SkipList.Size | engine/tsm/skip_list.h:309-316 | The count is the number of points. |
| SkipList.SkipList.MinKey | engine/tsm/skip_list.h:319-330 | The smallest key, or the zero time when empty. |
| SkipList.SkipList.MaxKey | engine/tsm/skip_list.h:333-349 | The largest key, found at the end of the bottom level, or the zero time when empty. |
| SkipList.SkipList.Traverse | engine/tsm/skip_list.h:292-306 | Walking the bottom level gives all points in key order. |
| SkipList.SkipList.FindUpdate | engine/tsm/skip_list.h:171-188 | The descent finds on every level the last node with a smaller key: its successor there has the key or a greater one. |
| SkipList.SkipList.Link | engine/tsm/skip_list.h:190-203 | Relinking one node on its levels keeps every other link. |
| SkipList.SkipList.Unlink | engine/tsm/skip_list.h:245-261 | Taking one node out of all its levels keeps every other link. |
| SkipList.SkipList.LevelIsSubsequence | engine/tsm/skip_list.h:95-132 | Every level is linked through exactly the nodes that reach it, in the order of the bottom level. |
| SkipList.LevelsNest | engine/tsm/skip_list.h:95-132 | The nodes of a higher level are among those of every lower one: a node stands on a contiguous run of levels from 0. |
| SkipList.RunsRefineMap | engine/tsm/skip_list.h:168-283 | For every sequence of put, del and clear the points are sorted and are the map the sequence makes with first-write-wins puts. |
| SkipList.SizeIsKeys | engine/tsm/skip_list.h:309-316 | The number of points is the size of that map. |
| SkipList.PutMap | engine/tsm/skip_list.h:168-204 | Sorted insertion is a map update only if the key is new, and leaves it untouched otherwise. |
| SkipList.DelMap | engine/tsm/skip_list.h:229-262 | Sorted deletion removes the key from the map. |
| Window.WindowRuns | engine/tsm/field.cpp:36-134 | Over every run of writes and timed checks the live window and every emitted one hold exactly the first value written for each time since the last flush; emitted windows have 1 to 100 points, the live one fewer than 100; windows partition the writes in order. |
| Window.EmitsExactly | engine/tsm/field.cpp:63-134 | After any run one more write emits the window, and then empties it, if and only if it has grown to 100 points, or time has gone by and it has a point; otherwise nothing is emitted. |
| Window.EmittedWhole | engine/tsm/field.cpp:129-134 | Over every run a window emitted at a write without time gone by has exactly 100 points, and a write with time gone by leaves the window empty. |
| Window.BlockOfWindow | engine/tsm/tsm_ingredient.cpp:4-26 | A block made of a window has strictly increasing timestamps within its minimum and maximum; its count is right if and only if no point has time zero. |
| Window.WindowBlockStorable | engine/tsm/field.cpp:60-131 | A block of non-negative times and short strings can be stored by the file writer. |
| Window.SeriesWindow.WritePoint | engine/tsm/field.cpp:7-124 | One write performs one step of the run: put, flush check, and a block, which empties the window, exactly if there are 100 points, or time has gone by and there is one. |
| Window.SeriesWindow.Enter | engine/tsm/field.cpp:36-58 | The point enters the skip list unless its time is there; the caller sees the stored value. |
| Window.SeriesWindow.MakeBlock | engine/tsm/field.cpp:60-110 | The block holds the window's points and bounds. |
| BufferPool.SizeClassSmallest | server/src/io_buffer.cpp:13-30 | A request is served from the smallest class that holds it. |
| BufferPool.Pool.constructor | server/src/io_buffer.cpp:66-157 | Beforehand the seven lists hold 5000, 1000, 500, 200, 50, 20 and 10 buffers, none is lent, and the counter is their capacity. |
| BufferPool.Pool.Alloc | server/src/io_buffer.cpp:13-53 | Hands out the front of the list or a new cleared buffer of exactly that class, never one that is lent; refuses above 8 MiB and at the memory limit, changing nothing. |
| BufferPool.Pool.Revert | server/src/io_buffer.cpp:55-64 | A lent buffer comes back cleared, to the front of its own list. |
| BufferPool.Pool.Conserved | server/src/io_buffer.cpp:13-64 | In every reachable pool: a buffer is free or lent and never both, free only in the list of its class, and the counter is the capacity of all buffers and below the limit. |
| IoBuffers.IoBuffer.Adjust | server/include/io_buffer.h:27-37 | Moving to the front keeps the contents. |
| IoBuffers.IoBuffer.Pop | server/include/io_buffer.h:47-50 | Drops the first bytes. |
| IoBuffers.TcpBuffer.Store | server/src/io_buffer.cpp:185-266 | Growing or not, the contents get the data behind them, or nothing changes and the call fails, exactly when 8 MiB would be exceeded. |
| IoBuffers.TcpBuffer.Pop | server/src/io_buffer.cpp:174-183 | Drops the first bytes and gives an emptied buffer back. |
| IoBuffers.TcpBuffer.WriteAll | server/src/io_buffer.cpp:268-288 | What the kernel took and what is left are the contents before, whatever the kernel does. |
| Wire.StreamPrefix | server/src/tcp_conn.cpp:39-93 | On any prefix of a stream of frames the loop dispatches the messages that are complete, in order, and keeps a proper prefix of the next frame. |
| Wire.ChunkIndependent | server/src/tcp_conn.cpp:39-93 | Where the stream is cut into reads makes no difference to what is dispatched, kept or closed, while the connection is open. |
| Wire.AbortsOnEmptyLast | server/src/tcp_conn.cpp:62-88 | The assertion in pop fails if and only if the buffer is a list of accepted frames ending with an empty one. |
| Wire.ClosesOnBadHead | server/src/tcp_conn.cpp:55-102 | The connection is closed if and only if the input is accepted frames followed by a head whose length is negative or above 65528, or whose message is there whole and has no handler. |
| Wire.SendableExactly | server/src/tcp_conn.cpp:55-102 | Sendable, in what is said of streams, are exactly the messages whose frame, arriving alone, dispatches them and leaves the connection open. |
| Connection.TcpConn.HandleRead | server/src/tcp_conn.cpp:39-93 | One read dispatches, keeps and closes exactly as the specification does on leftover plus chunk; closing also empties the queue to send, which is otherwise untouched. An empty read closes. |
| Connection.TcpConn.TakeFrame | server/src/tcp_conn.cpp:46-88 | One round of the loop is one step of the specification. |
| Connection.TcpConn.SendData | server/src/tcp_conn.cpp:117-146 | Success queues exactly the frame; failure means 8 MiB would be exceeded. If not even the head fitted nothing changes; otherwise the first eight queued bytes are dropped, and unless the queue was empty the buffer no longer starts at its front, which the asserts of the next send or write demand. |
| Connection.TcpConn.HandleWrite | server/src/tcp_conn.cpp:95-115 | What goes out and what stays queued are the queue before, in order; an error closes the connection and empties both buffers. |
| Connection.StepInOrder | server/src/tcp_conn.cpp:39-146 | Every send, partial write and read keeps the bytes in flight equal to the frames not yet dispatched. |
| Connection.RunInOrder | server/src/tcp_conn.cpp:39-146 | That holds over every interleaving. |
| Connection.Delivered | server/src/tcp_conn.cpp:39-146 | Dispatched messages are always a prefix of the sent ones, all of them once every byte has arrived, and leftover input stays under 65536 bytes. |
| Connection.CanDeliver | server/src/tcp_conn.cpp:44-162 | After every run there are further writes and reads that bring everything sent to the other side and leave all buffers empty. |
| Lexer.Scanner.NextToken | lexer/lexer.cpp:52-219 | The cursor lexer returns the token the positional specification gives and stands behind it. |
| Lexer.Scanner.ReadDoubleQuoteString | lexer/lexer.cpp:355-396 | Reads and unescapes up to the closing quote. |
| Lexer.Scanner.ReadSingleQuoteString | lexer/lexer.cpp:333-353 | Reads up to the closing quote, one escape only. |
| Lexer.Scanner.ReadNumber | lexer/lexer.cpp:303-316 | Reads the whole run of digits. |
| Lexer.Scanner.SkipWhiteSpace | lexer/lexer.cpp:230-239 | Stands on the first character that is no white space. |
| Lexer.WordSpelt | lexer/lexer.cpp:192-210 | A word of letters, digits and underscores that does not start with a digit is one token: a keyword in small letters, however it is spelt, or a string spelt as it stands. |
| Lexer.NumberSpelt | lexer/lexer.cpp:178-191 | Digits are an integer, or with a point and more digits behind them one float, spelt as it stands. |
| Lexer.OtherSigns | lexer/lexer.cpp:58-175 | Point, comma and the double minus are tokens of their own; a semicolon and other signs are illegal. |
| Lexer.QueryWords | token/token.cpp:64-97 | `select`, `from` and `where` are the keywords of their names; the lemmas beside it say so of the others. |
| Lexer.NoOtherWords | token/token.cpp:64-97 | There are exactly these 32 keywords. |
| Chars.SpacesSkipped | lexer/lexer.cpp:230-239 | Blanks, tabs, line feeds and carriage returns are passed over, and nothing else. |
| Pratt.InfixHasPrecedence | parser/parser.cpp:9-62 | The infix table holds exactly the tokens with a precedence above the lowest. |
| Pratt.Parser.Parse | parser/expression.cpp:11-31 | The loop over the shared cursor returns the specified tree and leaves the specified cursor. |
| Pratt.TwoOperators | parser/parser.cpp:9-23 | `x op y op2 z` over leaves is `x op (y op2 z)` if op2 binds tighter, and `(x op y) op2 z` otherwise, where `and` and `or` bind least, then the six comparisons, then plus and minus, then times, divide and modulo. |
| Pratt.MinusBinds | parser/prefix.cpp:9-17 | A minus sign in front of `x op y` takes x alone, whatever the operator. |
| Pratt.StartsNothing | parser/expression.cpp:11-31 | A token outside the prefix table is one more error and no tree. |
| Pratt.OtherLeaves | parser/parser.cpp:28-43 | Numbers, identifiers and the six statement words are leaves; an integer above 2^63 - 1 reads as 2^63 - 1. |
| Pratt.OpenGroup | parser/group.cpp:10-18 | A group without its closing parenthesis is one more error and no tree. |
| Pratt.Parser.ParseInfix | parser/infix.cpp:10-20 | Operator, then the right side at the precedence of the operator. |
| Pratt.Parser.ParsePrefix | parser/prefix.cpp:9-17 | A minus sign and its operand at prefix precedence. |
| Pratt.Parser.ParseGroup | parser/group.cpp:10-18 | An expression up to the closing parenthesis, or a recorded error and no tree. |
| SqlText.TextRoundTrip | parser/expression.cpp:11-31 | Printing any tree over strings without zero characters, non-negative integers, null, minus and the twelve infix operators with as few parentheses as the precedences allow, then lexing and parsing, returns the tree, without errors, at the end of the text. |
| SqlText.PrintedAgain | parser/expression.cpp:11-31 | Of the trees that parsing any text gives without an error, exactly those without floating-point numbers and statements can be printed, and the printed form parses to the tree again. |
| SqlText.TextDetermines | parser/expression.cpp:11-31 | Different trees have different texts. |
| SqlText.OperatorsGroup | parser/parser.cpp:9-23 | As text: two operators between numbers, strings and nulls group by how tightly they bind, to the left where they bind alike. |
| SqlText.MinusGroups | parser/prefix.cpp:9-17 | As text: a minus sign in front takes only what stands next to it. |
| SqlText.LeftAssociative | parser/infix.cpp:10-20 | Two operators of one level, `and` and `or` among them, group to the left without parentheses. |
| SqlText.ParsePrinted | parser/expression.cpp:11-31 | At any precedence and before anything that may follow, the tokens of a tree parse to it. |
| SqlText.LexRendered | lexer/lexer.cpp:52-219 | Any printable token list, written out with spaces, lexes to itself. |
| SqlText.LexEscaped | lexer/lexer.cpp:355-396 | An escaped string lexes to the string. |
| Chars.DecimalRoundTrip | parser/integer.cpp:9-14 | Decimal text reads back as the number. |
| Json.AssignFinds | json/json.cpp:498-512 | Assigning a key of an object changes that key alone. |
| Json.AssignSorted | json/json.cpp:498-512 | and keeps the members in the order of the map. |
| Chars.LessExactly | json/json.cpp:498-512 | That order is the one of a dictionary: at the first difference the smaller character, or the end, comes first. |
| Json.PrintItem | json/json.cpp:592-605 | An item more is printed behind a comma before the closing bracket. |
| Json.PrintMember | json/json.cpp:606-619 | A member more is printed behind a comma before the closing brace, its key in quotes and a colon behind it. |
| Json.AtoiClamps | json/parser.cpp:96-123 | A number that no 64 bits hold reads as -1, or as 0 with a minus sign. |
| Json.LeadingZero | json/parser.cpp:96-123 | A number that starts with a zero ends there, although its value takes in the digits behind. |
| Json.Parser.GetNextToken | json/parser.cpp:20-32 | Next character that is no white space, or the end of the input. |
| Json.Parser.ReadString | json/parser.cpp:139-173 | Raw text up to the closing quote, escapes passed over. |
| Json.Parser.ReadNumber | json/parser.cpp:96-137 | Integer part and value as specified, atoi reading past a leading zero included. |
| Json.Parser.Read | json/parser.cpp:34-69 | The recursive descent over the index returns what the specification parses and stands behind it. |
| Json.Parser.ReadArray | json/parser.cpp:175-198 | The array loop is the specified one. |
| Json.Parser.ReadObject | json/parser.cpp:200-234 | The object loop is the specified one, assigning members to the map. |
| JsonText.StringRoundTrip | json/parser.cpp:139-173 | A raw text between quotes is read back, and nothing behind it, if and only if it has no unescaped quote, no dangling backslash and four characters behind every `\u`. |
| JsonText.IntRoundTrip | json/json.cpp:586-588 | The text of any 32-bit number is read back if no digit or point follows. |
| JsonText.RoundTrip | json/json.cpp:569-628 | Wherever the text of a value of safe strings stands, with nothing behind it that carries a number on, parsing returns the value and stops exactly at its end. |
| JsonText.ZerosOfPrint | json/json.cpp:569-628 | The text of a value has the zero characters of its strings and no others. |
| JsonText.ParsedWithin | json/parser.cpp:34-234 | The strings of a parsed value have no more zero characters than the text it was read from; if they have as many, no key was cut and every string and key is safe. |
| JsonText.ParsedIsSafe | json/parser.cpp:34-234 | Whatever the parser returns has members in map order under keys without zero characters, and safe strings only if the text has no zero character. |
| JsonText.RoundTripExactly | json/json.cpp:569-628 | Of all values that the API can build exactly the safe ones survive printing and parsing. |
| JsonText.PrintedAgain | json/json.cpp:562-567 | Printing a parsed value and parsing that changes nothing, whatever the spacing and order of the first text, if and only if the parsed value is safe. |
| JsonText.PutFinds | json/json.cpp:498-512 | A value assigned under a key is found under it if and only if the key has no zero character: the string overload goes through a C string. |
| JsonText.PutKeeps | json/json.cpp:498-512 | It is always found under the key up to that character, and any other key finds what it found before, or nothing if there was no object. |
| JsonText.MemberSurvives | json/parser.cpp:216-222 | A parsed member is found under its key text if and only if that has no zero character. |
| JsonText.KeyIsCut | json/parser.cpp:200-234 | For every key text of an object with one member: the parser keeps it whole if and only if it has no zero character. |
| JsonText.CutEscape | json/parser.cpp:200-234 | A key cut behind a backslash does not survive being printed and parsed. |
| TimerQueue.AddKeepsHeap | server/src/timer_queue.cpp:72-88 | Adding to a heap leaves a heap. |
| TimerQueue.RemoveConserves | server/src/timer_queue.cpp:90-118 | A removal takes out exactly the event in the slot, heap or not. |
| TimerQueue.RemoveKeepsHeap | server/src/timer_queue.cpp:90-136 | Removing from a heap leaves a heap if and only if the last event is not earlier than the parent of the slot and not later than the children of the smaller child of the slot (or the slot is the last): heap_hold calls itself on the same slot, so it moves one level only. |
| TimerQueue.SmallHeapsStay | server/src/timer_queue.cpp:90-136 | Up to four events that condition always holds. |
| TimerQueue.RunsStayHeaps | server/src/timer_queue.cpp:21-136 | Over every run of additions, deletions and firings the array is a heap after every single addition and removal if and only if every removal finds a last event that fits. |
| TimerQueue.SmallRunsStayHeaps | server/src/timer_queue.cpp:21-136 | So it is over runs that never hold more than four events. |
| TimerQueue.HeapReached | server/src/timer_queue.cpp:21-29 | Every heap of events numbered from the front is reached from the empty queue by additions alone, its root being the pioneer. |
| TimerQueue.TimoBreaks | server/src/timer_queue.cpp:49-60 | After such additions get_timo leaves no heap whenever only the root is due and the last event does not fit there. |
| TimerQueue.FiveCanBreak | server/src/timer_queue.cpp:120-136 | A run of five additions and one get_timo that leaves no heap. |
| TimerQueue.SiftUpEarliest | server/src/timer_queue.cpp:72-88 | An event earlier than all others reaches the root even when the order was lost. |
| TimerQueue.StepKeepsInv | server/src/timer_queue.cpp:21-60 | Adding, deleting and firing keep ids distinct and the pioneer at most every queued timestamp. |
| TimerQueue.RunsKeepInv | server/src/timer_queue.cpp:21-60 | So it is after every sequence of calls, heap or not. |
| TimerQueue.DeletedKeepsInv | server/src/timer_queue.cpp:31-47 | A deletion changes the pioneer only when it empties the queue. |
| TimerQueue.StepConserves | server/src/timer_queue.cpp:21-60 | Every call adds the new timer, takes out the named or fired ones and keeps all others. |
| TimerQueue.FireExact | server/src/timer_queue.cpp:49-60 | get_timo reports events of the pioneer's time only, and leaves none of them queued if and only if the root is due whenever something is, and every due event from the fourth slot on has fewer not-due events behind it than there are due events in the first three slots. |
| TimerQueue.TimoOverRuns | server/src/timer_queue.cpp:49-60 | That condition decides it after every run of calls. |
| TimerQueue.TimoLeaves | server/src/timer_queue.cpp:49-60 | After additions that build a heap in which it fails, get_timo leaves a due event. |
| TimerQueue.FiveFireAll | server/src/timer_queue.cpp:49-60 | Up to five timers in heap order all due ones fire. |
| TimerQueue.LeftBehind | server/src/timer_queue.cpp:49-60 | A run of six additions and one get_timo after which a due event stays queued. |
| TimerQueue.Timers.HeapAdd | server/src/timer_queue.cpp:72-88 | The loop is the specified sift; position stays the exact inverse of the array. |
| TimerQueue.Timers.HeapHold | server/src/timer_queue.cpp:101-118 | One exchange with the earlier child, the left on a tie; position follows. |
| TimerQueue.Timers.HeapDel | server/src/timer_queue.cpp:90-99 | The specified removal; position loses exactly that id. |
| TimerQueue.Timers.HeapPop | server/src/timer_queue.cpp:120-136 | The specified removal of the root; position loses exactly its id. |
| TimerQueue.Timers.AddTimer | server/src/timer_queue.cpp:21-29 | The add step of the state machine, returning the new id. |
| TimerQueue.Timers.DelTimer | server/src/timer_queue.cpp:31-47 | The delete step; an unknown id changes nothing. |
| TimerQueue.Timers.GetTimo | server/src/timer_queue.cpp:49-60 | The firing step and its report in order. |
| QueryRewrite.RebuildTree | engine/tsm/controller.cpp:496-522 | The recursion with a shared tag list builds the specified tree and appends the specified tags. |
| QueryRewrite.RebuildComparison | engine/tsm/controller.cpp:507-533 | A comparison by a single equals sign of a column that is a tag key goes to the list with its value; every other comparison is kept as it is. |
| QueryRewrite.TagsAreKeys | engine/tsm/controller.cpp:496-533 | Of any tree, every extracted tag is a comparison that stands in the tree, of a column that is a tag key. |
| QueryRewrite.TagsExactly | engine/tsm/controller.cpp:496-533 | Of a where tree the extracted tags are exactly those comparisons. |
| QueryRewrite.SignsKnown | engine/impl/itsm.h:20-30 | The seven signs of comparison and the two connectives. |
| QueryRewrite.OperandLost | engine/tsm/controller.cpp:515-518 | A literal spelt `and` or `or` is lost from its comparison. |
| QueryRewrite.RestEvaluates | engine/tsm/iterator.cpp:515-555 | What is left is a where tree that never throws on a row, unless a time is compared with a single equals sign. |
| QueryRewrite.EvaluatesMeaning | engine/tsm/iterator.cpp:515-555 | Short-circuit evaluation of a tree without tags is what the tree says of the row. |
| QueryRewrite.AnswersConnective | engine/tsm/controller.cpp:496-533 | The law of the connectives: an `and` answers what both sides answer; an `or` one of whose sides is all tags answers what both sides answer; any other `or` answers what either side answers, for series that carry the tags of both. |
| QueryRewrite.AnswersExactly | engine/tsm/controller.cpp:496-533 | For every tree the rows answered are exactly those that law gives from what the single comparisons say. |
| QueryRewrite.ExtractionKeepsMeaning | engine/tsm/controller.cpp:496-533 | If all extracted tags match and the rest holds then the original holds; and conversely if the two sides of every `or` have the same tags and both leave a rest or neither does. |
| QueryRewrite.TagsUnderAndAgree | engine/tsm/controller.cpp:496-533 | That is so wherever no tag comparison stands below an `or`. |
| QueryRewrite.TagAndEither | engine/tsm/controller.cpp:496-533 | For one: a tag and, beside it, either of two comparisons by other signs. |
| QueryRewrite.OrLosesExactly | engine/tsm/controller.cpp:515-518 | An `or` whose sides have lost nothing loses a row that is meant exactly if one side is all tags and only one side holds, or neither is, a side holds, and the series lacks a tag of either. |
| QueryRewrite.OrLosesRows | engine/tsm/controller.cpp:515-518 | Whatever the two sides of an `or`: a series that lacks a tag of one side is not answered although the other side holds. |
| QueryRewrite.OrForgetsTags | engine/tsm/controller.cpp:515-518 | And a series that carries all tags loses rows as well: where one side of an `or` is all tags, every row that the other side does not answer is meant and not answered. |
| QueryRewrite.ShardTestExact | engine/impl/itsm.h:63-103 | The test of one time comparison against a day is exact: true if and only if some second of the day passes. |
| QueryRewrite.PruningSound | engine/tsm/controller.cpp:433-458 | A day of which a second passes on its time alone is kept, for every and/or tree, fields standing anywhere, unless a time is compared with `!=` and a second of the day. |
| QueryRewrite.PruningExact | engine/tsm/controller.cpp:433-458 | With `or` alone only such days are kept, fields standing anywhere, unless a time is compared with a single equals sign. |
| QueryRewrite.OrReadsExactly | engine/tsm/controller.cpp:433-458 | For one: `time < a or time > b` keeps exactly the days with a second before a or behind b. |
| QueryRewrite.AndReadsInVain | engine/tsm/controller.cpp:449-452 | With `and` a day can be kept although no second passes. |
| QueryRewrite.NotEqualDropsDay | engine/impl/itsm.h:97-101 | The shard test itself: `!=` naming a second of the day drops the day although every other second passes. |
| QueryRewrite.FieldsReadNothing | engine/impl/itsm.h:67-70 | A tree that demands anything of a field reads no shard at all. |
| QueryRewrite.FieldSideReadsNothing | engine/impl/itsm.h:67-70 | A field on one side of an `and`, or on both sides of an `or`, is enough. |
| QueryRewrite.SingleEqualsFails | engine/tsm/iterator.cpp:473-510 | `time = x`, the only way SQL text can ask for an equal time, reads no shard and throws on every row. |
| QueryRewrite.QueryExact | engine/tsm/controller.cpp:301-352 | Both together: with the sides of every `or` agreeing on the tags and day tests for the rest, a row is found in a kept day for a series with the tags exactly if the tree means it. |
| InvertedIndex.TagOrder | engine/tsm/index.cpp:14-20 | The order of the tags changes neither the series key nor the recorded tags. |
| InvertedIndex.CreateAgain | engine/tsm/index.cpp:23-52 | Creating a series again changes nothing. |
| InvertedIndex.CreateLooks | engine/tsm/index.cpp:23-52 | A new series is found under its own tags, everything else as before. |
| InvertedIndex.SplitJoined | engine/tsm/index.cpp:39-45 | A tag is cut at its first equals sign, key before and value behind. |
| InvertedIndex.CreateRecords | engine/tsm/index.cpp:22-53 | A series with a new key is found under exactly the tags written `key=value` in its call, and their keys are tag keys from then on; nothing else changes, so a tag without an equals sign leaves no trace. |
| InvertedIndex.LookupIsMade | engine/tsm/index.cpp:83-88 | After every sequence of calls a lookup finds exactly the series first made with the tag. |
| InvertedIndex.IndexIsScan | engine/tsm/index.cpp:10-88 | The index agrees with a scan over all calls if and only if no call with tags hides behind the key of an earlier one with another measurement or fewer tags. |
| InvertedIndex.NoCollisions | engine/tsm/index.cpp:10-88 | So it agrees whenever equal keys mean the same measurement and tags. |
| InvertedIndex.KeysCollide | engine/tsm/index.cpp:14-20 | Keys collide wherever the boundary between measurement and tag moves. |
| InvertedIndex.TagKeysExact | engine/tsm/index.cpp:58-69 | A key counts as a tag of a measurement exactly if some series is found under it. |
| InvertedIndex.IntersectIsMade | engine/tsm/controller.cpp:369-386 | The intersection over tags is exactly the series that carry them all; over no tags it is empty. |
| InvertedIndex.QueryFinds | engine/tsm/controller.cpp:301-428 | Index, rewriting and pruning together, after any mixture of creations and lookups: a row of a kept day is found for a series exactly if the tree says so of the row and the tags the series was created with. |
| InvertedIndex.CreateSame | engine/tsm/index.cpp:83-88 | The empty entries that lookups leave behind are invisible to every later call. |
| InvertedIndex.UsesSame | engine/tsm/index.cpp:10-88 | However creations and lookups alternate, the index answers as if there had been no lookups. |
| InvertedIndex.Index.CreateIndex | engine/tsm/index.cpp:10-53 | Key, chunk, block and tag keys in place: the specified state, and the tags sorted. |
| InvertedIndex.Index.GetSeriesKeyByTag | engine/tsm/index.cpp:83-88 | The lookup, and the empty entries its subscripts create. |
| InvertedIndex.IntersectTags | engine/tsm/controller.cpp:369-386 | The loop with its first-tag case computes the intersection. |
| RowAssembly.DrainGiven | engine/tsm/iterator.cpp:97-129 | A series gives exactly the points of its blocks before the first that is empty or follows a block with as many points as there are blocks, and stops early there. |
| RowAssembly.DrainComplete | engine/tsm/iterator.cpp:97-129 | So it gives all points of all its blocks if and only if no block is empty and every block but the last has fewer points than there are blocks; otherwise it stops early. |
| RowAssembly.ShardStep | engine/tsm/iterator.cpp:194-238 | One round of the loading loop takes the next point of the series in order, or the loop is over. |
| RowAssembly.ShardDelivers | engine/tsm/iterator.cpp:219-238 | A shard gives series after series, up to the first that stops early. |
| RowAssembly.ShardComplete | engine/tsm/iterator.cpp:219-238 | If all series are complete the shard gives every point, series after series. |
| RowAssembly.FirstShard | engine/tsm/iterator.cpp:284-294 | The first move of a new field makes the points of its first shard readable. |
| RowAssembly.LaterWins | engine/tsm/iterator.cpp:576-578 | Of two series with a point at one time the later decides. |
| RowAssembly.OuterJoin | engine/tsm/iterator.cpp:560-594 | Rows are the outer join on time: a cell is the last value its field has there, no other cells exist, and a row exists exactly if some field has a point. |
| RowAssembly.RootIterator.LoadCurrShardData | engine/tsm/iterator.cpp:560-594 | The two loops build exactly these rows. |
| RowAssembly.RootIterator.MoveToNextShard | engine/tsm/iterator.cpp:622-641 | All fields move on, the next shard is loaded, and nothing but the shards read changes. |
| RowAssembly.RootIterator.HasNext | engine/tsm/iterator.cpp:615-620 | True while rows are left; false for good once the loaded shard is used up. |
| RowAssembly.RootIterator.Next | engine/tsm/iterator.cpp:596-613 | Takes out the row of the earliest time: of the rows loaded, or of what the current shards have, or of the next ones; otherwise it throws. |
| RowAssembly.RootIterator.Collect | engine/tsm/controller.cpp:337-349 | The query loop returns exactly the rows of the first shard, by strictly increasing time, however many shards there are. |
| RowAssembly.RowsJoined | engine/tsm/iterator.cpp:560-613 | Rows in order of a joined map are the outer join of the columns. |
| RowAssembly.JoinedOnce | engine/tsm/iterator.cpp:560-613 | There is only one such list of rows. |
| RowAssembly.Select | engine/tsm/controller.cpp:403-428 | From the blocks of all series to the rows: the query returns the outer join on time of what the first shard of every field delivers, by increasing time and with no other columns. |
| RowAssembly.LastSeriesWins | engine/tsm/iterator.cpp:576-578 | If all series are complete the last of them that has a time decides the value. |
| Bytes.I64RoundTrip | engine/tsm/tsm.cpp:146-149 | Eight little-endian bytes read back as the 64-bit number. |
| Bytes.I32RoundTrip | engine/tsm/tsm.cpp:64-72 | Four little-endian bytes read back as the 32-bit number. |
| Bytes.I32Bytes | engine/tsm/tsm.cpp:64-72 | The low byte comes first; a negative number is stored as its two's complement. |
| Bytes.I64Bytes | engine/tsm/tsm.cpp:146-149 | And so for 64 bits. |
| Bytes.Trunc32Wraps | engine/tsm/tsm.cpp:508-521 | A length cut to 32 bits differs from it by a multiple of 2^32. |
| Bytes.OverwriteExactly | engine/tsm/tsm.cpp:48-87 | Each byte of a file after a write: the new ones in their range, the old ones elsewhere, zeros in a gap. |
| Bytes.OverwriteConcat | engine/tsm/tsm.cpp:273-309 | Two writes next to each other are one write of both. |
| Bytes.OverwriteKeeps | engine/tsm/tsm.cpp:48-87 | A write leaves every byte outside its range alone. |

## Left out

- Rollover to another file (`engine/tsm/write.cpp:251-272`): the storage properties cover the life of one file; the flush loop of the model stops at a block that needs another one. Shards of several measurements, keys that change within a field, missing shards and unknown fields in the flush loop are left out with it.
- Threads and locks: the monitor's check and its queueing are one step, the flush loop runs alone; observers and notifications do nothing. Elapsed time is a boolean chosen freely. The races of `get_shard` are not modelled.
- Snappy is a pair of functions of which only the inverse law is known. The bytes a compiler leaves in the padded header object, and the enumerator a block carries when its type was never set, are parameters.
- Columns.DeserializeStrings: a negative length is an error in the model, because the source would take the rest of the text, step back and may not end.
- TsmFile.File.ReadData: a short file or a corrupt column gives nothing, because the source reads on in uninitialised memory or throws.
- TsmFile.File.LoadTsmIndexEntry: a file that ends inside an index block gives nothing, because the source would loop on a failed stream.
- TsmFile.LoadShard: where one file of a shard cannot be opened or does not load, the model gives no index, while the source keeps the blocks of the files before it.
- Shards by name (an index belongs to one shard), header and footer readers, `DataBlock::m_size`, value type conversion by stored type, aggregates.
- File system calls, sockets, epoll, the event loop, `tcp_client`, the work done by message callbacks: dispatching a message appends it to a list.
- Buffers handed to a connection are new objects in IoBuffers; that the pool never lends one twice is proved apart, in BufferPool, on the connection-independent buffer. BufferPool keeps every free list as a sequence, without the `next` field that links it. The process exit at the memory limit is a result of Alloc.
- Writer.Write.QueueFlushDisk: starts where the first block of the file fits, because the state after a misfit is no longer the one its steps are proved on; runs with any first block are FirstBlock's and LostBlock's, over states. An index flush whose offset falls below zero leaves there whatever its event says.
- Connection.TcpConn.SendData: states the rollback of a failed send as the code performs it, not as an undo, which it is not.
- Statement parsers (select, insert, create, show, use, system): their tokens make a leaf in Pratt. Float literals keep their text. Characters beyond ASCII are plain characters. The text round trip covers the operators the lexer can produce; `!=` is not one.
- JSON doubles: a number with a fraction ends the parse with its own outcome, and the printer has none. Reading out of bounds behind a truncated escape is an outcome as well. Texts are shorter than 2^31 characters, so that the int start position does not overflow. `clear`, `copy`, `remove` and the comparison operators are left out.
- Re-arming of timers, `timerfd` and callbacks; timer ids are unbounded.
- QueryRewrite.Env: dates are integers given by an unknown function, and the comparison of a column with a literal is an unknown function; neither throws. QueryRewrite takes where trees as the parser of conditions builds them, and days as intervals of seconds.
- LostBlock.EveryCompressorMisfits: takes for granted that a text below 2^31 bytes is not compressed to 2^59 bytes or more.
- SeriesRead: has one file and one series. A block whose columns differ in length, which no window makes, gives as many points as the shorter has; a block that does not read gives none.
- RowAssembly.Select: the filter of the query loop, which is QueryRewrite.EvaluateRow, and the reading of the blocks, which is SeriesRead's, are not part of the method.
- RowAssembly: the iterators below the root are values held by it, not shared objects, so their own aliasing is not captured; a block is the list of its points, as SeriesRead reads them.
- The CLT engine, the write-ahead log, configuration, `FileIOManager`, statement execution and printing of results.
