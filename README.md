# cdb in Dafny: the Java constant database, modelled and proved

A cdb ("constant database") file maps byte-string keys to byte-string data and is written once. It has three parts:

- a 2048-byte header of 256 `(table position, slot count)` pairs;
- the records, each written as key length, data length, key, data (lengths little-endian);
- one open-addressing hash table per bucket, with two slots per record in the bucket.

A key's hash is the 32-bit "times 33, xor the byte" hash that starts at 5381. Its low byte picks the bucket. The rest of the hash, modulo the table's length, picks the slot where probing starts.

This project models the core of the Java port of cdb and proves what it promises:

- **Hashing** (`CdbHash`, `cdb_hash.dfy`): the hash as a fold over the key, also as `hash(ByteBuffer)`.
- **Building** (`CdbMake`, `cdb_make.dfy`, `finish_steps.dfy`, `probe_table.dfy`): `start`, `add`, `posplus`, `writeLeInt` and `finish` as one `CdbMake` class with fields, arrays and loops.
  - The flag `intHash` selects the older port's builder (`java/com/strangegizmo/cdb/CdbMake.java`), which keeps hashes as `int`. The library builder keeps the unsigned hash in a `long`.
  - `finish` is proved to write exactly the file described by the layout functions of `cdb_format.dfy` and `cdb_layout.dfy`.
  - `IntHash` (`int_hash.dfy`) proves that the two builders write the same file: the `int` hash holds the same 32 bits, and `finish` uses only those bits.
- **The text format** (`MakeText`, `TextFormat`, `Dump`):
  - `make` reads `+klen,dlen:key->data` lines into a builder, skipping records whose data the ignore database knows.
  - `dump` writes those lines.
  - The two are proved inverse on every file the builder makes.
- **The reference reader** (`CdbReader`, `cdb_reader.dfy`): the constructor's header decoding, `findstart`, `find` and `findnext`. `LookupCorrect` proves them sound and complete on every file the builder makes. The calls of `findnext` from `findstart` up to the first `null` return the data of every record stored under the key, each as often as it was added.
- **The library reader** (`LibraryReader`, `library_reader.dfy`): the `SeekableByteChannel` version, modelled as written, including how it reuses its 8-byte buffer and how it compares an `int` hash with a `long`. `LibraryFindings` and `LibraryCounterexamples` show where it differs from the reference reader, and prove a corrected walk right (see Findings).
- **The two element enumerations and `elements`** (`StreamEnumeration`, `ChannelEnumeration`, `ElementsCorrect`): both are proved to return every record of a built file, in order.
- **The repository's tests** (`TestVectors`), restated as lemmas about the two-record file `one -> Hello`, `two -> Goodbye`.

Modelling conventions:

- **Bytes.** Bytes are `bv8`. Files, streams and channels are byte sequences with a position.
- **Integers.**
  - Java `int` arithmetic is written out with `Wrap32`.
  - Java's `>>>`, `&` and `%` are written out on naturals.
  - Where a shift or mask is exactly a Euclidean remainder, the model says so and proves it.
- **`java.nio` buffers and channels.** `ByteBuffer` and `FileChannel` are modelled in `buffers.dfy` with their `position`, `limit`, `clear`, `flip`, `getInt` and `read` semantics.
- **Exceptions.** `IOException` and runtime exceptions appear as result values:
  - the reference reader's `IOException` is a `null` result;
  - the library reader's exceptions are `Thrown`;
  - the enumerations return `Delivered`, `Underflow` or an exception value;
  - `make` returns `MakeOutcome`.

Where the comments and the code disagree, the model follows the code:

- **File-size limit.** `posplus` promises to refuse files beyond 4 GB, but it compares a wrapped `int` sum, so every position stops at the largest `int`, 2^31 - 1.
- **The library builder's hash.** It calls `com.strangegizmo.cdb.Cdb.hash`, which is not part of this model. It is modelled as the unsigned cdb hash that the library's `CdbHash` computes.
- **The ignore database** of `make` is queried with `find(data)`. The model gives it as the set of keys for which that `find` returns data: a record is skipped exactly when its data is in the set.
- **The test resources** `test.cdb` and `test.make` are not part of this model.
  - `test.make` is taken to be `+3,5:one->Hello`, `+3,7:two->Goodbye` and an empty line.
  - `test.cdb` is taken to be the file the builder makes from those two records. Its size, 2114 bytes, is the one `CdbMakeTest` expects.
- **`elements` in `CdbElementEnumerationTest`.** The test calls an `elements(InputStream)` that the reference `Cdb.java` does not declare. `TestVectors.EnumerateTestFile` states the test's expectation of the enumeration itself.
- **`elements` in `DumpTest`.** The test calls an `elements(SeekableByteChannel)` that the reference `Cdb.java` does not declare. `TestVectors.DumpTestFile` states the test's expectation for the records of the file, which the library's channel enumeration returns (`ElementsCorrect.ChannelElementsOfImage`).

## Model

| member | source | states |
|---|---|---|
| CdbHash.HashSnoc | library/src/main/java/com/strangegizmo/cdb/CdbHash.java:15-22 | Appending a byte to a key is one more `hashAdd`. |
| CdbHash.HashBuffer | library/src/main/java/com/strangegizmo/cdb/CdbHash.java:15-22 | Consumes the buffer (its position ends at its limit) and returns the cdb hash of exactly the bytes that were remaining. |
| CdbHash.HashAddLowByte | library/src/main/java/com/strangegizmo/cdb/CdbHash.java:9-13 | The bucket (the low byte) of the hash after one more byte depends only on the bucket before it and on the byte. |
| CdbHash.LowHashIsLowByte | library/src/main/java/com/strangegizmo/cdb/CdbHash.java:9-22 | The low byte of a key's hash is what `LowHash` computes. |
| CdbHash.XorBound | library/src/main/java/com/strangegizmo/cdb/CdbHash.java:11-12 | Exclusive or of two `k`-bit values is a `k`-bit value. |
| CdbHash.LowByteTimes33 | library/src/main/java/com/strangegizmo/cdb/CdbHash.java:10-12 | The low byte of `33 * h`, masked to 32 bits, is that of `33 * (h & 0xff)`. |
| Bytes.LeBytesValue | library/src/main/java/com/strangegizmo/cdb/CdbMake.java:446-451 | Writing a value and reading it back gives its 32-bit pattern. |
| Bytes.LeBytesDigits | library/src/main/java/com/strangegizmo/cdb/CdbMake.java:446-451 | The four bytes written for `v` are `v & 0xff`, `(v >>> 8) & 0xff`, `(v >>> 16) & 0xff` and `(v >>> 24) & 0xff`. |
| Bytes.ReadLeBytes | src/main/java/com/strangegizmo/cdb/Cdb.java:245-253 | The four bytes at `off`, each shifted 8 bits further than the one before and or-ed together, give their little-endian value: the shifted bytes occupy disjoint bits, so the or is a sum. |
| CdbFormat.RecordBytes | library/src/main/java/com/strangegizmo/cdb/CdbMake.java:336-345 | A record is `8 + klen + dlen` bytes: the key length and data length little-endian, then the key, then the data. |
| CdbFormat.RecordAt | library/src/main/java/com/strangegizmo/cdb/CdbMake.java:336-345 | Record `k` sits at `RecordPos(rs, k)` in a file that starts with the header and continues with the record region. |
| CdbFormat.StoredBeforeLast | library/src/main/java/com/strangegizmo/cdb/CdbMake.java:336-345 | A record before the last is where it was before the last was added. |
| CdbFormat.PointersWithAt | library/src/main/java/com/strangegizmo/cdb/CdbMake.java:349-350 | Pointer `k` holds the hash of record `k`'s key and record `k`'s position. |
| CdbFormat.PointersSnoc | library/src/main/java/com/strangegizmo/cdb/CdbMake.java:349-353 | Appending a record appends one pointer and leaves the others alone. |
| CdbFormat.InBucketMembers | library/src/main/java/com/strangegizmo/cdb/CdbMake.java:377-381 | A bucket holds exactly the pointers whose hash selects it. |
| CdbFormat.InBucketPrefix | library/src/main/java/com/strangegizmo/cdb/CdbMake.java:377-381 | The pointers of a bucket among the first `k` are the first pointers of that bucket. |
| CdbFormat.BeforeSnoc | library/src/main/java/com/strangegizmo/cdb/CdbMake.java:370-374 | Adding a pointer moves the start of every later bucket by one. |
| CdbFormat.BeforeAll | library/src/main/java/com/strangegizmo/cdb/CdbMake.java:370-374 | The buckets partition the pointers: their counts add up to the total. |
| CdbFormat.BeforeMono | library/src/main/java/com/strangegizmo/cdb/CdbMake.java:370-374 | The bucket slices are in order: bucket `b` ends where bucket `b + 1` starts. |
| CdbFormat.RecordsSizeAppend | library/src/main/java/com/strangegizmo/cdb/CdbMake.java:357-359 | The size of two runs of records is the sum of their sizes. |
| ProbeTable.Home | library/src/main/java/com/strangegizmo/cdb/CdbMake.java:408 | The home slot is one of the table's slots. |
| ProbeTable.ProbeStepsPath | library/src/main/java/com/strangegizmo/cdb/CdbMake.java:409-411 | The probe passes only occupied slots and stops at the first free one. |
| ProbeTable.ProbeFindsFree | library/src/main/java/com/strangegizmo/cdb/CdbMake.java:409-411 | With at least one free slot, a full round of probing from any slot ends on a free slot. |
| ProbeTable.PlacedHasFree | library/src/main/java/com/strangegizmo/cdb/CdbMake.java:409-411 | Fewer pointers than slots leave a free slot for the next one. |
| ProbeTable.InsertCounts | library/src/main/java/com/strangegizmo/cdb/CdbMake.java:408-414 | Inserting into a table with a free slot takes exactly one free slot. |
| ProbeTable.InsertChained | library/src/main/java/com/strangegizmo/cdb/CdbMake.java:408-414 | Inserting into a table with a free slot keeps every taken slot and keeps every pointer on its probe chain. |
| ProbeTable.PlaceProperties | library/src/main/java/com/strangegizmo/cdb/CdbMake.java:401-415 | Placing fewer pointers than there are free slots uses one free slot per pointer, stores each pointer as often as it is placed and keeps every pointer on its probe chain. |
| ProbeTable.BucketTableProperties | library/src/main/java/com/strangegizmo/cdb/CdbMake.java:401-415 | A bucket table holds exactly the bucket's pointers, each once, and as many free slots as pointers; every pointer is reachable by probing from its home. |
| ProbeTable.PlaceReversedCons | library/src/main/java/com/strangegizmo/cdb/CdbMake.java:401-415 | Inserting `q` after the pointers of `s` is placing `[q] + s`: the first pointer of the list goes in last. |
| ProbeTable.LoneTable | library/src/main/java/com/strangegizmo/cdb/CdbMake.java:385-415 | The table of a bucket with a single pointer: two slots, the pointer in its home slot and the other slot free. |
| CdbLayout.TableBytesSnoc | library/src/main/java/com/strangegizmo/cdb/CdbMake.java:418-428 | One more slot of a table, written after the ones before it. |
| CdbLayout.TablesBytesSize | library/src/main/java/com/strangegizmo/cdb/CdbMake.java:418-428 | The tables of the first `n` buckets take 16 bytes per pointer in those buckets (two 8-byte slots each). |
| CdbLayout.TablesBytesAt | library/src/main/java/com/strangegizmo/cdb/CdbMake.java:418-428 | Table `b` occupies bytes `16 * Before(b)` to `16 * Before(b + 1)` of the table region. |
| CdbLayout.SlotOfLayout | library/src/main/java/com/strangegizmo/cdb/CdbMake.java:418-428 | Slot `j` of table `b` lies at `TablePos + 8 * j` in the file. |
| CdbLayout.TablesAt | library/src/main/java/com/strangegizmo/cdb/CdbMake.java:401-415 | Table `b` of the file is the table of bucket `b`. |
| CdbLayout.TablesSized | library/src/main/java/com/strangegizmo/cdb/CdbMake.java:401-415 | The tables `finish` builds have the sizes the header announces. |
| CdbLayout.HeaderBytesSnoc | library/src/main/java/com/strangegizmo/cdb/CdbMake.java:385-398 | One more header entry: the position of the table, then its length. |
| CdbLayout.HeaderOfLayout | library/src/main/java/com/strangegizmo/cdb/CdbMake.java:385-398 | Header entry `b` of the file: the table position and the table length. |
| CdbLayout.FirstTableAtEod | library/src/main/java/com/strangegizmo/cdb/CdbMake.java:385-398 | Header entry 0 points at the end of the record region: the tables begin there. |
| CdbLayout.TablesAdjacent | library/src/main/java/com/strangegizmo/cdb/CdbMake.java:385-398 | Consecutive tables are adjacent: table `b + 1` begins `8 * len_b` bytes after table `b`, where `len_b = 2 * count_b` is the length in header entry `b`. |
| CdbLayout.HeaderOver | library/src/main/java/com/strangegizmo/cdb/CdbMake.java:433-434 | The header written over the reserved bytes in front of the records and the tables gives the layout. |
| CdbLayout.ImageSize | library/src/main/java/com/strangegizmo/cdb/CdbMake.java:368-438 | The file holds the header, every record's 8 + klen + dlen bytes, and two 8-byte slots per record. |
| CdbLayout.ImageIsLayout | library/src/main/java/com/strangegizmo/cdb/CdbMake.java:368-438 | The file of `rs` is the layout of its records and tables, and the record region ends where the records' bytes do. |
| CdbLayout.RecordOfLayout | library/src/main/java/com/strangegizmo/cdb/CdbMake.java:336-345 | The bytes at a record's position are that record, whatever tables follow. |
| CdbLayout.RecordOfImage | library/src/main/java/com/strangegizmo/cdb/CdbMake.java:336-345 | The bytes at a record's position in the file are that record. |
| FinishSteps.PrefixSums | library/src/main/java/com/strangegizmo/cdb/CdbMake.java:370-374 | `tableStart[b]` becomes the number of pointers in buckets `0 .. b`. |
| FinishSteps.SlicesHold | library/src/main/java/com/strangegizmo/cdb/CdbMake.java:370-374 | The running sums lie within the pointer array, and every bucket's slice fits below its end. |
| FinishSteps.Distribute | library/src/main/java/com/strangegizmo/cdb/CdbMake.java:377-381 | Returns a new array in which every bucket's slice holds that bucket's pointers, the one added last first. |
| FinishSteps.StoreAll | library/src/main/java/com/strangegizmo/cdb/CdbMake.java:377-381 | After the last round, the starts and the slots are those of the round functions `StartsAfter` and `SlotsAfter`. |
| FinishSteps.CountUpToPrefix | library/src/main/java/com/strangegizmo/cdb/CdbMake.java:377-381 | Counting along the way agrees with counting the prefix. |
| FinishSteps.NextOfBucket | library/src/main/java/com/strangegizmo/cdb/CdbMake.java:377-381 | Pointer `k` is the next pointer of its bucket after those among the first `k`. |
| FinishSteps.FilledAt | library/src/main/java/com/strangegizmo/cdb/CdbMake.java:377-381 | After `k` rounds, slot `ends[b] - 1 - j` holds pointer `j` of bucket `b` for every `j` that has been stored. |
| FinishSteps.DistributedAfter | library/src/main/java/com/strangegizmo/cdb/CdbMake.java:377-381 | After the last round each bucket's slice starts where the layout puts it and holds the bucket's pointers, the one added last first. |
| FinishSteps.BucketSlice | library/src/main/java/com/strangegizmo/cdb/CdbMake.java:377-381 | What the distribution loop leaves for bucket `b`. |
| FinishSteps.StartsAfterAt | library/src/main/java/com/strangegizmo/cdb/CdbMake.java:377-381 | Each start moves down once per pointer of its bucket. |
| FinishSteps.Store | library/src/main/java/com/strangegizmo/cdb/CdbMake.java:380 | Lowers the bucket's start by one and stores the pointer there; nothing else changes. |
| FinishSteps.SliceOrder | library/src/main/java/com/strangegizmo/cdb/CdbMake.java:370-381 | The slices of two buckets lie inside the array, in bucket order. |
| FinishSteps.BuildTable | library/src/main/java/com/strangegizmo/cdb/CdbMake.java:401-415 | The new table is the bucket's `BucketTable`: each of its pointers at the first free slot of its probe chain, and as many free slots as pointers. |
| FinishSteps.PlaceAll | library/src/main/java/com/strangegizmo/cdb/CdbMake.java:403-415 | The table is that of inserting the bucket's pointers in the order the slice holds them. |
| FinishSteps.PlaceNext | library/src/main/java/com/strangegizmo/cdb/CdbMake.java:403-415 | The table gains pointer `i` on top of those after it. |
| FinishSteps.Place | library/src/main/java/com/strangegizmo/cdb/CdbMake.java:408-414 | The table is that of inserting the pointer into the table before it. |
| FinishSteps.FreeSlot | library/src/main/java/com/strangegizmo/cdb/CdbMake.java:408-411 | The first free slot on the probe chain from `w`, wrapping after the last slot. |
| FinishSteps.PutLeInt | library/src/main/java/com/strangegizmo/cdb/CdbMake.java:391-394 | Bytes `off .. off + 3` become the four bytes of `v`, least significant first; all other bytes are unchanged. |
| FinishSteps.PutEntry | library/src/main/java/com/strangegizmo/cdb/CdbMake.java:388-398 | The header so far grows by the entry's position and length, and the bytes after the entry are unchanged. |
| CdbMake.BuiltEmpty | library/src/main/java/com/strangegizmo/cdb/CdbMake.java:309-324 | Nothing added yet: no pointers, all counts zero, only the reserved header. |
| CdbMake.CountsAdd | library/src/main/java/com/strangegizmo/cdb/CdbMake.java:353 | Adding a record adds one to the count of its key's bucket only. |
| CdbMake.FileAdd | library/src/main/java/com/strangegizmo/cdb/CdbMake.java:336-345 | Adding a record appends its bytes after those of the records before it. |
| CdbMake.BuiltAdd | library/src/main/java/com/strangegizmo/cdb/CdbMake.java:334-360 | One `add` that does not overflow extends the state by one record. |
| CdbMake.BuiltAfterAdd | library/src/main/java/com/strangegizmo/cdb/CdbMake.java:334-360 | The state `add` leaves behind when `pos` does not overflow. |
| CdbMake.FinishedFile | library/src/main/java/com/strangegizmo/cdb/CdbMake.java:431-434 | The file after `finish`: the header written over the 2048 reserved bytes, whatever they hold, followed by the records and the tables written after them, is the cdb layout. |
| CdbMake.CdbMake.constructor | library/src/main/java/com/strangegizmo/cdb/CdbMake.java:83-84 | A new builder that has written nothing and holds no pointers or records; `intHash` selects the `int`-hash builder of the older port. |
| CdbMake.CdbMake.ValidSize | library/src/main/java/com/strangegizmo/cdb/CdbMake.java:463-468 | The records added so far end within the largest `int` position. |
| CdbMake.CdbMake.Start | library/src/main/java/com/strangegizmo/cdb/CdbMake.java:309-324 | Afterwards the builder is valid: no records and no pointers, all 256 counts zero, the file is the 2048 reserved zero bytes and `pos` is 2048 (the older port's `start` does the same). |
| CdbMake.CdbMake.WriteLeInt | library/src/main/java/com/strangegizmo/cdb/CdbMake.java:446-451 | Appends exactly the four bytes of `v`, least significant first, and nothing else. |
| CdbMake.CdbMake.WriteRecord | library/src/main/java/com/strangegizmo/cdb/CdbMake.java:336-345 | Appends exactly the record's bytes: key length, data length, key, data. |
| CdbMake.CdbMake.AddPointer | library/src/main/java/com/strangegizmo/cdb/CdbMake.java:349-353 | Appends the pointer `(hash, pos)` and adds one to the count of bucket `hash & 0xff`, leaving the other counts alone. |
| CdbMake.CdbMake.Advance | library/src/main/java/com/strangegizmo/cdb/CdbMake.java:357-359 | Succeeds exactly when `pos + 8 + klen + dlen` stays within the largest `int`. `pos` ends where the three `posplus` steps leave it: past the record on success, and otherwise after the steps before the one that overflows. |
| CdbMake.CdbMake.PosAfterRecord | library/src/main/java/com/strangegizmo/cdb/CdbMake.java:357-359 | Where the three `posplus` steps leave `pos`: past the record exactly when it ends within the largest `int`, and otherwise at the first step that would overflow, never behind where it was. |
| CdbMake.CdbMake.PosPlus | java/com/strangegizmo/cdb/CdbMake.java:237-242 | Succeeds exactly when `pos + count` stays within the largest `int`; only then does `pos` move (the library builder's `posplus` is the same). |
| CdbMake.CdbMake.Add | library/src/main/java/com/strangegizmo/cdb/CdbMake.java:334-360 | Appends the record's bytes, appends the pointer `(hash(key), pos)` and raises the count of its bucket by one. It succeeds exactly when the record ends within the largest `int`, and then the builder is valid again with the record appended to its records. On failure, `pos` stays where the failing `posplus` left it. |
| CdbMake.CdbMake.AddSteps | library/src/main/java/com/strangegizmo/cdb/CdbMake.java:334-360 | Succeeds exactly when the record ends within the largest `int`. Whether or not it succeeds, the record's bytes and the pointer `(hash(key), pos)` are appended, its bucket's count goes up by one, and `pos` ends where the three `posplus` steps leave it. |
| CdbMake.CdbMake.WriteSlot | library/src/main/java/com/strangegizmo/cdb/CdbMake.java:419-426 | Appends the slot's 8 bytes: the hash cast to `int` and the position, or two zero `int`s for a free slot. |
| CdbMake.CdbMake.WriteTable | library/src/main/java/com/strangegizmo/cdb/CdbMake.java:418-428 | Succeeds exactly when the table ends within the largest `int`; then the file grows by the table's bytes and `pos` by 8 per slot. |
| CdbMake.CdbMake.WriteBucket | library/src/main/java/com/strangegizmo/cdb/CdbMake.java:386-428 | Preserves the invariant that the header entries and tables of the buckets before `i` are written. A failure happens only when the tables of all buckets would end beyond the largest `int`. |
| CdbMake.CdbMake.WriteTables | library/src/main/java/com/strangegizmo/cdb/CdbMake.java:385-429 | Succeeds exactly when `pos + 16 * pointers` fits in an `int`. Then the file grows by the tables of all 256 buckets, and the 2048-byte header holds each table's position and length. |
| CdbMake.CdbMake.Finish | java/com/strangegizmo/cdb/CdbMake.java:140-211 | Succeeds exactly when the tables end within the largest `int`. Then the file is the cdb layout of the records added, with the pointers hashed as this builder hashes. The records are unchanged. |
| MakeText.KeptMembers | library/src/main/java/com/strangegizmo/cdb/CdbMake.java:282-283 | A record is kept exactly when it is one of the records and its data is not ignored; the order is that of the input. |
| MakeText.KeptAll | library/src/main/java/com/strangegizmo/cdb/CdbMake.java:282-283 | With nothing to ignore every record is kept. |
| MakeText.KeptAppend | library/src/main/java/com/strangegizmo/cdb/CdbMake.java:282-283 | Filtering a concatenation filters each part. |
| MakeText.AddAllKept | library/src/main/java/com/strangegizmo/cdb/CdbMake.java:282-283 | Adding the records one by one as they are read ends as adding the kept ones all at once would: an `add` can only fail when the kept records overall end beyond the largest `int`, and it fails before any error read after it. |
| MakeText.AddUnlessIgnored | library/src/main/java/com/strangegizmo/cdb/CdbMake.java:282-283 | Fails only when an added record would end beyond the largest `int`. The record is added exactly when its data is not in the ignore set. |
| MakeText.MakeOfDump | library/src/main/java/com/strangegizmo/cdb/CdbMake.java:192-300 | `make` rebuilds, from the text `dump` writes, the file of the same records, in the same order, when nothing is ignored and the file fits. |
| MakeText.MakeOfRead | library/src/main/java/com/strangegizmo/cdb/CdbMake.java:192-300 | `make` of any text that reads as the records `es` without an error builds the file of `es` when nothing is ignored and the file fits. |
| MakeText.AddAllLine | library/src/main/java/com/strangegizmo/cdb/CdbMake.java:203-289 | The loop of `make` one line at a time: the end of the input finishes, a malformed line stops the build, and a record is added (unless its data is ignored) before its newline is checked. |
| MakeText.AddLine | library/src/main/java/com/strangegizmo/cdb/CdbMake.java:203-289 | When the round stops, its outcome is that of `AddAll` from this line. Otherwise `AddAll` from the next line, with the record added unless ignored, ends as it would from this line. |
| MakeText.ParseLength | library/src/main/java/com/strangegizmo/cdb/CdbMake.java:214-226 | Agrees with `ReadLength`: digits up to the separator in Java `int` arithmetic, the guard's error for a length that grows too big, and a format error for any other byte. |
| MakeText.ReadBytes | library/src/main/java/com/strangegizmo/cdb/CdbMake.java:244-254 | Succeeds exactly when `n` bytes remain, and then returns exactly those bytes. |
| MakeText.ParseLine | library/src/main/java/com/strangegizmo/cdb/CdbMake.java:203-278 | Agrees with `ReadLine`: the `+`, both lengths, the key, `->` and the data, or the error of the first part that is malformed. |
| MakeText.AddLines | library/src/main/java/com/strangegizmo/cdb/CdbMake.java:201-290 | Stops exactly when the loop specification `AddAll` over the records read stops, and with its outcome. Otherwise the builder is valid and holds the kept records. |
| MakeText.AddRecord | library/src/main/java/com/strangegizmo/cdb/CdbMake.java:282-289 | When the round stops, its outcome is that of `AfterRecord`. Otherwise the next line starts right after the newline, and `AfterRecord` ends as the loop from there. |
| MakeText.Make | library/src/main/java/com/strangegizmo/cdb/CdbMake.java:192-300 | The outcome is `MakeSpec`: the records read are added, less the ignored ones, and the file is finished; or the error that stopped the build. |
| TextFormat.Read | library/src/main/java/com/strangegizmo/cdb/CdbMake.java:204-206 | `-1` exactly past the end of the input; otherwise a byte value in `0 .. 255`. |
| TextFormat.ReadLineWith | library/src/main/java/com/strangegizmo/cdb/CdbMake.java:203-278 | `ReadLine` once both lengths are known and the bytes are there. |
| TextFormat.ReadLineAt | library/src/main/java/com/strangegizmo/cdb/CdbMake.java:203-278 | A line `dump` wrote for an element with lengths below `2^31` is read back as that element, and its newline follows it. |
| TextFormat.ReadLineOf | library/src/main/java/com/strangegizmo/cdb/CdbMake.java:203-278 | A line `dump` wrote for an element with lengths below `2^31` is read back as that element, and its newline follows it. |
| TextFormat.DecimalValue | src/main/java/cdb/Dump.java:83-89 | The decimal digits of `n` are digits and read back as `n`. |
| TextFormat.ReadLineText | src/main/java/cdb/Dump.java:83-89 | The line `dump` writes for `e`, read where it was written. |
| TextFormat.ReadDigits | library/src/main/java/com/strangegizmo/cdb/CdbMake.java:214-241 | A length below `2^31` written in decimal is read back, up to its separator, without the guard firing and without wrapping. |
| TextFormat.ReadDecimal | library/src/main/java/com/strangegizmo/cdb/CdbMake.java:214-241 | A length written by `dump` and followed by its separator is read back. |
| TextFormat.ReadDigit | library/src/main/java/com/strangegizmo/cdb/CdbMake.java:214-226 | One digit of a length: the guard does not fire, the digit is added without wrapping, and the rest of the digits follow. |
| TextFormat.ReadLengthDigit | library/src/main/java/com/strangegizmo/cdb/CdbMake.java:214-226 | A digit below the guard is added to the length read so far. |
| TextFormat.DigitAdded | library/src/main/java/com/strangegizmo/cdb/CdbMake.java:222-225 | The first of a run of digits whose value is an `int`: the guard does not fire and the digit is added without wrapping. |
| TextFormat.LinesSnoc | src/main/java/cdb/Dump.java:74-91 | Appending an element appends its line. |
| TextFormat.ReadRecordsStep | library/src/main/java/com/strangegizmo/cdb/CdbMake.java:286-289 | A record followed by its newline: the records read from the next line on follow it. |
| TextFormat.ReadLines | library/src/main/java/com/strangegizmo/cdb/CdbMake.java:201-290 | Reading the lines of `es` followed by an empty line gives back `es` and no error. |
| TextFormat.ReadEmptyLine | library/src/main/java/com/strangegizmo/cdb/CdbMake.java:207-208 | An empty line where a record would start ends the reading. |
| TextFormat.ReadDump | src/main/java/cdb/Dump.java:73-94 | `make` reads back exactly what `dump` wrote. |
| Dump.DumpOf | src/main/java/cdb/Dump.java:73-94 | A complete run writes the lines of the elements and then the final newline; an interrupted run writes the lines only. |
| Dump.Dump | src/main/java/cdb/Dump.java:73-94 | Writes `DumpOf` of exactly the elements the enumeration yields from its state, and reports whether the enumeration ran to its end. |
| Dump.LinesAppend | src/main/java/cdb/Dump.java:74-91 | One more line written after those of `done`. |
| CdbReader.IntAt | src/main/java/com/strangegizmo/cdb/Cdb.java:243-253 | An `int` is read exactly when the position is not negative and all four bytes lie within the file. |
| CdbReader.LeInt | src/main/java/com/strangegizmo/cdb/Cdb.java:120-136 | The `int` whose 32-bit pattern is the four bytes at `off`, least significant first. |
| CdbReader.HeaderIntsOf | src/main/java/com/strangegizmo/cdb/Cdb.java:120-136 | The decoded header `int`s are the `int`s at every fourth byte. |
| CdbReader.BytesAt | src/main/java/com/strangegizmo/cdb/Cdb.java:289-304 | The bytes are there exactly when all `n` of them lie within the file, and then they are `n` bytes long. |
| CdbReader.WalkStops | src/main/java/com/strangegizmo/cdb/Cdb.java:241-255 | The walk ends where it is, with `null`, when all slots have been examined, the slot cannot be read or the slot is empty. |
| CdbReader.WalkPasses | src/main/java/com/strangegizmo/cdb/Cdb.java:260-300 | A slot with another hash, or with a record of another key, is passed. |
| CdbReader.WalkEnds | src/main/java/com/strangegizmo/cdb/Cdb.java:260-305 | A slot whose record ends the call ends the walk just past that slot. |
| CdbReader.KeyHash | src/main/java/com/strangegizmo/cdb/Cdb.java:162-181 | The result's unsigned value is the cdb hash of the key, and the result is that hash wrapped to an `int`. |
| CdbReader.HashStep | src/main/java/com/strangegizmo/cdb/Cdb.java:162-181 | The fold of `hash` one byte further: `(h * 33) & 0xffffffff`, then `^ k` with the byte's unsigned value `k`. |
| CdbReader.TimesThirtyThree | src/main/java/com/strangegizmo/cdb/Cdb.java:162-181 | `h + (h << 5 & 0xffffffff)`, masked, is `33 * h` modulo 2^32. |
| CdbReader.Cdb.constructor | src/main/java/com/strangegizmo/cdb/Cdb.java:108-139 | The header is the file's 512 header `int`s, or there is none when the file is shorter than 2048 bytes. The search starts from scratch. |
| CdbReader.Cdb.DecodeHeader | src/main/java/com/strangegizmo/cdb/Cdb.java:120-136 | Returns 512 `int`s, each the little-endian value of the next four header bytes. |
| CdbReader.Cdb.FindStart | src/main/java/com/strangegizmo/cdb/Cdb.java:189-191 | The next `findnext` starts a new search (`loop` is 0). |
| CdbReader.Cdb.Find | src/main/java/com/strangegizmo/cdb/Cdb.java:200-203 | Returns, and leaves the state of, the first `findnext` of a new search. |
| CdbReader.Cdb.ReadInt | src/main/java/com/strangegizmo/cdb/Cdb.java:243-253 | The `int` at `q`, or none when the seek or a read fails. |
| CdbReader.Cdb.SameKey | src/main/java/com/strangegizmo/cdb/Cdb.java:288-300 | True exactly when the stored key equals the key asked for. |
| CdbReader.Cdb.FindNext | src/main/java/com/strangegizmo/cdb/Cdb.java:212-313 | Its result and new state are those of the reference search `Searched` from the current state: on a new search it locates the key's home slot first, and otherwise it walks on from where the last call stopped. |
| CdbReader.Cdb.Locate | src/main/java/com/strangegizmo/cdb/Cdb.java:218-237 | Succeeds exactly when the key's bucket has slots. The search is then at the key's home slot; otherwise `hslots` is 0. |
| CdbReader.Cdb.WalkSlots | src/main/java/com/strangegizmo/cdb/Cdb.java:240-312 | Its result and new state are those of the walk `Walk` from the current state. |
| CdbReader.Cdb.ExamineSlot | src/main/java/com/strangegizmo/cdb/Cdb.java:243-305 | Either the call ends with the walk's result, or the search moves to the next slot and the walk from there gives the same result. |
| CdbReader.Cdb.ExamineRecord | src/main/java/com/strangegizmo/cdb/Cdb.java:272-305 | The outcome of examining the record at `pos` for the key: its data, a mismatch, or a failed read. |
| LookupCorrect.HeaderOfImage | src/main/java/com/strangegizmo/cdb/Cdb.java:120-136 | The constructor decodes, from a file the builder made, each bucket's table position and slot count `2 * count`. |
| LookupCorrect.SlotTableOfLayout | src/main/java/com/strangegizmo/cdb/Cdb.java:120-136 | The header the constructor decodes, whatever tables follow. |
| LookupCorrect.SlotIntsOfLayout | library/src/main/java/com/strangegizmo/cdb/CdbMake.java:418-428 | Slot `j` of table `b` read back, whatever the records. |
| LookupCorrect.SlotOfImage | library/src/main/java/com/strangegizmo/cdb/CdbMake.java:418-428 | Slot `j` of bucket `b`'s table, at `q`, read back from the file of `rs`. |
| LookupCorrect.SlotInImage | library/src/main/java/com/strangegizmo/cdb/CdbMake.java:418-428 | Slot `j` of bucket `b`'s table read back from the file of `rs`, at its place in the table region. |
| LookupCorrect.SlotReadBack | library/src/main/java/com/strangegizmo/cdb/CdbMake.java:418-428 | Slot `j` of bucket `b`'s table read back from the layout of `records` and `ps`. |
| LookupCorrect.RecordRead | src/main/java/com/strangegizmo/cdb/Cdb.java:272-305 | A record's fields read back from where its bytes are stored. |
| LookupCorrect.ExamineStored | src/main/java/com/strangegizmo/cdb/Cdb.java:272-305 | A record examined for `key`: its data when its key is `key`, and otherwise a mismatch. |
| LookupCorrect.RecordInImage | library/src/main/java/com/strangegizmo/cdb/CdbMake.java:336-345 | Every record of a file that fits is stored at its position, past the header. |
| LookupCorrect.PointerOfSlot | library/src/main/java/com/strangegizmo/cdb/CdbMake.java:401-415 | The pointer in a taken slot of bucket `b`'s table is that of a record whose key falls into bucket `b`. |
| LookupCorrect.RecordOnChain | library/src/main/java/com/strangegizmo/cdb/CdbMake.java:401-415 | The pointer of record `i` sits `d` slots along the probe chain from the home slot of its key, and every slot before it is taken. |
| LookupCorrect.LoneSlots | library/src/main/java/com/strangegizmo/cdb/CdbMake.java:401-415 | The two-slot table of a bucket that holds only record `i`'s pointer: that pointer in the home slot of its key, the other slot free. |
| LookupCorrect.AdvancedOnChain | src/main/java/com/strangegizmo/cdb/Cdb.java:260-264 | Examining a slot moves a search on the chain to the next slot of the chain. |
| LookupCorrect.ChainWithin | library/src/main/java/com/strangegizmo/cdb/CdbMake.java:427 | The tables of a file that fits end within the largest `int`. |
| LookupCorrect.WalkFree | src/main/java/com/strangegizmo/cdb/Cdb.java:254-255 | In any file, a free slot ends the walk where it is. |
| LookupCorrect.WalkAtFree | src/main/java/com/strangegizmo/cdb/Cdb.java:254-255 | In the file of `rs`, a free slot ends the walk where it is. |
| LookupCorrect.WalkTaken | src/main/java/com/strangegizmo/cdb/Cdb.java:260-305 | In any file, a taken slot whose pointer carries the hash of the key of the record it points at: that record's data when its key is `key`, and otherwise the walk goes on at the next slot. |
| LookupCorrect.WalkAtTaken | src/main/java/com/strangegizmo/cdb/Cdb.java:260-305 | In the file of `rs`, a taken slot points at record `i`, whose data the walk returns when its key is `key`, and which the walk passes otherwise. |
| LookupCorrect.WalkSound | src/main/java/com/strangegizmo/cdb/Cdb.java:240-312 | A walk along the chain in the file of `rs` never throws, returns only data stored under the key, stays on the chain, and after `null` goes on returning `null` from where it stopped. |
| LookupCorrect.WalkReaches | src/main/java/com/strangegizmo/cdb/Cdb.java:240-312 | A walk on the chain with only taken slots up to the slot `d` steps from home, which points at record `i` of key `key`, returns data. |
| LookupCorrect.BucketOfWrap | src/main/java/com/strangegizmo/cdb/Cdb.java:218-237 | The low byte of a hash survives its wrap to an `int`. |
| LookupCorrect.LocatedAt | src/main/java/com/strangegizmo/cdb/Cdb.java:218-237 | The first call of a search, from a header that gives the key's bucket a table of `len > 0` slots at `hpos`, starts at the key's home slot. |
| LookupCorrect.LocatedOnChain | src/main/java/com/strangegizmo/cdb/Cdb.java:218-237 | A key whose bucket has pointers: the first call of a search finds the bucket's table in the header and starts on the chain at the key's home slot. |
| LookupCorrect.LocatedNowhere | src/main/java/com/strangegizmo/cdb/Cdb.java:218-237 | The empty bucket of a key: the header says its table has no slots. |
| LookupCorrect.FindNextSound | src/main/java/com/strangegizmo/cdb/Cdb.java:212-313 | On a file the builder made, `findnext` never throws, returns only data stored under the key, leaves a state it can be called in again, and once it returns `null` it keeps returning `null`. |
| LookupCorrect.FindComplete | src/main/java/com/strangegizmo/cdb/Cdb.java:212-313 | On a file the builder made, the first `findnext` of a search for a key that was added returns data. |
| LookupCorrect.LoneKeyFoundOnce | src/main/java/com/strangegizmo/cdb/Cdb.java:212-313 | A key whose bucket holds no other pointer and that was added once: the first `findnext` returns its data and the next one `null`, since the only other slot of the two-slot table is free. |
| LookupCorrect.RecordPosIncreasing | library/src/main/java/com/strangegizmo/cdb/CdbMake.java:357-359 | Records added later sit further into the file. |
| LookupCorrect.RecordPosInjective | library/src/main/java/com/strangegizmo/cdb/CdbMake.java:357-359 | Two records at the same position are the same record. |
| LookupCorrect.FindsOnlyData | src/main/java/com/strangegizmo/cdb/Cdb.java:200-203 | On a file the builder made, the first `findnext` of a search for a key whose every record holds the same data returns that data. |
| LookupCorrect.FindsEach | src/main/java/com/strangegizmo/cdb/Cdb.java:189-313 | On a file the builder made, the calls of `findnext` from `findstart` up to the first `null` return the data of every record stored under the key, each exactly as many times as it was added (equal multisets). |
| LookupCorrect.FoundNowhere | src/main/java/com/strangegizmo/cdb/Cdb.java:218-226 | When the key's bucket is empty, the calls return nothing, and no record of the key lies ahead. |
| LookupCorrect.FirstMiss | src/main/java/com/strangegizmo/cdb/Cdb.java:218-226 | When the key's bucket is empty, the first call returns `null`. |
| LookupCorrect.FoundFromHome | src/main/java/com/strangegizmo/cdb/Cdb.java:218-237 | When the key's bucket has pointers, the calls return what lies ahead of the home slot of the chain. |
| LookupCorrect.FoundAlong | src/main/java/com/strangegizmo/cdb/Cdb.java:240-308 | From `d` slots into the chain, the calls return each data that lies ahead on the chain before the first free slot, as many times as it lies there. |
| LookupCorrect.FoundPast | src/main/java/com/strangegizmo/cdb/Cdb.java:260-305 | At a taken slot, the calls and what lies ahead both lose the data of the record the slot points at, when that record is stored under the key. |
| LookupCorrect.FoundAtEnd | src/main/java/com/strangegizmo/cdb/Cdb.java:241-255 | At the end of the chain or at a free slot, the calls return nothing and nothing lies ahead. |
| LookupCorrect.FoundAtTaken | src/main/java/com/strangegizmo/cdb/Cdb.java:260-305 | At a taken slot of the chain, the calls return the data of the record the slot points at, when that record is stored under the key, and then go on as from the next slot. |
| LookupCorrect.FoundAllStops | src/main/java/com/strangegizmo/cdb/Cdb.java:241-255 | At the end of the chain or at a free slot, the calls end. |
| LookupCorrect.FoundAllHit | src/main/java/com/strangegizmo/cdb/Cdb.java:302-305 | A call that returns data is followed by the calls from where it stopped, and that state can be resumed. |
| LookupCorrect.FoundAllMiss | src/main/java/com/strangegizmo/cdb/Cdb.java:308-312 | A call that returns `null` ends the calls. |
| LookupCorrect.ChainFindNext | src/main/java/com/strangegizmo/cdb/Cdb.java:212-313 | On the chain, `findnext` walks the chain from where it stands, on the first call and on later ones. |
| LookupCorrect.RemainingAll | library/src/main/java/com/strangegizmo/cdb/CdbMake.java:401-415 | Every record stored under the key lies ahead of the home slot of its chain: what lies ahead there is the data stored under the key. |
| LookupCorrect.RemainingStep | library/src/main/java/com/strangegizmo/cdb/CdbMake.java:401-415 | Moving one slot along the chain removes what the record at that slot contributes from what lies ahead, when that pointer is in the chain only once. |
| LookupCorrect.RemainingAtTaken | library/src/main/java/com/strangegizmo/cdb/CdbMake.java:401-415 | Past a taken slot of the chain, what lies ahead loses exactly what that slot's record contributes. |
| LookupCorrect.NothingAhead | src/main/java/com/strangegizmo/cdb/Cdb.java:254-255 | Nothing lies ahead at the end of the chain or at a free slot. |
| LookupCorrect.AheadInSlot | library/src/main/java/com/strangegizmo/cdb/CdbMake.java:401-415 | A pointer that lies ahead of `d` on the chain sits in a slot at or after `d`. |
| LookupCorrect.AheadInReach | library/src/main/java/com/strangegizmo/cdb/CdbMake.java:401-415 | A pointer in slot `e` of the chain, with every slot from `d` to it taken, lies ahead of `d`. |
| LookupCorrect.InBucketOnce | library/src/main/java/com/strangegizmo/cdb/CdbMake.java:349-353 | No pointer is in a bucket twice, because every record has its own position. |
| LookupCorrect.ChainOnce | library/src/main/java/com/strangegizmo/cdb/CdbMake.java:401-415 | The pointer of a record is in the chain of its key at most once. |
| LookupCorrect.ChainMultiset | library/src/main/java/com/strangegizmo/cdb/CdbMake.java:401-415 | The chain holds the slots of the bucket's table, rotated to start at the home slot. |
| LookupCorrect.ChainFromHome | library/src/main/java/com/strangegizmo/cdb/CdbMake.java:401-415 | Slot `d` of the chain is the slot `d` steps from the home slot, wrapping round the table. |
| LookupCorrect.ChainStateNext | src/main/java/com/strangegizmo/cdb/Cdb.java:260-264 | Examining a slot moves the search `d` slots into the chain to the search `d + 1` slots into it. |
| LookupCorrect.ChainStateOf | src/main/java/com/strangegizmo/cdb/Cdb.java:260-264 | A search on the chain is fixed by the number of slots it has examined. |
| LookupCorrect.LoneSecondWalk | src/main/java/com/strangegizmo/cdb/Cdb.java:254-264 | After the pointer in the home slot of a lone key, the walk meets the free slot and ends with `null`. |
| LibraryReader.EntriesOfAt | library/src/main/java/io/github/duckasteroid/cdb/Cdb.java:124-127 | Entry `b` is the `b`-th pair of header `int`s. |
| LibraryReader.EntriesAgree | library/src/main/java/io/github/duckasteroid/cdb/Cdb.java:117-127 | Both readers decode the header alike: entry `b` holds the `int`s the reference reader keeps at `2b` and `2b + 1`; the library only leaves the table `null` for a file of exactly 2048 bytes as well. |
| LibraryReader.LookupHeaderInts | src/main/java/com/strangegizmo/cdb/Cdb.java:120-136 | Header `int` number `k` of the reference reader is the little-endian `int` at byte `4k`. |
| LibraryReader.Advance | library/src/main/java/io/github/duckasteroid/cdb/Cdb.java:264-268 | Examining one more slot raises `loop` by one and keeps the key's hash, the slot count and the table position. |
| LibraryReader.Cdb.constructor | library/src/main/java/io/github/duckasteroid/cdb/Cdb.java:110-129 | A file longer than 2048 bytes gets its 256 header entries `(position, slots)`; otherwise there are none. The channel is at 2048 after a header read and at 0 otherwise. The search starts from scratch. |
| LibraryReader.Cdb.ReadHeader | library/src/main/java/io/github/duckasteroid/cdb/Cdb.java:117-127 | Returns the 256 entries decoded from the first 2048 bytes, and leaves the channel at 2048. |
| LibraryReader.Cdb.ReadEntries | library/src/main/java/io/github/duckasteroid/cdb/Cdb.java:124-127 | Returns the 256 entries, entry `i` decoded from bytes `8i .. 8i + 8` of the header. |
| LibraryReader.Cdb.ReadEntry | library/src/main/java/io/github/duckasteroid/cdb/Cdb.java:311-319 | The entry holds the two little-endian `int`s at `8i` and `8i + 4`; the buffer moves on by 8. |
| LibraryReader.Cdb.FindStart | library/src/main/java/io/github/duckasteroid/cdb/Cdb.java:196-198 | The next `findnext` starts a new search (`loop` is 0). |
| LibraryReader.Cdb.Find | library/src/main/java/io/github/duckasteroid/cdb/Cdb.java:207-210 | Its result, state, key buffer and channel position are those of the as-written search `SearchedAsWritten` for a new search. |
| LibraryReader.Cdb.FindNext | library/src/main/java/io/github/duckasteroid/cdb/Cdb.java:219-309 | Its result, state, key buffer and channel position are those of the as-written search `SearchedAsWritten` from the current state. |
| LibraryReader.Cdb.Begin | library/src/main/java/io/github/duckasteroid/cdb/Cdb.java:225-245 | Agrees with `Begun`. On a new search the key buffer is hashed, which consumes it. Then the bucket's entry is looked up, and the walk is placed at the home slot computed with Java's `%` on a `long`. |
| LibraryReader.Cdb.WalkSlots | library/src/main/java/io/github/duckasteroid/cdb/Cdb.java:249-302 | Its result, state and channel position are those of the as-written walk `WalkAsWritten`, including its reuse of the 8-byte buffer `local`. |
| LibraryReader.Cdb.SlotStep | library/src/main/java/io/github/duckasteroid/cdb/Cdb.java:252-301 | Either the call ends with the walk's result, or `loop` moves on by one and the walk from the new state gives the same result. |
| LibraryReader.Cdb.ReadSlot | library/src/main/java/io/github/duckasteroid/cdb/Cdb.java:252-257 | Reads into `local` without clearing it, flips it and takes two `int`s. It fails exactly when either `getInt` would underflow, and the channel moves by the bytes read. |
| LibraryReader.Cdb.ExamineRecord | library/src/main/java/io/github/duckasteroid/cdb/Cdb.java:276-301 | Agrees with `RecordChecked`: clear, read the key length, compare the key, read the data. |
| LibraryReader.Cdb.ReadKeyLength | library/src/main/java/io/github/duckasteroid/cdb/Cdb.java:276-285 | Clears `local`, reads into it, flips it and takes an `int`. It fails exactly when fewer than four bytes arrive. |
| LibraryReader.Cdb.ReadKeyAndData | library/src/main/java/io/github/duckasteroid/cdb/Cdb.java:289-301 | Agrees with `KeyAndData`: the stored key compared with the key, then the data read. |
| LibraryReader.Cdb.ReadNew | library/src/main/java/io/github/duckasteroid/cdb/Cdb.java:289-301 | Returns the bytes one channel read gets into a new `n`-byte buffer, and moves the channel past them. |
| LibraryReader.Cdb.Elements | library/src/main/java/io/github/duckasteroid/cdb/Cdb.java:151-164 | There is no enumeration exactly when fewer than 4 bytes are read (the `BufferUnderflowException`). Otherwise `eod` is the first `int`, the channel moves 2048 bytes on and `pos` starts at 2048. |
| LibraryFindings.SlotBuffer | library/src/main/java/io/github/duckasteroid/cdb/Cdb.java:252-257 | An 8-byte read at `q` into a new or cleared 8-byte buffer, flipped: both `int`s of the slot at `q`. |
| LibraryFindings.TakenSlotRead | library/src/main/java/io/github/duckasteroid/cdb/Cdb.java:252-257 | A taken slot read into a new 8-byte buffer: the pointer's hash and position, and the buffer then holds the slot's 8 bytes. |
| LibraryFindings.StaleSlotRepeats | library/src/main/java/io/github/duckasteroid/cdb/Cdb.java:249-268 | Stale buffer, in any file: with `local` full of a slot whose hash is not `khash` and whose position is not 0, every later read gets nothing and the same slot comes back, until `loop` reaches `hslots`: the call returns `null`. |
| LibraryFindings.ForeignFirstSlot | library/src/main/java/io/github/duckasteroid/cdb/Cdb.java:249-272 | Stale buffer: when the first slot a call reads holds another hash and a position other than 0, the call returns `null`, whatever the later slots hold. |
| LibraryFindings.CorrectedRead | library/src/main/java/io/github/duckasteroid/cdb/Cdb.java:249-272 | In any file, the corrected walk at a slot within the file: a free slot ends it, another hash goes on to the next slot, and the key's hash has the record examined. |
| LibraryFindings.HighHashWalk | library/src/main/java/io/github/duckasteroid/cdb/Cdb.java:271-272 | `int` against `long`, in any file: when `khash` is at least 2^31 no slot's `int` hash equals it, so the walk never returns data. |
| LibraryFindings.HighHashNeverFound | library/src/main/java/io/github/duckasteroid/cdb/Cdb.java:219-309 | `int` against `long`: a key whose hash has bit 31 set is never found, in any file, on the first call of a search or any later one. |
| LibraryFindings.ChainCorrected | library/src/main/java/io/github/duckasteroid/cdb/Cdb.java:219-309 | On a file the builder made with a table for the key's bucket, the first call of a corrected search walks the chain as the reference reader does. |
| LibraryFindings.LaterCallCorrected | library/src/main/java/io/github/duckasteroid/cdb/Cdb.java:249-309 | On a file the builder made, a later call of a corrected search that stands on the key's chain returns what the reference reader returns and stops in the same state. |
| LibraryFindings.CallCorrected | library/src/main/java/io/github/duckasteroid/cdb/Cdb.java:219-309 | On a file the builder made, any call of a corrected search, the first or one after a hit, returns what the reference reader returns, and after a hit both stand in the same state. |
| LibraryFindings.FoundAllCorrectedAgrees | library/src/main/java/io/github/duckasteroid/cdb/Cdb.java:219-309 | The data that the calls of a corrected search return up to the first `null` are those of the reference reader's calls, in the same order. |
| LibraryFindings.CorrectedFindsEach | library/src/main/java/io/github/duckasteroid/cdb/Cdb.java:219-309 | On a file the builder made, the calls of a corrected search from `findstart` up to the first `null` return the data of every record stored under the key, each exactly as many times as it was added. |
| LibraryFindings.TablesOfImage | library/src/main/java/io/github/duckasteroid/cdb/Cdb.java:232-245 | The file of `rs` decodes to a header and a table for the key's bucket when that bucket has pointers. |
| LibraryFindings.FirstCallCorrected | library/src/main/java/io/github/duckasteroid/cdb/Cdb.java:219-309 | On a file the builder made, the first call of a corrected search returns what the reference reader's `findnext` returns. |
| LibraryFindings.CorrectedFindsAdded | library/src/main/java/io/github/duckasteroid/cdb/Cdb.java:219-309 | On a file the builder made, the first call of a corrected search for a key that was added returns data. |
| LibraryFindings.CorrectedFindsOnlyAdded | library/src/main/java/io/github/duckasteroid/cdb/Cdb.java:219-309 | On a file the builder made, the first call of a corrected search never throws and returns only data added under the key. |
| LibraryFindings.LoneKeyFoundAsWritten | library/src/main/java/io/github/duckasteroid/cdb/Cdb.java:219-309 | On a file the builder made, a key added once, alone in its bucket and with a hash below 2^31: the first call of a search by the library reader as written returns its data, and the next call (from any channel position) reads the table's other slot, which is free, and returns `null`. |
| LibraryFindings.AdvanceAgrees | library/src/main/java/io/github/duckasteroid/cdb/Cdb.java:264-268 | On the key's chain, one more slot examined is the same step in both readers. |
| LibraryFindings.FetchedStored | library/src/main/java/io/github/duckasteroid/cdb/Cdb.java:289-301 | A read into a new buffer as long as bytes stored at `at` gets them. |
| LibraryFindings.KeyAndDataStored | library/src/main/java/io/github/duckasteroid/cdb/Cdb.java:289-301 | A stored key as long as `key` and its data, once both lengths are taken: the data when the key is `key`, and otherwise the walk goes on. |
| LibraryFindings.RecordCheckedStored | library/src/main/java/io/github/duckasteroid/cdb/Cdb.java:276-301 | A stored record examined by the library with any 8-byte buffer `local`, which the read clears first: its data when its key is the key, and otherwise the walk goes on. |
| LibraryFindings.CorrectedFree | library/src/main/java/io/github/duckasteroid/cdb/Cdb.java:258-259 | In any file, a free slot ends the corrected walk where it is. |
| LibraryFindings.FreeSlotMissed | library/src/main/java/io/github/duckasteroid/cdb/Cdb.java:258-259 | In any file, a call that starts at a free slot returns `null`: the new buffer holds the slot, whose position is 0. |
| LibraryFindings.CorrectedTaken | library/src/main/java/io/github/duckasteroid/cdb/Cdb.java:264-301 | In any file, a taken slot whose pointer carries the hash of the key of the record it points at: the corrected walk returns that record's data when its key is `key`, and otherwise goes on at the next slot (from channel position `a`). |
| LibraryFindings.CorrectedStep | library/src/main/java/io/github/duckasteroid/cdb/Cdb.java:250-302 | One slot of the key's chain in the file of `rs`: either both walks end there alike, or both go on to the next slot. |
| LibraryFindings.WalkCorrectedAgrees | library/src/main/java/io/github/duckasteroid/cdb/Cdb.java:250-302 | The corrected walk from a state on the key's chain, in the file of `rs`: what the reference walk returns, ending in the same state. |
| LibraryFindings.StartFrom | library/src/main/java/io/github/duckasteroid/cdb/Cdb.java:225-245 | The state the first call of a search starts its walk from, when the header entry of the key's bucket holds the two header `int`s of that bucket and names a table within the largest `int` position: the reference reader's home slot. |
| LibraryFindings.BegunFrom | library/src/main/java/io/github/duckasteroid/cdb/Cdb.java:225-245 | The first call of a search starts at the home slot of the key's bucket. |
| LibraryFindings.StartAgrees | library/src/main/java/io/github/duckasteroid/cdb/Cdb.java:225-245 | On a file the builder made with a table for the key's bucket, the first call of a search starts at the reference reader's home slot, on the key's chain. |
| LibraryFindings.CorrectedFirst | library/src/main/java/io/github/duckasteroid/cdb/Cdb.java:225-245 | In any file, the first call of a corrected search for the bytes of a new key buffer: `null` when the key's header entry has no slots, and otherwise the corrected walk from where `Begun` starts it. |
| LibraryFindings.HomeOfLong | library/src/main/java/io/github/duckasteroid/cdb/Cdb.java:241-244 | The library reader's `(int) ((h >>> 8) % hslots)` on the unsigned hash is the home slot. |
| LibraryFindings.SearchedFirst | src/main/java/com/strangegizmo/cdb/Cdb.java:218-237 | In any file, the first call of a reference search: `null` without a table for the key's bucket, and otherwise the walk from its home slot. |
| LibraryFindings.NoTableCorrected | library/src/main/java/io/github/duckasteroid/cdb/Cdb.java:232-234 | On a file the builder made without a table for the key's bucket, the first call of a search returns `null` in both readers. |
| LibraryFindings.EmptyBucketMisses | library/src/main/java/io/github/duckasteroid/cdb/Cdb.java:232-234 | In any file whose header gives the key's bucket no slots, the first call of either search returns `null`. |
| LibraryFindings.NoTableInImage | library/src/main/java/com/strangegizmo/cdb/CdbMake.java:385-398 | The header of the file of `rs` gives the key's empty bucket no slots in both readers. |
| LibraryFindings.CorrectedFindsOnlyData | library/src/main/java/io/github/duckasteroid/cdb/Cdb.java:207-210 | On a file the builder made, the first call of a corrected search for a key whose every record holds the same data returns that data. |
| LibraryFindings.FirstSlotFound | library/src/main/java/io/github/duckasteroid/cdb/Cdb.java:249-301 | In any file, a call whose first slot points at a record of the key, whose hash is below 2^31: neither departure applies, and the library reader as written returns the record's data. |
| LibraryFindings.FirstSlotDone | library/src/main/java/io/github/duckasteroid/cdb/Cdb.java:271-301 | The first slot of a call read into the new buffer: when its hash is `khash` and its record ends the call with data, so does the walk. |
| LibraryFindings.LoneSecondMissed | library/src/main/java/io/github/duckasteroid/cdb/Cdb.java:225-259 | The call after the first of a lone key's search: it does not start over, and the slot it reads is free. |
| LibraryFindings.HashGrows | library/src/main/java/com/strangegizmo/cdb/CdbHash.java:9-13 | One more byte multiplies a hash below `2^k` by 33, which does not wrap, and xors in the byte: the hash stays below `2^(k + 6)`. |
| LibraryFindings.Xor32Below | library/src/main/java/com/strangegizmo/cdb/CdbHash.java:11-12 | Two values below `2^k <= 2^32` xor to a value below `2^k`. |
| LibraryFindings.ShortKeyHash | library/src/main/java/com/strangegizmo/cdb/CdbHash.java:15-22 | A key of three bytes has a hash below 2^31: 5381 is below 2^13 and each byte adds at most six bits, so the `int` against `long` comparison never affects it. |
| LibraryCounterexamples.HashAddZero | library/src/main/java/com/strangegizmo/cdb/CdbHash.java:9-13 | A zero byte multiplies the hash by 33, modulo 2^32. |
| LibraryCounterexamples.HashOfZeros | library/src/main/java/com/strangegizmo/cdb/CdbHash.java:15-22 | Each zero byte multiplies the hash by 33: the hash of `n` zero bytes is `5381 * 33^n` modulo 2^32. |
| LibraryCounterexamples.HashOfZeros32 | library/src/main/java/com/strangegizmo/cdb/CdbHash.java:15-22 | The hash of 32 zero bytes. |
| LibraryCounterexamples.PairPointers | library/src/main/java/com/strangegizmo/cdb/CdbMake.java:334-360 | A file of two records: the first is stored at 2048, the second right after it. |
| LibraryCounterexamples.RecordsPointers | library/src/main/java/com/strangegizmo/cdb/CdbMake.java:334-360 | The two records fit, and their pointers carry the keys' hashes and the positions 2048 and 2057. |
| LibraryCounterexamples.SharedHome | library/src/main/java/com/strangegizmo/cdb/CdbMake.java:401-415 | Two pointers of one bucket with the same home slot 1 of the bucket's 4-slot table: the second is inserted first and takes slot 1. |
| LibraryCounterexamples.RecordsLayout | library/src/main/java/com/strangegizmo/cdb/CdbMake.java:368-438 | The pointers of the two records, and slot 1 of bucket 5's table, which holds the zero key's pointer. |
| LibraryCounterexamples.EmptyKeyMissed | library/src/main/java/io/github/duckasteroid/cdb/Cdb.java:249-268 | The search for the empty key: the library reader as written returns `null` on its first call, reading slot 1 of bucket 5, which holds the zero key's pointer; the reference reader and the corrected library reader return the empty key's data `[1]`. |
| LibraryCounterexamples.StaleSlotMissed | library/src/main/java/io/github/duckasteroid/cdb/Cdb.java:249-268 | The walk for the empty key in the file of the two records starts at slot 1 of bucket 5, which holds the zero key's hash and position. |
| LibraryCounterexamples.EmptyKeyStart | library/src/main/java/io/github/duckasteroid/cdb/Cdb.java:225-245 | The first call of a search for the empty key, in a file whose bucket 5 holds two pointers: the walk starts at slot 1 of the bucket's table, with the key's hash 5381. |
| LibraryCounterexamples.ForeignHome | library/src/main/java/io/github/duckasteroid/cdb/Cdb.java:249-272 | A walk for the empty key whose first slot holds another hash and a position other than 0 ends with `null`. |
| LibraryCounterexamples.ZeroKeyMissed | library/src/main/java/io/github/duckasteroid/cdb/Cdb.java:249-272 | The search for the zero key, whose hash exceeds the largest `int`: the library reader as written never returns its data; the reference reader and the corrected library reader return `[2]`. |
| LibraryCounterexamples.HighHashMissed | library/src/main/java/io/github/duckasteroid/cdb/Cdb.java:238 | In any file, the library reader as written never returns data for the key of 32 zero bytes. |
| StreamEnumeration.Masked | src/main/java/com/strangegizmo/cdb/CdbElementEnumeration.java:79-84 | Always a byte value in `0 .. 255`. |
| StreamEnumeration.StreamIntAt | src/main/java/com/strangegizmo/cdb/CdbElementEnumeration.java:79-84 | Four bytes inside the stream read as the `int` stored there. |
| StreamEnumeration.NextOfRead | src/main/java/com/strangegizmo/cdb/CdbElementEnumeration.java:37-43 | With 8 bytes left, `nextElement` reads both lengths whole. |
| StreamEnumeration.ShortLengths | src/main/java/com/strangegizmo/cdb/CdbElementEnumeration.java:40-43 | A stream that ends within the 8 length bytes gives a negative data length: its top byte is read as 255. |
| StreamEnumeration.DeliveredMoves | src/main/java/com/strangegizmo/cdb/CdbElementEnumeration.java:37-73 | An element is delivered only when the stream moves on by its 8 + klen + dlen bytes, so a loop of `nextElement` calls moves forward. |
| StreamEnumeration.ElementsNext | src/main/java/com/strangegizmo/cdb/CdbElementEnumeration.java:37-73 | A delivered element comes first, then those from where it ends. |
| StreamEnumeration.ElementsEnd | src/main/java/com/strangegizmo/cdb/CdbElementEnumeration.java:30-32 | The loop ends once `pos` reaches `eod`. |
| StreamEnumeration.ElementsThrow | src/main/java/com/strangegizmo/cdb/CdbElementEnumeration.java:69-72 | An exception from `nextElement` ends the loop. |
| StreamEnumeration.Elements | src/main/java/com/strangegizmo/cdb/Cdb.java:315-335 | There is no enumeration exactly when the file is shorter than 2048 bytes. Otherwise `eod` is the masked little-endian `int` of the first four bytes, and the stream offset and `pos` are both 2048. |
| StreamEnumeration.CdbElementEnumeration.constructor | src/main/java/com/strangegizmo/cdb/CdbElementEnumeration.java:14-18 | The enumeration over a stream read up to `at`: `pos` starts at 2048. |
| StreamEnumeration.CdbElementEnumeration.HasMoreElements | src/main/java/com/strangegizmo/cdb/CdbElementEnumeration.java:30-32 | True exactly when `pos < eod`. |
| StreamEnumeration.CdbElementEnumeration.ReadLeInt | src/main/java/com/strangegizmo/cdb/CdbElementEnumeration.java:79-84 | The `StreamInt` at the current offset; the stream moves four bytes on, or to its end. |
| StreamEnumeration.CdbElementEnumeration.ReadMasked | src/main/java/com/strangegizmo/cdb/CdbElementEnumeration.java:79-84 | The masked byte at the current offset (255 past the end); the stream moves one byte on, or stays at its end. |
| StreamEnumeration.CdbElementEnumeration.ReadFully | src/main/java/com/strangegizmo/cdb/CdbElementEnumeration.java:46-65 | Succeeds exactly when `len` bytes remain. It then returns them and moves past them; otherwise the stream ends up at its end. |
| StreamEnumeration.CdbElementEnumeration.ReadRecord | src/main/java/com/strangegizmo/cdb/CdbElementEnumeration.java:46-65 | Agrees with `RecordFrom`: the element or the exception, the new offset and the new `pos`. |
| StreamEnumeration.CdbElementEnumeration.NextElement | src/main/java/com/strangegizmo/cdb/CdbElementEnumeration.java:37-73 | Agrees with `NextOf`: the element or the exception, the new stream offset and the new `pos`. |
| ChannelEnumeration.NextOnChannelAgrees | library/src/main/java/com/strangegizmo/cdb/CdbElementEnumeration.java:45-66 | With 8 bytes left, the library's `nextElement` does what the reference one does: both read the same lengths, key and data, and move the channel and `pos` alike. |
| ChannelEnumeration.NextOnChannelWhole | library/src/main/java/com/strangegizmo/cdb/CdbElementEnumeration.java:45-66 | The library's enumeration with 8 bytes left, as the same record read. |
| ChannelEnumeration.TakenMoves | library/src/main/java/com/strangegizmo/cdb/CdbElementEnumeration.java:45-66 | An element is delivered only when the channel moves on by its 8 + klen + dlen bytes. |
| ChannelEnumeration.ShortTail | library/src/main/java/com/strangegizmo/cdb/CdbElementEnumeration.java:48-52 | With fewer than 8 bytes left, neither enumeration delivers an element: the library's throws `BufferUnderflowException`. |
| ChannelEnumeration.LengthsRead | library/src/main/java/com/strangegizmo/cdb/CdbElementEnumeration.java:48-52 | The two lengths decoded from the buffer the 8 length bytes were read into. |
| ChannelEnumeration.ElementsOnChannelNext | library/src/main/java/com/strangegizmo/cdb/CdbElementEnumeration.java:38-66 | A delivered element comes first, then those from where it ends. |
| ChannelEnumeration.CdbElementEnumeration.constructor | library/src/main/java/com/strangegizmo/cdb/CdbElementEnumeration.java:22-26 | The enumeration over `channel`: `pos` starts at 2048. |
| ChannelEnumeration.CdbElementEnumeration.HasMoreElements | library/src/main/java/com/strangegizmo/cdb/CdbElementEnumeration.java:38-40 | True exactly when `pos < eod`. |
| ChannelEnumeration.CdbElementEnumeration.NextElement | library/src/main/java/com/strangegizmo/cdb/CdbElementEnumeration.java:45-66 | Agrees with `NextOnChannel` (element or exception, channel position, `pos`) and leaves the length buffer as `LengthBufferAfter` says. |
| ChannelEnumeration.CdbElementEnumeration.ReadLengths | library/src/main/java/com/strangegizmo/cdb/CdbElementEnumeration.java:48-52 | Fails exactly when one read does not get all 8 length bytes. `pos` moves by the read's count, or by -1 at the end of the channel. The lengths are the two little-endian `int`s. |
| ChannelEnumeration.CdbElementEnumeration.FillLengths | library/src/main/java/com/strangegizmo/cdb/CdbElementEnumeration.java:48-50 | The buffer is cleared, filled by one read and flipped. The channel moves by the bytes read, and `pos` by the read's count (-1 at the end). |
| ChannelEnumeration.CdbElementEnumeration.ReadRecord | library/src/main/java/com/strangegizmo/cdb/CdbElementEnumeration.java:55-58 | Agrees with `RecordFrom`: the same key and data reads as the reference enumeration. |
| ChannelEnumeration.CdbElementEnumeration.ReadBuffer | library/src/main/java/com/strangegizmo/cdb/CdbElementEnumeration.java:68-80 | Succeeds exactly when `len` bytes remain. It then returns them and moves the channel and `pos` past them; otherwise the channel is at its end and `pos` is unchanged. |
| ElementsCorrect.EodOfImage | src/main/java/com/strangegizmo/cdb/Cdb.java:321-324 | `elements` reads the end of the record region of a file the builder made. |
| ElementsCorrect.StoredFields | src/main/java/com/strangegizmo/cdb/CdbElementEnumeration.java:40-65 | A stored record's two lengths, key and data, as the stream reads them. |
| ElementsCorrect.NextOfStored | src/main/java/com/strangegizmo/cdb/CdbElementEnumeration.java:37-73 | In any stream, `nextElement` at a stored record returns it and moves the stream offset and `pos` past it. |
| ElementsCorrect.StoredRecordFrom | src/main/java/com/strangegizmo/cdb/CdbElementEnumeration.java:46-65 | A stored record's lengths, then its key and data, as the stream reads them. |
| ElementsCorrect.RecordPosNext | library/src/main/java/com/strangegizmo/cdb/CdbMake.java:357-359 | The record after record `k` begins where record `k` ends. |
| ElementsCorrect.EodIsLastPos | library/src/main/java/com/strangegizmo/cdb/CdbMake.java:388-391 | The end of the record region is the position after the last record. |
| ElementsCorrect.StoredInImage | library/src/main/java/com/strangegizmo/cdb/CdbMake.java:336-345 | The file the builder made stores every record from `k` on. |
| ElementsCorrect.ElementsFromStored | src/main/java/com/strangegizmo/cdb/CdbElementEnumeration.java:30-73 | In any stream holding the records of `rs` one after the other from 2048 on, the enumeration from record `k` returns the remaining records in order and stops at the end of the last one. |
| ElementsCorrect.ElementsOfStored | src/main/java/com/strangegizmo/cdb/CdbElementEnumeration.java:30-73 | In any stream holding the records of `rs` one after the other from 2048 on, with the end of the last one as its first `int`, the enumeration returns exactly the records. |
| ElementsCorrect.ElementsOfImage | src/main/java/com/strangegizmo/cdb/Cdb.java:315-335 | The enumeration `elements` opens on a file the builder made returns exactly the records, in the order they were added. |
| ElementsCorrect.ChannelElementsFromStored | library/src/main/java/com/strangegizmo/cdb/CdbElementEnumeration.java:38-66 | The library's enumeration over a channel holding the records of `rs` one after the other from 2048 on returns them as well. |
| ElementsCorrect.ChannelElementsOfImage | library/src/main/java/io/github/duckasteroid/cdb/Cdb.java:151-164 | The library's enumeration of a file the builder made, from the `eod` its `elements` decodes, returns exactly the records in the order they were added. |
| ElementsCorrect.DumpMakeRoundTrip | src/main/java/cdb/Dump.java:73-94 | `dump` of a file the builder made writes the text of its records, and `make` turns that text back into the same file. |
| TestVectors.BucketOfOne | library/src/main/java/com/strangegizmo/cdb/CdbHash.java:15-22 | The bucket of `one`, one byte at a time: 5 (the low byte of 5381), then 202, 100 and 129. |
| TestVectors.BucketOfTwo | library/src/main/java/com/strangegizmo/cdb/CdbHash.java:15-22 | The bucket of `two`: 5, then 209, 134 and 41. |
| TestVectors.TestFileSize | src/test/java/com/strangegizmo/cdb/CdbMakeTest.java:42-50 | The two records make a file of 2048 + (8 + 3 + 5) + (8 + 3 + 7) + 2 * 16 = 2114 bytes. |
| TestVectors.FindOneThenNull | src/test/java/com/strangegizmo/cdb/CdbTest.java:42-51 | `findnext(one)` returns `Hello` and, called again, `null`: no other key shares the bucket of `one`. |
| TestVectors.FindTwoThenNull | src/test/java/com/strangegizmo/cdb/CdbTest.java:30-40 | `find(two)` returns `Goodbye` and a further `findnext`, `null`. |
| TestVectors.LibraryFindsOneAndTwo | library/src/test/java/com/strangegizmo/cdb/CdbTest.java:69-91 | The library reader as written finds `one` and `two` as well: both keys are alone in their buckets and hash below 2^31, so neither of its departures from the reference reader shows on this file, and the call after `find(one)` returns `null`. |
| TestVectors.EnumerateTestFile | src/test/java/com/strangegizmo/cdb/CdbElementEnumerationTest.java:16-36 | The enumeration of the file yields `(one, Hello)`, then `(two, Goodbye)`, then nothing more. |
| TestVectors.TestMakeText | src/test/java/com/strangegizmo/cdb/CdbMakeTest.java:19-27 | The dump of the records is `test.make`. |
| TestVectors.DumpTestFile | src/test/java/com/strangegizmo/cdb/DumpTest.java:25-37 | Dumping the file gives `test.make`, and making `test.make` gives the file back. The library enumeration the test uses returns the same records, by `ElementsCorrect.ChannelElementsOfImage`. |
| TextFormat.ReadLength | library/src/main/java/com/strangegizmo/cdb/CdbMake.java:214-241 | A length that is read ends past its start, within the input. |
| IntHash.UnsignedOfWrap | java/com/strangegizmo/cdb/CdbMake.java:121 | The `int` cast keeps the 32 bits of a hash: read back unsigned, it is the hash. |
| IntHash.IntPointersSigned | java/com/strangegizmo/cdb/CdbMake.java:121-122 | Pointer `k` of the `int`-hash builder is pointer `k` of the library builder, with its hash cast to `int`. |
| IntHash.SignedAllSnoc | java/com/strangegizmo/cdb/CdbMake.java:122 | Appending a pointer and then casting is the same as casting and then appending. |
| IntHash.InBucketSigned | java/com/strangegizmo/cdb/CdbMake.java:125 | The cast keeps every pointer in its bucket (`hash & 0xff`), in the same order. |
| IntHash.CountSigned | java/com/strangegizmo/cdb/CdbMake.java:125 | The cast keeps the number of pointers in each bucket. |
| IntHash.BeforeSigned | java/com/strangegizmo/cdb/CdbMake.java:142-146 | The cast keeps where each bucket's pointers start. |
| IntHash.ProbeStepsSigned | java/com/strangegizmo/cdb/CdbMake.java:182-184 | The search for a free slot sees only which slots are taken, and the cast keeps them. |
| IntHash.InsertSigned | java/com/strangegizmo/cdb/CdbMake.java:181-187 | Inserting a cast pointer into a cast table gives the cast of the insertion: `(hash >>> 8) % len` is the same for both hashes. |
| IntHash.PlaceReversedSigned | java/com/strangegizmo/cdb/CdbMake.java:174-188 | Placing the cast pointers into a cast table gives the cast of the table the library builder places. |
| IntHash.BucketTableSigned | java/com/strangegizmo/cdb/CdbMake.java:159-188 | The table of bucket `b` built from the cast pointers is the library builder's table with its hashes cast. |
| IntHash.SlotBytesSigned | java/com/strangegizmo/cdb/CdbMake.java:191-199 | `writeLeInt(hash)` writes the same four bytes for a slot with a cast hash. |
| IntHash.TableBytesSigned | java/com/strangegizmo/cdb/CdbMake.java:191-199 | A table with its hashes cast is written with the same bytes. |
| IntHash.TableOfBucketSigned | java/com/strangegizmo/cdb/CdbMake.java:159-199 | Table `b` of the `int`-hash file is written with the same bytes as the library builder's. |
| IntHash.TablesBytesSame | java/com/strangegizmo/cdb/CdbMake.java:159-201 | Tables written with the same bytes one by one are written with the same bytes one after the other. |
| IntHash.TablesBytesSigned | java/com/strangegizmo/cdb/CdbMake.java:159-201 | All 256 tables are written with the same bytes by both builders. |
| IntHash.HeaderEntrySigned | java/com/strangegizmo/cdb/CdbMake.java:161-171 | Header entry `b` (the table's position and length) is the same for both builders. |
| IntHash.HeaderBytesSame | java/com/strangegizmo/cdb/CdbMake.java:159-171 | Header entries that are the same one by one make the same header. |
| IntHash.HeaderBytesSigned | java/com/strangegizmo/cdb/CdbMake.java:159-171 | The first `n` header entries are the same for both builders. |
| IntHash.IntHashImage | java/com/strangegizmo/cdb/CdbMake.java:100-211 | The builder that keeps hashes as `int`s writes the same file as the library builder, for every sequence of records. |
| IntHash.BuildersAgree | java/com/strangegizmo/cdb/CdbMake.java:100-211 | Whichever hash the builder keeps, the file is the cdb layout of the records added. |

## Left out

- `close`, `synchronized` and try-with-resources: closing files and locking are not modelled. Each object is used by one caller at a time.
- The command-line programs are not modelled: they only handle arguments and files around `make`, `dump` and `find`. They are `Make`, `Get` and `main` under `src/main/java/cdb` and `app/src/main/java/cdb`, the `dump`, `get` and `make` classes under `java/cdb`, and the `main` of `Dump`.
- The `String`-path overloads (`Cdb(String)`, `elements(String)`, `make(String, ...)`, `start(String)`) and the temporary-file rename at the end of `make` are file-system plumbing around the modelled operations and are not modelled.
- `CdbElement` is the value datatype `Element` (key, data). Its getters and `toString` are not modelled.
- The library `Cdb.hash(byte[])` and `Cdb.hash(ByteBuffer)` delegate to `CdbHash.hash` and are modelled by `Hash` and `CdbHash.HashBuffer`.
- The `US-ASCII` charset conversion of `dump`'s length header is modelled as the ASCII bytes of the decimal digits.
- StreamEnumeration.Elements: the reference `elements(File)` opens its stream in a try-with-resources, so the stream is closed before the enumeration is returned. The model keeps the stream open, which is the behaviour `CdbElementEnumerationTest` expects.
- ProbeTable.Home: its contract only states that the home slot is one of the table's slots. That the `int` and `long` hashes give the same home is the definition of `Home` on the unsigned hash, used by `LibraryFindings.HomeOfLong`.
- TextFormat.ReadLength: its contract states only where a read length ends. The values it reads are stated by `TextFormat.ReadDigits` and `TextFormat.ReadDecimal`, for lengths below 2^31.
- CdbReader.IntAt: its contract states only when the four bytes can be read. The value read is stated by `Bytes.ReadLeBytes` and `CdbReader.LeInt`.
- CdbMake.CdbMake.Start: the output file is taken to be new or empty. `RandomAccessFile(file, "rw")` does not truncate, so when an existing file is longer than what `finish` writes, its bytes past that end remain; the model does not keep them.
- Operating-system faults (a read or write that fails for reasons other than the end of a file) are not modelled. Channel reads return as many bytes as remain, up to the buffer's room.

## Findings

| source | as written | input that shows it | evidently intended | confidence | as-written member | corrected member |
|---|---|---|---|---|---|---|
| library/src/main/java/io/github/duckasteroid/cdb/Cdb.java:249-268 | `findnext` reads each slot into the buffer `local` without clearing it; only the record read at line 277 clears it. After a slot whose hash differs from the key's, the full buffer takes no new bytes, and the same stale slot is read again until `loop` reaches `hslots`. | The file built from the empty key with data `[1]`, then 32 zero bytes with data `[2]`. Both keys fall into bucket 5 and its 4-slot table, and both have home slot 1, which holds the second key's pointer. `find` of the empty key returns `null` instead of `[1]`. | Clear `local` before every slot read, as the reference reader re-reads every slot, so that the search finds every key that was added. | not executed | LibraryCounterexamples.EmptyKeyMissed | LibraryFindings.WalkCorrectedAgrees |
| library/src/main/java/io/github/duckasteroid/cdb/Cdb.java:271 | The slot's hash `h` is an `int` and `khash` is a `long` holding the unsigned hash (lines 75 and 238). `h != khash` widens `h` with its sign, so a key whose hash has bit 31 set never matches any slot. | The key of 32 zero bytes, whose hash is 3911903493, in any file, for example the one above. `find` returns `null` instead of `[2]`. | Compare the hashes as 32-bit values (`h != (int) khash`), so that every key that was added is found. | not executed | LibraryCounterexamples.ZeroKeyMissed | LibraryFindings.CorrectedFindsAdded |
