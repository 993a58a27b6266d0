# Verification model of the NTFS recovery pipeline

JustGiveMyDisk scans a damaged NTFS volume for FILE records, indexes their names, and later rebuilds a directory
tree from the index by copying the data of each record into freshly published files. All of its core code is loops
over input that may be corrupt or hostile. This project models that code in Dafny and proves what it does on every
input and in every run.

The model has four parts, joined by one run.

* **Records.** `LittleEndian`, `DataRuns`, `UpdateSequence`, `MftRecord` model the parser; `RecordFormat` and
  `RecordBuilder` model the writer that the test suite keeps as the parser's inverse; `RecordRoundTrip` proves that
  the parser undoes the writer. `RunStreams`, `RecordBytes` and `AttributeBytes` say on the bytes alone what is read
  from them, and `NameBytes` which bytes a name comes from. Shifts, masks and `|` of the source are operations on
  natural numbers in `Bits`, tied to sums once. Checked arithmetic keeps every intermediate value in a 64-bit type
  (`MachineInts`).
* **Text and names.** `Utf` proves the UTF-16 to UTF-8 conversion meaning-preserving, following section 2.2 of
  RFC 2781 and sections 3 and 4 of RFC 3629. `Names` models name sanitising, paths and the collision tracker,
  including the library's lexical normalisation on path strings.
* **The tree.** `Siblings` models the selection of rows of one directory, `CollectTree` the depth-first walk,
  `TreeProperties` and `SiblingOrder` what holds of every collection, and `Placement` where its items lie and when it
  fails. Rows are a set: the results hold for every query order, every hash-map order and every way a sort may break
  ties.
* **Reading and publishing.** `Devices` is a source device with unreadable bytes, short reads and interrupted calls;
  `Scanner` and `LocateRecords` are the two full scans over it. `FileSystems` is the destination: every call may fail,
  and before every call other processes may create files wherever there are none. A ghost log records the effect of
  every call. `Directories`, `AtomicFiles`, `CopyRuns`, `FileRecovery` and `RecoverRun` model making directories,
  writing, publishing, the item loop and the whole recovery. `Jobs` says what a recovery does to a quiet file system,
  on which no call fails and no other process acts, as a function of the files before it, and `Turns` what the calls
  for one item may have done on any. `CopyBytes` says on the device's bytes what copying gives. `Pipeline` runs a
  recovery on the rows of a scan of the same device, and `Completeness` says which files come back then.

Objects that the source updates in place are classes; its loops are loops, proved against specification functions;
exceptions and `std::nullopt` are `None`, `false`, `null` or `Thrown` results. Device reads, short counts, failures
and the actions of other processes are nondeterministic choices inside the modelled calls.

Three properties fail.

* *A file counted as recovered stands at the end.* Items are ordered by original name but written under sanitised
  names. With `--overwrite`, a later file can therefore be written under an earlier file's final name, when that is
  its own name plus `.partial`, and remove it. `LostFile.OverwritingLosesAFile` scans a small device with a root
  directory and two files, recovers them, and loses one. `Overwriting.SurvivalIsExact` says exactly when this
  happens, whatever files were there before: a later file clashes by name, a data attribute was chosen for it, and its
  own target was absent or a regular file. `Overwriting.CleanNamesAreSafe` shows that it never happens when no name
  had to be sanitised, and without `--overwrite` it never happens at all.
* *A publication that reports failure leaves the final path alone.* The comment on the fallback of the no-replace
  rename says that an existing final path is never overwritten, which holds. But when the partial name of a linked
  file cannot be removed, and then its final name cannot be removed either, the complete file stays published and the
  failure is reported. `AtomicFiles.FailureCanLeaveTheFile` gives such a history of calls,
  `AtomicFiles.FailedButPublishedIff` the condition, and the contracts from the fallback up to the whole run say that
  nothing else can leave a skipped file behind (`Overwriting.SkippedIsLeftAlone`).
* *A name comes from its own attribute.* Payloads and run lists are kept inside their attribute, but the content of a
  name is compared with the end of the record. `NameBytes.NameCanLieOutside` gives records whose name lies outside the
  attribute it is found in, and `NameBytes.NameIsOwnIff` the exact condition.

## Model

| member | source | states |
|---|---|---|
| `LittleEndian.ReadLe` | src/MftRecord.cpp:17-28 | A field is returned exactly when it lies inside the buffer, and assembling it with shifts and `\|` gives its positional value, below 256 to the power of its size |
| `LittleEndian.PutLe` | tests/NtfsFixtures.cpp:23-34 | The write throws exactly when it would leave the buffer; otherwise it changes that range only, to the low bytes of the value |
| `LittleEndian.FieldOfPut` | tests/NtfsFixtures.cpp:23-44 | A field reads back the value written there |
| `LittleEndian.DigitsOfValue` | tests/NtfsFixtures.cpp:23-44 | Every byte string is the little-endian form of its own value |
| `MachineInts.CheckedAdd` | src/MftRecord.cpp:60-67 | The signed sum is returned exactly when it fits 64 bits, and the overflow test itself never overflows |
| `MachineInts.CheckedMul` | src/Recover.cpp:35-40 | The unsigned product is returned exactly when it fits 64 bits |
| `DataRuns.SignExtend` | src/MftRecord.cpp:46-58 | Sign extension of a field of 1 to 8 bytes is its two's-complement value |
| `DataRuns.ParseDataRuns` | src/MftRecord.cpp:69-116 | The parsing loop computes the run list that the specification reads off the bytes, or rejects them |
| `DataRuns.AcceptedRunsAreValid` | src/MftRecord.cpp:69-116 | Every accepted run has a cluster number in 0..2^63-1, zero for a hole |
| `DataRuns.UnsignedWidth` | tests/NtfsFixtures.cpp:60-66 | The width loop finds the width function of the encoder |
| `DataRuns.UnsignedWidthIsLeast` | tests/NtfsFixtures.cpp:60-66 | That width is the least number of bytes that holds the value |
| `DataRuns.SignedWidth` | tests/NtfsFixtures.cpp:68-78 | The signed width loop finds the signed width function |
| `DataRuns.SignedWidthIsLeast` | tests/NtfsFixtures.cpp:68-78 | That width is the least number of bytes whose two's complement holds the value |
| `DataRuns.EncodeRuns` | tests/NtfsFixtures.cpp:80-99 | The encoder's loops produce the specified byte string |
| `DataRuns.DataRunRoundTrip` | src/MftRecord.cpp:69-116 | For every list of runs, anywhere in any buffer, parsing the encoding succeeds exactly when every prefix sum of the distances stays in 0..2^63-1, and then returns the counts, the holes, and the prefix sums as cluster numbers |
| `DataRuns.AnyWidthsRoundTrip` | src/MftRecord.cpp:69-116 | The same for fields of any widths that hold the numbers, least or not: a stream with lengths of 1 to 8 bytes and distances of 1 to 8, or none for a hole, is accepted exactly when every prefix sum stays in 0..2^63-1, and gives that layout |
| `DataRuns.ReencodingKeepsRuns` | src/MftRecord.cpp:69-116 | Any accepted byte stream, canonical or not, can be turned back into distances, re-encoded and re-parsed to the same runs |
| `DataRuns.BytesAfterTerminator` | src/MftRecord.cpp:75-79 | Nothing after the terminator matters, not even where the buffer ends |
| `DataRuns.CutStreamIsRejected` | src/MftRecord.cpp:75-116 | An accepted stream cut anywhere at or before its terminator is rejected |
| `RunStreams.ReadIffStream` | src/MftRecord.cpp:69-116 | Bytes are read as given runs if and only if headers with widths of 1 to 8 and 0 to 8 follow each other up to a zero byte before the end, every sum of signed distances stays in 0..2^63-1, and the runs have the counts, the holes and the sums of the fields |
| `UpdateSequence.RestoreUsa` | src/MftRecord.cpp:208-247 | The in-place loop leaves the specified bytes, also when it fails half way |
| `UpdateSequence.RestoreSucceedsIff` | src/MftRecord.cpp:208-247 | A record of any number of sectors is accepted exactly when the array fits, the count is one more than the sectors, and every original trailer equals the sequence number, wherever the array lies |
| `UpdateSequence.RestoreChangesOnlyTrailers` | src/MftRecord.cpp:231-244 | Restoring changes no byte outside the sector trailers, whether or not it succeeds |
| `RecordBytes.RestoredIff` | src/MftRecord.cpp:208-247 | Restoring gives these bytes, and no others, exactly for intact records: the last two bytes of every sector come from the array, or from an already restored trailer where the array lies in one, and all others stay |
| `UpdateSequence.RestoreUndoesApply` | tests/NtfsFixtures.cpp:120-131 | Restoring undoes stamping for any number of sectors, everywhere outside the array, when the array is apart from the trailers |
| `UpdateSequence.AlteredTrailerIsDetected` | src/MftRecord.cpp:231-244 | Any change to a stamped trailer, whatever else happens to the trailers, makes the record rejected |
| `RecordBuilder.ApplyUsa` | tests/NtfsFixtures.cpp:120-131 | The in-place stamping loop leaves the specified record, with one trailer bit flipped when asked to corrupt |
| `RecordBuilder.AlignUp` | tests/NtfsFixtures.cpp:46-48 | Masking with ~7 rounds up to a multiple of eight, and wraps around above 2^64 - 8 |
| `RecordBuilder.EncodeUtf16le` | tests/NtfsFixtures.cpp:50-58 | The name bytes are the code units, low byte first |
| `RecordBuilder.FileRecordBuilder.constructor` | tests/NtfsFixtures.cpp:153-163 | A new builder holds the draft record 42 with flags 1 and no attributes |
| `RecordBuilder.FileRecordBuilder.RecordNumber` | tests/NtfsFixtures.cpp:165-168 | Only the number of the draft changes |
| `RecordBuilder.FileRecordBuilder.Flags` | tests/NtfsFixtures.cpp:170-173 | Only the flags of the draft change |
| `RecordBuilder.FileRecordBuilder.InvalidUsa` | tests/NtfsFixtures.cpp:239-242 | The record to be built is marked corrupt |
| `RecordBuilder.FileRecordBuilder.AppendResidentAttribute` | tests/NtfsFixtures.cpp:175-192 | The attribute is appended exactly when it fits with the end marker; otherwise nothing changes |
| `RecordBuilder.FileRecordBuilder.FileName` | tests/NtfsFixtures.cpp:194-211 | A name of at most 255 units that fits is appended; otherwise nothing changes |
| `RecordBuilder.FileRecordBuilder.ResidentData` | tests/NtfsFixtures.cpp:213-216 | A payload that fits is appended; otherwise nothing changes |
| `RecordBuilder.FileRecordBuilder.NonResidentData` | tests/NtfsFixtures.cpp:218-237 | An encoded run list that fits is appended; otherwise nothing changes |
| `RecordBuilder.FileRecordBuilder.Build` | tests/NtfsFixtures.cpp:244-250 | The result is the finished and stamped record of all calls so far, and the builder is unchanged |
| `RecordRoundTrip.WholeRecordRoundTrip` | src/MftRecord.cpp:120-329 | For every sequence of builder calls that fits, the parser returns exactly the appended data attributes and names in order, the header's number, and the position as number when the header has none; nothing if no name remains |
| `RecordRoundTrip.NonResidentDataKept` | src/MftRecord.cpp:306-321 | A non-resident attribute is dropped exactly when a prefix sum of its distances leaves 0..2^63-1; otherwise its size and runs come back |
| `RecordRoundTrip.NameKept` | src/MftRecord.cpp:160-195 | A name is dropped exactly when all its units are NUL; otherwise its text has the code points of the units and its parent keeps 48 bits |
| `RecordRoundTrip.CorruptRecordIsRejected` | src/MftRecord.cpp:34-44 | A record built corrupt is rejected by all three readers |
| `MftRecord.Parse` | src/MftRecord.cpp:120-206 | The parsing loops compute the specified record from the restored bytes |
| `AttributeBytes.ParsedIff` | src/MftRecord.cpp:120-206 | A block is parsed to a record exactly when it is intact and has a name; number, offset and names are then given by its bytes: every field of a name at its place, bit 1 of the header or bit 28 of the name for a directory, and the names of the walked attributes in order |
| `AttributeBytes.NameAtIff` | src/MftRecord.cpp:160-195 | An attribute gives a name if and only if it has type 0x30, is resident, has its content and text inside the record, and the text is not empty; all fields of the name are sums of the bytes at their places |
| `MftRecord.RecordNumber` | src/MftRecord.cpp:249-260 | The number in the restored header, without a fallback |
| `AttributeBytes.NumberIff` | src/MftRecord.cpp:249-260 | The number is the sum of the four bytes at 0x2C of an intact record, and there is none otherwise |
| `MftRecord.DataAttributes` | src/MftRecord.cpp:262-329 | The second walk computes the specified data attributes |
| `AttributeBytes.DataAttributesIff` | src/MftRecord.cpp:262-329 | The data attributes are those of the walked attributes that hold data, in order, and no others; there are none when the block is not intact |
| `AttributeBytes.DataAtIff` | src/MftRecord.cpp:289-322 | An attribute holds data if and only if it has type 0x80, no name, neither bit 0 nor bit 14 of its flags, and a payload inside it or a run list that can be read inside it; size, payload and runs are then given by its bytes |
| `MftRecord.WalkNames` | src/MftRecord.cpp:146-198 | The name walk visits exactly the attribute offsets of the shared specification and collects their names |
| `MftRecord.WalkData` | src/MftRecord.cpp:274-326 | The data walk visits the same offsets and collects their data |
| `AttributeBytes.VisitedIff` | src/MftRecord.cpp:148-198 | The walk visits these offsets if and only if attributes of at least 16 bytes stand there end to end inside the record, and behind the last stands the end marker or no such attribute |
| `MftRecord.AttributesAreInOrder` | src/MftRecord.cpp:148-198 | Every visited attribute lies inside the record, and each ends where the next begins |
| `MftRecord.ReturnedDataLiesInside` | src/MftRecord.cpp:274-326 | Every data attribute that is returned comes from one of the visited attributes and was read inside it: its payload is a slice of that attribute, or its runs are those of the attribute's own bytes |
| `MftRecord.RunListLiesInside` | src/MftRecord.cpp:306-321 | A run list depends on the bytes of its own attribute only |
| `NameBytes.ReturnedNameLiesInRecord` | src/MftRecord.cpp:160-195 | Every name that is returned comes from one of the visited attributes; its text is converted from bytes of its content, which lie in the record |
| `NameBytes.NameIsOwnIff` | src/MftRecord.cpp:160-195 | A name depends on the bytes of its own attribute only, whatever else the record holds, if and only if its text ends inside that attribute; so it does when its content ends there |
| `NameBytes.NameCanLieOutside` | src/MftRecord.cpp:164-166 | For every name with text there is a record from which exactly that name is parsed, although it does not depend on the bytes of its own attribute only |
| `Utf.Utf16leToUtf8` | src/Utf.cpp:32-62 | The conversion loop computes the specified text on every byte input |
| `Utf.AppendUtf8` | src/Utf.cpp:7-23 | Each code point is appended in its shortest UTF-8 form |
| `Utf.ConversionKeepsMeaning` | src/Utf.cpp:32-62 | The output is always well-formed UTF-8, and decodes to the input's code points with unpaired surrogates replaced, NULs dropped and an odd last byte ignored |
| `Utf.TextBegins` | src/Utf.cpp:36-58 | How a text begins: a NUL unit is left out, a pair gives one code point, a surrogate without its partner gives EF BF BD and the next unit is read on its own, and any other unit is a code point |
| `Utf.TextOfUnits` | src/Utf.cpp:32-36 | A name is read from its first unit to its last whole one, low byte first |
| `Utf.ConversionLength` | src/Utf.cpp:32-62 | The output has at most three bytes per code unit |
| `Utf.ScalarsOfUtf16` | src/Utf.cpp:36-53 | Reading surrogate pairs is the inverse of UTF-16 encoding, for all code points |
| `Utf.ConversionHasInverse` | src/Utf.cpp:32-62 | From the converted text of well-formed NUL-free UTF-16 the code units can be computed back |
| `Utf.ConversionIsInjective` | src/Utf.cpp:32-62 | Two such names with the same text are the same name |
| `Names.SanitizeName` | src/RecoveryOutput.cpp:89-100 | The character loop computes the specified name |
| `Names.SanitizedBytes` | src/RecoveryOutput.cpp:89-100 | Slashes, backslashes and bytes below 0x20 become underscores, all others stay, and the empty name, "." and ".." become "_" |
| `Names.SanitizedIsComponent` | src/RecoveryOutput.cpp:89-100 | A sanitised name is one non-empty component, neither "." nor "..", without separators, backslashes or control bytes |
| `Names.SanitizingIsIdempotent` | src/RecoveryOutput.cpp:89-100 | Sanitising twice changes nothing more, and a name is unchanged exactly when it was clean |
| `Names.SanitizedNameIsText` | src/RecoveryOutput.cpp:89-100 | The sanitised form of any converted name is well-formed UTF-8 |
| `Names.NormalisationIsIdentity` | src/RecoveryOutput.cpp:22-23 | Lexical normalisation leaves every path of sanitised components as it is |
| `Names.KeyDeterminesFoldedPath` | src/RecoveryOutput.cpp:22-31 | Two paths have the same collision key exactly when their ASCII-folded component lists are equal |
| `Names.KeysCollideIff` | src/RecoveryOutput.cpp:22-31 | Two paths have the same key if and only if they have equally many components of equal lengths whose bytes are equal or one ASCII letter in its two cases |
| `Names.CollisionTracker.Add` | src/RecoveryOutput.cpp:102-120 | A path is entered exactly when its key is new; otherwise the collision is reported and nothing changes |
| `Siblings.BetterIsStrictOrder` | src/Recover.cpp:57-67 | The preference between rows is a strict total order, so the best row does not depend on the order of comparisons |
| `Siblings.Offer` | src/Recover.cpp:84-88 | One step of the grouping loop keeps, for every record and name seen so far, the eligible row with the least id |
| `Siblings.RowKeyInjective` | src/Recover.cpp:83 | The "id, newline, name" key determines record and name |
| `Siblings.DedupChildren` | src/Recover.cpp:69-102 | Whatever the order of rows, hash map and ties, the result lists exactly the surviving rows, directories first, then by name |
| `Siblings.DeduplicationIsExact` | src/Recover.cpp:69-102 | No DOS name survives beside another name of its record, exactly the least id survives for each record and name, and a second pass changes nothing |
| `Siblings.SurvivesIff` | src/Recover.cpp:69-93 | A row survives if and only if it is no name of namespace 2 beside another name of its record, and no other such row of its record and name has a smaller id |
| `Siblings.NameLessIff` | src/Recover.cpp:95-100 | Names compare by their first different byte, and a name comes before its continuations |
| `Siblings.RowLessIff` | src/Recover.cpp:95-100 | Directories come before files, and rows of one kind in the order of their names |
| `Siblings.SameRecords` | src/Recover.cpp:69-102 | Deduplication keeps every record |
| `Siblings.ListingsDiffer` | src/Recover.cpp:95-100 | Two different sorted listings of the same rows contain two rows with one name, both directories or both files, which the comparator cannot separate |
| `CollectTree.TreeCollector.CollectTree` | src/Recover.cpp:104-122 | The recursive walk terminates on every table, cycles included; whether it throws, and its items, visited set and tracker otherwise, are functions of the set of rows |
| `CollectTree.OrderDoesNotMatter` | src/Recover.cpp:114-121 | Any two orders a sort may leave give the same outcome, because ties collide |
| `Placement.CollectionFailsIff` | src/Recover.cpp:104-122 | Collecting throws if and only if, in some directory reachable from the root, two surviving rows get sanitised names that are equal but for the case of ASCII letters |
| `Placement.ItemsLieInTheirParents` | src/Recover.cpp:114-121 | Every item has the sanitised name of its row, and lies at the top when its row names the root as parent and otherwise in the first directory item with the number its row names |
| `TreeProperties.VisitedAreReachable` | src/Recover.cpp:110-121 | The expanded directories are exactly those reachable from the root by directory-child edges |
| `TreeProperties.ItemsAreChildrenOnce` | src/Recover.cpp:114-121 | The items are, exactly once each, the surviving children of the reachable directories |
| `TreeProperties.PathsAreDistinctAndNested` | src/Recover.cpp:115-119 | Item paths stay below the destination, any two differ in more than the case of ASCII letters, and they lie at the top or in an earlier directory item |
| `TreeProperties.FilesHaveNothingBelow` | src/Recover.cpp:115-119 | No file's path is a proper prefix of another item's path |
| `SiblingOrder.SiblingsInOrder` | src/Recover.cpp:95-121 | Inside one directory, items come directories first and then in the order of their original names, and everything below a directory follows it without interruption |
| `Devices.ReadExactAt` | src/Recover.cpp:124-141 | It succeeds exactly when the range lies on the device without a bad byte, whatever short reads and interruptions occur, and then holds exactly those bytes |
| `LocateRecords.LocateRecords` | src/Recover.cpp:143-167 | For every wanted number, and no other, the first whole block of the readable prefix with that restored header number, in spite of the early exit |
| `LocateRecords.LocatedUnique` | src/Recover.cpp:143-167 | That specification determines the result |
| `Scanner.Run` | src/Scanner.cpp:77-157 | The scan stops at the first block that is not readable, leaves exactly the rows and counters of the blocks before it, and throws exactly when that block has a bad byte |
| `Scanner.CountersAgree` | src/Scanner.cpp:102-119 | After every block: valid records <= candidates <= blocks, inserted names = rows, and matches <= inserted names |
| `Scanner.CountersCount` | src/Scanner.cpp:102-119 | The counters are the bytes of the blocks read, the number of blocks that begin with "FILE", of blocks that parse to a record, of rows, and of rows with the wanted name |
| `Scanner.RowsInOrder` | src/Scanner.cpp:106-108 | The rows are the names of the blocks' records, block after block and in the order of the record |
| `Scanner.RowsOfBlock` | src/Scanner.cpp:106-108 | Every block adds as many rows as its record has names, and nothing else is added |
| `Scanner.ScanAndRecoveryAgree` | src/Recover.cpp:154-165 | For a row from a block with a non-zero header number, recovery finds a block at or before the row's offset with that number; a row's block answers to the row's number exactly when its header number is not zero or it is the first block |
| `AtomicFiles.AtomicFile.Open` | src/RecoveryOutput.cpp:122-164 | Construction touches only the partial path, and nothing that existed unless overwriting; it succeeds only if both paths were free (absent, or regular files when overwriting), and on a quiet file system exactly then; directories and symlinks never change |
| `AtomicFiles.CanOpenIff` | src/RecoveryOutput.cpp:122-164 | What construction needs: nothing at the path and at the path with ".partial" appended or, when overwriting, regular files only |
| `AtomicFiles.AtomicFile.Write` | src/RecoveryOutput.cpp:170-188 | When it returns, all bytes were appended to the partial file, in spite of short and interrupted writes, and nothing else was touched |
| `AtomicFiles.AtomicFile.RenameWithoutReplacement` | src/RecoveryOutput.cpp:64-85 | With or without the link-and-unlink fallback, the final path only ever changes from nothing to the complete content, or back; a failure has left it alone, or linked it and failed to remove the partial name |
| `AtomicFiles.AtomicFile.Commit` | src/RecoveryOutput.cpp:190-216 | On success the final path holds the complete content and the partial path nothing; every call since construction is safe for the final path; after a failure no call has changed the final path, except in the failed fallback |
| `AtomicFiles.FailedButPublishedIff` | src/RecoveryOutput.cpp:74-84 | After a failed fallback the complete file stands at the final path if and only if the final name could not be removed again |
| `AtomicFiles.FailureCanLeaveTheFile` | src/RecoveryOutput.cpp:74-84 | For every file there is a history of safe calls in which the fallback fails and the complete file is left at the final path |
| `AtomicFiles.AtomicFile.Cleanup` | src/RecoveryOutput.cpp:166-168 | The destructor touches only the partial path of a file that was not committed |
| `AtomicFiles.ExistingFinalStays` | src/RecoveryOutput.cpp:64-85 | Without overwriting, a file that another process puts at the final path before publication is never changed by any later call |
| `AtomicFiles.FinalIsOldOrComplete` | src/RecoveryOutput.cpp:190-216 | When overwriting, an existing final path holds at every moment either what it held or the complete new content |
| `AtomicFiles.PartialOfInjective` | src/RecoveryOutput.cpp:122-125 | Different files are written under different partial paths |
| `CopyRuns.CopyNonresident` | src/Recover.cpp:179-216 | The chunked loops produce the run-by-run outcome; any exception the outcome does not predict comes from a failed write |
| `CopyRuns.WriteZeros` | src/Recover.cpp:169-177 | Exactly that many zero bytes are appended |
| `CopyRuns.CopyRefinesFlatView` | src/Recover.cpp:187-215 | Copying succeeds exactly when the runs cover the length, every needed byte is readable and no reached run overflows; byte i of the copy is then byte i of the runs laid end to end, zero in holes |
| `CopyRuns.CopyOverflowsIff` | src/Recover.cpp:191-202 | Copying throws exactly when a run is reached, with everything before it readable, whose size or offset overflows 64 bits |
| `CopyBytes.CopyIsExact` | src/Recover.cpp:187-215 | Copying succeeds exactly when the runs hold enough clusters, the sizes and offsets of the reached runs are below 2^64, and every needed byte behind cluster `lcn` can be read; byte i of a run is then that byte of the device, or zero in a hole |
| `FileRecovery.WriteContent` | src/Recover.cpp:238-250 | The partial file gets the attribute's whole content; the short-count branch for resident data is unreachable |
| `FileRecovery.ContentIsWhole` | src/Recover.cpp:222-250 | Whatever the record holds, the content has exactly the size of its first data attribute, and not more than the size in the index unless that is zero |
| `FileRecovery.ChosenIff` | src/Recover.cpp:226-234 | A file is skipped for its attributes only when its record has no data attribute or the index knows of a smaller size that is not zero; otherwise the first one is copied |
| `CopyBytes.ContentIff` | src/Recover.cpp:226-250 | What a file gets: the payload of its record's first data attribute, or the device's bytes of its runs up to its size, and nothing when that cannot be had |
| `FileRecovery.RecoverFile` | src/Recover.cpp:218-253 | It returns true only when the complete content stands at the path; all its calls are safe for the path; when it does not, no call has changed the path, except in the failed fallback; nothing that existed changes except, when overwriting, regular files at the path and its partial path; on a quiet file system success and the final state are exact |
| `Directories.EnsureSafeDirectory` | src/Recover.cpp:255-284 | It only makes directories, changes nothing that existed, and on success every component of the path is a directory; on a quiet file system it succeeds exactly when no component is something else, and makes exactly the missing ones up to there |
| `RecoverRun.ReadClusterSize` | src/Recover.cpp:42-55 | The cluster size is the product of the two little-endian boot sector fields; a device without short reads or interruptions gives it exactly when the first 512 bytes can be read and both fields are positive |
| `RecoverRun.ClusterSizeIff` | src/Recover.cpp:49-54 | For every device: (byte 0x0B + 256 * byte 0x0C) * byte 0x0D when both factors are positive and the sector can be read, and none otherwise |
| `RecoverRun.RunItem` | src/Recover.cpp:342-366 | One item: what it may change, what recovered means, that a skipped file is left alone except after a failed fallback, and on a quiet file system, whatever stands there, when it succeeds and its exact effect |
| `RecoverRun.RunItems` | src/Recover.cpp:342-366 | Recovered + skipped + directories made = items; without overwriting nothing that existed changes and every recovered file holds its content at the end; with overwriting the same holds of each recovered file under whose final name no later file is written, and only output paths change; the calls of the run are those of its items, one after the other, and leave a skipped file alone in its turn except after a failed fallback; on a quiet file system the recovered files and the final state are exactly what the files before the run and the jobs determine |
| `RecoverRun.Run` | src/Recover.cpp:292-370 | The whole run: it throws without changing anything that existed, or works through exactly the collected tree with the located records; a dry run touches nothing; on a quiet file system and a steady device it throws exactly when the boot sector, a missing root row, a collision or an obstacle on the way to the destination demands it |
| `Completeness.CanRunIff` | src/Recover.cpp:302-314 | What a run needs: a readable boot sector with positive geometry, a row with the root's number, and no two surviving rows of a reachable directory with names equal but for case |
| `Jobs.OpensIffFree` | src/RecoveryOutput.cpp:122-164 | When the turn of a file comes, it can be opened exactly when the files before the whole run say so |
| `Jobs.JobResult` | src/Recover.cpp:342-366 | One job takes the files that the first n jobs determine to the files that the first n + 1 determine, and is recovered exactly when the files before the run say so |
| `Jobs.ClashOpensIff` | src/RecoveryOutput.cpp:135-151 | A later file that clashes with a recovered one never opens without overwriting; when overwriting it opens exactly when an attribute was chosen for it and its own target was free before the run |
| `Overwriting.RecoveredFilesHoldTheirContent` | src/Recover.cpp:342-366 | After any run, a file counted as recovered holds the full content of the first block with its number, unless a later file was written under its name while overwriting |
| `Overwriting.JobIff` | src/Recover.cpp:342-366 | In every run, the content a file is to get, and whether an attribute is chosen for it, come exactly from the first block with its number; directories are made at their paths |
| `Overwriting.SkippedIsLeftAlone` | src/Recover.cpp:342-366 | Whatever fails and whatever other processes do, no call of a run changes the final path of a skipped file that no other file is written under, except in a failed fallback in the file's own turn |
| `Overwriting.SurvivalIsExact` | src/Recover.cpp:342-366 | In a quiet run, whatever files were there before, exactly the files that open and have content are recovered; each stands at the end if and only if no later file that opens clashes with it: always without overwriting, and when overwriting unless a later clashing file had a chosen attribute and a target that was absent or regular before the run |
| `Overwriting.CleanNamesAreSafe` | src/RecoveryOutput.cpp:89-100 | When no file's name had to be sanitised, every recovered file holds its content at the end of every run, overwriting or not |
| `LostFile.PairIsCollected` | src/Recover.cpp:95-121 | The names "a/b.partial" and "a_b" pass the collision check in this order, and the second file's partial path is the first file's path |
| `LostFile.AnExample` | src/RecoveryOutput.cpp:89-100 | There are records with such names, numbers and contents, so that the loss below does happen |
| `Pipeline.ScanThenRecover` | src/Recover.cpp:292-370 | A scan into an empty index followed by a recovery: the recovery works on exactly the rows of the readable blocks, and its outcome is that of `Run` |
| `Pipeline.ScannedFilesComeBack` | src/Recover.cpp:143-165 | After both, a recovered file holds the full content of the first record with its number, under a name parsed from a scanned record; when that record's header has a number, the first record with it stands at or before it |
| `Completeness.FilesComeBack` | src/Recover.cpp:292-370 | From a device whose records have distinct non-zero numbers, a quiet recovery into an empty destination recovers a collected file if and only if the content of the record it was scanned from can be had and its partial name is neither a directory of the plan nor, without overwriting, an earlier recovered file; that content stands at the end unless a later file was written over it |
| `Completeness.NamesAreScanned` | src/Scanner.cpp:102-119 | A scan leaves a row for every name of every record that the builder wrote |
| `Completeness.BuiltFilesComeBack` | src/Recover.cpp:218-253 | From a device of built records with distinct numbers, a collected file gets exactly the content of the first data attribute appended to its record, if that can be read and is not larger than the size in its name, under the same conditions |
| `LostFile.OverwritingLosesAFile` | src/RecoveryOutput.cpp:135-151 | From a device with a boot sector, a root directory and two files of these names, a scan and a quiet recovery with `--overwrite` into any clear destination count both files as recovered, and only the second exists at the end |

## Left out

- The terminal interface, the command line, threads, `lsblk` output, log and progress messages, percentages.
- The database: a scan appends to a sequence of rows, a recovery works on a sequence of rows with distinct ids, and the query for the children of a directory is a filter whose order callers do not rely on. Failing inserts, transactions and the choice among rows of the root record are not modelled; only the existence of a root row is.
- Path safety checks (device numbers, `/sys`, symlinks in the source path): a check may reject a path and changes no files.
- Other processes deleting or changing files; they may only create files where there are none.
- Crashes, `fsync` durability, and write-back order; each call succeeds, succeeds in part, or fails at once.
- File modes, descriptor flags and the inode behind a descriptor: an open file is identified with its partial path.
- Sizes and indices (`std::size_t`) are unbounded numbers; the values involved are bounded by the record or the device, and 64-bit quantities on which the code branches are kept in 64-bit types.
- Large loop bodies are split into methods of their own; the loops and branches are the source's.
- `std::sort` is modelled by insertion; only the fact that the result is a sorted permutation is used.
- The bit flip in the corrupt fixture is arithmetic on the lowest bit.
- The malformed-record fixtures and the fixture helper that finds an attribute.
- Exact outcomes when calls fail or other processes act: other processes could recreate a lost file, so outcomes are exact for quiet file systems, and for any files before the run.
- In `Pipeline` the index is empty before the scan, and ids are given out in the order of insertion.
- FileSystems.FileSystem.Rename: does not model renaming a name onto another name of the same file.
