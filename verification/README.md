# AnuDB in Dafny

AnuDB keeps JSON documents in collections and answers queries through secondary indexes. Documents
and index entries live in the column families of one ordered byte-key engine. An index entry of a
document is the key `encoded value # id`; integers and doubles are encoded so that byte order is
number order; range queries are iterator walks around the searched prefix. This project models that
machinery and proves what fits together and what does not, for all inputs and all runs.

How the modules build on each other:

- `Bytes`, `KeyCodec`, `TotalOrder`: byte strings and their order, the 8-byte integer and double
  keys, and the totalOrder predicate of section 5.10 of IEEE 754-2019, which the double keys realise.
- `Scans`, `StorageEngine`, `Cursor`: column families, the ordered iterator, the four scan loops and
  the cursor, each loop proved to return a selection of the ascending key order.
- `IndexKeys`, `ValueKeys`, `Naming`: index keys determine value and id, regions of the key order are comparisons
  of values, and family names parse back to collection and field.
- `CollectionOps`, `Collection`: every operation as the list of engine writes it issues, and the
  class whose loops are proved to issue exactly these.
- `Records`: what each operation does to the records and index entries, and how it ends, in terms of
  documents and indexed fields alone.
- `History`, `Consistency`, `CrashPoints`: the byte-level state refines an abstract history of
  (encoded value, id) pairs; no entry is ever missing; when indexes are exact; what a crash between
  two writes leaves behind.
- `Query`, `AnswerOrder`: the filter evaluator, what it returns for every filter, when it finds exactly
  the matching documents, and in which order.
- `UpdateLanguage`, `Paths`, `Document`: `$set`, `$unset`, `$push`, `$pull` over a JSON tree with addresses
  in place of pointers, their laws, and the object that edits its data in place.
- `Sessions`, `Database`, `WholeDatabase`: collections and indexes over open, close, create and drop.
- `ConcurrentUpdates`, `ConcurrentReaders`: interleavings of updates under the collection mutex, and
  readers that take no lock beside them.
- `WorkerProtocol`, `Replies`, `FindRequest`: interleavings of MQTT workers under the request mutex, what
  becomes of every reply, and a find request as one of the requests.
- `ExportImport`, `Imports`: export and import as a round trip, and imports of any array.
- `FailingInputs`: calls on which the code does not do what one would expect.

`dafny verify dfyconfig.toml` checks everything.

## How the source is read

- A `uint64_t` is a number below 2^64; shifts, `~`, `|` and `^` on it are written as arithmetic
  modulo 2^64 (`KeyCodec.ComplementFlipsEveryBit` justifies `~`). `value + INT64_MAX + 1` is taken
  modulo 2^64, as its comment intends. `get<int>()` keeps the low 32 bits of a JSON integer.
- A double is its bit pattern. JSON text and MessagePack are not modelled: a stored document is
  `Packed(doc)`, a stored id `Raw(text)`, and unpacking inverts packing.
- RocksDB is a map from family names to finite maps of byte keys, iterated in unsigned
  lexicographic order; its operations on existing families succeed. Clock, random numbers and
  generated ids are parameters.
- `Exception` stands for leaving a function by a C++ exception: converting an object or an array to
  a string in `parseValue`, `std::stoi` in an update path, a non-string `_id` in an import.
- The data of a document is a JSON object. The library's `operator==` on JSON is a parameter.
- Update and filter objects are given as the sequence of their operators, in any order. In whole
  runs an update is any function from data to data; `Collection.Collection.UpdateDocument` proves
  that `applyUpdate` is one of them.
- The order of an unordered set is arbitrary: answers of `$and` and `$or` are any enumeration.
- The messages' numbers, the turns and the event log of the worker protocol, and the lock order of
  concurrent updates, are history: the steps do not depend on them.
- The command behind an MQTT request is a program of small moves, each a database access, a streamed
  result or the final reply; the workers interleave between any two moves, and the theorem holds for
  every program. `FindRequest` gives the moves of a find.

Side conditions that results name: `Naming.WellFormedName` for collection names; ids without `#`
(`CollectionOps.HashFreeIds`, which generated ids meet); values of one scalar type where values are
ordered (`IndexKeys.Comparable`: integers in `int` range, strings of which neither continues the other
with a byte up to `#`); index builds that report success (`Consistency.BuildsSucceed`).

Where a promise is false of the code, the code is kept and the exact condition is proved:

- An overwrite that changes an indexed value leaves the old entry behind, and a store on an object
  whose family was dropped leaves entries without a document: `Consistency.StoreExactExactly`, with
  `Consistency.OverwriteLeavesStaleEntry` and `Consistency.StoreWithoutFamily`.
- A completed delete can leave entries without a document, namely those stale ones:
  `CrashPoints.DeleteDanglingExactly`, with `FailingInputs.StaleEntryDangles`.
- `$and` forgets clauses whose intersection became empty: `Query.AndIsIntersectionExactly` and
  `Query.AndIsSuffixIntersection`, with `FailingInputs.AndFindsWrongDocument`.
- Listing indexes fails for some collection names: `Naming.NameParsesBackExactly`, with
  `Naming.IndexNamesMissIllFormed`; dropping such a collection keeps its indexes, and a collection
  named like an index is deleted as one: `Sessions.DropRemovesExactly`,
  `Sessions.CloseKeepsDocuments`, with `Sessions.NamesLikeIndexesLoseDocuments`.
- Dotted paths that differ as text need not commute: `UpdateLanguage.SetsCommuteExactly`, with
  `UpdateLanguage.PathsMayAlias`.
- `$push` does not always append, and `$pull` undoes it only sometimes:
  `UpdateLanguage.PushAppendsExactly`, `UpdateLanguage.PullUndoesPushExactly`.
- An update that is run again after it has stored its document is applied twice:
  `CrashPoints.UpdateTwiceExactly`, with `UpdateLanguage.PushTwiceDiffers`.
- An index build that fails, or is interrupted, leaves entries missing:
  `Consistency.BuildCompleteExactly`, `CrashPoints.CrashInBuild`.
- A search confuses strings of which one continues the other with a byte up to `#`, a space for
  example, and integers outside `int`: `IndexKeys.TextComparesExactly`,
  `IndexKeys.TextMatchesExactly`, `IndexKeys.IntegerComparesExactly`; ids with `#` can share a key:
  `IndexKeys.KeysCollideExactly`.

## Model

| member | source | states |
|---|---|---|
| KeyCodec.EncodeIntKey | src/Collection.cpp:143-159 | the eight shifted bytes are the big-endian form of the value's distance from the smallest `int64_t` |
| KeyCodec.DecodeIntKey | src/Collection.cpp:214-226 | the exclusive-or decoder returns the one integer whose key is the given eight bytes |
| KeyCodec.EngineDecodeIntKey | src/storage_engine/StorageEngine.h:57-67 | the subtracting decoder returns the same number on every eight bytes, and 0 on any other length |
| KeyCodec.IntKeyOrder | src/Collection.cpp:143-159 | integer keys are in strict byte order exactly when the integers are, differ when they do, and decode back |
| KeyCodec.Narrow | src/Collection.cpp:233-235 | narrowing keeps an integer modulo 2^32 and is the identity on `int` |
| KeyCodec.EncodeDoubleKey | src/Collection.cpp:161-187 | the byte loop yields the big-endian form of the complemented or sign-flipped pattern |
| KeyCodec.DecodeDoubleKey | src/Collection.cpp:189-212 | every eight bytes decode to a pattern that encodes to them |
| KeyCodec.DoubleKeyInjective | src/Collection.cpp:161-212 | two patterns with one key are equal, so decoding inverts encoding on all 2^64 patterns |
| KeyCodec.ComplementFlipsEveryBit | src/Collection.cpp:171-174 | subtracting from 2^n - 1 flips each bit |
| TotalOrder.DoubleKeyRealisesTotalOrder | src/Collection.cpp:161-187 | byte order of double keys is totalOrder of IEEE 754-2019 on all pairs of bit patterns, NaNs and zeros included |
| TotalOrder.DoubleKeyMonotone | src/Collection.cpp:161-187 | keys are strictly monotone in the number denoted; equal numbers differ in key only as -0 before +0 |
| Bytes.SortedIsOnlyOrder | src/storage_engine/StorageEngine.cpp:224-229 | an iterator that visits every key of a family in ascending order visits them in the modelled order: there is no other |
| Scans.ScanTrichotomy | src/storage_engine/StorageEngine.cpp:218-300 | for every family and prefix: lesser reversed, equal and greater scan in a row are the ascending scan, and descending is its reverse |
| Scans.ScansAreSlices | src/storage_engine/StorageEngine.cpp:241-300 | the three scans are the slices that the bounds of the prefix block cut from the ascending id sequence |
| Scans.RegionsInOrder | src/storage_engine/StorageEngine.cpp:249 | along ascending keys come first those below, then those within, then those above the prefix block |
| StorageEngine.StorageEngine.FetchDocIdsForEqual | src/storage_engine/StorageEngine.cpp:241-255 | seek and prefix loop append exactly the ids of the keys that start with the prefix, in key order |
| StorageEngine.StorageEngine.FetchDocIdsForGreater | src/storage_engine/StorageEngine.cpp:257-273 | skipping the block and walking on appends exactly the ids of the keys above it |
| StorageEngine.StorageEngine.FetchDocIdsForLesser | src/storage_engine/StorageEngine.cpp:275-300 | seeking backwards with the step-back case appends exactly the ids below the block, descending |
| StorageEngine.StorageEngine.FetchDocIdsByOrder | src/storage_engine/StorageEngine.cpp:218-239 | the whole family's ids, ascending or reversed |
| StorageEngine.ValuePart | src/storage_engine/StorageEngine.cpp:287-293 | the inner loop of the lesser scan stops inside any key that holds a `#`, having copied what precedes the first |
| StorageEngine.StorageEngine.CreateCollection | src/storage_engine/StorageEngine.cpp:131-152 | a new name gets an empty family, a taken one is refused and nothing changes |
| StorageEngine.StorageEngine.DropCollection | src/storage_engine/StorageEngine.cpp:154-170 | the named family and no other goes; not found otherwise, and an I/O error with nothing changed for the default family, which RocksDB does not drop |
| StorageEngine.StorageEngine.Put | src/storage_engine/StorageEngine.cpp:180-216 | one key of one existing family changes; not found otherwise |
| StorageEngine.StorageEngine.Get | src/storage_engine/StorageEngine.cpp:302-323 | succeeds exactly on a stored key, with its value |
| StorageEngine.StorageEngine.Remove | src/storage_engine/StorageEngine.cpp:347-362 | one key of one existing family goes, and a missing key is no error |
| StorageEngine.StorageEngine.GetIndexNames | src/storage_engine/StorageEngine.cpp:379-392 | grouping all families by parsed name and looking one collection up gives the fields of its families |
| StorageEngine.StorageEngine.GetCollectionNames | src/storage_engine/StorageEngine.cpp:368-377 | the families that are neither default nor parsed as an index |
| Cursor.Cursor.constructor | src/Cursor.cpp:5-17 | the cursor has all ids of the family ahead of it in ascending order, or nothing if there is no family |
| Cursor.Cursor.Next | src/Cursor.cpp:24-29 | exactly one id leaves what is ahead, and an invalid cursor stays |
| Cursor.Cursor.Current | src/Cursor.cpp:31-42 | the document of the first id ahead; invalid argument at the end, exception if it does not unpack |
| Cursor.Cursor.CurrentId | src/Cursor.cpp:44-50 | the first id ahead, or the empty string |
| Cursor.Cursor.Seek | src/Cursor.cpp:52-57 | ahead are exactly the ids at or after the one given |
| Cursor.Cursor.Reset | src/Cursor.cpp:59-64 | all ids are ahead again |
| IndexKeys.SplitIndexKey | src/Collection.cpp:439-444 | a key with a `#`-free id splits back into its encoded value and id |
| IndexKeys.KeysCollideExactly | src/Collection.cpp:439-444 | two ids can share a key exactly when one ends in `#` and the other; ids without `#` never |
| IndexKeys.EncodeValue | src/Collection.cpp:228-249 | strings as they are, integers narrowed and encoded, doubles encoded, `true` and `false`, the empty string for null, and an exception for exactly objects and arrays |
| ValueKeys.ParsesToKey | src/Collection.cpp:228-249 | for every value and byte string: the value is keyed by these bytes exactly if it is that text, a number whose place the eight bytes spell, a boolean of that name, or null and the bytes are none; objects and arrays throw |
| ValueKeys.SameKeyExactly | src/Collection.cpp:228-249 | two values of any types are keyed alike exactly in the cases listed: equal values, integers 2^32 apart, text that is a number's bytes or a boolean's name, an integer and a double in one place, null and the empty text |
| ValueKeys.FindsExactly | src/Collection.cpp:251-260 | a search finds an entry, whatever the types, exactly if both are keyed alike or the entry's bytes run on from the operand's with a `#` |
| IndexKeys.EncodingOrder | src/Collection.cpp:228-249 | on comparable values, encodings are equal and ordered exactly as the values |
| IndexKeys.RegionIsValueOrder | src/Collection.cpp:251-280 | the scan region of the key of `v` relative to `w#` is the comparison of `v` with `w`, for every id |
| IndexKeys.KeyOrderIsValueOrder | src/storage_engine/StorageEngine.cpp:225-229 | ascending keys never put a greater value before a smaller one |
| IndexKeys.IntegerComparesExactly | src/Collection.cpp:233-235 | an integer is told apart from every `int` exactly when it is one |
| IndexKeys.TextMatchesExactly | src/Collection.cpp:251-260 | a search for a string finds an entry exactly when the strings are equal or the stored one continues it with `#` |
| IndexKeys.TextComparesExactly | src/Collection.cpp:251-280 | a search for a string sees the entries of another, under all ids, on the side where the string order puts it, exactly when neither continues the other with a byte up to `#` |
| Naming.NameParsesBackExactly | src/storage_engine/StorageEngine.cpp:383-388 | a family name parses back to its collection and field, for any field, exactly when the collection name is well formed |
| Naming.IndexNamesExact | src/storage_engine/StorageEngine.cpp:379-392 | for a well-formed name a field is listed exactly when its family exists, in any namespace |
| Naming.IndexNamesMissIllFormed | src/storage_engine/StorageEngine.cpp:379-392 | for any other name nothing is listed |
| Naming.FamiliesArePartitioned | src/storage_engine/StorageEngine.cpp:368-392 | each family but the default one is listed as exactly one of a collection or an index of one collection and field |
| Naming.IndexCfNamesDistinct | src/Collection.cpp:48-50 | families of well-formed collections coincide only for the same collection and field, and never with a collection |
| Collection.GenerateId | src/Collection.cpp:526-548 | twelve characters without `#`, for any clock and random numbers |
| Collection.Collection.ReadDocument | src/Collection.cpp:97-112 | the stored document, not found, or corruption where it does not unpack |
| Collection.Collection.CreateDocument | src/Collection.cpp:6-28 | the id and `_id` filled in, then index entries field by field up to a throwing value, then the document; status in each case |
| Collection.Collection.PutEntries | src/Collection.cpp:16-23 | the loop issues the entry writes of the fields present, in listing order, and stops at the first value that throws |
| Collection.Collection.RemoveEntries | src/Collection.cpp:37-44 | the same for the removes |
| Collection.Collection.InsertIfIndexFieldExists | src/Collection.cpp:439-444 | one put of `value#id` to the field's family, or an exception with nothing written |
| Collection.Collection.DeleteIfIndexFieldExists | src/Collection.cpp:446-451 | one remove of the same key |
| Collection.Collection.DeleteDocument | src/Collection.cpp:30-46 | the entries of the current values go, then the document; nothing happens to a document that cannot be read |
| Collection.Collection.CreateIndex | src/Collection.cpp:60-89 | the family is made or kept, and every document visited gets its entry up to one that cannot be converted |
| Collection.Collection.FillIndex | src/Collection.cpp:63-86 | the cursor loop visits every document once in id order and ends with corruption exactly if some document cannot be indexed |
| Collection.Collection.DeleteIndex | src/Collection.cpp:92-94 | the index family goes |
| Collection.Collection.UpdateDocument | src/Collection.cpp:416-437 | read or upsert, apply the operators, store; a throwing update or a missing document changes nothing |
| Collection.Collection.FindDocumentsUsingEq | src/Collection.cpp:251-260 | appends the clause's answer, or fails for an unlisted field, or throws, with nothing appended |
| Collection.Collection.FindDocumentsUsingLt | src/Collection.cpp:262-270 | the same for `$lt`, which refuses an empty encoding and does not consult the listing |
| Collection.Collection.FindDocumentsUsingGt | src/Collection.cpp:272-280 | the same for `$gt` |
| Collection.Collection.FindUsingAnd | src/Collection.cpp:309-354 | the loop computes the fold that restarts on an empty accumulator, failing or throwing with its first clause that does |
| Collection.Narrowed | src/Collection.cpp:339-350 | the two erase loops intersect the accumulator with the clause's ids |
| Collection.Collection.FindUsingOr | src/Collection.cpp:359-395 | the loop computes the fold that unites |
| Collection.AppendMembers | src/Collection.cpp:355-357 | the members of the set are appended, each once |
| Collection.Collection.FindDocument | src/Collection.cpp:282-414 | the whole evaluation, entry by entry; no ids at all after an early return, and no answer after an exception |
| Records.CreateOutcome | src/Collection.cpp:6-28 | how a create ends in each case; on success exactly one record is stored, under the given id or the generated one if that is empty, with the given data and its key as `_id` if that was absent; otherwise none |
| Records.UpdateOutcome | src/Collection.cpp:416-437 | how an update ends in each case; on success exactly one record is stored, with the changed data of the stored document or of a new one with only its id |
| Records.DeleteOutcome | src/Collection.cpp:30-46 | how a delete ends in each case; on success exactly the record of that id goes |
| Records.BuildOutcome | src/Collection.cpp:60-89 | the field is listed as indexed, records stay, and success is reported exactly if no document's value is an object or array |
| Records.DropOutcome | src/Collection.cpp:92-94 | the field is listed no more, records stay, and not found is reported exactly if it was not listed |
| Records.EntriesCreated | src/Collection.cpp:16-23 | also when it throws, a create adds exactly the entries of the fields that precede every field it cannot convert, and takes none away |
| Records.EntriesDeleted | src/Collection.cpp:37-44 | the same for the entries a delete takes away |
| Records.EntriesBuilt | src/Collection.cpp:63-86 | also when it fails, a build adds exactly the entries of the documents that precede every document it cannot index |
| Records.RunNoEmptyId | src/Collection.cpp:8-10 | in no run is a record stored under the empty id, creates and updates with an empty id included |
| History.StoreRefines | src/Collection.cpp:16-27 | storing adds to each index the pair of the new value and to the documents the new one; it takes no pair away |
| History.DeleteRefines | src/Collection.cpp:30-46 | deleting takes away only the pairs of the document's current values |
| History.BuildRefines | src/Collection.cpp:60-89 | building adds the pairs of the current values of the documents before the first that fails |
| History.StepRefines | src/Collection.cpp:6-94 | every operation, finished or thrown, changes the families as the abstract step changes the history, keeps them well formed and touches no other collection |
| History.RunRefines | src/Collection.cpp:6-46 | in every run the byte-keyed indexes are the image of the abstract history |
| History.ViewDetermines | src/Collection.cpp:439-451 | well-formed families with the same history agree byte for byte |
| Consistency.RunNoMissing | src/Collection.cpp:6-94 | in every run whose index builds report success no stored document lacks an entry of an index on a field it has |
| Consistency.BuildCompleteExactly | src/Collection.cpp:60-89 | a build leaves no entry missing exactly when it reports success |
| Consistency.BuildSucceedsExactly | src/Collection.cpp:60-89 | it does so exactly when every document's value of the field is a scalar |
| Consistency.StoreExactExactly | src/Collection.cpp:6-28 | a write keeps exact indexes exact if and only if it keeps the encoded indexed values of the document it replaces, or puts no new entry where it stores no document |
| Consistency.OverwriteLeavesStaleEntry | src/Collection.cpp:16-27 | otherwise the entry of the old value stays and is not current |
| Consistency.StoreWithoutFamily | src/Collection.cpp:16-27 | on an object whose family was dropped a store reports not found but has put its index entries |
| Consistency.RunExact | src/Collection.cpp:6-94 | in every run of such writes the indexes equal the current documents |
| Consistency.RebuildIsNoOp | src/Collection.cpp:60-89 | building an index that exists changes no byte when no entry is missing |
| Consistency.RebuildIsNoOpExactly | src/Collection.cpp:60-89 | in any state building an index that exists changes nothing exactly when it holds the entries the build would write |
| Consistency.DropThenBuildRestores | src/Collection.cpp:60-94 | dropping and building makes the index exact from any state and leaves documents and other indexes alone |
| Consistency.BuildEqualsMaintain | src/Collection.cpp:60-89 | building before or after inserting documents with new ids, given or generated, ends in the same stored state, also where indexes hold stale entries |
| CrashPoints.CrashInStore | src/Collection.cpp:16-27 | after any prefix of the writes of a store no document lacks an entry, and storing again ends like an uninterrupted store |
| CrashPoints.CrashInUpdate | src/Collection.cpp:416-437 | an update stopped before its document is stored and run again ends like an uninterrupted one |
| CrashPoints.UpdateTwiceExactly | src/Collection.cpp:416-437 | run again after that it changes nothing exactly when the change throws on the stored document or its result is there already |
| UpdateLanguage.PushTwiceDiffers | src/Document.cpp:104-120 | a `$push` applied twice never ends as if applied once |
| CrashPoints.CrashInDelete | src/Collection.cpp:30-46 | after any prefix of a delete's writes short of the last no entry loses its document, and deleting again ends alike |
| CrashPoints.DeleteTwice | src/Collection.cpp:30-46 | deleting again after a completed delete reports not found and changes nothing |
| CrashPoints.DeleteDanglingExactly | src/Collection.cpp:30-46 | a completed delete leaves no entry without document exactly when the document had no stale entry |
| FailingInputs.StaleEntryDangles | src/Collection.cpp:16-46 | for any two values with different encodings: create, overwrite and delete leave the entry of the first value without a document |
| CrashPoints.BuildAgainAfterCrash | src/Collection.cpp:60-89 | an index build stopped after any number of writes and run again ends like an uninterrupted one |
| CrashPoints.CrashInBuild | src/Collection.cpp:60-89 | stopped, a new index is listed and misses entries unless all writes were made and the build would report success |
| CrashPoints.CrashInRebuild | src/Collection.cpp:60-89 | a build of an index that exists and misses nothing changes nothing wherever it stops |
| CrashPoints.ReplayAfterCrash | src/storage_engine/StorageEngine.cpp:180-216 | any list of puts and removes, replayed after any prefix of itself, ends where one pass ends |
| Query.ClauseComplete | src/Collection.cpp:251-280 | with no missing entries a clause answers every document that satisfies it: any equal value for `$eq`, comparable values for `$gt` and `$lt` |
| Query.ClauseExact | src/Collection.cpp:251-280 | with exact indexes and comparable values it answers precisely those, each once |
| Query.ClauseOutcome | src/Collection.cpp:251-280 | a clause is answered exactly when its field is indexed, its operand a scalar and, for ranges, neither null nor the empty text; it throws exactly on an object or array |
| Query.RangeRefusedExactly | src/Collection.cpp:262-280 | on an indexed field `$gt` and `$lt` refuse exactly null and the empty text among the scalars |
| Query.IllFormedNameOutcome | src/Collection.cpp:251-280 | for a name that is not well formed `$eq` is never answered while `$gt` and `$lt` are |
| Query.EqualAnswersExactly | src/Collection.cpp:251-260 | on an exact index `$eq` answers, for values and operands of any types, exactly the documents whose value is keyed alike or runs on with a `#`, each once |
| Query.AllFoundExactly | src/Collection.cpp:330-384 | `$and` and `$or` are answered exactly when every clause is |
| Query.OrIsUnion | src/Collection.cpp:359-399 | `$or` is the union of its clauses' answers |
| Query.AndBounds | src/Collection.cpp:309-358 | `$and` contains the intersection and is contained in its last clause's answer |
| Query.AndIsIntersectionExactly | src/Collection.cpp:335-351 | `$and` is the intersection exactly when no proper prefix of its clauses has an empty one, or no id is answered by all clauses from the last restart on |
| Query.AndIsSuffixIntersection | src/Collection.cpp:335-351 | in every case `$and` is the intersection of the clauses behind its last restart, which is read off the prefix intersections |
| Query.AndForgetsEmptyClause | src/Collection.cpp:335-337 | a first clause without matches followed by one with matches gives all matches of the second, which is not the intersection |
| FailingInputs.AndFindsWrongDocument | src/Collection.cpp:309-358 | for any two comparable values: with one document holding the second, asking for both finds it |
| Query.FindOutcome | src/Collection.cpp:282-414 | for every filter: an exception leaves exactly if the first entry that stops the evaluation throws; the result is empty if that entry is an `$and` or `$or` with a refused clause, whatever was found before; otherwise it is exactly what the answerable entries contribute, the others adding nothing |
| Query.FilterContributes | src/Collection.cpp:282-414 | the answer to a filter evaluated to its end consists of exactly what its entries contribute |
| AnswerOrder.AnswerIsConcatenation | src/Collection.cpp:286-413 | the result is what the entries append, in the order of the filter: a clause's ids in scan order, the members of an `$and` or `$or` each once |
| AnswerOrder.RangesAreSorted | src/storage_engine/StorageEngine.cpp:257-300 | on an exact index `$gt` answers by ascending and `$lt` by descending value |
| Query.NoFalseNegatives | src/Collection.cpp:282-414 | after any run, every stored document satisfying an answerable entry of a filter is in the answer, unless an entry throws or ends the evaluation |
| Query.ExactAnswers | src/Collection.cpp:251-280 | after any run that keeps indexed values, comparisons answer precisely the satisfying documents, each once |
| Query.ExactFilterAnswers | src/Collection.cpp:282-414 | after such a run a whole filter evaluated to its end answers exactly the documents that satisfy one of its answerable entries: comparisons, `$or` and `$orderBy` always, `$and` when no proper prefix of it has an empty intersection |
| Query.OrderIsSorted | src/Collection.cpp:400-411 | `$orderBy` on an exact index lists each document with the field once, sorted by value; descending reverses |
| Paths.TokensOfDotted | src/Document.cpp:25-31 | a key joined by dots is cut into exactly these tokens |
| Paths.TrailingDotUnseen | src/Document.cpp:25-31 | a dot at the end of a key makes no difference |
| Paths.SetKeyExactly | src/Document.cpp:20-55 | for every dotted key and all data: `$set` throws exactly if a number on its way is out of range; otherwise the tokens that name children, the others passed over, lead to one node, whose field of the last name is replaced if it exists and nothing changes if not |
| Paths.SetKeyReaches | src/Document.cpp:32-55 | a key that leads token by token, through fields and array positions, to an existing field replaces its value |
| Paths.UnsetKeyExactly | src/Document.cpp:62-98 | for every dotted key and all data: `$unset` throws exactly at a number out of range, changes nothing at a token that names no child or a missing last field, and otherwise removes exactly that field |
| Paths.PlainOperators | src/Document.cpp:56-143 | keys without a dot, and what each operator does to its field; no other field changes |
| UpdateLanguage.SetReplacesOneNode | src/Document.cpp:20-55 | a dotted `$set` throws, does nothing, or replaces the one existing node at the greedily resolved address; every path apart from it keeps its value |
| UpdateLanguage.SetLaws | src/Document.cpp:20-55 | on a resolving path: get after set, the path still resolves, the last set wins |
| UpdateLanguage.SetsCommuteExactly | src/Document.cpp:20-55 | two resolving sets commute for all values exactly when neither address leads through the other |
| UpdateLanguage.PathsMayAlias | src/Document.cpp:20-55 | sets on `k.0.g` and `k.00.g`, neither a prefix of the other, end differently in the two orders |
| UpdateLanguage.WalksAgree | src/Document.cpp:33-94 | where every token resolves, skipping and giving up walk to the same node |
| UpdateLanguage.UnsetRemovesOneNode | src/Document.cpp:62-98 | a dotted `$unset` removes exactly the resolved node, and changes nothing when the path does not resolve |
| UpdateLanguage.PullUndoesPushExactly | src/Document.cpp:104-143 | `$pull` after `$push` of one value restores the data exactly under the stated condition on field and value |
| UpdateLanguage.PushAppendsExactly | src/Document.cpp:104-120 | `$push` adds the value behind what the field held exactly when the field was there or the value is no array, and changes no other field |
| UpdateLanguage.PullFilters | src/Document.cpp:121-143 | `$pull` removes all items equal to the value and no others, erases or overwrites a field that is no array, and changes no other field |
| Document.Tokenize | src/Document.cpp:25-31 | the `getline` loop yields the pieces between dots, without an empty last one |
| Document.WalkGreedily | src/Document.cpp:32-52 | the `continue` loop reaches the address of the greedy walk, or throws with it |
| Document.WalkStrictly | src/Document.cpp:73-94 | the `break` loop reaches, breaks or throws as the strict walk does |
| Document.Document.ApplyUpdate | src/Document.cpp:17-145 | the operators take effect one after another, and the first that throws ends the call with those before it in effect |
| UpdateLanguage.AppliedUntilThrows | src/Document.cpp:17-145 | what a call leaves behind is the result of the longest prefix of operators that does not throw |
| Document.Document.SetField | src/Document.cpp:22-60 | plain keys are assigned, dotted ones through the greedy walk; a walk that throws leaves the data alone |
| Document.Document.UnsetField | src/Document.cpp:64-102 | plain keys are erased, dotted ones through the strict walk; a walk that throws leaves the data alone |
| Document.Document.PushField | src/Document.cpp:107-119 | a missing field is assigned, an array appended to, another value paired |
| Document.Document.PullField | src/Document.cpp:124-142 | an array loses all equal items and keeps the order of the rest; another value is erased if equal and overwritten if not |
| Sessions.DropRemovesExactly | src/Database.cpp:32-53 | dropping removes the collection and its index families and nothing else, exactly when it is not the default family and its name is well formed or it has no such families; it reports success exactly when it is not the default family |
| Sessions.CloseKeepsDocuments | src/Database.cpp:10-14 | for every name: closing keeps the documents exactly when the name is not that of an index of a live object, drops all indexes of live objects and no other |
| Sessions.NamesLikeIndexesLoseDocuments | src/Collection.cpp:556-561 | a collection named like an index of another is deleted with the other's indexes, by drop and by close |
| Sessions.SessionsHealthy | src/Database.cpp:5-53 | over any sessions every collection stays well formed with no entry missing from an index that survives |
| Sessions.NewDatabaseHealthy | src/Database.cpp:5-8 | a new database is such a state, and holds no index without its collection |
| Sessions.CreatedCollectionsAreEmpty | src/Database.cpp:20-30 | after any sessions, creating succeeds exactly if the family does not exist, and the collection, also under the name of a dropped one, then has no documents and no indexes |
| Sessions.LookupFindsExactly | src/Database.cpp:88-103 | a lookup finds an object exactly if there is one or the family exists, and touches nothing else |
| Sessions.WorkIsDone | src/Database.cpp:88-103 | work on a collection that has an object or a family is done on its families, also after the database was closed and opened again |
| WholeDatabase.NoFalseNegativesEver | src/Collection.cpp:282-414 | from a new database, over any sessions and collections, no query over indexed fields misses a satisfying document |
| Database.Database.Open | src/Database.cpp:5-8 | opening marks the database open and leaves families and objects as they are |
| Database.Database.Close | src/Database.cpp:10-14 | clearing the registry destroys every object, each dropping its listed indexes |
| Database.Database.DestroyCollection | src/Collection.cpp:556-561 | the destructor's loop drops exactly the index families listed for the collection |
| Database.Database.CreateCollection | src/Database.cpp:20-30 | a new family and object, an object left over from a drop being destroyed; refused if the family exists |
| Database.Database.GetCollection | src/Database.cpp:88-103 | an object is found or made exactly when there is one or the family exists |
| Database.Database.DropCollection | src/Database.cpp:32-53 | erasing, looking up, deleting indexes and dropping together remove the collection and leave a live object; the default family stays, with an error |
| ConcurrentUpdates.AdvanceKeepsInv | src/Collection.cpp:416-437 | every step of every thread keeps the families at a point inside the holder's update of the serial state before it |
| ConcurrentUpdates.NoLostUpdates | src/Collection.cpp:416-437 | under every schedule, once all calls are done the state is that of all calls, each once, in lock order |
| ConcurrentUpdates.MutualExclusion | src/Collection.cpp:417 | at most one thread is between lock and unlock |
| ConcurrentUpdates.NoDeadlock | src/Collection.cpp:416-437 | whatever has happened so far, the calls can be scheduled so that all return |
| ConcurrentReaders.ReadersMissNothing | src/Collection.cpp:416-437 | at every point of every schedule, also between two writes of an update, no document lacks an entry, so that an index scan misses no stored document that satisfies its clause |
| WorkerProtocol.Client.ClientCb | mqtt/AnuDBMqttClient.cpp:87-188 | the switch makes the transition of the worker's state, message, reply and topic, with every failure branch |
| WorkerProtocol.Client.EnterRequest | mqtt/AnuDBMqttClient.cpp:111-130 | empty payloads are dropped, and a request begins only while nobody holds the mutex |
| WorkerProtocol.Client.HandleRequest | mqtt/AnuDBMqttClient.cpp:786-844 | under the mutex one move at a time: a database access, a streamed result, or the reply, with which the message is freed and the mutex released |
| WorkerProtocol.SerialMoves | mqtt/AnuDBMqttClient.cpp:786-787 | a move of the holder changes the database as its request alone would, since all turns before it are done |
| WorkerProtocol.InterleavedMovesLoseUpdate | mqtt/AnuDBMqttClient.cpp:787 | without exclusion two read-and-write requests can end in a state that no serial order gives |
| WorkerProtocol.CallbackKeeps | mqtt/AnuDBMqttClient.cpp:87-188 | every callback with every outcome keeps the invariant, and no field it dereferences is missing |
| WorkerProtocol.ProtocolHolds | mqtt/AnuDBMqttClient.cpp:87-188 | over every interleaving of moves and every failure: mutual exclusion, the database of handling requests alone one after another in mutex order, final replies to the last received request on its topic as that request gives it alone, at most one each, after all streamed results in order, and each message freed exactly once |
| FindRequest.SearchAlone | mqtt/AnuDBMqttClient.cpp:745-784 | a find on its own looks ids up, reads and sends each document that can be read, changes nothing, and replies in one way if it comes to its end and in another if it throws |
| FindRequest.SearchSeesOneState | mqtt/AnuDBMqttClient.cpp:764-777 | among any other requests, the documents a find has sent before its final reply are its results on one state of the database |
| FindRequest.ResultsComplete | mqtt/AnuDBMqttClient.cpp:764-777 | those results hold every stored document that satisfies an entry of an answerable filter |
| Replies.NoReplyLost | mqtt/AnuDBMqttClient.cpp:132-184 | over every interleaving and any failures: the reply to a request that is done and freed was sent exactly once, or a failed attempt is on record, or its worker stands in SEND with exactly that reply and topic |
| Replies.AnsweredExactlyOnce | mqtt/AnuDBMqttClient.cpp:132-184 | if nothing fails every such request is answered exactly once as soon as no worker stands ready with its reply |
| Replies.LoneRequestServed | mqtt/AnuDBMqttClient.cpp:87-188 | a request at a lone worker is received, handled to its end, its results streamed in order, its message freed and its reply sent, and the worker receives again |
| WorkerProtocol.SendResponse | mqtt/AnuDBMqttClient.cpp:448-494 | at most four attempts, only retriable failures before the last, and the message either accepted or freed once |
| ExportImport.ExportRecords | src/storage_engine/StorageEngine.cpp:429-453 | the data of every record in id order |
| ExportImport.ImportItems | src/Collection.cpp:473-513 | objects are stored under their `_id`, a generated id each if that is empty, or a counted name; others are skipped, and an exception ends the import |
| ExportImport.RunIdsAgree | src/Collection.cpp:6-28 | in every run without a differing `_id` each record's key, id and `_id` agree |
| ExportImport.ExportThenImport | src/Collection.cpp:453-513 | importing an export into an empty collection that can index it reproduces the same documents under the same ids |
| ExportImport.UnnamedItemsKeptApart | src/Collection.cpp:481-501 | objects without an `_id` are all stored, each under `doc_` and its position, overwriting neither each other nor documents of other ids |
| Imports.ImportExactly | src/Collection.cpp:473-513 | for every array: the objects before the first that fails are stored, each under its `_id`, a generated id or its position, the last of equal keys winning; other items are passed over but counted; the import reports success exactly if no object fails |
| Imports.ExportInOrder | src/storage_engine/StorageEngine.cpp:435-452 | an export holds the data of every record by ascending id |

## Left out

- RocksDB itself: tuning options, write-ahead log, I/O errors, and handle ownership.
- MessagePack bytes and JSON text, so also the formatting of exported files, and the creation and renaming of files and directories.
- `readAllDocuments`, `getAll` and the forwarding methods of the database class: they add only easy members beside the cursor and the operations.
- MQTT command dispatch, response texts and status strings, sockets, TLS and the command line; a request is any program of moves. Of the commands only find is written out.
- Races of creates, deletes and index builds with each other: the source does not lock them. Only updates, which it does lock, are interleaved.
- `dropCollection` of a collection that does not exist: the source dereferences a null pointer there, so existence is required.
- Operands of filter operators that are not objects with one field, directions of `$orderBy` that are not strings, and clauses of `$and` and `$or` that are not arrays of objects.
- Update objects whose operators hold no operands, unknown operators (which the source ignores), and operators on data that is not an object.
- ExportImport.ExportRecords: requires that the family holds packed documents, because what unpacking something else gives belongs to MessagePack.
- Uniqueness of generated ids: they are parameters, of which only length and alphabet matter.
