# A model of CoreFoundation's property lists, collections, converters and big numbers

The repository carries Apple's CoreFoundation (release CF-1153.18) in C, and a small ticket-selling demo in
Swift. These modules state in Dafny what the hardest parts of both do, and prove what they are for.

- **Binary property lists** (`Bytes`, `PlistFormat`, `PlistGraph`, `PlistReader`, `PlistWriter`,
  `PlistRoundTrip`, `PlistTable`, `PlistHeads`). A graph of objects is flattened into a table, encoded through a
  fixed-size buffer and closed with an offset table and a trailer; the reader checks the trailer and decodes, with
  a cache from offsets to finished objects and a check for cycles that begins at depth 16. `Decode` is the reader
  without its cache, `Meaning` the tree an offset stands for with neither cache nor path. The main results are
  that the three agree, that reading undoes writing, and that nothing mutable in a result is shared.
  `PlistTable` and `PlistHeads` state the format apart from both, in numerals on the bytes: every file that is
  written is one (`WrittenFile`), and reading any bytes at all gives what they spell there, or nothing
  (`ReadExactly`).
- **Hash table** (`HashTheory`, `HashMeaning`, `BasicHash`). Open addressing with tombstones, prime sizes,
  stand-ins for the words 0 and ~0, counts whose width doubles, and a mode that numbers keys. The class holds
  the arrays and bit fields; `View` is the map they amount to. Every operation, and every run, is a map
  operation; the numbering mode is a sequence with insertion and deletion.
- **Arrays** (`Items`, `Capacities`, `DequeArray`, `ArraySearch`). A window in a larger store. One primitive
  replaces any range by moving the regions beside it; it is sequence splicing in every branch. Binary search and
  the exchange sort work over any total preorder.
- **UTF-8 converter** (`UnicodeForms`, `Utf8Converter`). RFC 3629 and RFC 2781 as encodings of scalar values,
  and the encoder, decoder and two length passes proved against them.
- **Big numbers** (`BigNumber`, `BigNumberText`, `BigNumberIntegers`). Five digits to the base 10^9 and a sign:
  addition, subtraction, comparison, decimal text, machine integers.
- **Bit vectors** (`BitVector`) and **binary heaps** (`BinaryHeap`).
- **Ticket sale** (`TicketSale`). Any number of sellers as interleaved single steps.

Each class method is proved against a function or predicate on values, and the promises are lemmas about those.
Where the code does not keep a promise, the condition under which it does is stated both ways:

- A 128-bit integer loses its high half on reading (`RoundTripExact`, `WideIntegerIsCut`), and a dictionary with
  a collection as a key is written but not read back (`RoundTrip`, `KeyedByArrayIsRefused`).
- `1 << flsl(capacity)` is an int, so capacities stop growing at 2^30 (`RoundUpFits`). A shift count is taken
  modulo 32 there, as the machines in question do.
- Growth that skips a size runs off the size table past the capacity of the last size but one
  (`FastGrowthStaysInside`).
- Numbers of keys break when one reaches the word that stands in for ~0 (`InsertIsInsertion`), and counts when a
  numbered key that is there more than once is removed (`RemoveIntValueAndDec`, `LeaveCountBehind`).
- The encoder takes the room left to 32 bits, so with limits of 2^32 and more it can stop early, or not move
  (`LongestExactly`, `EnoughExactly`, `RestartingExactly`).
- A supplementary character that meets room for one unit is consumed and not given out (`ConsumedAreDecoded`,
  `FourBytesPassedOver`).
- The encoder's length pass does not stop at lone surrogates, and adds up in 32 bits (`LengthAgrees`,
  `LengthWrapsToNothing`, `LoneSurrogateWraps`).
- Adding digits compares with `>` where canonical digits need `>=` (`Add`, `ExactColumnExists`); adding numbers of
  different signs can give a negative zero, which compares below zero (`CompareIsNumeric`). Digits that a sum
  left at 10^9 can be added again until a column passes 32 bits (`Add`, `SmallColumnsFit`).
- Printed digits are cut to the buffer, and digits of 10^9 and more push others out (`PrintAndParse`,
  `PrintedDecimal`); a text's leading digits are cut to 32 bits (`ParsedExactly`). Such digits can also pass for an
  integer they are not (`CreatedWrapped`, `WrongIntegerExists`).
- The unguarded sale sells a ticket twice (`UnguardedIsRight`).

Abstractions: allocation succeeds; values in collections are words, and comparators, hash functions and key
equality are parameters; objects of a property list are trees labelled with their addresses, so that equality is
identity (the writer's uniquing set has no equality callback); reals and dates are opaque payloads.

## Model

| member | source | states |
|---|---|---|
| `PlistRoundTrip.RoundTrip` | base course/CF-1153.18/CFBinaryPList.c:610-707 | reading a written file gives the property list back, whatever is shared and however deep it nests, if the first half of every dictionary's elements, its keys, are primitive; with any other key the file is refused |
| `PlistRoundTrip.KeyedByArrayIsRefused` | base course/CF-1153.18/CFBinaryPList.c:1516-1516 | a dictionary with an empty array for its key is written, and the file refused |
| `PlistRoundTrip.ArrayAsValueIsRead` | base course/CF-1153.18/CFBinaryPList.c:1516-1516 | a dictionary with an empty array for its value is written, and read back |
| `PlistRoundTrip.RoundTripExact` | base course/CF-1153.18/CFBinaryPList.c:408-454 | the round trip is exact if and only if, besides, no 128-bit integer needs its high half, which the reader drops |
| `PlistRoundTrip.WideIntegerIsCut` | base course/CF-1153.18/CFBinaryPList.c:1113-1118 | the integer 2^64 is read back as 0 |
| `PlistRoundTrip.ImageAccepted` | base course/CF-1153.18/CFBinaryPList.c:759-845 | every emitted file passes every trailer check, and its table leads to the encoding of each flattened object |
| `PlistRoundTrip.OffsetsAscend` | base course/CF-1153.18/CFBinaryPList.c:654-694 | recorded offsets ascend strictly from 8, and at each of them stands the object of that number |
| `PlistRoundTrip.ObjectMeaning` | base course/CF-1153.18/CFBinaryPList.c:456-541 | the place of an object in the file stands for the read-back value of that object and for nothing else; for nothing at all when a key is not primitive |
| `PlistRoundTrip.ContainerRead` | base course/CF-1153.18/CFBinaryPList.c:500-541 | the references of a written collection are read as the offsets of its elements |
| `PlistRoundTrip.AtomRead` | base course/CF-1153.18/CFBinaryPList.c:352-454 | every encoded string, number, date, data or UID is read as its value |
| `PlistRoundTrip.CountRead` | base course/CF-1153.18/CFBinaryPList.c:329-350 | a count in the low nibble, or in an integer after the marker, is read as written |
| `PlistRoundTrip.ByteCountFits` | base course/CF-1153.18/CFBinaryPList.c:589-606 | the chosen reference and offset sizes hold the number and are the least of 1, 2, 4 and 8 that do |
| `PlistRoundTrip.ReadBackIsContents` | base course/CF-1153.18/CFBinaryPList.c:1113-1118 | what comes back equals what was put in exactly for lists of 64-bit integers |
| `PlistTable.WrittenFile` | base course/CF-1153.18/CFBinaryPList.c:239-283 | the file written, byte by byte: the eight header bytes, every object in its row of the table of markers and at the offset that the table of offsets gives for it, references of fewest bytes, and the 32 bytes of the trailer |
| `PlistTable.AtomBytesRow` | base course/CF-1153.18/ForFoundationOnly.h:385-399 | the marker and the bytes of every number, date, data, string and UID, in numerals |
| `PlistTable.ObjectBytesRow` | base course/CF-1153.18/CFBinaryPList.c:500-541 | the marker of an array or dictionary, its count, of pairs for a dictionary, and a reference for each element to the first place where that element is listed |
| `PlistTable.BigEndianSpells` | base course/CF-1153.18/CFBinaryPList.c:329-350 | each byte of a number stands for the power of 256 of its place, the first for the highest |
| `PlistTable.FlattenIsPreorder` | base course/CF-1153.18/CFBinaryPList.c:543-587 | objects are listed in the order of a walk from the top down, later occurrences of strings, numbers, dates and data left out |
| `PlistTable.FlattenFirstPlaces` | base course/CF-1153.18/CFBinaryPList.c:543-587 | the reference table numbers every listed object by its first place |
| `PlistTable.SupportedKinds` | base course/CF-1153.18/CFBinaryPList.c:456-541 | a property list is written if and only if the walk over it meets no null and no set |
| `PlistHeads.ReadExactly` | base course/CF-1153.18/CFBinaryPList.c:1566-1605 | for all bytes: the reader returns a property list if and only if the header, trailer and offsets are sound and the top object spells that list through the table of markers and its references, no dictionary having a collection among its keys |
| `PlistHeads.AcceptedExactly` | base course/CF-1153.18/CFBinaryPList.c:759-845 | a file passes the checks if and only if it is sound, as stated in numerals on its bytes, and no other file is read |
| `PlistHeads.HeadIsRead` | base course/CF-1153.18/CFBinaryPList.c:1061-1559 | what every marker byte and the bytes behind it are read as, marker by marker in numerals, and which are refused |
| `PlistHeads.CountIsRead` | base course/CF-1153.18/CFBinaryPList.c:855-870 | a count of 15 is followed by an integer of one of 16 widths, which is the count if it is below 2^63 |
| `PlistHeads.ReferenceIsRead` | base course/CF-1153.18/CFBinaryPList.c:872-887 | a reference inside the objects is looked up in the table of offsets; any other leads nowhere |
| `PlistHeads.SizedIntSpells` | base course/CF-1153.18/CFBinaryPList.c:735-757 | up to eight bytes are read as the number they spell, place by place; of more, the last eight are |
| `PlistGraph.DecodeIsMeaning` | base course/CF-1153.18/CFBinaryPList.c:1061-1559 | with any path whose members lie above the object, decoding succeeds exactly on offsets that stand for a finite tree and returns it: depth, path and order decide nothing |
| `PlistGraph.DecodeSound` | base course/CF-1153.18/CFBinaryPList.c:1061-1559 | whatever decoding returns is what the references from the offset spell out |
| `PlistGraph.DecodeComplete` | base course/CF-1153.18/CFBinaryPList.c:1323-1328 | the path check never refuses an offset that stands for a finite tree |
| `PlistGraph.CycleRefused` | base course/CF-1153.18/CFBinaryPList.c:1323-1328 | an object from which references lead around in a cycle is never decoded, though the check starts only at depth 16 |
| `PlistGraph.Reader.CreateObject` | base course/CF-1153.18/CFBinaryPList.c:1061-1125 | with any valid cache of finished objects, decoding succeeds exactly when uncached decoding does, with the same value, mutable as asked and with every mutable object newly made; it leaves the path as it was, and terminates on every input |
| `PlistGraph.Reader.CreateCollection` | base course/CF-1153.18/CFBinaryPList.c:1318-1432 | a collection puts its offset on the path while its elements are made and takes it off again |
| `PlistGraph.Reader.CreateElements` | base course/CF-1153.18/CFBinaryPList.c:1377-1390 | the loop over references gives the elements of uncached decoding, or fails where that does |
| `PlistGraph.KeptIsImmutable` | base course/CF-1153.18/CFBinaryPList.c:1433-1435 | what the cache keeps is not mutable at any level, so that sharing it is safe |
| `PlistGraph.AsAskedThroughout` | base course/CF-1153.18/CFBinaryPList.c:1391-1425 | mutable as asked means, of the result and everything inside it: nothing, the collections, or the collections, strings and data, as the option says |
| `PlistReader.GetTopLevelInfo` | base course/CF-1153.18/CFBinaryPList.c:759-845 | the header, trailer, table and top object checks accept exactly the files that satisfy the stated layout |
| `PlistReader.CheckTrailer` | base course/CF-1153.18/CFBinaryPList.c:770-812 | the chain of comparisons with overflow-checked sums and products amounts to the trailer describing a file of exactly this length |
| `PlistReader.CheckOffsets` | base course/CF-1153.18/CFBinaryPList.c:822-835 | accepted exactly when every table entry lies before the table |
| `PlistReader.CheckedMul` | base course/CF-1153.18/CFBinaryPList.c:70-80 | a product is refused exactly when it exceeds 64 bits |
| `PlistReader.TryParseBinaryPlist` | base course/CF-1153.18/CFBinaryPList.c:1566-1605 | the cached reader as a whole computes the uncached reading of the file; containers and leaves are mutable as the option says at every level, and no mutable object is in the result twice, whatever the file shares |
| `PlistFormat.ReadInt` | base course/CF-1153.18/CFBinaryPList.c:855-870 | a sized integer is read only from inside the object range and leaves the position after it |
| `PlistFormat.CountAt` | base course/CF-1153.18/CFBinaryPList.c:1190-1208 | a count leaves the position of the payload, inside the object range |
| `PlistWriter.WriteBuffer.Write` | base course/CF-1153.18/CFBinaryPList.c:207-237 | in every case (fits, fills the buffer, larger than the buffer) the buffer and stream together hold exactly the bytes handed over, in order |
| `PlistWriter.WriteBuffer.Flush` | base course/CF-1153.18/CFBinaryPList.c:207-210 | flushing moves the bytes and changes nothing about the total |
| `PlistWriter.WriteBuffer.AppendObjects` | base course/CF-1153.18/CFBinaryPList.c:654-668 | each object is written once in table order, at the offset recorded for it; stops at the first that has no encoding |
| `PlistWriter.WriteBuffer.AppendOffsets` | base course/CF-1153.18/CFBinaryPList.c:670-684 | the offset table is written in entries of the chosen size |
| `PlistWriter.WriteBuffer.AppendTail` | base course/CF-1153.18/CFBinaryPList.c:668-707 | table and trailer complete the image; the result is its length |
| `PlistWriter.Flattener.FlattenPlist` | base course/CF-1153.18/CFBinaryPList.c:543-587 | the recursive walk computes the flattened list, table and uniquing set |
| `PlistWriter.FlattenInvariant` | base course/CF-1153.18/CFBinaryPList.c:543-587 | a reference leads back to its object (objlist[objtable[o]] is o), elements of every collection are in the table, and the list only grows |
| `PlistWriter.SupportedIsWritable` | base course/CF-1153.18/CFBinaryPList.c:456-541 | every object reached has an encoding exactly when the whole graph is of supported types |
| `PlistWriter.ComputeByteCount` | base course/CF-1153.18/CFBinaryPList.c:589-606 | the mask loop gives 1, 2, 4 or 8 bytes as the thresholds say |
| `PlistWriter.WritePlist` | base course/CF-1153.18/CFBinaryPList.c:610-707 | for a supported graph the stream is the specified image and the result its length; otherwise the result is 0 |
| `Bytes.GetSizedInt` | base course/CF-1153.18/CFBinaryPList.c:735-757 | the big-endian loop gives the number of the bytes, truncated to 64 bits |
| `Bytes.NumberOfBigEndian` | base course/CF-1153.18/ForFoundationOnly.h:404-412 | big-endian bytes of a number that fits stand for that number |
| `BasicHash.BasicHash.Run` | base course/CF-1153.18/CFBasicHash.c:1332-1411 | any run of add, replace, set, remove and remove-all, however long, does to the buckets what it does to a map with multiplicities, through growth, shrinking, tombstone reuse and widening of counts, wherever each new key finds room in the table or in the size it grows to; the size is that of the rule at every step |
| `HashMeaning.SmallMapsHaveRoom` | base course/CF-1153.18/CFBasicHash.c:1136-1143 | every new key finds room as long as the map stays within the last size a table can grow to, whatever size the table has |
| `BasicHash.BasicHash.AddValue` | base course/CF-1153.18/CFBasicHash.c:1332-1350 | adds a new key once, counts a known one up to LONG_MAX, and says whether anything changed; only a new key needs room |
| `BasicHash.BasicHash.ReplaceValue` | base course/CF-1153.18/CFBasicHash.c:1352-1362 | replaces key and value of a key that is there, keeping its count |
| `BasicHash.BasicHash.SetValue` | base course/CF-1153.18/CFBasicHash.c:1364-1376 | replaces, or adds, for which alone there must be room |
| `BasicHash.BasicHash.RemoveValue` | base course/CF-1153.18/CFBasicHash.c:1378-1391 | one fewer, or gone; the result is how many there were; a stand-in key is never there |
| `BasicHash.BasicHash.RemoveAllValues` | base course/CF-1153.18/CFBasicHash.c:1407-1411 | the table is empty |
| `BasicHash.BasicHash.GetCount` | base course/CF-1153.18/CFBasicHash.c:931-941 | the sum of multiplicities in a signed 64-bit word |
| `BasicHash.BasicHash.GetCountOfKey` | base course/CF-1153.18/CFBasicHash.c:943-951 | the multiplicity of a key |
| `BasicHash.BasicHash.FindBucket` | base course/CF-1153.18/CFBasicHashFindBucket.m:110-157 | linear probing finds the bucket of an equal key, or proves the key absent and names the bucket an addition should fill; -1 only when every bucket is live |
| `BasicHash.BasicHash.FindBucketNoCollision` | base course/CF-1153.18/CFBasicHash.c:793-797 | linear probing in a table without tombstones: the first bucket free for a new key |
| `BasicHash.BasicHash.Rehash` | base course/CF-1153.18/CFBasicHash.c:1127-1249 | moving every live bucket to new arrays keeps the contents, drops all tombstones, leaves room for what was asked, and takes the first size that gives it |
| `BasicHash.BasicHash.MoveBucket` | base course/CF-1153.18/CFBasicHash.c:1199-1236 | one old bucket moves: there is always an empty place for it |
| `BasicHash.BasicHash.GrowFor` | base course/CF-1153.18/CFBasicHash.c:1259-1264 | after growing a full table there is a free bucket for the new key; below capacity there always was |
| `BasicHash.BasicHash.AddInFreeBucket` | base course/CF-1153.18/CFBasicHash.c:1265-1286 | filling a bucket adds the entry and keeps the counts of live buckets and of tombstones |
| `BasicHash.BasicHash.RemoveAt` | base course/CF-1153.18/CFBasicHash.c:1300-1330 | removing keeps the tombstone count right across its 16-bit roll-over, shrinks a table that is sparse and rehashes one before a quarter of it is tombstones, without changing the rest; a count above one leaves a remainder in the tombstone exactly if no rehash follows |
| `BasicHash.BasicHash.ShrinkOrRehash` | base course/CF-1153.18/CFBasicHash.c:1314-1329 | after a removal the table is shrunk to the first size that suffices when a size some way down would do, and rehashed in place when tombstones are too many or their count has rolled over; the contents stay |
| `BasicHash.BasicHash.BuryEntry` | base course/CF-1153.18/CFBasicHash.c:1300-1313 | the entry gives way to a tombstone and the live and 16-bit tombstone counts follow; no count stays behind exactly if it was one |
| `BasicHash.BasicHash.UsedIsSize` | base course/CF-1153.18/CFBasicHash.c:931-941 | the used buckets are as many as the entries of the map |
| `BasicHash.BasicHash.SetCapacity` | base course/CF-1153.18/CFBasicHash.c:1251-1257 | room for more entries, without changing any |
| `BasicHash.BasicHash.IncSlotCount` | base course/CF-1153.18/CFBasicHash.c:628-676 | a count goes up by one, in a wider array when it has to, and no other count changes |
| `BasicHash.BasicHash.BumpCounts` | base course/CF-1153.18/CFBasicHash.c:569-626 | counts survive the move to twice the width |
| `BasicHash.BasicHash.IndexForCapacity` | base course/CF-1153.18/CFBasicHash.c:702-708 | the first size whose capacity suffices |
| `BasicHash.BasicHash.AddIntValueAndInc` | base course/CF-1153.18/CFBasicHash.c:1413-1443 | a new key gets its number and the numbers from there on go up, in a table grown first if need be |
| `BasicHash.BasicHash.RemoveIntValueAndDec` | base course/CF-1153.18/CFBasicHash.c:1445-1465 | a key of the number goes, whatever its count, and the numbers above it go down; the counts stay in order if and only if the key's was one or the removal leads to a rehash |
| `BasicHash.LeaveCountBehind` | base course/CF-1153.18/CFBasicHash.c:1445-1465 | a key numbered, added again and removed by its number leaves an empty table with a tombstone that still counts |
| `BasicHash.BasicHash.RunEdits` | base course/CF-1153.18/CFBasicHash.c:1413-1465 | any run of numbered insertions and removals, however long, keeps keys and numbers 0..n-1 in one-to-one correspondence and edits the sequence they spell, wherever each insertion has room and each key removed is there once, as all are without counts |
| `HashMeaning.InsertIsInsertion` | base course/CF-1153.18/CFBasicHash.c:1424-1440 | making room for a number is insertion in the sequence if and only if there are fewer keys than the word that stands in for ~0 |
| `HashMeaning.InsertBreaksOrder` | base course/CF-1153.18/CFBasicHash.c:492-514 | at that size the highest number turns into ~0 |
| `HashMeaning.RemoveIsDeletion` | base course/CF-1153.18/CFBasicHash.c:1445-1465 | closing a gap is deletion from the sequence, always |
| `HashMeaning.OrderSize` | base course/CF-1153.18/CFBasicHash.c:1413-1465 | a table whose numbers run from 0 without gaps has as many keys as the sequence they spell |
| `HashMeaning.Encode` | base course/CF-1153.18/CFBasicHash.c:499-514 | no stored word looks like an empty or a deleted bucket |
| `HashMeaning.StoreAndLoad` | base course/CF-1153.18/CFBasicHash.c:492-514 | a word survives being stored exactly if it is not one of the two stand-ins |
| `HashMeaning.StandIns` | base course/CF-1153.18/CFBasicHash.c:299-300 | the stand-ins are 0xa7baadb1 for 0 and 0xa5baadb9 for ~0, and every other word is stored as it is |
| `HashMeaning.RunsAreTallies` | base course/CF-1153.18/CFBasicHash.c:1332-1411 | in any run the multiplicity of a key evolves as a counter of its own, undisturbed by other keys |
| `HashMeaning.RunsAreFollowed` | base course/CF-1153.18/CFBasicHash.c:1332-1411 | in any run what a key is mapped to, key, value and count, evolves on its own: setting puts a value there, replacing only where something was, adding keeps what was there |
| `HashMeaning.LastSetDecides` | base course/CF-1153.18/CFBasicHash.c:1364-1376 | a key has the key and value it was last set to, as long as it is not replaced or removed since |
| `HashMeaning.FastGrowthStaysInside` | base course/CF-1153.18/CFBasicHash.c:1136-1143 | growth that skips a size stays in the size table exactly up to the capacity of the last size but one |
| `HashMeaning.IndexIsFirst` | base course/CF-1153.18/CFBasicHash.c:702-708 | the size chosen for a capacity is the first that suffices |
| `HashMeaning.ShrunkIsNotSparse` | base course/CF-1153.18/CFBasicHash.c:1314-1322 | after shrinking the table is not sparse |
| `HashMeaning.SizesAlongRuns` | base course/CF-1153.18/CFBasicHash.c:1136-1143 | a full table takes the least size for one entry more, or the one after it; one that would fit two sizes down, or five, takes the least size for what is left |
| `HashTheory.EmptyStopsSearch` | base course/CF-1153.18/CFBasicHashFindBucket.m:51-132 | meeting an empty bucket before the key proves the key absent |
| `HashTheory.FillKeepsPlaced` | base course/CF-1153.18/CFBasicHash.c:1259-1286 | filling a vacancy or overwriting an equal key keeps every key reachable and unique |
| `HashTheory.DeleteKeepsPlaced` | base course/CF-1153.18/CFBasicHash.c:1300-1306 | a tombstone keeps every other key reachable |
| `HashTheory.ContentsAfterFill` | base course/CF-1153.18/CFBasicHash.c:1259-1286 | filling a bucket updates the map of contents at that key only |
| `HashTheory.ContentsAfterDelete` | base course/CF-1153.18/CFBasicHash.c:1300-1306 | a tombstone removes that key only |
| `HashTheory.MoveOne` | base course/CF-1153.18/CFBasicHash.c:1199-1236 | the next live bucket has a vacancy in the new table, and filling it moves that bucket |
| `HashTheory.TotalIsSum` | base course/CF-1153.18/CFBasicHash.c:931-941 | the counts of all buckets add up to the sum of multiplicities |
| `HashTheory.LiveAreEntries` | base course/CF-1153.18/CFBasicHash.c:931-941 | the live buckets are as many as the entries of the map |
| `HashTheory.SizesFit` | base course/CF-1153.18/CFBasicHash.c:218-260 | no capacity exceeds its number of buckets, and capacities ascend |
| `HashTheory.SizesAreGolden` | base course/CF-1153.18/CFBasicHash.c:218-260 | the table of sizes: small ones in numerals; from 191 buckets on, 0.6180339887 of them may be used, rounded; none past number 44 |
| `DequeArray.Deque.ReplaceValues` | base course/CF-1153.18/CFArray.c:922-993 | in every branch the array becomes the spliced sequence (first part, new values, last part), and the store has the size the rule for reallocation says |
| `DequeArray.Deque.RepositionRegions` | base course/CF-1153.18/CFArray.c:775-859 | both regions survive whichever way they are moved, with a gap of the new size between them inside the store |
| `DequeArray.Deque.Recentre` | base course/CF-1153.18/CFArray.c:834-858 | regions moved over one another in the right order lose nothing |
| `DequeArray.Deque.MoveRight` | base course/CF-1153.18/CFArray.c:818-824 | the right region moves and the left one stays |
| `DequeArray.Deque.MoveLeft` | base course/CF-1153.18/CFArray.c:825-833 | the left region moves and the right one stays |
| `DequeArray.Deque.Reallocate` | base course/CF-1153.18/CFArray.c:795-816 | the regions are copied apart into a larger store |
| `DequeArray.Deque.ReleaseValues` | base course/CF-1153.18/CFArray.c:197-240 | released places hold no value and the rest stays |
| `DequeArray.Deque.AppendValue` | base course/CF-1153.18/CFArray.c:686-693 | appends |
| `DequeArray.Deque.InsertValueAtIndex` | base course/CF-1153.18/CFArray.c:722-729 | inserts |
| `DequeArray.Deque.RemoveValueAtIndex` | base course/CF-1153.18/CFArray.c:753-760 | removes one |
| `DequeArray.Deque.SetValueAtIndex` | base course/CF-1153.18/CFArray.c:695-720 | overwrites one, or appends at the end; the value is then the one at that index |
| `DequeArray.Deque.ExchangeValuesAtIndices` | base course/CF-1153.18/CFArray.c:733-751 | exchanges two |
| `DequeArray.Deque.RemoveAllValues` | base course/CF-1153.18/CFArray.c:762-772 | gives up the store |
| `DequeArray.Deque.AppendArray` | base course/CF-1153.18/CFArray.c:1102-1108 | appends a range of another array, or of the same one, an item at a time, wherever each single append has room |
| `DequeArray.Deque.Run` | base course/CF-1153.18/CFArray.c:686-772 | any run of operations does to the array what it does to a sequence, the window staying inside the store, wherever each step finds a store of the size it needs |
| `DequeArray.StoreHoldsExactly` | base course/CF-1153.18/CFArray.c:782-817 | the store that a replacement leaves is large enough for the items if and only if the room condition asked of it holds |
| `DequeArray.SpareRoomSuffices` | base course/CF-1153.18/CFArray.c:793-797 | any operation in bounds has room while the items stay 8192 below 2^30, whatever the store's size, and keeps the store within 2^30 |
| `DequeArray.ReplacementIsEdit` | base course/CF-1153.18/CFArray.c:686-760 | appending, inserting, removing and setting at the end are replacements of a range, with the same effect on items and store |
| `DequeArray.EditedItems` | base course/CF-1153.18/CFArray.c:686-772 | for each operation, what is at every place after it and how many items there are |
| `DequeArray.SettingReplaces` | base course/CF-1153.18/CFArray.c:711-715 | setting a value in range replaces that one item and leaves the store as it is |
| `DequeArray.WiggleIs` | base course/CF-1153.18/CFArray.c:791-792 | the space to spare is a 131072nd of the store, and four at least |
| `DequeArray.StoreGrows` | base course/CF-1153.18/CFArray.c:793-797 | a store is kept while it holds the items with that space left over; a new one has as much to spare |
| `Capacities.RoundUpFits` | base course/CF-1153.18/CFArray.c:46-49 | rounding up gives more than was asked for if and only if that was below 2^30, where the shift still fits an int |
| `Capacities.RoundUpIs` | base course/CF-1153.18/CFArray.c:46-49 | from 2^k up to 2^(k+1) a capacity is rounded up to 2^(k+1); from 2^30 on that is -2^31, and past 2^31 it begins at 1 again |
| `ArraySearch.BSearchValues` | base course/CF-1153.18/CFArray.c:1074-1100 | the first place in a sorted range whose item is not below the value, for any total preorder |
| `ArraySearch.Narrow` | base course/CF-1153.18/CFArray.c:1088-1098 | every halving step keeps the place sought above idx and at most 2^lg beyond, every probe inside the range |
| `ArraySearch.ZSort` | base course/CF-1153.18/CFArray.c:1006-1018 | the range is sorted, items that compare level keep their order, and nothing outside changes |
| `ArraySearch.BubbleUp` | base course/CF-1153.18/CFArray.c:1009-1016 | one pass moves the highest item behind the others |
| `ArraySearch.SameLevelsSameItems` | base course/CF-1153.18/CFArray.c:1006-1018 | keeping level items in order implies keeping all items |
| `Utf8Converter.ToUTF8` | base course/CF-1153.18/CFBuiltinConverters.c:946-986 | units consumed, bytes counted and bytes written are those of the whole characters that fit, where a character beyond ASCII is offered the room left cut to 32 bits; counting has no limit |
| `Utf8Converter.ToUTF8Core` | base course/CF-1153.18/CFBuiltinConverters.c:923-944 | the bytes of one character, or none if they do not fit |
| `Utf8Converter.EncodedIsPrefix` | base course/CF-1153.18/CFBuiltinConverters.c:946-986 | the bytes are exactly the encoding of the units consumed, which never end inside a surrogate pair |
| `Utf8Converter.EncodedIsLongest` | base course/CF-1153.18/CFBuiltinConverters.c:946-986 | without a limit, or with one below 2^32, no longer prefix of whole characters would have fitted |
| `Utf8Converter.LongestExactly` | base course/CF-1153.18/CFBuiltinConverters.c:923-986 | a limit makes the encoder stop at the longest prefix that fits, for every string, if and only if it is below 2^32 |
| `Utf8Converter.EnoughExactly` | base course/CF-1153.18/CFBuiltinConverters.c:923-986 | three bytes for each unit are enough to encode every string whole if and only if the limit is below 2^32 |
| `Utf8Converter.NothingFitsIn32Bits` | base course/CF-1153.18/CFBuiltinConverters.c:976-979 | a buffer of 2^32 bytes takes nothing of the one character U+00E9, which needs two |
| `Utf8Converter.RestartingEncodesAll` | base course/CF-1153.18/CFBuiltinConverters.c:946-986 | calls that go on where the last one stopped encode a well-formed string whole when each limit leaves 4 or more modulo 2^32, as all from 4 to 2^32 - 1 do |
| `Utf8Converter.RestartingExactly` | base course/CF-1153.18/CFBuiltinConverters.c:946-986 | calls with one limit encode every well-formed string whole if and only if that limit leaves at least 4 modulo 2^32 |
| `Utf8Converter.FromUTF8` | base course/CF-1153.18/CFBuiltinConverters.c:1013-1106 | units given out are those of the segments that fit; bytes consumed are theirs, and four more when a supplementary character meets room for one unit |
| `Utf8Converter.ConsumedAreDecoded` | base course/CF-1153.18/CFBuiltinConverters.c:1090-1098 | the bytes consumed are those of the units given out, unless some prefix of whole segments fills all units but one and a four-byte sequence follows it; then they never are |
| `Utf8Converter.FourBytesPassedOver` | base course/CF-1153.18/CFBuiltinConverters.c:1090-1092 | the four bytes of U+10000 are passed over, and no unit given out, when there is room for one |
| `Utf8Converter.NextSegment` | base course/CF-1153.18/CFBuiltinConverters.c:1024-1060 | one step takes a well-formed sequence, or the byte 0xA9 alone as U+FFFD, and nothing else |
| `UnicodeForms.LoneByte` | base course/CF-1153.18/CFBuiltinConverters.c:1036-1043 | wherever a byte 0xA9 stands alone in a string of segments, the unit 0xFFFD is given out at its place |
| `Utf8Converter.LoneByteDecoded` | base course/CF-1153.18/CFBuiltinConverters.c:868-868 | the byte 0xA9 alone is decoded to the unit 0xFFFD whenever there is room |
| `UnicodeForms.OtherLoneBytes` | base course/CF-1153.18/CFBuiltinConverters.c:1036-1047 | no other byte from 0x80 to 0xBF begins a segment |
| `UnicodeForms.StandardExamples` | base course/CF-1153.18/CFBuiltinConverters.c:913-944 | the examples of section 7 of RFC 3629 and section 5 of RFC 2781, in numerals |
| `Utf8Converter.LegalIsWellFormed` | base course/CF-1153.18/CFBuiltinConverters.c:999-1011 | the legality checks amount to the grammar in section 4 of RFC 3629 |
| `Utf8Converter.AccumulatedScalar` | base course/CF-1153.18/CFBuiltinConverters.c:1046-1056 | sums with shifts of six minus the offset give the scalar value of the sequence |
| `Utf8Converter.DecodedIsPrefix` | base course/CF-1153.18/CFBuiltinConverters.c:1013-1106 | units are those of the whole segments consumed |
| `Utf8Converter.LongestSegmented` | base course/CF-1153.18/CFBuiltinConverters.c:1013-1106 | without a limit, what is consumed is the longest prefix made of well-formed sequences and lone bytes 0xA9 |
| `Utf8Converter.DecodedIsLongest` | base course/CF-1153.18/CFBuiltinConverters.c:1013-1106 | with a limit, the longest such prefix whose units fit |
| `Utf8Converter.FromUTF8Len` | base course/CF-1153.18/CFBuiltinConverters.c:1125-1192 | the length pass counts what decoding without a limit counts |
| `Utf8Converter.ToUTF8Len` | base course/CF-1153.18/CFBuiltinConverters.c:1108-1123 | the length pass adds up the bytes of every character, lone surrogates included, and cuts the sum to 32 bits |
| `Utf8Converter.LengthAgrees` | base course/CF-1153.18/CFBuiltinConverters.c:1108-1123 | its result is what the encoder that only counts gives if and only if the bytes encoded count less than 2^32 and those of the units it stops at a multiple of 2^32; for well-formed strings, if and only if the length is below 2^32; and for lengths below 2^32, if and only if there are no lone surrogates |
| `Utf8Converter.LengthSplits` | base course/CF-1153.18/CFBuiltinConverters.c:1108-1123 | before the cut it is the length encoded and that of the units the encoder stops at, which is zero exactly for well-formed strings |
| `Utf8Converter.LengthWrapsToNothing` | base course/CF-1153.18/CFBuiltinConverters.c:1109-1119 | 2^32 letters A are well-formed, take 2^32 bytes, and are given the length 0 |
| `Utf8Converter.LoneSurrogateWraps` | base course/CF-1153.18/CFBuiltinConverters.c:1109-1119 | a lone surrogate before 2^32 - 3 letters is encoded to nothing and given the length 0 |
| `Utf8Converter.UnitsRoundTrip` | base course/CF-1153.18/CFBuiltinConverters.c:946-1106 | for every well-formed UTF-16 string, decoding the encoding gives it back, with any room that suffices below 2^32 bytes |
| `Utf8Converter.BytesRoundTrip` | base course/CF-1153.18/CFBuiltinConverters.c:946-1106 | for every well-formed UTF-8 string, encoding the decoding gives it back, with any room that suffices below 2^32 bytes |
| `UnicodeForms.EncodingIsWellFormed` | base course/CF-1153.18/CFBuiltinConverters.c:913-944 | the encoding of a scalar value is a sequence of the grammar and stands for it |
| `UnicodeForms.WellFormedIsEncoding` | base course/CF-1153.18/CFBuiltinConverters.c:999-1011 | every sequence of the grammar is the encoding of the scalar value it stands for |
| `UnicodeForms.UnitsReturn` | base course/CF-1153.18/CFBuiltinConverters.c:962-972 | a unit string without lone surrogates is the encoding of its characters |
| `BigNumber.Add` | base course/CF-1153.18/CFBigNumber.c:465-509 | for any numbers of 32-bit digits the result, with a carry of weight 10^45, is the sum if and only if no column wraps around, also when the result is kept in an argument; for digits below 10^9 none does, and with one sign they stay below exactly if no column adds up to 10^9, while with different signs they always do, nothing is carried, and the result is a negative zero exactly if magnitudes agree and the first is negative |
| `BigNumber.AddDigits` | base course/CF-1153.18/CFBigNumber.c:468-482 | the carry loop: what the digits and the carry amount to falls short of the sum by 2^32 for each column that wraps, and for digits below 10^9 is that of a sum by hand |
| `BigNumber.SubtractDigits` | base course/CF-1153.18/CFBigNumber.c:493-502 | the borrow loop: what the digits amount to exceeds the difference by 2^32 for each column where one borrow is not enough, and for digits below 10^9 is the difference |
| `BigNumber.SummedNext` | base course/CF-1153.18/CFBigNumber.c:469-479 | one column keeps the sum right, and canonical as long as no column is exactly 10^9 |
| `BigNumber.ExactColumnExists` | base course/CF-1153.18/CFBigNumber.c:471-471 | 999999999 and 1 make such a column |
| `BigNumber.SmallColumnsFit` | base course/CF-1153.18/CFBigNumber.c:468-479 | digits up to 2 * 10^9, and so any that one addition leaves, do not wrap |
| `BigNumber.WrapExists` | base course/CF-1153.18/CFBigNumber.c:471-471 | 4294967295 and 1 make a column that wraps |
| `BigNumber.NothingOwed` | base course/CF-1153.18/CFBigNumber.c:484-508 | taking the lesser magnitude from the greater leaves no borrow |
| `BigNumber.Sub` | base course/CF-1153.18/CFBigNumber.c:511-515 | the value of the result, with the carry, is the difference if and only if no column wraps around |
| `BigNumber.Neg` | base course/CF-1153.18/CFBigNumber.c:448-463 | the sign changes unless the number is zero |
| `BigNumber.NegatedValue` | base course/CF-1153.18/CFBigNumber.c:448-463 | the value is negated, and twice is the number again unless it is zero |
| `BigNumber.Compare` | base course/CF-1153.18/CFBigNumber.c:416-431 | from the highest digit down, for any digits; below 10^9, as the order of numbers says |
| `BigNumber.ComparedIsTotal` | base course/CF-1153.18/CFBigNumber.c:416-431 | that is a total order, in which only equal numbers compare equal, whatever the digits |
| `BigNumber.ComparedIsOrder` | base course/CF-1153.18/CFBigNumber.c:416-431 | below 10^9 it is the order of values, negative numbers first |
| `BigNumber.CompareIsNumeric` | base course/CF-1153.18/CFBigNumber.c:416-431 | that order is numeric if and only if the two are not a zero and a negative zero |
| `BigNumber.AbsoluteLessThan` | base course/CF-1153.18/CFBigNumber.c:435-445 | the order of digit strings from the highest digit down; for digits below 10^9, of magnitudes |
| `BigNumber.LowerIsLess` | base course/CF-1153.18/CFBigNumber.c:435-445 | for digits below 10^9 that order is the order of magnitudes |
| `BigNumber.HighestDecides` | base course/CF-1153.18/CFBigNumber.c:435-445 | the highest digit that differs decides |
| `BigNumberText.PrintAndParse` | base course/CF-1153.18/CFBigNumber.c:518-571 | parsing undoes printing, whatever the flags, if and only if all digits are below 10^9 and the buffer has room for the sign, the significant digits and the NUL |
| `BigNumberText.ToCString` | base course/CF-1153.18/CFBigNumber.c:518-538 | the text in the buffer, for any digits: '-', or '+' when asked for, then the first 45 characters printed, padded to the buffer with zeros or stripped of them, cut to the room there is |
| `BigNumberText.BodyDecimal` | base course/CF-1153.18/CFBigNumber.c:518-538 | the text stands for the number if and only if all digits are below 10^9 and its significant characters fit |
| `BigNumberText.PrintedDecimal` | base course/CF-1153.18/CFBigNumber.c:526-527 | cut to nine characters a digit, the printed digits stand for the number if and only if all are below 10^9, and otherwise for less |
| `BigNumberText.BodyOfTmp` | base course/CF-1153.18/CFBigNumber.c:528-537 | what is copied out stands for what was printed if and only if there is room for its significant characters, and otherwise for less |
| `BigNumberText.TmpText` | base course/CF-1153.18/CFBigNumber.c:526-527 | five digits from the highest down, each printed with all its characters and nine at least, cut to 45 characters |
| `BigNumberText.PaddedShape` | base course/CF-1153.18/CFBigNumber.c:528-532 | with leading zeros the text fills its room and has the lowest digits |
| `BigNumberText.StrippedShape` | base course/CF-1153.18/CFBigNumber.c:533-537 | without them it begins with its first significant digit, or is a zero, and has the highest digits that fit |
| `BigNumberText.FromCString` | base course/CF-1153.18/CFBigNumber.c:540-571 | any text becomes its sign and, after leading zeros, its groups of nine characters from the end, each as atol reads it cut to 32 bits |
| `BigNumberText.ParsedExactly` | base course/CF-1153.18/CFBigNumber.c:540-571 | an optional sign and decimal digits give the number written if and only if it is below 2^32 * 10^36, and a canonical number if and only if it is below 10^45 |
| `BigNumberText.ReadDigits` | base course/CF-1153.18/CFBigNumber.c:558-569 | nine characters at a time from the end, the rest into the highest digit |
| `BigNumberText.LowerGroups` | base course/CF-1153.18/CFBigNumber.c:559-566 | groups of nine digits below the highest stand together for the digits they are made of |
| `BigNumberText.FieldOfDigits` | base course/CF-1153.18/CFBigNumber.c:567-568 | digits read as one 32-bit field stand for themselves if and only if they are below 2^32, and otherwise for less |
| `BigNumberText.AtolReads` | base course/CF-1153.18/CFBigNumber.c:561-568 | blanks, a sign and digits before anything else are read as their number, held at the ends of 64 bits |
| `BigNumberText.FieldOfNegative` | base course/CF-1153.18/CFBigNumber.c:561-568 | a minus inside a text counts its number down from 2^32 |
| `BigNumberIntegers.IntegersReturn` | base course/CF-1153.18/CFBigNumber.c:90-258 | every signed integer of 8 to 128 bits comes back from its number, the least of each width included |
| `BigNumberIntegers.UnsignedReturn` | base course/CF-1153.18/CFBigNumber.c:160-292 | every unsigned integer of 8 to 128 bits comes back from its number; of a signed one, its magnitude |
| `BigNumberIntegers.InitUnsignedValue` | base course/CF-1153.18/CFBigNumber.c:160-209 | the number made from an unsigned integer is canonical and has its value |
| `BigNumberIntegers.GetUnsignedIsCut` | base course/CF-1153.18/CFBigNumber.c:260-292 | an unsigned getter gives the magnitude cut to its width when it sees all non-zero digits, whatever the sign |
| `BigNumberIntegers.InitValue` | base course/CF-1153.18/CFBigNumber.c:90-158 | the number made from a signed integer is canonical and has its value |
| `BigNumberIntegers.GetIsWrapped` | base course/CF-1153.18/CFBigNumber.c:211-258 | a getter gives the value wrapped to its width when it sees all non-zero digits |
| `BigNumberIntegers.CreatedIntegers` | base course/CF-1153.18/CFBigNumber.c:366-414 | a number of digits below 10^9 becomes an integer if and only if it fits 128 bits, and then one of its value |
| `BigNumberIntegers.CreatedWrapped` | base course/CF-1153.18/CFBigNumber.c:366-414 | whatever the digits, the integer is the value wrapped to the width chosen, and the value itself if and only if it fits that width |
| `BigNumberIntegers.WrongIntegerExists` | base course/CF-1153.18/CFBigNumber.c:380-389 | digits of 4000000000 and 1, which stand for 5 * 10^9, pass for 32 bits and become 705032704 |
| `BigNumberIntegers.CreatedNarrow` | base course/CF-1153.18/CFBigNumber.c:366-414 | no narrower width would have held it, but that -128 and -32768 get a wider one |
| `BigNumberIntegers.LimitsOfWidths` | base course/CF-1153.18/CFBigNumber.c:366-414 | the limits of the widths in numerals |
| `BitVector.BitVector.InternalMap` | base course/CF-1153.18/CFBitVector.c:284-316 | the three phases map exactly the bits of the range as a bit-by-bit loop would, change no other, and count as one would count |
| `BitVector.MaskBits` | base course/CF-1153.18/CFBitVector.c:107-113 | the mask has exactly the bits from bottom to top |
| `BitVector.BitsAreWorth` | base course/CF-1153.18/CFBitVector.c:115-119 | bits from the left are worth 128 down to 1 |
| `BitVector.CapacityIsLeast` | base course/CF-1153.18/CFBitVector.c:50-53 | the capacity is the least multiple of 64 that has room |
| `BitVector.MapOne` | base course/CF-1153.18/CFBitVector.c:298-300 | one bucket blended under a mask extends the mapped range by the bits of the mask |
| `BitVector.CountInBucket` | base course/CF-1153.18/CFBitVector.c:323-333 | two table look-ups count the bits of a bucket |
| `BitVector.BitVector.GetCountOfBit` | base course/CF-1153.18/CFBitVector.c:335-344 | how many bits of the range have the value; the vector stays as it is |
| `BitVector.BitVector.ContainsBit` | base course/CF-1153.18/CFBitVector.c:346-350 | whether one does |
| `BitVector.BitVector.GetBitAtIndex` | base course/CF-1153.18/CFBitVector.c:115-119 | the bit |
| `BitVector.BitVector.SetBits` | base course/CF-1153.18/CFBitVector.c:501-511 | sets exactly the range |
| `BitVector.BitVector.FlipBits` | base course/CF-1153.18/CFBitVector.c:486-492 | flips exactly the range |
| `BitVector.BitVector.SetAllBits` | base course/CF-1153.18/CFBitVector.c:513-528 | sets every bit |
| `BitVector.BitVector.SetBitAtIndex` | base course/CF-1153.18/CFBitVector.c:121-129 | sets one bit |
| `BitVector.BitVector.FlipBitAtIndex` | base course/CF-1153.18/CFBitVector.c:131-135 | flips one bit |
| `BitVector.BitVector.SetCount` | base course/CF-1153.18/CFBitVector.c:456-473 | kept bits stay, and bits that come into view are zero, whatever the storage held |
| `BitVector.BitVector.Grow` | base course/CF-1153.18/CFBitVector.c:437-446 | reallocation keeps the bits |
| `BitVector.BitVector.constructor` | base course/CF-1153.18/CFBitVector.c:230-257 | the bits of the bytes, or zeros |
| `BinaryHeap.Heap.Run` | base course/CF-1153.18/CFBinaryHeap.c:367-440 | in every run, however long, the heap keeps its order, and what is removed is always a least value of those there, wherever each value added finds a place in the store or in the one it grows to |
| `BinaryHeap.PlacesHoldExactly` | base course/CF-1153.18/CFBinaryHeap.c:355-378 | the places an operation leaves hold the values if and only if that room condition holds |
| `BinaryHeap.DoesOneByOne` | base course/CF-1153.18/CFBinaryHeap.c:367-440 | an operation of a run value by value: adding counts one once more, and removing the minimum takes one that no other is below, once |
| `BinaryHeap.Heap.AddValue` | base course/CF-1153.18/CFBinaryHeap.c:367-396 | adds one value and keeps heap order |
| `BinaryHeap.Heap.SiftUp` | base course/CF-1153.18/CFBinaryHeap.c:380-395 | the hole moves up to where the value goes |
| `BinaryHeap.Heap.RemoveMinimumValue` | base course/CF-1153.18/CFBinaryHeap.c:398-430 | removes what GetMinimum names and keeps heap order |
| `BinaryHeap.Heap.SiftDown` | base course/CF-1153.18/CFBinaryHeap.c:413-429 | the hole moves down to where the value goes |
| `BinaryHeap.Heap.GetMinimum` | base course/CF-1153.18/CFBinaryHeap.c:308-312 | a least value, or none from an empty heap |
| `BinaryHeap.Heap.GetValues` | base course/CF-1153.18/CFBinaryHeap.c:321-337 | all values in ascending order; the heap stays as it is |
| `BinaryHeap.Heap.Drain` | base course/CF-1153.18/CFBinaryHeap.c:331-335 | taking minima until none is left gives the values in ascending order |
| `BinaryHeap.Heap.CreateCopy` | base course/CF-1153.18/CFBinaryHeap.c:212-269 | a heap of the same values |
| `BinaryHeap.Heap.Grow` | base course/CF-1153.18/CFBinaryHeap.c:355-365 | reallocation keeps the values and makes room |
| `BinaryHeap.RootIsLeast` | base course/CF-1153.18/CFBinaryHeap.c:308-312 | in heap order the first value is a least one, for any total preorder |
| `BinaryHeap.Rises` | base course/CF-1153.18/CFBinaryHeap.c:384-390 | moving a greater parent into the hole keeps the order elsewhere |
| `BinaryHeap.Sinks` | base course/CF-1153.18/CFBinaryHeap.c:414-428 | moving the lower child into the hole keeps the order elsewhere |
| `TicketSale.AlwaysSafe` | GCD/GCD/ViewController.swift:524-539 | in every interleaving of any number of sellers: at most one between wait and signal, stock never negative, tickets sold one after another counting down, stock and sold adding up to the start |
| `TicketSale.StepIsSafe` | GCD/GCD/ViewController.swift:524-539 | each single step keeps all of that |
| `TicketSale.NeverStuck` | GCD/GCD/ViewController.swift:524-539 | while a seller is not done, some seller can move |
| `TicketSale.RunsAreFinite` | GCD/GCD/ViewController.swift:524-539 | every run is finite: each step brings the end one nearer |
| `TicketSale.FinishedRuns` | GCD/GCD/ViewController.swift:487-539 | a run nobody can continue has five steps for each ticket and three for each seller, and has sold every ticket once, leaving none and the semaphore at 1 |
| `TicketSale.UnguardedIsRight` | GCD/GCD/ViewController.swift:505-519 | without the semaphore every run is right if and only if there is at most one seller, or nothing to sell |
| `TicketSale.SameTicketTwice` | GCD/GCD/ViewController.swift:505-519 | two sellers sell the same ticket |
| `TicketSale.BelowZero` | GCD/GCD/ViewController.swift:505-519 | the last ticket is sold twice and the stock is -1 |

## Left out

- The meaning of a dictionary's keys: a dictionary is its keys followed by its values, in order, and a file that repeats a key is not collapsed.
- Key-path filtering while reading a property list, and the two lookups that read one element of an array or dictionary without decoding the rest.
- The write stream's own errors, the size estimate of the writer, and the check that a CFData stream has taken every byte.
- PlistRoundTrip.RoundTrip: asks for fewer than 2^32 objects and a file no longer than LONG_MAX bytes, because reference numbers are 32-bit words and lengths signed.
- The meaning of reals and dates as numbers: their four or eight bytes are carried through unread.
- PlistRoundTrip.RoundTrip, and the writer and reader under it: the program's own collections inside them are taken as ideal. Its object list is a mutable array, which stops growing at 2^30 items (RoundUpFits); its reference table is a dictionary, which stops the program at the value 0xa5baadb9; and the reader's cache stops it at an object at the offset 0xa5baadb9 or 0xa7baadb1.
- BasicHash.BasicHash.FindBucket: the linear form, which every table in the repository asks for (CFDictionary.c:130, CFSet.c:130, CFBag.c:130, CFRuntime.c:974); the forms for double hashing, exponential hashing and indirect keys, and the cache of hash codes, are not modelled.
- BasicHash.BasicHash.FindBucketNoCollision: the linear form, likewise.
- BasicHash.BasicHash.RunEdits: asks that a key that is there more than once is not removed; see RemoveIntValueAndDec for what happens otherwise.
- Retaining and releasing of values, garbage-collector barriers, allocators, mutation counters and Objective-C dispatch, in every collection.
- Enumeration, equality, hashing and description of collections; the equality of bit vectors compares bits past the count and that of heaps inverts a comparison.
- Setting the capacity of an array, which copies the old capacity even into a smaller store, and sorting by the system's sort routine, which is not part of this model.
- Reading ranges of bits out to bytes, which loses bits when the range does not start at a bucket boundary, and the searches for the first and last bit of a value.
- Conversion with HFS+ or canonical decomposition, lossy and lenient conversion, and the 8-bit code pages.
- BigNumberText.FromCString: the library's atol is not part of this model; it is taken as the strtol it calls, which stops at the ends of a long.
- TicketSale: a test, a read and a write of the stock are single steps; the printing of each sale and the threads' names are left out.
- The other demos of the repository (user interface, networking, keychain, file clipping), and of CoreFoundation preferences, bundles, run loops, strings, dates and the thin interfaces of dictionaries, sets and bags over the hash table.
