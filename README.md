# MapReduce shuffle: doMap and doReduce

This project models the two task executors of a MapReduce library (the
2018 MIT 6.824 lab 1 design, `src/mapreduce`) and proves properties of them
in Dafny.

- **doMap** reads one input file and calls the application's `mapF` on its
  contents. It routes every emitted key/value record to reduce task
  `ihash(key) % nReduce`. Then, for each non-empty bucket, it opens the
  intermediate file (mapTask, bucket) in append mode and encodes the
  bucket's records into it.
- **ihash** is 32-bit FNV-1a over the key's bytes with the top bit cleared.
- **doReduce** reads the intermediate files (0, r) .. (nMap-1, r) in order
  and groups the values by key. It sorts the keys byte-wise and appends one
  record `(key, reduceF(key, values))` per key to the output file, which it
  opens in append mode.

The filesystem is a value:

- `Stores.Store` maps (map task, reduce task) to the records of that
  intermediate file. An absent pair is a file that does not exist.
- The reduce output is an `Option` of records. `None` means the file does
  not exist.
- The JSON record codec is taken to round-trip, so a file is its record
  sequence.
- I/O failures are inputs. `Stores.Fault` says that opening a file fails,
  or that encoding or decoding the record at a given position fails.
- Go's map iteration order in doMap's write loop is an input `order`: a
  permutation of the buckets.
- The log lines that end each executor become a status value
  (`MapTask.MapStatus`, `ReduceTask.ReduceStatus`).

Each executor is a method that follows the Go loops, and is proved equal to a
function of its inputs (`MapTask.MapTaskSpec`, `ReduceTask.ReduceTaskSpec`).
The properties are lemmas about those functions. Module `Shuffle` composes a
whole map phase with one reduce task.

Modules:

- `Records`: keys, values and records as byte strings.
- `Fnv`: the partition hash.
- `Stores`: files, append, faults.
- `ByteOrder`: Go's string order, sorting.
- `MapTask`: doMap.
- `ReduceTask`: doReduce.
- `Shuffle`: map phase followed by a reduce task.

## Model

| member | source | states |
|---|---|---|
| Records.KeysOf | src/mapreduce/common_reduce.go:76 | definition: the set of keys carried by a record sequence, the keys that end up in kvMap (its meaning is proved in `ReduceTask.GroupIsValuesOf`) |
| Fnv.PrimeShifts | src/mapreduce/common_map.go:108 | the 32-bit FNV prime 0x01000193 equals 2^24 + 2^8 + 2^7 + 2^4 + 2^1 + 1, the six shifts `Fnv.Round` adds up |
| Fnv.Round | src/mapreduce/common_map.go:109 | definition: one FNV-1a round of `Write`, xor the octet into the state, then multiply by the FNV prime modulo 2^32 (in shift-and-add form) |
| Fnv.Absorb | src/mapreduce/common_map.go:109 | definition: `Write` of a byte string, one round per octet from the front |
| Fnv.Sum32 | src/mapreduce/common_map.go:108-110 | definition: `New32a()`, `Write(s)`, `Sum32()`: the offset basis absorbed over the key |
| Fnv.Mask31 | src/mapreduce/common_map.go:110 | clearing bit 31 of the sum gives an int in [0, 2^31) |
| Fnv.IHash | src/mapreduce/common_map.go:107-111 | ihash is non-negative and below 2^31 for every key |
| Fnv.AbsorbConcat | src/mapreduce/common_map.go:108-109 | hashing a key written in two pieces equals hashing it at once: the hash depends only on the key's bytes |
| Fnv.Sum32Snoc | src/mapreduce/common_map.go:108-110 | one more key byte is one more FNV-1a round on the sum |
| Fnv.Sum32TestVectors | src/mapreduce/common_map.go:108-110 | the sum agrees with the published FNV-1a values for "", "a" and "foobar" |
| Stores.AppendTo | src/mapreduce/common_map.go:81-100 | opening with O_CREATE and O_APPEND and writing records: the file exists afterwards, holds its old records followed by the new ones, and no other file changes |
| Stores.AppendToTwice | src/mapreduce/common_map.go:91-100 | encoding records one at a time is one append of all of them |
| Stores.Attempt | src/mapreduce/common_map.go:81-100 | definition: the files after one open-and-encode attempt on a file: unchanged when the open fails, else the records before the failing one appended, or all of them |
| MapTask.Bucket | src/mapreduce/common_map.go:75 | the bucket of a key is below nReduce |
| MapTask.BucketAfter | src/mapreduce/common_map.go:75 | the bucket for any hash state and remaining bytes is below nReduce |
| MapTask.BucketAfterIsMod | src/mapreduce/common_map.go:107-111 | finishing the hash over the remaining bytes and then taking the remainder gives the bucket |
| MapTask.BucketIsIHashMod | src/mapreduce/common_map.go:75 | the bucket of a key is exactly ihash(key) % nReduce (Go's and Dafny's `%` agree on a non-negative hash) |
| MapTask.RoutedTo | src/mapreduce/common_map.go:74-77 | definition: the records of mapF's result whose key's bucket is b, in emission order |
| MapTask.RoutedToAppend | src/mapreduce/common_map.go:74-77 | routing a concatenation is routing each part, in order |
| MapTask.RoutedToCountOf | src/mapreduce/common_map.go:74-77 | a bucket holds every copy of each record whose key hashes to it and no other record |
| MapTask.RoutedToCount | src/mapreduce/common_map.go:74-77 | as RoutedToCountOf, for all records at once (multiset form) |
| MapTask.RoutedToBucket | src/mapreduce/common_map.go:74-77 | every record in bucket b was emitted and its key's bucket is b |
| MapTask.SameKeySameBucket | src/mapreduce/common_map.go:75 | records with the same key, from any map task, land in the same bucket |
| MapTask.AllBucketsCount | src/mapreduce/common_map.go:72-77 | buckets 0 .. upto-1 together hold each record as often as mapF emitted it, if its bucket is below upto, and never otherwise |
| MapTask.Conservation | src/mapreduce/common_map.go:72-77 | the nReduce buckets together are a permutation of mapF's output: nothing lost, nothing duplicated |
| MapTask.Partition | src/mapreduce/common_map.go:72-77 | definition: fileMap, built by appending each record to the entry of its bucket |
| MapTask.PartitionIsRouting | src/mapreduce/common_map.go:72-77 | the file map has an entry exactly for each non-empty bucket below nReduce, holding that bucket's records in emission order |
| MapTask.PartitionAt | src/mapreduce/common_map.go:72-77 | as PartitionIsRouting, for one bucket |
| MapTask.PartitionRecords | src/mapreduce/common_map.go:72-77 | the partition loop builds the file map of PartitionIsRouting |
| MapTask.WriteBuckets | src/mapreduce/common_map.go:79-104 | definition: the write loop over the buckets in iteration order, skipping buckets without records and stopping at the first fault with its status |
| MapTask.WriteFile | src/mapreduce/common_map.go:81-103 | one pass of the write loop leaves the store of `Stores.Attempt`: unchanged when the open fails, else the records before the failing one appended; it reports whether the fault interrupted |
| MapTask.WriteBucketsFaultFree | src/mapreduce/common_map.go:79-104 | when no bucket the loop visits is faulted, the write loop completes, appends each visited non-empty bucket to its file, and changes nothing else |
| MapTask.WriteBucketsStopsAtFault | src/mapreduce/common_map.go:81-99 | the first fault stops the loop: buckets written before it stay written (no rollback), the faulty file keeps the records encoded before the failure, later buckets are not opened |
| MapTask.EarlierBucketsWritten | src/mapreduce/common_map.go:79-98 | in a run stopped by a fault at bucket b, every non-empty bucket visited before b is fully written to its file, after the file's old records |
| MapTask.WriteBucketsAppendOnly | src/mapreduce/common_map.go:79-104 | under any order and faults, files only grow by appending, and only files of this map task with a non-empty bucket are touched |
| MapTask.MapTaskSpec | src/mapreduce/common_map.go:58-104 | definition: doMap as a function of input contents, mapF, iteration order, faults and files: a read failure or an empty result changes nothing, otherwise the write loop over fileMap |
| MapTask.MapTaskSuccess | src/mapreduce/common_map.go:58-104 | without faults, file (mapTask, b) gains exactly bucket b's records for every b < nReduce and is created only if that bucket is non-empty; an empty mapF result changes nothing |
| MapTask.MapTaskAppendOnly | src/mapreduce/common_map.go:58-104 | a failed read or an empty mapF result leaves every file as it was; otherwise only this task's files below nReduce change, and only by appending |
| MapTask.DoMap | src/mapreduce/common_map.go:11-105 | the executor returns the status and the files of MapTaskSpec for every input, order and fault |
| ByteOrder.Less | src/mapreduce/common_reduce.go:87 | definition: Go's `<` on strings, lexicographic on unsigned bytes with a proper prefix first |
| ByteOrder.LessIrreflexive | src/mapreduce/common_reduce.go:87 | Go's byte-wise string order is irreflexive |
| ByteOrder.LessAsymmetric | src/mapreduce/common_reduce.go:87 | the order is asymmetric |
| ByteOrder.LessTransitive | src/mapreduce/common_reduce.go:87 | the order is transitive |
| ByteOrder.LessTotal | src/mapreduce/common_reduce.go:87 | two different keys are ordered one way or the other |
| ByteOrder.LeastExists | src/mapreduce/common_reduce.go:87 | every non-empty finite set of keys has a least key |
| ByteOrder.SortedSeqOf | src/mapreduce/common_reduce.go:82-87 | every finite set of keys has a strictly ascending listing with exactly its keys |
| ByteOrder.SortedUnique | src/mapreduce/common_reduce.go:87 | two strictly ascending lists with the same keys are equal, so the sorted key list does not depend on map order |
| ByteOrder.SortedPlacement | src/mapreduce/common_reduce.go:87 | a key placed between its smaller and its greater keys keeps a list strictly sorted |
| ByteOrder.Insert | src/mapreduce/common_reduce.go:87 | inserting a new key into a strictly sorted list keeps it strictly sorted and adds exactly that key |
| ByteOrder.SortKeys | src/mapreduce/common_reduce.go:87 | sorting a duplicate-free key list gives a strictly ascending list with the same keys and length |
| ReduceTask.ReadPhase | src/mapreduce/common_reduce.go:54-80 | definition: the read loop over files (0, r) .. (nMap-1, r): Missing, OpenFailed or DecodeFailed for the first file that fails, else all records read in order |
| ReduceTask.Gather | src/mapreduce/common_reduce.go:55-80 | definition: reference, the records of files (0, r) .. (nMap-1, r) laid end to end, a missing file holding none |
| ReduceTask.ReadPhaseOutcome | src/mapreduce/common_reduce.go:54-80 | the read phase succeeds exactly when every file (m, r), m < nMap, exists and reads without fault, and then yields all their records in map-task order; otherwise it names the first unreadable file, and the reason is Missing exactly when that file does not exist |
| ReduceTask.ReadPhaseFailureSticks | src/mapreduce/common_reduce.go:57-74 | a read failure returns at once: later files do not change the outcome |
| ReduceTask.ValuesOf | src/mapreduce/common_reduce.go:76 | definition: reference, the values of one key in a record sequence, in encounter order |
| ReduceTask.ValuesOfAppend | src/mapreduce/common_reduce.go:76 | a key's values from two record runs are the first run's values followed by the second's |
| ReduceTask.GatherValuesOrder | src/mapreduce/common_reduce.go:55-80 | a key's values from map task nMap come after those from map tasks 0 .. nMap-1 |
| ReduceTask.Group | src/mapreduce/common_reduce.go:52-77 | definition: kvMap after decoding a record sequence, each value appended to its key's list |
| ReduceTask.GroupSnoc | src/mapreduce/common_reduce.go:76 | decoding one more record appends its value to its key's list |
| ReduceTask.GroupAt | src/mapreduce/common_reduce.go:52-80 | kvMap has an entry exactly for each key read, holding all of that key's values in encounter order |
| ReduceTask.ValuesOfAbsent | src/mapreduce/common_reduce.go:76 | a key not read has no values |
| ReduceTask.GroupIsValuesOf | src/mapreduce/common_reduce.go:52-80 | kvMap's keys are exactly the keys read, and each entry is that key's values in encounter order |
| ReduceTask.CountKeysSplit | src/mapreduce/common_reduce.go:76 | the records with keys in a set are those of one key plus those of the rest |
| ReduceTask.CountKeysAll | src/mapreduce/common_reduce.go:76 | every record read has a key in kvMap |
| ReduceTask.CountKeysNone | src/mapreduce/common_reduce.go:76 | no record has a key in the empty set |
| ReduceTask.TotalValuesCount | src/mapreduce/common_reduce.go:76-87 | over a strictly sorted key list, the value lists hold as many values as there are records with those keys |
| ReduceTask.ValuesConserved | src/mapreduce/common_reduce.go:76-87 | the value lists of the sorted keys hold exactly as many values as records were decoded |
| ReduceTask.ReduceOutput | src/mapreduce/common_reduce.go:97-108 | definition: the records encoded for kList, one per key in order, reduceF of the key and its values |
| ReduceTask.ReduceOutputAt | src/mapreduce/common_reduce.go:99-100 | the output has one record per key of kList, in kList's order, carrying reduceF of the key and its values |
| ReduceTask.KeyList | src/mapreduce/common_reduce.go:99-100 | the keys of the output records, position by position |
| ReduceTask.SortedOutput | src/mapreduce/common_reduce.go:97-108 | for a strictly sorted kList the output keys are kList and each value is reduceF of its key's values |
| ReduceTask.AppendOutput | src/mapreduce/common_reduce.go:89-108 | definition: the output after the write phase: unchanged on an open failure, else the records before the failing one appended, or all of them |
| ReduceTask.Reduced | src/mapreduce/common_reduce.go:82-108 | definition: the records a reduce task appends for the records it read: kvMap's keys sorted, each reduced |
| ReduceTask.ReduceTaskSpec | src/mapreduce/common_reduce.go:52-111 | definition: doReduce as a function of the files, reduceF, the faults and the old output |
| ReduceTask.ReducedRecords | src/mapreduce/common_reduce.go:82-108 | a reduce task appends one record per distinct key read, no key twice, keys strictly ascending byte-wise, each with reduceF of all its values in encounter order |
| ReduceTask.ReduceTaskSuccess | src/mapreduce/common_reduce.go:52-108 | when all files are readable and the output does not fail, the old output is kept and the reduced records of all input files are appended |
| ReduceTask.NoKeysCreatesEmptyOutput | src/mapreduce/common_reduce.go:82-99 | when nothing was read and the output opens, the output exists afterwards and nothing is appended |
| ReduceTask.RerunDuplicates | src/mapreduce/common_reduce.go:90 | running the same reduce task twice appends the same block of records twice; the output is not idempotent under retry |
| ReduceTask.ReadFailureLeavesOutput | src/mapreduce/common_reduce.go:57-74 | if any input file is unreadable the task fails at or before it, and the output is left as it was, not even created |
| ReduceTask.DecodeFile | src/mapreduce/common_reduce.go:64-77 | the decode loop succeeds exactly when no fault interrupts the file, and then kvMap is the grouping of all records read so far |
| ReduceTask.ReadIntermediate | src/mapreduce/common_reduce.go:52-80 | the read loop returns the read phase's failure, or the grouping of all records read |
| ReduceTask.SortedKeys | src/mapreduce/common_reduce.go:82-87 | the key list is strictly ascending and holds exactly kvMap's keys, whatever order the map yields them in |
| ReduceTask.WriteOutput | src/mapreduce/common_reduce.go:89-108 | the write phase leaves the output unchanged when the open fails, else appends the records for kList up to the failing one, or all of them |
| ReduceTask.DoReduce | src/mapreduce/common_reduce.go:10-112 | the executor returns the status and output of ReduceTaskSpec for every input and fault |
| Shuffle.Emitted | src/mapreduce/common_map.go:66 | definition: the records mapF returns for each input shard, in map-task order |
| Shuffle.EmittedRouting | src/mapreduce/common_map.go:74-77 | bucket r of everything the map tasks emitted is bucket r of each map task, in map-task order |
| Shuffle.RoutedKeySound | src/mapreduce/common_map.go:74-77 | a key in bucket r was emitted, and its bucket is r |
| Shuffle.RoutedKeyComplete | src/mapreduce/common_map.go:74-77 | every emitted key whose bucket is r appears in bucket r |
| Shuffle.RoutedKeys | src/mapreduce/common_map.go:74-77 | the keys of bucket r are exactly the emitted keys whose bucket is r |
| Shuffle.RoutedValues | src/mapreduce/common_map.go:74-77 | bucket r holds all of a routed key's values in emission order |
| Shuffle.MapPhase | src/mapreduce/common_map.go:58-104 | definition: map tasks 0 .. nMap-1 run one after another as written, without faults, from no intermediate files |
| Shuffle.MapPhaseFile | src/mapreduce/common_map.go:66-104 | after all map tasks run without faults, file (m, b) exists exactly when map task m routed a record to bucket b, and holds exactly those records |
| Shuffle.MapPhaseFiles | src/mapreduce/common_map.go:66-104 | as MapPhaseFile, for all files at once |
| Shuffle.MissingBucketAbortsReduce | src/mapreduce/common_reduce.go:55-62 | as written, if some map task routed nothing to bucket r, reduce task r fails on a missing file and leaves its output as it was |
| Shuffle.GatherAsWritten | src/mapreduce/common_reduce.go:55-80 | as written, reading files (0, r) .. (n-1, r) after the map phase yields bucket r of what the first n map tasks emitted, counting a file never created as empty |
| Shuffle.ShuffleAsWritten | src/mapreduce/common_reduce.go:10-112 | as written, when every map task routed a record to bucket r, reduce task r succeeds and creates an output holding the reduction of bucket r of everything emitted |
| Shuffle.WriteAllBuckets | src/mapreduce/common_map.go:23-27 | definition: the corrected write loop, appending every bucket of a map task to its file, empty or not |
| Shuffle.WriteAllBucketsFile | src/mapreduce/common_map.go:23-27 | writing all buckets creates file (mapTask, b) for every b and appends bucket b to it, touching no other file |
| Shuffle.Buckets | src/mapreduce/common_map.go:72-77 | definition: the list of all nReduce buckets of a map task's records, bucket b at position b |
| Shuffle.MapPhaseAllBuckets | src/mapreduce/common_map.go:23-27 | definition: the corrected map phase, map tasks one after another, each creating all nReduce files |
| Shuffle.MapPhaseAllBucketsFile | src/mapreduce/common_map.go:23-27 | with one file per reduce task, file (m, b) exists exactly for m < number of map tasks and b < nReduce, and holds map task m's bucket b |
| Shuffle.MapPhaseAllBucketsFiles | src/mapreduce/common_map.go:23-27 | as MapPhaseAllBucketsFile, for all files at once |
| Shuffle.GatherIsRouted | src/mapreduce/common_reduce.go:55-80 | for the corrected map phase (one file per reduce task), reading files (0, r) .. (n-1, r) yields bucket r of what the first n map tasks emitted; `Shuffle.GatherAsWritten` states the same for the map phase as written |
| Shuffle.GatherAll | src/mapreduce/common_reduce.go:55-80 | for the corrected map phase, reduce task r reads exactly bucket r of everything emitted |
| Shuffle.AllBucketsReadable | src/mapreduce/common_reduce.go:55-62 | with one file per reduce task and no faults, every input of reduce task r is readable |
| Shuffle.ShuffleRun | src/mapreduce/common_reduce.go:10-112 | for the corrected map phase (one file per reduce task), reduce task r succeeds and creates an output holding the reduction of bucket r of everything emitted |
| Shuffle.ReducedBucket | src/mapreduce/common_reduce.go:82-108 | reducing bucket r gives one record per emitted key whose bucket is r, keys strictly ascending, each reduced over all of the key's values |
| Shuffle.ShuffleCorrect | src/mapreduce/common_reduce.go:17-21 | end to end, for the corrected map phase: reduce task r outputs exactly the emitted keys routed to it, sorted and without duplicates, each reduced over all its values from every map task in map-task then emission order (as written, `Shuffle.ShuffleAsWritten` gives the same output when no map task leaves bucket r empty) |
| Shuffle.EmptyKeyBucket | src/mapreduce/common_map.go:107-111 | the empty key goes to bucket 1 of 2 (ihash("") = 0x011c9dc5 is odd) |
| Shuffle.EmptyBucketAsWritten | src/mapreduce/common_map.go:72-104 | as written, one map task emitting only the empty key leaves reduce task 0 failing on a missing file, with no output |
| Shuffle.EmptyBucketFixed | src/mapreduce/common_map.go:23-27 | with one file per reduce task, the same run lets reduce task 0 succeed with an empty output |

## Left out

- File I/O itself (`ioutil.ReadFile`, `os.Open`, `os.OpenFile`, `Close`) is not modelled. Files are values, and a failure is an injected `Stores.Fault` or an absent input.
- The JSON encoder and decoder are taken to round-trip, so a file is its record sequence. Malformed JSON is a decode fault at a record position. This hides one difference: Go's JSON encoder replaces bytes that are not valid UTF-8 with U+FFFD, so a key or value that is not valid UTF-8 is hashed on its raw bytes by doMap but decoded as different text by doReduce. The model keeps the raw bytes throughout.
- A failing encode that has already written part of a record is not modelled. The record before the fault is kept whole and the failing one is dropped.
- `reduceName` and `jobName` are not modelled. File (m, r) is named by the pair, which assumes `reduceName` is injective. doMap's file map is keyed by that name, and the model keys it by bucket.
- Logging is not modelled. Each log-and-return becomes a status value.
- The second `reduceF` call inside the encode-error log line (common_reduce.go:104) only feeds the log, so it is not modelled.
- Go's map iteration order is not modelled. In doMap's write loop it is the `order` parameter. In doReduce's key collection it is an arbitrary choice (`:|`), made harmless by sorting.
- `sort.Strings` is modelled by a verified insertion sort on a sequence. Its own algorithm and its in-place update of a slice are not modelled, only its result.
- UTF-8 is not modelled. Keys and values are byte strings, as Go strings are, and `[]byte(s)` in ihash is the identity.
- Job orchestration is not modelled: scheduling, parallel map tasks, merging reduce outputs and cleanup. `Shuffle` runs the map tasks one after another without faults and then one reduce task.
- Fnv.Round: one FNV-1a round is the shift-and-add form of the multiply by the FNV prime (`Fnv.PrimeShifts` gives the decomposition). Equality with the bv32 multiply is not proved. `Fnv.Sum32TestVectors` checks the result against published FNV-1a sums.
- ByteOrder.SortKeys: requires a duplicate-free list. Its only caller passes the keys of a map, which are distinct. `sort.Strings` itself also accepts duplicates.
- MapTask.DoMap: requires nReduce > 0. With nReduce = 0 the Go `%` panics, and a panic is not modelled.
- Shuffle.MapPhase: runs map tasks without faults, from no intermediate files. Faults within one map task are covered by `MapTask.WriteBucketsStopsAtFault` and `MapTask.MapTaskAppendOnly`.

## Findings

| source | as written | input that shows it | evidently intended | confidence | as-written member | corrected member |
|---|---|---|---|---|---|---|
| src/mapreduce/common_map.go:67-104 | doMap creates an intermediate file only for a non-empty bucket, and no file at all when mapF returns nothing. doReduce returns at the first file it cannot open (common_reduce.go:57-62). So reduce task r writes no output, not even an empty file, as soon as one map task routed nothing to bucket r. | nMap = 1, nReduce = 2, mapF emits one record with the empty key. ihash("") = 0x011c9dc5 is odd, so the key goes to bucket 1, file (0, 0) is never created, and reduce task 0 fails with no output. | every map task creates one intermediate file per reduce task (common_map.go:23-27), empty if its bucket is empty, so every reduce task finds all nMap files and writes its output | not executed | Shuffle.EmptyBucketAsWritten | Shuffle.EmptyBucketFixed |
