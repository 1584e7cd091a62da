/** The map task executor (doMap): read one input file, apply mapF, route every
    record to the bucket ihash(key) % nReduce, and append each non-empty bucket
    to the intermediate file (mapTask, bucket). */
module MapTask {
  import opened Records
  import opened Stores
  import Fnv

  /** How a map task ends. The source only logs; the log line becomes a status. */
  datatype MapStatus =
    | MapDone
    | InputReadError
    | EmptyMapOutput
    | IntermediateOpenError(bucket: nat)
    | IntermediateEncodeError(bucket: nat)

  /** The reduce task a key is routed to: ihash(key) % nReduce. The hash is
      non-negative, so Go's `%` and Dafny's agree here. It is computed as one fold
      over the key's octets that finishes the hash and takes the remainder at the
      end, so that a bucket only unfolds one octet at a time in proofs;
      BucketIsIHashMod shows it is ihash(key) % nReduce. */
  function Bucket(key: Text, nReduce: nat): (b: nat)
    requires nReduce > 0
    ensures b < nReduce
  {
    BucketAfter(Fnv.OffsetBasis32, key, nReduce)
  }

  /** The bucket of the rest `s` of a key when the hash state is `h`. */
  function BucketAfter(h: bv32, s: Text, nReduce: nat): (b: nat)
    requires nReduce > 0
    ensures b < nReduce
    decreases |s|
  {
    if s == [] then Fnv.Mask31(h) % nReduce else BucketAfter(Fnv.Round(h, s[0]), s[1..], nReduce)
  }

  lemma {:induction false} BucketAfterIsMod(h: bv32, s: Text, nReduce: nat)
    requires nReduce > 0
    ensures BucketAfter(h, s, nReduce) == Fnv.Mask31(Fnv.Absorb(h, s)) % nReduce
    decreases |s|
  {
    if s != [] {
      BucketAfterIsMod(Fnv.Round(h, s[0]), s[1..], nReduce);
    }
  }

  /** The bucket is ihash(key) % nReduce. */
  lemma BucketIsIHashMod(key: Text, nReduce: nat)
    requires nReduce > 0
    ensures Bucket(key, nReduce) == Fnv.IHash(key) % nReduce
  {
    BucketAfterIsMod(Fnv.OffsetBasis32, key, nReduce);
  }

  /** Reference definition of a bucket: the records of `rs` whose key is routed
      to `b`, in their order in `rs`. */
  function RoutedTo(rs: seq<KeyValue>, nReduce: nat, b: nat): seq<KeyValue>
    requires nReduce > 0
    decreases |rs|
  {
    if rs == [] then []
    else (if Bucket(rs[0].key, nReduce) == b then [rs[0]] else []) + RoutedTo(rs[1..], nReduce, b)
  }

  /** Routing keeps order: the bucket of a concatenation is the concatenation of the buckets. */
  lemma {:induction false} RoutedToAppend(a: seq<KeyValue>, c: seq<KeyValue>, nReduce: nat, b: nat)
    requires nReduce > 0
    ensures RoutedTo(a + c, nReduce, b) == RoutedTo(a, nReduce, b) + RoutedTo(c, nReduce, b)
    decreases |a|
  {
    if a == [] {
      assert a + c == c;
    } else {
      assert (a + c)[0] == a[0];
      assert (a + c)[1..] == a[1..] + c;
      RoutedToAppend(a[1..], c, nReduce, b);
    }
  }

  /** A record occurs in bucket `b` exactly as often as in `rs` when `b` is its
      key's bucket, and never otherwise. */
  lemma {:induction false} RoutedToCountOf(rs: seq<KeyValue>, nReduce: nat, b: nat, x: KeyValue)
    requires nReduce > 0
    ensures multiset(RoutedTo(rs, nReduce, b))[x] ==
            (if Bucket(x.key, nReduce) == b then multiset(rs)[x] else 0)
    decreases |rs|
  {
    if rs != [] {
      RoutedToCountOf(rs[1..], nReduce, b, x);
      assert rs == [rs[0]] + rs[1..];
    }
  }

  lemma RoutedToCount(rs: seq<KeyValue>, nReduce: nat, b: nat)
    requires nReduce > 0
    ensures forall x ::
              multiset(RoutedTo(rs, nReduce, b))[x] ==
              (if Bucket(x.key, nReduce) == b then multiset(rs)[x] else 0)
  {
    forall x ensures multiset(RoutedTo(rs, nReduce, b))[x] ==
                     (if Bucket(x.key, nReduce) == b then multiset(rs)[x] else 0) {
      RoutedToCountOf(rs, nReduce, b, x);
    }
  }

  /** Every record in bucket `b` comes from `rs` and satisfies ihash(key) % nReduce == b. */
  lemma RoutedToBucket(rs: seq<KeyValue>, nReduce: nat, b: nat, x: KeyValue)
    requires nReduce > 0
    requires x in RoutedTo(rs, nReduce, b)
    ensures x in rs && Bucket(x.key, nReduce) == b
  {
    RoutedToCount(rs, nReduce, b);
    assert multiset(RoutedTo(rs, nReduce, b))[x] > 0;
  }

  /** The bucket depends on the key's bytes alone: records with one key, emitted
      by any two map tasks, land in the same bucket. */
  lemma SameKeySameBucket(rs1: seq<KeyValue>, rs2: seq<KeyValue>, nReduce: nat, b1: nat, b2: nat, x: KeyValue, y: KeyValue)
    requires nReduce > 0
    requires x in RoutedTo(rs1, nReduce, b1) && y in RoutedTo(rs2, nReduce, b2)
    requires x.key == y.key
    ensures b1 == b2
  {
    RoutedToBucket(rs1, nReduce, b1, x);
    RoutedToBucket(rs2, nReduce, b2, y);
  }

  /** Buckets 0 .. upto-1 laid end to end. */
  function AllBuckets(rs: seq<KeyValue>, nReduce: nat, upto: nat): seq<KeyValue>
    requires nReduce > 0
  {
    if upto == 0 then [] else AllBuckets(rs, nReduce, upto - 1) + RoutedTo(rs, nReduce, upto - 1)
  }

  lemma {:induction false} AllBucketsCount(rs: seq<KeyValue>, nReduce: nat, upto: nat, x: KeyValue)
    requires nReduce > 0
    ensures multiset(AllBuckets(rs, nReduce, upto))[x] ==
            (if Bucket(x.key, nReduce) < upto then multiset(rs)[x] else 0)
  {
    if upto > 0 {
      var prev := AllBuckets(rs, nReduce, upto - 1);
      var cur := RoutedTo(rs, nReduce, upto - 1);
      var bx, total := Bucket(x.key, nReduce), multiset(rs)[x];
      AllBucketsCount(rs, nReduce, upto - 1, x);
      assert multiset(prev)[x] == (if bx < upto - 1 then total else 0);
      RoutedToCountOf(rs, nReduce, upto - 1, x);
      assert multiset(cur)[x] == (if bx == upto - 1 then total else 0);
      assert AllBuckets(rs, nReduce, upto) == prev + cur;
      assert multiset(prev + cur)[x] == multiset(prev)[x] + multiset(cur)[x];
      CountStep(multiset(prev)[x], multiset(cur)[x], bx, upto, total);
    }
  }

  /** The arithmetic of one step of AllBucketsCount. */
  lemma CountStep(p: int, c: int, bx: nat, upto: nat, total: int)
    requires upto > 0
    requires p == (if bx < upto - 1 then total else 0)
    requires c == (if bx == upto - 1 then total else 0)
    ensures p + c == (if bx < upto then total else 0)
  {
  }

  /** Conservation: together the nReduce buckets hold exactly the records of
      mapF's result, none dropped and none duplicated. */
  lemma Conservation(rs: seq<KeyValue>, nReduce: nat)
    requires nReduce > 0
    ensures multiset(AllBuckets(rs, nReduce, nReduce)) == multiset(rs)
    ensures |AllBuckets(rs, nReduce, nReduce)| == |rs|
  {
    forall x ensures multiset(AllBuckets(rs, nReduce, nReduce))[x] == multiset(rs)[x] {
      AllBucketsCount(rs, nReduce, nReduce, x);
    }
    assert multiset(AllBuckets(rs, nReduce, nReduce)) == multiset(rs);
    assert |multiset(AllBuckets(rs, nReduce, nReduce))| == |multiset(rs)|;
  }

  /** The `fileMap` that doMap's partition loop builds from the records `rs`. */
  function Partition(rs: seq<KeyValue>, nReduce: nat): map<nat, seq<KeyValue>>
    requires nReduce > 0
    decreases |rs|
  {
    if rs == [] then map[]
    else
      var p := Partition(rs[..|rs| - 1], nReduce);
      var v := rs[|rs| - 1];
      var b := Bucket(v.key, nReduce);
      p[b := (if b in p then p[b] else []) + [v]]
  }

  /** `fileMap` holds exactly the non-empty buckets, each as the reference
      definition gives it. */
  lemma {:induction false} PartitionIsRouting(rs: seq<KeyValue>, nReduce: nat)
    requires nReduce > 0
    ensures forall b: nat :: b in Partition(rs, nReduce) <==> b < nReduce && RoutedTo(rs, nReduce, b) != []
    ensures forall b: nat :: b in Partition(rs, nReduce) ==> Partition(rs, nReduce)[b] == RoutedTo(rs, nReduce, b)
  {
    forall b: nat
      ensures b in Partition(rs, nReduce) <==> b < nReduce && RoutedTo(rs, nReduce, b) != []
      ensures b in Partition(rs, nReduce) ==> Partition(rs, nReduce)[b] == RoutedTo(rs, nReduce, b)
    {
      PartitionAt(rs, nReduce, b);
    }
  }

  lemma {:induction false} PartitionAt(rs: seq<KeyValue>, nReduce: nat, b: nat)
    requires nReduce > 0
    ensures b in Partition(rs, nReduce) <==> b < nReduce && RoutedTo(rs, nReduce, b) != []
    ensures b in Partition(rs, nReduce) ==> Partition(rs, nReduce)[b] == RoutedTo(rs, nReduce, b)
    decreases |rs|
  {
    if rs != [] {
      var init, v := rs[..|rs| - 1], rs[|rs| - 1];
      PartitionAt(init, nReduce, b);
      assert rs == init + [v];
      RoutedToAppend(init, [v], nReduce, b);
      assert RoutedTo([v], nReduce, b) == if Bucket(v.key, nReduce) == b then [v] else [];
    }
  }

  /** The write loop of doMap, visiting the buckets in `order` (Go's map iteration
      order, an input here): a bucket not in `fileMap` is skipped; a fault stops
      the task at once, leaving earlier buckets written. */
  function WriteBuckets(store: Store, mapTask: nat, fileMap: map<nat, seq<KeyValue>>, order: seq<nat>, faults: map<nat, Fault>): (MapStatus, Store)
    decreases |order|
  {
    if order == [] then (MapDone, store)
    else
      var b := order[0];
      if b !in fileMap then WriteBuckets(store, mapTask, fileMap, order[1..], faults)
      else
        var fault := FaultFor(faults, b);
        var next := Attempt(store, (mapTask, b), fileMap[b], fault);
        if !Interrupts(fault, fileMap[b]) then WriteBuckets(next, mapTask, fileMap, order[1..], faults)
        else if fault == Some(OpenFails) then (IntermediateOpenError(b), next)
        else (IntermediateEncodeError(b), next)
  }

  /** No order lists a bucket twice. */
  predicate Distinct(order: seq<nat>) {
    forall i, j :: 0 <= i < j < |order| ==> order[i] != order[j]
  }

  /** `order` visits each bucket of [0, nReduce) exactly once. */
  predicate IsBucketOrder(order: seq<nat>, nReduce: nat) {
    && Distinct(order)
    && (forall i :: 0 <= i < |order| ==> order[i] < nReduce)
    && (forall b :: 0 <= b < nReduce ==> b in order)
  }

  /** When no fault interrupts a bucket it visits, the write loop appends every
      bucket it visits to its file and touches nothing else. */
  lemma {:induction false} WriteBucketsFaultFree(store: Store, mapTask: nat, fileMap: map<nat, seq<KeyValue>>, order: seq<nat>, faults: map<nat, Fault>)
    requires Distinct(order)
    requires forall b :: b in fileMap && b in order ==> !Interrupts(FaultFor(faults, b), fileMap[b])
    ensures WriteBuckets(store, mapTask, fileMap, order, faults).0 == MapDone
    ensures forall f :: var s' := WriteBuckets(store, mapTask, fileMap, order, faults).1;
      && (f in s' <==> f in store || (f.0 == mapTask && f.1 in fileMap && f.1 in order))
      && Contents(s', f) == Contents(store, f) + (if f.0 == mapTask && f.1 in fileMap && f.1 in order then fileMap[f.1] else [])
    decreases |order|
  {
    if order != [] {
      var b := order[0];
      assert forall c :: c in order[1..] ==> c != b;
      var next := if b in fileMap then AppendTo(store, (mapTask, b), fileMap[b]) else store;
      WriteBucketsFaultFree(next, mapTask, fileMap, order[1..], faults);
      assert forall c :: c in order <==> c == b || c in order[1..];
    }
  }

  /** A fault stops the loop at the first bucket it interrupts: the buckets visited
      before it stay written (no rollback), the faulty one keeps what was encoded
      before the failing record, and later ones are never opened. */
  lemma {:induction false} WriteBucketsStopsAtFault(store: Store, mapTask: nat, fileMap: map<nat, seq<KeyValue>>, done: seq<nat>, b: nat, rest: seq<nat>, faults: map<nat, Fault>)
    requires b in fileMap && Interrupts(FaultFor(faults, b), fileMap[b])
    requires forall c :: c in done && c in fileMap ==> !Interrupts(FaultFor(faults, c), fileMap[c])
    ensures var before := WriteBuckets(store, mapTask, fileMap, done, faults);
      && before.0 == MapDone
      && WriteBuckets(store, mapTask, fileMap, done + [b] + rest, faults) ==
        match faults[b]
        case OpenFails => (IntermediateOpenError(b), before.1)
        case RecordFails(i) => (IntermediateEncodeError(b), AppendTo(before.1, (mapTask, b), fileMap[b][..i]))
    decreases |done|
  {
    if done == [] {
      assert done + [b] + rest == [b] + rest;
    } else {
      var c := done[0];
      assert (done + [b] + rest)[0] == c;
      assert (done + [b] + rest)[1..] == done[1..] + [b] + rest;
      var next := if c in fileMap then AppendTo(store, (mapTask, c), fileMap[c]) else store;
      WriteBucketsStopsAtFault(next, mapTask, fileMap, done[1..], b, rest, faults);
    }
  }

  /** In a run that a fault stops at bucket b, every bucket visited before b is
      fully written: its file holds its old records followed by the whole bucket. */
  lemma EarlierBucketsWritten(store: Store, mapTask: nat, fileMap: map<nat, seq<KeyValue>>, done: seq<nat>, b: nat, rest: seq<nat>,
                              faults: map<nat, Fault>, c: nat)
    requires Distinct(done + [b] + rest)
    requires b in fileMap && Interrupts(FaultFor(faults, b), fileMap[b])
    requires forall d :: d in done && d in fileMap ==> !Interrupts(FaultFor(faults, d), fileMap[d])
    requires c in done && c in fileMap
    ensures Contents(WriteBuckets(store, mapTask, fileMap, done + [b] + rest, faults).1, (mapTask, c)) ==
            Contents(store, (mapTask, c)) + fileMap[c]
  {
    var order := done + [b] + rest;
    forall i, j | 0 <= i < j < |done| ensures done[i] != done[j] {
      assert order[i] == done[i] && order[j] == done[j];
    }
    var i :| 0 <= i < |done| && done[i] == c;
    assert order[i] == c && order[|done|] == b;
    WriteBucketsStopsAtFault(store, mapTask, fileMap, done, b, rest, faults);
    WriteBucketsFaultFree(store, mapTask, fileMap, done, faults);
  }

  /** Whatever the order and the faults, the write loop only appends: every file
      that existed still exists and its old records are a prefix of its new ones,
      and files other than (mapTask, b) for a bucket b in `fileMap` are untouched. */
  lemma {:induction false} WriteBucketsAppendOnly(store: Store, mapTask: nat, fileMap: map<nat, seq<KeyValue>>, order: seq<nat>, faults: map<nat, Fault>)
    ensures forall f :: var s' := WriteBuckets(store, mapTask, fileMap, order, faults).1;
      && (f in store ==> f in s')
      && Contents(store, f) <= Contents(s', f)
      && (f.0 != mapTask || f.1 !in fileMap ==> (f in s' <==> f in store) && Contents(s', f) == Contents(store, f))
    decreases |order|
  {
    if order != [] {
      var b := order[0];
      if b in fileMap {
        if !Interrupts(FaultFor(faults, b), fileMap[b]) {
          WriteBucketsAppendOnly(AppendTo(store, (mapTask, b), fileMap[b]), mapTask, fileMap, order[1..], faults);
        }
      } else {
        WriteBucketsAppendOnly(store, mapTask, fileMap, order[1..], faults);
      }
    }
  }

  /** doMap as a function of its inputs: the input file's contents (None when
      reading it fails), mapF, the bucket visiting order, the injected faults and
      the intermediate files beforehand. */
  function MapTaskSpec(mapTask: nat, inFile: Text, input: Option<Text>, nReduce: nat,
                       mapF: (Text, Text) -> seq<KeyValue>, order: seq<nat>,
                       faults: map<nat, Fault>, store: Store): (MapStatus, Store)
    requires nReduce > 0
  {
    match input
    case None => (InputReadError, store)
    case Some(contents) =>
      var rs := mapF(inFile, contents);
      if |rs| == 0 then (EmptyMapOutput, store)
      else WriteBuckets(store, mapTask, Partition(rs, nReduce), order, faults)
  }

  /** Without faults, a map task appends bucket b of mapF's result to file
      (mapTask, b) for every non-empty bucket, creating the file if needed, and
      changes nothing else; with an empty result it changes nothing at all. */
  lemma MapTaskSuccess(mapTask: nat, inFile: Text, input: Option<Text>, nReduce: nat,
                       mapF: (Text, Text) -> seq<KeyValue>, order: seq<nat>,
                       faults: map<nat, Fault>, store: Store)
    requires nReduce > 0 && input.Some? && IsBucketOrder(order, nReduce)
    requires forall b :: b in faults ==> !Interrupts(Some(faults[b]), RoutedTo(mapF(inFile, input.value), nReduce, b))
    ensures var rs := mapF(inFile, input.value);
      var result := MapTaskSpec(mapTask, inFile, input, nReduce, mapF, order, faults, store);
      && result.0 == (if rs == [] then EmptyMapOutput else MapDone)
      && (forall f: (nat, nat) :: f in result.1 <==> f in store || (f.0 == mapTask && f.1 < nReduce && RoutedTo(rs, nReduce, f.1) != []))
      && (forall f: (nat, nat) :: Contents(result.1, f) == Contents(store, f) + (if f.0 == mapTask && f.1 < nReduce then RoutedTo(rs, nReduce, f.1) else []))
  {
    var rs := mapF(inFile, input.value);
    if rs != [] {
      var fileMap := Partition(rs, nReduce);
      PartitionIsRouting(rs, nReduce);
      WriteBucketsFaultFree(store, mapTask, fileMap, order, faults);
    }
  }

  /** Whatever happens, a map task only appends to its own files (mapTask, b)
      with b < nReduce and never truncates or removes a file; when reading the
      input fails or mapF returns nothing, no file is created or changed. */
  lemma MapTaskAppendOnly(mapTask: nat, inFile: Text, input: Option<Text>, nReduce: nat,
                          mapF: (Text, Text) -> seq<KeyValue>, order: seq<nat>,
                          faults: map<nat, Fault>, store: Store)
    requires nReduce > 0
    ensures var s' := MapTaskSpec(mapTask, inFile, input, nReduce, mapF, order, faults, store).1;
      && (input.None? || mapF(inFile, input.value) == [] ==> s' == store)
      && (forall f :: f in store ==> f in s')
      && (forall f :: Contents(store, f) <= Contents(s', f))
      && (forall f: (nat, nat) :: f.0 != mapTask || f.1 >= nReduce ==> (f in s' <==> f in store) && Contents(s', f) == Contents(store, f))
  {
    if input.Some? && mapF(inFile, input.value) != [] {
      var rs := mapF(inFile, input.value);
      PartitionIsRouting(rs, nReduce);
      WriteBucketsAppendOnly(store, mapTask, Partition(rs, nReduce), order, faults);
    }
  }

  /** The partition loop of doMap: group mapF's records by bucket, in order. */
  method PartitionRecords(mapResult: seq<KeyValue>, nReduce: nat) returns (fileMap: map<nat, seq<KeyValue>>)
    requires nReduce > 0
    ensures fileMap == Partition(mapResult, nReduce)
    ensures forall b: nat :: b in fileMap <==> b < nReduce && RoutedTo(mapResult, nReduce, b) != []
    ensures forall b: nat :: b in fileMap ==> fileMap[b] == RoutedTo(mapResult, nReduce, b)
  {
    fileMap := map[];
    var i := 0;
    while i < |mapResult|
      invariant 0 <= i <= |mapResult|
      invariant fileMap == Partition(mapResult[..i], nReduce)
    {
      var v := mapResult[i];
      var b := Fnv.IHash(v.key) % nReduce;
      BucketIsIHashMod(v.key, nReduce);
      fileMap := fileMap[b := (if b in fileMap then fileMap[b] else []) + [v]];
      assert mapResult[..i + 1][..i] == mapResult[..i];
      i := i + 1;
    }
    assert mapResult[..i] == mapResult;
    PartitionIsRouting(mapResult, nReduce);
  }

  /** One pass of doMap's write loop: open file `f` for appending and encode the
      records of its bucket one by one, stopping at the injected fault. */
  method WriteFile(store: Store, f: (nat, nat), kvList: seq<KeyValue>, fault: Option<Fault>)
    returns (stopped: bool, store': Store)
    ensures stopped == Interrupts(fault, kvList)
    ensures store' == Attempt(store, f, kvList, fault)
  {
    if fault == Some(OpenFails) {
      return true, store;
    }
    store' := store[f := Contents(store, f)];
    assert Contents(store, f) + kvList[..0] == Contents(store, f);
    var j := 0;
    while j < |kvList|
      invariant 0 <= j <= |kvList|
      invariant store' == AppendTo(store, f, kvList[..j])
      invariant fault.Some? && fault.value.RecordFails? ==> fault.value.index >= j
    {
      if fault == Some(RecordFails(j)) {
        return true, store';
      }
      assert kvList[..j + 1] == kvList[..j] + [kvList[j]];
      AppendToTwice(store, f, kvList[..j], [kvList[j]]);
      store' := store'[f := store'[f] + [kvList[j]]];
      j := j + 1;
    }
    assert kvList[..j] == kvList;
    return false, store';
  }

  /** doMap. The intermediate files are passed in and returned; `input` is the
      input file's contents, or None when ioutil.ReadFile fails. */
  method DoMap(mapTask: nat, inFile: Text, input: Option<Text>, nReduce: nat,
               mapF: (Text, Text) -> seq<KeyValue>, order: seq<nat>,
               faults: map<nat, Fault>, store: Store)
    returns (status: MapStatus, store': Store)
    requires nReduce > 0
    ensures (status, store') == MapTaskSpec(mapTask, inFile, input, nReduce, mapF, order, faults, store)
  {
    store' := store;
    if input.None? {
      return InputReadError, store';
    }
    var mapResult := mapF(inFile, input.value);
    if |mapResult| <= 0 {
      return EmptyMapOutput, store';
    }
    var fileMap := PartitionRecords(mapResult, nReduce);
    var t := 0;
    while t < |order|
      invariant 0 <= t <= |order|
      invariant WriteBuckets(store', mapTask, fileMap, order[t..], faults) == WriteBuckets(store, mapTask, fileMap, order, faults)
    {
      var b := order[t];
      assert order[t..][0] == b && order[t..][1..] == order[t + 1..];
      if b in fileMap {
        var fault := FaultFor(faults, b);
        var stopped;
        stopped, store' := WriteFile(store', (mapTask, b), fileMap[b], fault);
        if stopped {
          return if fault == Some(OpenFails) then IntermediateOpenError(b) else IntermediateEncodeError(b), store';
        }
      }
      t := t + 1;
    }
    return MapDone, store';
  }
}
