/** The shuffle contract end to end: every map task writes its buckets, then a
    reduce task reads bucket r of every map task. */
module Shuffle {
  import opened Records
  import opened Stores
  import opened ByteOrder
  import opened MapTask
  import opened ReduceTask
  import Fnv

  /** An input shard: the input file's name and its contents. */
  type Shard = (Text, Text)

  /** The records mapF emits for the shards, in map-task order. */
  function Emitted(shards: seq<Shard>, mapF: (Text, Text) -> seq<KeyValue>): seq<KeyValue>
    decreases |shards|
  {
    if shards == [] then []
    else Emitted(shards[..|shards| - 1], mapF) + mapF(shards[|shards| - 1].0, shards[|shards| - 1].1)
  }

  /** The records of the shards routed to bucket r are the records routed to r by
      each map task, in map-task order. */
  lemma EmittedRouting(shards: seq<Shard>, mapF: (Text, Text) -> seq<KeyValue>, nReduce: nat, r: nat)
    requires nReduce > 0 && shards != []
    ensures var m := |shards| - 1;
      RoutedTo(Emitted(shards, mapF), nReduce, r) ==
      RoutedTo(Emitted(shards[..m], mapF), nReduce, r) + RoutedTo(mapF(shards[m].0, shards[m].1), nReduce, r)
  {
    var m := |shards| - 1;
    RoutedToAppend(Emitted(shards[..m], mapF), mapF(shards[m].0, shards[m].1), nReduce, r);
  }

  /** A key in bucket r was emitted, and its bucket is r. */
  lemma RoutedKeySound(rs: seq<KeyValue>, nReduce: nat, r: nat, k: Text)
    requires nReduce > 0 && k in KeysOf(RoutedTo(rs, nReduce, r))
    ensures k in KeysOf(rs) && Bucket(k, nReduce) == r
  {
    var routed := RoutedTo(rs, nReduce, r);
    var i :| 0 <= i < |routed| && routed[i].key == k;
    RoutedToBucket(rs, nReduce, r, routed[i]);
    var j :| 0 <= j < |rs| && rs[j] == routed[i];
  }

  /** An emitted key whose bucket is r reaches bucket r. */
  lemma RoutedKeyComplete(rs: seq<KeyValue>, nReduce: nat, r: nat, k: Text)
    requires nReduce > 0 && k in KeysOf(rs) && Bucket(k, nReduce) == r
    ensures k in KeysOf(RoutedTo(rs, nReduce, r))
  {
    var routed := RoutedTo(rs, nReduce, r);
    var i :| 0 <= i < |rs| && rs[i].key == k;
    RoutedToCount(rs, nReduce, r);
    assert multiset(routed)[rs[i]] > 0;
    var j :| 0 <= j < |routed| && routed[j] == rs[i];
  }

  /** The keys routed to bucket r are the emitted keys whose bucket is r. */
  lemma RoutedKeys(rs: seq<KeyValue>, nReduce: nat, r: nat)
    requires nReduce > 0
    ensures forall k :: k in KeysOf(RoutedTo(rs, nReduce, r)) <==> k in KeysOf(rs) && Bucket(k, nReduce) == r
  {
    forall k ensures k in KeysOf(RoutedTo(rs, nReduce, r)) <==> k in KeysOf(rs) && Bucket(k, nReduce) == r {
      if k in KeysOf(RoutedTo(rs, nReduce, r)) {
        RoutedKeySound(rs, nReduce, r, k);
      }
      if k in KeysOf(rs) && Bucket(k, nReduce) == r {
        RoutedKeyComplete(rs, nReduce, r, k);
      }
    }
  }

  /** Routing keeps every value of a key that belongs to bucket r, in order. */
  lemma {:induction false} RoutedValues(rs: seq<KeyValue>, nReduce: nat, r: nat, k: Text)
    requires nReduce > 0 && Bucket(k, nReduce) == r
    ensures ValuesOf(RoutedTo(rs, nReduce, r), k) == ValuesOf(rs, k)
    decreases |rs|
  {
    if rs != [] {
      RoutedValues(rs[1..], nReduce, r, k);
      var head := if Bucket(rs[0].key, nReduce) == r then [rs[0]] else [];
      ValuesOfAppend(head, RoutedTo(rs[1..], nReduce, r), k);
    }
  }

  // ---- The map phase as written ----

  /** Map tasks 0 .. |shards|-1 run one after another, without faults, starting
      from no intermediate files. */
  function MapPhase(shards: seq<Shard>, nReduce: nat, mapF: (Text, Text) -> seq<KeyValue>, order: seq<nat>): Store
    requires nReduce > 0
    decreases |shards|
  {
    if shards == [] then map[]
    else
      var m := |shards| - 1;
      MapTaskSpec(m, shards[m].0, Some(shards[m].1), nReduce, mapF, order, map[], MapPhase(shards[..m], nReduce, mapF, order)).1
  }

  /** File f after the map phase: it exists only for a map task of the phase
      and a bucket below nReduce that received a record. */
  lemma {:induction false} MapPhaseFile(shards: seq<Shard>, nReduce: nat, mapF: (Text, Text) -> seq<KeyValue>, order: seq<nat>, f: (nat, nat))
    requires nReduce > 0 && IsBucketOrder(order, nReduce)
    ensures var s := MapPhase(shards, nReduce, mapF, order);
      && (f.0 >= |shards| || f.1 >= nReduce ==> f !in s)
      && (f.0 < |shards| && f.1 < nReduce ==>
            var routed := RoutedTo(mapF(shards[f.0].0, shards[f.0].1), nReduce, f.1);
            (f in s <==> routed != []) && Contents(s, f) == routed)
    decreases |shards|
  {
    if shards != [] {
      var m := |shards| - 1;
      var before := MapPhase(shards[..m], nReduce, mapF, order);
      var out := mapF(shards[m].0, shards[m].1);
      assert MapPhase(shards, nReduce, mapF, order) == MapTaskSpec(m, shards[m].0, Some(shards[m].1), nReduce, mapF, order, map[], before).1;
      MapPhaseFile(shards[..m], nReduce, mapF, order, f);
      MapTaskSuccess(m, shards[m].0, Some(shards[m].1), nReduce, mapF, order, map[], before);
      if f.0 < m {
        assert shards[..m][f.0] == shards[f.0];
      } else if f.0 == m && f.1 < nReduce {
        assert Contents(before, f) == [];
        assert [] + RoutedTo(out, nReduce, f.1) == RoutedTo(out, nReduce, f.1);
      }
    }
  }

  /** After the map phase, file (m, b) exists exactly when map task m routed a
      record to bucket b, and then it holds exactly those records. */
  lemma MapPhaseFiles(shards: seq<Shard>, nReduce: nat, mapF: (Text, Text) -> seq<KeyValue>, order: seq<nat>)
    requires nReduce > 0 && IsBucketOrder(order, nReduce)
    ensures forall m, b :: 0 <= m < |shards| && 0 <= b < nReduce ==>
      var routed := RoutedTo(mapF(shards[m].0, shards[m].1), nReduce, b);
      && ((m, b) in MapPhase(shards, nReduce, mapF, order) <==> routed != [])
      && Contents(MapPhase(shards, nReduce, mapF, order), (m, b)) == routed
    ensures forall f: (nat, nat) :: f.0 >= |shards| ==> f !in MapPhase(shards, nReduce, mapF, order)
  {
    forall f: (nat, nat) ensures var s := MapPhase(shards, nReduce, mapF, order);
      && (f.0 >= |shards| || f.1 >= nReduce ==> f !in s)
      && (f.0 < |shards| && f.1 < nReduce ==>
            var routed := RoutedTo(mapF(shards[f.0].0, shards[f.0].1), nReduce, f.1);
            (f in s <==> routed != []) && Contents(s, f) == routed)
    {
      MapPhaseFile(shards, nReduce, mapF, order, f);
    }
  }

  /** As written, a reduce task aborts, leaving its output as it was (not even
      created), as soon as one map task routed no record to its bucket: doMap
      creates no file for an empty bucket, and doReduce cannot open a missing file. */
  lemma MissingBucketAbortsReduce(shards: seq<Shard>, nReduce: nat, mapF: (Text, Text) -> seq<KeyValue>, order: seq<nat>,
                                  reduceF: (Text, seq<Text>) -> Text, r: nat, m: nat, output: Option<seq<KeyValue>>)
    requires nReduce > 0 && IsBucketOrder(order, nReduce) && r < nReduce
    requires m < |shards| && RoutedTo(mapF(shards[m].0, shards[m].1), nReduce, r) == []
    ensures var result := ReduceTaskSpec(MapPhase(shards, nReduce, mapF, order), r, |shards|, reduceF, map[], None, output);
      && result.0.ReadFailed? && result.0.why == Missing && result.0.mapTask <= m
      && result.1 == output
  {
    var store := MapPhase(shards, nReduce, mapF, order);
    MapPhaseFiles(shards, nReduce, mapF, order);
    assert !Readable(store, map[], m, r);
    ReadFailureLeavesOutput(store, r, |shards|, reduceF, map[], None, output, m);
    ReadPhaseOutcome(store, |shards|, r, map[]);
  }

  /** As written, reduce task r still reads, across the files of its bucket,
      exactly the emitted records routed to r, in map-task order: a file that
      was never created holds no records. */
  lemma {:induction false} GatherAsWritten(shards: seq<Shard>, nReduce: nat, mapF: (Text, Text) -> seq<KeyValue>, order: seq<nat>, r: nat, n: nat)
    requires nReduce > 0 && IsBucketOrder(order, nReduce) && r < nReduce && n <= |shards|
    ensures Gather(MapPhase(shards, nReduce, mapF, order), n, r) == RoutedTo(Emitted(shards[..n], mapF), nReduce, r)
    decreases n
  {
    if n > 0 {
      var m := n - 1;
      GatherAsWritten(shards, nReduce, mapF, order, r, m);
      MapPhaseFile(shards, nReduce, mapF, order, (m, r));
      EmittedRouting(shards[..n], mapF, nReduce, r);
      assert shards[..n][..m] == shards[..m];
      assert shards[..n][m] == shards[m];
    }
  }

  /** As written, when every map task routed at least one record to bucket r,
      reduce task r succeeds and creates an output holding the reduction of the
      emitted records routed to r. */
  lemma ShuffleAsWritten(shards: seq<Shard>, nReduce: nat, mapF: (Text, Text) -> seq<KeyValue>, order: seq<nat>,
                         reduceF: (Text, seq<Text>) -> Text, r: nat)
    requires nReduce > 0 && IsBucketOrder(order, nReduce) && r < nReduce
    requires forall m :: 0 <= m < |shards| ==> RoutedTo(mapF(shards[m].0, shards[m].1), nReduce, r) != []
    ensures ReduceTaskSpec(MapPhase(shards, nReduce, mapF, order), r, |shards|, reduceF, map[], None, None) ==
            (ReduceDone, Some(Reduced(RoutedTo(Emitted(shards, mapF), nReduce, r), reduceF)))
  {
    var store := MapPhase(shards, nReduce, mapF, order);
    forall m | 0 <= m < |shards| ensures Readable(store, map[], m, r) {
      MapPhaseFile(shards, nReduce, mapF, order, (m, r));
    }
    ReduceTaskSuccess(store, r, |shards|, reduceF, map[], None);
    GatherAsWritten(shards, nReduce, mapF, order, r, |shards|);
    assert shards[..|shards|] == shards;
    var out := Reduced(RoutedTo(Emitted(shards, mapF), nReduce, r), reduceF);
    assert Existing(None) + out == out;
  }

  // ---- The map phase as evidently intended: one file per reduce task ----

  /** Append `buckets[b]` to file (mapTask, b) for every b < upto, creating the
      file even when the bucket is empty. */
  function WriteAllBuckets(store: Store, mapTask: nat, buckets: seq<seq<KeyValue>>, upto: nat): Store
    requires upto <= |buckets|
  {
    if upto == 0 then store
    else AppendTo(WriteAllBuckets(store, mapTask, buckets, upto - 1), (mapTask, upto - 1), buckets[upto - 1])
  }

  /** File (m, b) after writing all buckets of map task `mapTask` below `upto`. */
  lemma {:induction false} WriteAllBucketsFile(store: Store, mapTask: nat, buckets: seq<seq<KeyValue>>, upto: nat, m: nat, b: nat)
    requires upto <= |buckets|
    ensures var s' := WriteAllBuckets(store, mapTask, buckets, upto);
      && ((m, b) in s' <==> (m, b) in store || (m == mapTask && b < upto))
      && (m == mapTask && b < upto ==> Contents(s', (m, b)) == Contents(store, (m, b)) + buckets[b])
      && (m != mapTask || b >= upto ==> Contents(s', (m, b)) == Contents(store, (m, b)))
  {
    if upto > 0 {
      WriteAllBucketsFile(store, mapTask, buckets, upto - 1, m, b);
    }
  }

  /** The nReduce buckets of the records `rs`. */
  function Buckets(rs: seq<KeyValue>, nReduce: nat): seq<seq<KeyValue>>
    requires nReduce > 0
  {
    seq(nReduce, b requires 0 <= b < nReduce => RoutedTo(rs, nReduce, b))
  }

  /** Map tasks 0 .. |shards|-1, each creating all nReduce intermediate files. */
  function MapPhaseAllBuckets(shards: seq<Shard>, nReduce: nat, mapF: (Text, Text) -> seq<KeyValue>): Store
    requires nReduce > 0
    decreases |shards|
  {
    if shards == [] then map[]
    else
      var m := |shards| - 1;
      WriteAllBuckets(MapPhaseAllBuckets(shards[..m], nReduce, mapF), m, Buckets(mapF(shards[m].0, shards[m].1), nReduce), nReduce)
  }

  /** With one file per reduce task, file (m, b) holds exactly the records map
      task m routed to bucket b, for every m < |shards| and b < nReduce, and
      nothing else exists. */
  lemma {:induction false} MapPhaseAllBucketsFile(shards: seq<Shard>, nReduce: nat, mapF: (Text, Text) -> seq<KeyValue>, f: (nat, nat))
    requires nReduce > 0
    ensures var s := MapPhaseAllBuckets(shards, nReduce, mapF);
      && (f in s <==> f.0 < |shards| && f.1 < nReduce)
      && (f in s ==> s[f] == RoutedTo(mapF(shards[f.0].0, shards[f.0].1), nReduce, f.1))
    decreases |shards|
  {
    if shards != [] {
      var m := |shards| - 1;
      var before := MapPhaseAllBuckets(shards[..m], nReduce, mapF);
      var out := mapF(shards[m].0, shards[m].1);
      assert MapPhaseAllBuckets(shards, nReduce, mapF) == WriteAllBuckets(before, m, Buckets(out, nReduce), nReduce);
      MapPhaseAllBucketsFile(shards[..m], nReduce, mapF, f);
      WriteAllBucketsFile(before, m, Buckets(out, nReduce), nReduce, f.0, f.1);
      if f.0 < m {
        assert shards[..m][f.0] == shards[f.0];
      } else if f.0 == m {
        assert Contents(before, f) == [];
        assert [] + RoutedTo(out, nReduce, f.1) == RoutedTo(out, nReduce, f.1);
      }
    }
  }

  lemma MapPhaseAllBucketsFiles(shards: seq<Shard>, nReduce: nat, mapF: (Text, Text) -> seq<KeyValue>)
    requires nReduce > 0
    ensures forall m, b :: 0 <= m < |shards| && 0 <= b < nReduce ==>
      && (m, b) in MapPhaseAllBuckets(shards, nReduce, mapF)
      && MapPhaseAllBuckets(shards, nReduce, mapF)[(m, b)] == RoutedTo(mapF(shards[m].0, shards[m].1), nReduce, b)
    ensures forall f: (nat, nat) :: f.0 >= |shards| ==> f !in MapPhaseAllBuckets(shards, nReduce, mapF)
  {
    forall f: (nat, nat) ensures var s := MapPhaseAllBuckets(shards, nReduce, mapF);
      && (f in s <==> f.0 < |shards| && f.1 < nReduce)
      && (f in s ==> s[f] == RoutedTo(mapF(shards[f.0].0, shards[f.0].1), nReduce, f.1))
    {
      MapPhaseAllBucketsFile(shards, nReduce, mapF, f);
    }
  }

  /** Reduce task r reads, across the nMap files of its bucket, exactly the
      emitted records routed to r, in map-task order. */
  lemma {:induction false} GatherIsRouted(shards: seq<Shard>, nReduce: nat, mapF: (Text, Text) -> seq<KeyValue>, r: nat, n: nat)
    requires nReduce > 0 && r < nReduce && n <= |shards|
    ensures Gather(MapPhaseAllBuckets(shards, nReduce, mapF), n, r) == RoutedTo(Emitted(shards[..n], mapF), nReduce, r)
    decreases n
  {
    if n > 0 {
      var m := n - 1;
      GatherIsRouted(shards, nReduce, mapF, r, m);
      MapPhaseAllBucketsFile(shards, nReduce, mapF, (m, r));
      EmittedRouting(shards[..n], mapF, nReduce, r);
      assert shards[..n][..m] == shards[..m];
      assert shards[..n][m] == shards[m];
    }
  }

  lemma GatherAll(shards: seq<Shard>, nReduce: nat, mapF: (Text, Text) -> seq<KeyValue>, r: nat)
    requires nReduce > 0 && r < nReduce
    ensures Gather(MapPhaseAllBuckets(shards, nReduce, mapF), |shards|, r) == RoutedTo(Emitted(shards, mapF), nReduce, r)
  {
    GatherIsRouted(shards, nReduce, mapF, r, |shards|);
    assert shards[..|shards|] == shards;
  }

  /** With one file per reduce task, every file a reduce task reads exists. */
  lemma AllBucketsReadable(shards: seq<Shard>, nReduce: nat, mapF: (Text, Text) -> seq<KeyValue>, r: nat)
    requires nReduce > 0 && r < nReduce
    ensures forall m :: 0 <= m < |shards| ==> Readable(MapPhaseAllBuckets(shards, nReduce, mapF), map[], m, r)
  {
    MapPhaseAllBucketsFiles(shards, nReduce, mapF);
  }

  /** With one file per (map task, reduce task), reduce task r succeeds and
      creates an output holding the reduction of the emitted records routed to r. */
  lemma ShuffleRun(shards: seq<Shard>, nReduce: nat, mapF: (Text, Text) -> seq<KeyValue>,
                   reduceF: (Text, seq<Text>) -> Text, r: nat)
    requires nReduce > 0 && r < nReduce
    ensures ReduceTaskSpec(MapPhaseAllBuckets(shards, nReduce, mapF), r, |shards|, reduceF, map[], None, None) ==
            (ReduceDone, Some(Reduced(RoutedTo(Emitted(shards, mapF), nReduce, r), reduceF)))
  {
    var store := MapPhaseAllBuckets(shards, nReduce, mapF);
    AllBucketsReadable(shards, nReduce, mapF, r);
    ReduceTaskSuccess(store, r, |shards|, reduceF, map[], None);
    GatherAll(shards, nReduce, mapF, r);
    var out := Reduced(RoutedTo(Emitted(shards, mapF), nReduce, r), reduceF);
    assert Existing(None) + out == out;
  }

  /** Reducing the records routed to r gives one record per distinct key whose
      bucket is r, keys strictly ascending, each reduced over all its values. */
  lemma ReducedBucket(all: seq<KeyValue>, nReduce: nat, r: nat, reduceF: (Text, seq<Text>) -> Text)
    requires nReduce > 0
    ensures var out := Reduced(RoutedTo(all, nReduce, r), reduceF);
      && StrictlySorted(KeyList(out))
      && (forall k :: k in KeyList(out) <==> k in KeysOf(all) && Bucket(k, nReduce) == r)
      && (forall i :: 0 <= i < |out| ==> out[i].value == reduceF(out[i].key, ValuesOf(all, out[i].key)))
  {
    var rs := RoutedTo(all, nReduce, r);
    ReducedRecords(rs, reduceF);
    RoutedKeys(all, nReduce, r);
    var out := Reduced(rs, reduceF);
    forall i | 0 <= i < |out| ensures out[i].value == reduceF(out[i].key, ValuesOf(all, out[i].key)) {
      assert out[i].key in KeyList(out);
      RoutedValues(all, nReduce, r, out[i].key);
    }
  }

  /** The shuffle contract, with one file per (map task, reduce task): reduce task
      r succeeds and writes one record per distinct emitted key whose bucket is r,
      keys strictly ascending byte-wise, each reduced over all of that key's values
      from every map task, in map-task order and then emission order. */
  lemma ShuffleCorrect(shards: seq<Shard>, nReduce: nat, mapF: (Text, Text) -> seq<KeyValue>,
                       reduceF: (Text, seq<Text>) -> Text, r: nat)
    requires nReduce > 0 && r < nReduce
    ensures var all := Emitted(shards, mapF);
      var result := ReduceTaskSpec(MapPhaseAllBuckets(shards, nReduce, mapF), r, |shards|, reduceF, map[], None, None);
      && result.0 == ReduceDone && result.1.Some?
      && var out := result.1.value;
      && StrictlySorted(KeyList(out))
      && (forall k :: k in KeyList(out) <==> k in KeysOf(all) && Bucket(k, nReduce) == r)
      && (forall i :: 0 <= i < |out| ==> out[i].value == reduceF(out[i].key, ValuesOf(all, out[i].key)))
  {
    ShuffleRun(shards, nReduce, mapF, reduceF, r);
    ReducedBucket(Emitted(shards, mapF), nReduce, r, reduceF);
  }

  /** The record mapF emits in the concrete runs below: the empty key, which
      FNV-1a routes to bucket 1 of 2. */
  function OneEmptyKey(name: Text, contents: Text): seq<KeyValue> {
    [KeyValue([], [])]
  }

  /** ihash("") = 0x011c9dc5 is odd. */
  lemma EmptyKeyBucket()
    ensures Bucket([], 2) == 1
  {
    assert Fnv.Mask31(Fnv.OffsetBasis32) == 0x011c_9dc5;
  }

  /** As written: one map task emits a single record with the empty key, so it
      creates only file (0, 1); reduce task 0 finds no file (0, 0) and aborts
      without creating its output. */
  lemma EmptyBucketAsWritten(reduceF: (Text, seq<Text>) -> Text)
    ensures ReduceTaskSpec(MapPhase([([], [])], 2, OneEmptyKey, [0, 1]), 0, 1, reduceF, map[], None, None)
            == (ReadFailed(0, Missing), None)
  {
    EmptyKeyBucket();
    assert RoutedTo(OneEmptyKey([], []), 2, 0) == [];
    MissingBucketAbortsReduce([([], [])], 2, OneEmptyKey, [0, 1], reduceF, 0, 0, None);
  }

  /** With one file per reduce task, the same run lets reduce task 0 succeed and
      create an empty output. */
  lemma EmptyBucketFixed(reduceF: (Text, seq<Text>) -> Text)
    ensures ReduceTaskSpec(MapPhaseAllBuckets([([], [])], 2, OneEmptyKey), 0, 1, reduceF, map[], None, None)
            == (ReduceDone, Some([]))
  {
    var shards: seq<Shard> := [([], [])];
    ShuffleRun(shards, 2, OneEmptyKey, reduceF, 0);
    assert Emitted(shards, OneEmptyKey) == [KeyValue([], [])] by {
      assert shards[..0] == [];
    }
    EmptyKeyBucket();
    assert RoutedTo([KeyValue([], [])], 2, 0) == [];
    ReducedRecords([], reduceF);
    assert KeysOf([]) == {};
  }
}
