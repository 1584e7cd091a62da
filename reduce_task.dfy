/** The reduce task executor (doReduce): read the intermediate file (m, reduceTask)
    of every map task m, group the values by key, sort the keys byte-wise, call
    reduceF once per key and append the results to the output file. */
module ReduceTask {
  import opened Records
  import opened Stores
  import opened ByteOrder

  /** Why reading an intermediate file stopped the task. */
  datatype ReadFailure = Missing | OpenFailed | DecodeFailed

  /** How a reduce task ends. The source only logs; the log line becomes a status. */
  datatype ReduceStatus =
    | ReduceDone
    | ReadFailed(mapTask: nat, why: ReadFailure)
    | OutputOpenError
    | OutputEncodeError

  /** Intermediate file (m, reduceTask) exists and no fault interrupts reading it. */
  predicate Readable(store: Store, faults: map<nat, Fault>, m: nat, reduceTask: nat) {
    (m, reduceTask) in store && !Interrupts(FaultFor(faults, m), store[(m, reduceTask)])
  }

  /** The read phase of doReduce: the records of files (0, reduceTask) ..
      (nMap-1, reduceTask), read in that order, or the first failure. os.Open
      fails on a file that does not exist. */
  function ReadPhase(store: Store, nMap: nat, reduceTask: nat, faults: map<nat, Fault>): Result<seq<KeyValue>, ReduceStatus>
    decreases nMap
  {
    if nMap == 0 then Success([])
    else
      match ReadPhase(store, nMap - 1, reduceTask, faults)
      case Failure(e) => Failure(e)
      case Success(rs) =>
        var m := nMap - 1;
        if (m, reduceTask) !in store then Failure(ReadFailed(m, Missing))
        else if FaultFor(faults, m) == Some(OpenFails) then Failure(ReadFailed(m, OpenFailed))
        else if Interrupts(FaultFor(faults, m), store[(m, reduceTask)]) then Failure(ReadFailed(m, DecodeFailed))
        else Success(rs + store[(m, reduceTask)])
  }

  /** Reference definition: the records of files (0, r) .. (nMap-1, r) laid end to end. */
  function Gather(store: Store, nMap: nat, reduceTask: nat): seq<KeyValue> {
    if nMap == 0 then [] else Gather(store, nMap - 1, reduceTask) + Contents(store, (nMap - 1, reduceTask))
  }

  /** The read phase succeeds exactly when every file is readable, and then yields
      all their records in map-task order; otherwise it reports the first file,
      in map-task order, that could not be read. */
  lemma {:induction false} ReadPhaseOutcome(store: Store, nMap: nat, reduceTask: nat, faults: map<nat, Fault>)
    ensures var r := ReadPhase(store, nMap, reduceTask, faults);
      && (r.Success? <==> forall m :: 0 <= m < nMap ==> Readable(store, faults, m, reduceTask))
      && (r.Success? ==> r.value == Gather(store, nMap, reduceTask))
      && (r.Failure? ==> r.error.ReadFailed? && r.error.mapTask < nMap
                         && !Readable(store, faults, r.error.mapTask, reduceTask)
                         && (r.error.why == Missing <==> (r.error.mapTask, reduceTask) !in store)
                         && forall m :: 0 <= m < r.error.mapTask ==> Readable(store, faults, m, reduceTask))
  {
    if nMap > 0 {
      var m := nMap - 1;
      ReadPhaseOutcome(store, m, reduceTask, faults);
      assert (forall i :: 0 <= i < nMap ==> Readable(store, faults, i, reduceTask)) <==>
             (forall i :: 0 <= i < m ==> Readable(store, faults, i, reduceTask)) && Readable(store, faults, m, reduceTask);
    }
  }

  /** Once a file fails, reading more files changes nothing: the task has returned. */
  lemma {:induction false} ReadPhaseFailureSticks(store: Store, k: nat, nMap: nat, reduceTask: nat, faults: map<nat, Fault>)
    requires k <= nMap && ReadPhase(store, k, reduceTask, faults).Failure?
    ensures ReadPhase(store, nMap, reduceTask, faults) == ReadPhase(store, k, reduceTask, faults)
    decreases nMap
  {
    if k < nMap {
      ReadPhaseFailureSticks(store, k, nMap - 1, reduceTask, faults);
    }
  }

  /** The values of `k` in `rs`, in encounter order. */
  function ValuesOf(rs: seq<KeyValue>, k: Text): seq<Text>
    decreases |rs|
  {
    if rs == [] then []
    else (if rs[0].key == k then [rs[0].value] else []) + ValuesOf(rs[1..], k)
  }

  /** Encounter order across files: values from earlier records come first. */
  lemma {:induction false} ValuesOfAppend(a: seq<KeyValue>, b: seq<KeyValue>, k: Text)
    ensures ValuesOf(a + b, k) == ValuesOf(a, k) + ValuesOf(b, k)
    decreases |a|
  {
    if a == [] {
      assert a + b == b;
    } else {
      assert (a + b)[0] == a[0];
      assert (a + b)[1..] == a[1..] + b;
      ValuesOfAppend(a[1..], b, k);
    }
  }

  /** The values of a key, gathered over files (0, r) .. (nMap, r), are its values
      from the first nMap files followed by its values in file (nMap, r): ordered by
      map task, then by position within the file. */
  lemma GatherValuesOrder(store: Store, nMap: nat, reduceTask: nat, k: Text)
    ensures ValuesOf(Gather(store, nMap + 1, reduceTask), k) ==
            ValuesOf(Gather(store, nMap, reduceTask), k) + ValuesOf(Contents(store, (nMap, reduceTask)), k)
  {
    ValuesOfAppend(Gather(store, nMap, reduceTask), Contents(store, (nMap, reduceTask)), k);
  }

  /** One decoded record added to `kvMap`: its value appended to its key's list. */
  function Accumulate(kvMap: map<Text, seq<Text>>, kv: KeyValue): map<Text, seq<Text>> {
    kvMap[kv.key := (if kv.key in kvMap then kvMap[kv.key] else []) + [kv.value]]
  }

  /** The `kvMap` that doReduce builds from the records it decodes. */
  function Group(rs: seq<KeyValue>): map<Text, seq<Text>>
    decreases |rs|
  {
    if rs == [] then map[] else Accumulate(Group(rs[..|rs| - 1]), rs[|rs| - 1])
  }

  /** Decoding one more record accumulates it into the map built so far. */
  lemma GroupSnoc(rs: seq<KeyValue>, kv: KeyValue)
    ensures Group(rs + [kv]) == Accumulate(Group(rs), kv)
  {
    assert (rs + [kv])[..|rs|] == rs;
  }

  /** Grouping completeness: `kvMap` has an entry for exactly the keys that occur
      in the records, and each entry lists all of that key's values in encounter order. */
  lemma {:induction false} GroupAt(rs: seq<KeyValue>, k: Text)
    ensures k in Group(rs) <==> k in KeysOf(rs)
    ensures k in Group(rs) ==> Group(rs)[k] == ValuesOf(rs, k)
    decreases |rs|
  {
    if rs != [] {
      var init, kv := rs[..|rs| - 1], rs[|rs| - 1];
      GroupAt(init, k);
      assert rs == init + [kv];
      ValuesOfAppend(init, [kv], k);
      assert KeysOf(rs) == KeysOf(init) + {kv.key};
      if k !in KeysOf(init) {
        assert ValuesOf(init, k) == [] by { ValuesOfAbsent(init, k); }
      }
    }
  }

  lemma {:induction false} ValuesOfAbsent(rs: seq<KeyValue>, k: Text)
    requires k !in KeysOf(rs)
    ensures ValuesOf(rs, k) == []
    decreases |rs|
  {
    if rs != [] {
      assert rs[0].key != k;
      assert KeysOf(rs[1..]) <= KeysOf(rs);
      ValuesOfAbsent(rs[1..], k);
    }
  }

  lemma GroupIsValuesOf(rs: seq<KeyValue>)
    ensures Group(rs).Keys == KeysOf(rs)
    ensures forall k :: k in Group(rs) ==> Group(rs)[k] == ValuesOf(rs, k)
  {
    forall k ensures (k in Group(rs) <==> k in KeysOf(rs)) && (k in Group(rs) ==> Group(rs)[k] == ValuesOf(rs, k)) {
      GroupAt(rs, k);
    }
  }

  /** The number of records whose key lies in `s`. */
  function CountKeysIn(rs: seq<KeyValue>, s: set<Text>): nat
    decreases |rs|
  {
    if rs == [] then 0 else (if rs[0].key in s then 1 else 0) + CountKeysIn(rs[1..], s)
  }

  lemma {:induction false} CountKeysSplit(rs: seq<KeyValue>, s: set<Text>, k: Text)
    requires k in s
    ensures CountKeysIn(rs, s) == |ValuesOf(rs, k)| + CountKeysIn(rs, s - {k})
    decreases |rs|
  {
    if rs != [] {
      CountKeysSplit(rs[1..], s, k);
    }
  }

  lemma {:induction false} CountKeysAll(rs: seq<KeyValue>, s: set<Text>)
    requires KeysOf(rs) <= s
    ensures CountKeysIn(rs, s) == |rs|
    decreases |rs|
  {
    if rs != [] {
      assert rs[0].key in KeysOf(rs);
      assert KeysOf(rs[1..]) <= KeysOf(rs);
      CountKeysAll(rs[1..], s);
    }
  }

  /** The number of values held in `kvMap` under the keys `ks`. */
  function TotalValues(kvMap: map<Text, seq<Text>>, ks: seq<Text>): nat
    decreases |ks|
  {
    if ks == [] then 0 else (if ks[0] in kvMap then |kvMap[ks[0]]| else 0) + TotalValues(kvMap, ks[1..])
  }

  lemma {:induction false} TotalValuesCount(rs: seq<KeyValue>, ks: seq<Text>, s: set<Text>)
    requires StrictlySorted(ks)
    requires forall k :: k in ks <==> k in s
    ensures TotalValues(Group(rs), ks) == CountKeysIn(rs, s)
    decreases |ks|
  {
    if ks == [] {
      assert s == {};
      CountKeysNone(rs);
    } else {
      var k := ks[0];
      assert k !in ks[1..] by {
        LessIrreflexive(k);
      }
      assert forall x :: x in ks[1..] <==> x in s - {k};
      TotalValuesCount(rs, ks[1..], s - {k});
      CountKeysSplit(rs, s, k);
      GroupAt(rs, k);
      if k !in KeysOf(rs) {
        ValuesOfAbsent(rs, k);
      }
    }
  }

  lemma {:induction false} CountKeysNone(rs: seq<KeyValue>)
    ensures CountKeysIn(rs, {}) == 0
    decreases |rs|
  {
    if rs != [] {
      CountKeysNone(rs[1..]);
    }
  }

  /** Every decoded record contributes exactly one value: the value lists of all
      keys, taken in sorted key order, hold as many values as there were records. */
  lemma ValuesConserved(rs: seq<KeyValue>)
    ensures TotalValues(Group(rs), SortedSeqOf(Group(rs).Keys)) == |rs|
  {
    GroupIsValuesOf(rs);
    TotalValuesCount(rs, SortedSeqOf(Group(rs).Keys), KeysOf(rs));
    CountKeysAll(rs, KeysOf(rs));
  }

  /** The records doReduce encodes for the keys `ks`: one per key, in order, with
      reduceF applied to the key's value list. */
  function ReduceOutput(kvMap: map<Text, seq<Text>>, ks: seq<Text>, reduceF: (Text, seq<Text>) -> Text): seq<KeyValue>
    requires forall k :: k in ks ==> k in kvMap
    decreases |ks|
  {
    if ks == [] then []
    else
      var k := ks[|ks| - 1];
      ReduceOutput(kvMap, ks[..|ks| - 1], reduceF) + [KeyValue(k, reduceF(k, kvMap[k]))]
  }

  lemma {:induction false} ReduceOutputAt(kvMap: map<Text, seq<Text>>, ks: seq<Text>, reduceF: (Text, seq<Text>) -> Text)
    requires forall k :: k in ks ==> k in kvMap
    ensures |ReduceOutput(kvMap, ks, reduceF)| == |ks|
    ensures forall i :: 0 <= i < |ks| ==> ReduceOutput(kvMap, ks, reduceF)[i] == KeyValue(ks[i], reduceF(ks[i], kvMap[ks[i]]))
    decreases |ks|
  {
    if ks != [] {
      ReduceOutputAt(kvMap, ks[..|ks| - 1], reduceF);
    }
  }

  /** The write phase of doReduce: open the output with O_CREATE|O_APPEND and
      encode `recs` one by one, stopping at the injected fault. */
  function AppendOutput(output: Option<seq<KeyValue>>, recs: seq<KeyValue>, fault: Option<Fault>): (ReduceStatus, Option<seq<KeyValue>>) {
    if fault == Some(OpenFails) then (OutputOpenError, output)
    else if Interrupts(fault, recs) then (OutputEncodeError, Some(Existing(output) + recs[..fault.value.index]))
    else (ReduceDone, Some(Existing(output) + recs))
  }

  /** The records a reduce task appends for the records `rs` it read: one per
      distinct key, keys in sorted order, values reduced by reduceF. */
  ghost function Reduced(rs: seq<KeyValue>, reduceF: (Text, seq<Text>) -> Text): seq<KeyValue> {
    var kvMap := Group(rs);
    ReduceOutput(kvMap, SortedSeqOf(kvMap.Keys), reduceF)
  }

  /** doReduce as a function of its inputs: the intermediate files, reduceF, the
      injected read faults (by map task), the injected output fault and the output
      file beforehand (None when it does not exist). */
  ghost function ReduceTaskSpec(store: Store, reduceTask: nat, nMap: nat, reduceF: (Text, seq<Text>) -> Text,
                                readFaults: map<nat, Fault>, outFault: Option<Fault>,
                                output: Option<seq<KeyValue>>): (ReduceStatus, Option<seq<KeyValue>>)
  {
    match ReadPhase(store, nMap, reduceTask, readFaults)
    case Failure(e) => (e, output)
    case Success(rs) =>
      AppendOutput(output, Reduced(rs, reduceF), outFault)
  }

  /** The keys of a record sequence, in order. */
  function KeyList(rs: seq<KeyValue>): (ks: seq<Text>)
    ensures |ks| == |rs| && forall i :: 0 <= i < |rs| ==> ks[i] == rs[i].key
  {
    if rs == [] then [] else [rs[0].key] + KeyList(rs[1..])
  }

  /** The records for strictly sorted keys carry those keys in that order, each
      with reduceF of the key's value list. */
  lemma SortedOutput(kvMap: map<Text, seq<Text>>, ks: seq<Text>, reduceF: (Text, seq<Text>) -> Text)
    requires StrictlySorted(ks) && forall k :: k in ks ==> k in kvMap
    ensures var out := ReduceOutput(kvMap, ks, reduceF);
      && KeyList(out) == ks
      && forall i :: 0 <= i < |out| ==> out[i].value == reduceF(out[i].key, kvMap[out[i].key])
  {
    ReduceOutputAt(kvMap, ks, reduceF);
  }

  /** What a reduce task appends: one record per distinct key of the records it
      read, keys strictly ascending byte-wise (so no key twice), each carrying
      reduceF of that key and all of its values in encounter order. */
  lemma ReducedRecords(rs: seq<KeyValue>, reduceF: (Text, seq<Text>) -> Text)
    ensures var out := Reduced(rs, reduceF);
      && |out| == |KeysOf(rs)|
      && StrictlySorted(KeyList(out))
      && (forall k :: k in KeyList(out) <==> k in KeysOf(rs))
      && (forall i :: 0 <= i < |out| ==> out[i].value == reduceF(out[i].key, ValuesOf(rs, out[i].key)))
  {
    var kvMap := Group(rs);
    GroupIsValuesOf(rs);
    var ks := SortedSeqOf(kvMap.Keys);
    SortedOutput(kvMap, ks, reduceF);
  }

  /** A reduce task whose files are all readable and whose output does not fail
      keeps the old output and appends the reduced records of all its input files. */
  lemma ReduceTaskSuccess(store: Store, reduceTask: nat, nMap: nat, reduceF: (Text, seq<Text>) -> Text,
                          readFaults: map<nat, Fault>, output: Option<seq<KeyValue>>)
    requires forall m :: 0 <= m < nMap ==> Readable(store, readFaults, m, reduceTask)
    ensures ReduceTaskSpec(store, reduceTask, nMap, reduceF, readFaults, None, output) ==
            (ReduceDone, Some(Existing(output) + Reduced(Gather(store, nMap, reduceTask), reduceF)))
  {
    ReadPhaseOutcome(store, nMap, reduceTask, readFaults);
  }

  /** With no keys at all, the output file is created if it is absent, and nothing is appended to it. */
  lemma NoKeysCreatesEmptyOutput(store: Store, reduceTask: nat, nMap: nat, reduceF: (Text, seq<Text>) -> Text,
                                 readFaults: map<nat, Fault>, outFault: Option<Fault>, output: Option<seq<KeyValue>>)
    requires ReadPhase(store, nMap, reduceTask, readFaults) == Success([])
    requires outFault != Some(OpenFails)
    ensures ReduceTaskSpec(store, reduceTask, nMap, reduceF, readFaults, outFault, output) == (ReduceDone, Some(Existing(output)))
  {
    var kvMap := Group([]);
    assert kvMap.Keys == {};
    assert Reduced([], reduceF) == [];
    var recs := Reduced(ReadPhase(store, nMap, reduceTask, readFaults).value, reduceF);
    assert recs == [];
    assert outFault.Some? ==> outFault.value.RecordFails?;
    assert !Interrupts(outFault, recs);
    assert Existing(output) + [] == Existing(output);
  }

  /** The output is opened in append mode: running the same task again appends the
      same records a second time, so the output is not idempotent under retry. */
  lemma RerunDuplicates(store: Store, reduceTask: nat, nMap: nat, reduceF: (Text, seq<Text>) -> Text,
                        readFaults: map<nat, Fault>, output: Option<seq<KeyValue>>)
    requires forall m :: 0 <= m < nMap ==> Readable(store, readFaults, m, reduceTask)
    ensures var first := ReduceTaskSpec(store, reduceTask, nMap, reduceF, readFaults, None, output);
      var second := ReduceTaskSpec(store, reduceTask, nMap, reduceF, readFaults, None, first.1);
      && first.1.Some?
      && var added := first.1.value[|Existing(output)|..];
      && second.0 == ReduceDone
      && second.1 == Some(Existing(output) + added + added)
      && |added| == |KeysOf(Gather(store, nMap, reduceTask))|
  {
    ReduceTaskSuccess(store, reduceTask, nMap, reduceF, readFaults, output);
    var recs := Reduced(Gather(store, nMap, reduceTask), reduceF);
    ReducedRecords(Gather(store, nMap, reduceTask), reduceF);
    ReduceTaskSuccess(store, reduceTask, nMap, reduceF, readFaults, Some(Existing(output) + recs));
    assert (Existing(output) + recs)[|Existing(output)|..] == recs;
  }

  /** When reading any intermediate file fails, the output file is left as it was,
      not even created. */
  lemma ReadFailureLeavesOutput(store: Store, reduceTask: nat, nMap: nat, reduceF: (Text, seq<Text>) -> Text,
                                readFaults: map<nat, Fault>, outFault: Option<Fault>, output: Option<seq<KeyValue>>,
                                m: nat)
    requires m < nMap && !Readable(store, readFaults, m, reduceTask)
    ensures var result := ReduceTaskSpec(store, reduceTask, nMap, reduceF, readFaults, outFault, output);
      result.0.ReadFailed? && result.0.mapTask <= m && result.1 == output
  {
    ReadPhaseOutcome(store, nMap, reduceTask, readFaults);
  }

  /** Decode the records of one intermediate file into `kvMap`, stopping at an
      injected decode fault. `before` are the records decoded from earlier files. */
  method DecodeFile(kvMap: map<Text, seq<Text>>, file: seq<KeyValue>, fault: Option<Fault>, ghost before: seq<KeyValue>)
    returns (ok: bool, kvMap': map<Text, seq<Text>>)
    requires kvMap == Group(before)
    requires fault != Some(OpenFails)
    ensures ok == !Interrupts(fault, file)
    ensures ok ==> kvMap' == Group(before + file)
  {
    kvMap' := kvMap;
    var i := 0;
    assert before + file[..0] == before;
    while i < |file|
      invariant 0 <= i <= |file|
      invariant kvMap' == Group(before + file[..i])
      invariant fault.Some? && fault.value.RecordFails? ==> fault.value.index >= i
    {
      if fault == Some(RecordFails(i)) {
        return false, kvMap';
      }
      var kv := file[i];
      assert before + file[..i + 1] == (before + file[..i]) + [kv];
      GroupSnoc(before + file[..i], kv);
      kvMap' := kvMap'[kv.key := (if kv.key in kvMap' then kvMap'[kv.key] else []) + [kv.value]];
      i := i + 1;
    }
    assert file[..i] == file;
    if fault.Some? {
      assert fault == Some(fault.value);
    }
    return true, kvMap';
  }

  /** The read loop of doReduce: decode files (0, reduceTask) .. (nMap-1, reduceTask)
      in order into `kvMap`, returning at the first file that cannot be opened or decoded. */
  method ReadIntermediate(store: Store, reduceTask: nat, nMap: nat, faults: map<nat, Fault>)
    returns (result: Result<map<Text, seq<Text>>, ReduceStatus>)
    ensures var r := ReadPhase(store, nMap, reduceTask, faults);
      && (r.Failure? ==> result == Failure(r.error))
      && (r.Success? ==> result == Success(Group(r.value)))
  {
    var kvMap: map<Text, seq<Text>> := map[];
    ghost var read: seq<KeyValue> := [];
    var m := 0;
    while m < nMap
      invariant 0 <= m <= nMap
      invariant ReadPhase(store, m, reduceTask, faults) == Success(read)
      invariant kvMap == Group(read)
    {
      var fault := FaultFor(faults, m);
      if (m, reduceTask) !in store {
        ReadPhaseFailureSticks(store, m + 1, nMap, reduceTask, faults);
        return Failure(ReadFailed(m, Missing));
      }
      if fault == Some(OpenFails) {
        ReadPhaseFailureSticks(store, m + 1, nMap, reduceTask, faults);
        return Failure(ReadFailed(m, OpenFailed));
      }
      var file := store[(m, reduceTask)];
      var ok;
      ok, kvMap := DecodeFile(kvMap, file, fault, read);
      if !ok {
        ReadPhaseFailureSticks(store, m + 1, nMap, reduceTask, faults);
        return Failure(ReadFailed(m, DecodeFailed));
      }
      read := read + file;
      m := m + 1;
    }
    return Success(kvMap);
  }

  /** Collect the keys of `kvMap` (in whatever order the map yields them) and sort
      them: the result is the one strictly ascending list of those keys. */
  method SortedKeys(kvMap: map<Text, seq<Text>>) returns (kList: seq<Text>)
    ensures kList == SortedSeqOf(kvMap.Keys)
    ensures StrictlySorted(kList) && forall k :: k in kList <==> k in kvMap
  {
    kList := [];
    var rest := kvMap.Keys;
    while rest != {}
      invariant rest <= kvMap.Keys
      invariant forall k :: k in kList <==> k in kvMap && k !in rest
      invariant forall i, j :: 0 <= i < j < |kList| ==> kList[i] != kList[j]
      decreases rest
    {
      var key :| key in rest;
      kList := kList + [key];
      rest := rest - {key};
    }
    kList := SortKeys(kList);
    SortedUnique(kList, SortedSeqOf(kvMap.Keys));
  }

  /** The write loop of doReduce: open the output for appending and encode one
      record per key of `kList`, calling reduceF on the key's values. */
  method WriteOutput(output: Option<seq<KeyValue>>, kvMap: map<Text, seq<Text>>, kList: seq<Text>,
                     reduceF: (Text, seq<Text>) -> Text, fault: Option<Fault>)
    returns (status: ReduceStatus, output': Option<seq<KeyValue>>)
    requires forall k :: k in kList ==> k in kvMap
    ensures (status, output') == AppendOutput(output, ReduceOutput(kvMap, kList, reduceF), fault)
  {
    if fault == Some(OpenFails) {
      return OutputOpenError, output;
    }
    ghost var recs := ReduceOutput(kvMap, kList, reduceF);
    ReduceOutputAt(kvMap, kList, reduceF);
    var out := Existing(output);
    var j := 0;
    while j < |kList|
      invariant 0 <= j <= |kList|
      invariant out == Existing(output) + recs[..j]
      invariant fault.Some? && fault.value.RecordFails? ==> fault.value.index >= j
    {
      if fault == Some(RecordFails(j)) {
        return OutputEncodeError, Some(out);
      }
      var key := kList[j];
      out := out + [KeyValue(key, reduceF(key, kvMap[key]))];
      assert recs[..j + 1] == recs[..j] + [recs[j]];
      j := j + 1;
    }
    assert recs[..j] == recs;
    if fault.Some? {
      assert fault == Some(fault.value);
    }
    return ReduceDone, Some(out);
  }

  /** doReduce. The intermediate files are read, never changed; the output file
      is passed in (None when it does not exist) and returned. */
  method DoReduce(store: Store, reduceTask: nat, nMap: nat, reduceF: (Text, seq<Text>) -> Text,
                  readFaults: map<nat, Fault>, outFault: Option<Fault>, output: Option<seq<KeyValue>>)
    returns (status: ReduceStatus, output': Option<seq<KeyValue>>)
    ensures (status, output') == ReduceTaskSpec(store, reduceTask, nMap, reduceF, readFaults, outFault, output)
  {
    var read := ReadIntermediate(store, reduceTask, nMap, readFaults);
    if read.Failure? {
      return read.error, output;
    }
    var kvMap := read.value;
    var kList := SortedKeys(kvMap);
    status, output' := WriteOutput(output, kvMap, kList, reduceF, outFault);
  }
}
