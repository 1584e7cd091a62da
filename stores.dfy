/** The filesystem as the two executors see it. The record codec is taken to
    round-trip, so a file is modelled as the sequence of records it holds. */
module Stores {
  import opened Records

  /** The intermediate files of one job, named by (map task, reduce task). A pair
      that is absent is a file that does not exist. */
  type Store = map<(nat, nat), seq<KeyValue>>

  /** The records of a file, or none if it does not exist. */
  function Contents(s: Store, f: (nat, nat)): seq<KeyValue> {
    if f in s then s[f] else []
  }

  /** Open `f` with O_CREATE|O_APPEND and write `rs`: the file exists afterwards,
      holding its old records followed by `rs`, and no other file changes. */
  function AppendTo(s: Store, f: (nat, nat), rs: seq<KeyValue>): (s': Store)
    ensures s'.Keys == s.Keys + {f}
    ensures Contents(s', f) == Contents(s, f) + rs
    ensures forall g :: g != f ==> (g in s' <==> g in s) && Contents(s', g) == Contents(s, g)
  {
    s[f := Contents(s, f) + rs]
  }

  /** Appending in two writes is appending once. */
  lemma AppendToTwice(s: Store, f: (nat, nat), a: seq<KeyValue>, b: seq<KeyValue>)
    ensures AppendTo(AppendTo(s, f, a), f, b) == AppendTo(s, f, a + b)
  {
    assert Contents(s, f) + a + b == Contents(s, f) + (a + b);
  }

  /** The records of an output file that may not exist yet. */
  function Existing(out: Option<seq<KeyValue>>): seq<KeyValue> {
    match out
    case Some(rs) => rs
    case None => []
  }

  /** An injected I/O failure for one file: opening it fails, or encoding
      (writing) or decoding (reading) its record at position `index` fails. */
  datatype Fault = OpenFails | RecordFails(index: nat)

  /** Whether `fault`, if any, interrupts a write or read of the records `rs`. */
  predicate Interrupts(fault: Option<Fault>, rs: seq<KeyValue>) {
    fault.Some? && (fault.value.OpenFails? || fault.value.index < |rs|)
  }

  /** The file store after opening `f` (O_CREATE|O_APPEND) and encoding `rs` into
      it under `fault`: nothing changes when opening fails; otherwise the file
      exists and gains the records encoded before the failing one, or all of them. */
  function Attempt(s: Store, f: (nat, nat), rs: seq<KeyValue>, fault: Option<Fault>): Store {
    match fault
    case Some(OpenFails) => s
    case Some(RecordFails(i)) => AppendTo(s, f, if i < |rs| then rs[..i] else rs)
    case None => AppendTo(s, f, rs)
  }

  /** The fault injected for file `i`, if any. */
  function FaultFor(faults: map<nat, Fault>, i: nat): Option<Fault> {
    if i in faults then Some(faults[i]) else None
  }
}
