/** The Bitcask store: live directory, append-only logs, and what replay makes of them. */
module BitcaskStore {
  import opened Wrappers
  import opened BitcaskLog
  import opened Seqs

  /** The logs as the records written to each file, oldest file first, and the live directory. */
  datatype Model = Model(logs: seq<seq<Entry>>, kd: KeyDir)

  datatype Op = SetOp(key: Bytes, val: Bytes, tstamp: int) | EraseOp(key: Bytes)

  function EntryOf(op: Op): (e: Entry) {
    match op
    case SetOp(k, v, t) => Entry(t, k, v)
    case EraseOp(k) => Entry(TSTAMP_MAX, k, [])
  }

  predicate OpFits(op: Op) { Fits(EntryOf(op)) }

  /** Appends a record to the newest log, starting a new one when the size limit is reached. */
  function Append(d: Disk, logs: seq<seq<Entry>>, e: Entry): (r: seq<seq<Entry>>)
    requires logs != []
    ensures r != []
  {
    var n := |logs| - 1;
    var last := logs[n] + [e];
    logs[n := last] + (if |EncodeAll(d, last)| >= LOG_SIZE then [[]] else [])
  }

  function ValueStart(d: Disk, logs: seq<seq<Entry>>, e: Entry): (p: nat)
    requires logs != []
  {
    |EncodeAll(d, logs[|logs| - 1])| + 16 + |e.key|
  }

  /** One operation on the live store. */
  function Step(d: Disk, m: Model, op: Op): (r: Model)
    requires m.logs != []
    ensures r.logs != []
  {
    var e := EntryOf(op);
    Model(Append(d, m.logs, e),
          match op
          case SetOp(k, v, t) => m.kd[k := Slot(|m.logs| - 1, |v|, ValueStart(d, m.logs, e), t)]
          case EraseOp(k) => m.kd - {k})
  }

  const EMPTY := Model([[]], map[])

  function Run(d: Disk, ops: seq<Op>): (m: Model)
    ensures m.logs != []
  {
    if ops == [] then EMPTY else Step(d, Run(d, ops[..|ops| - 1]), ops[|ops| - 1])
  }

  /** A log that was closed: full, and not full without its last record. */
  predicate Closed(d: Disk, log: seq<Entry>) {
    log != [] && |EncodeAll(d, log)| >= LOG_SIZE > |EncodeAll(d, log[..|log| - 1])|
  }

  /** All records, log by log. */
  function Records(logs: seq<seq<Entry>>): (es: seq<Entry>) {
    if logs == [] then [] else Records(logs[..|logs| - 1]) + logs[|logs| - 1]
  }

  ghost function Written(ops: seq<Op>): (es: seq<Entry>) {
    if ops == [] then [] else Written(ops[..|ops| - 1]) + [EntryOf(ops[|ops| - 1])]
  }

  /** In every state the logs hold the records of the run, in order, and each but the last was closed at
      the size limit, neither earlier nor later. */
  lemma {:induction false} LogsHoldTheRun(d: Disk, ops: seq<Op>)
    ensures var logs := Run(d, ops).logs;
            && Records(logs) == Written(ops)
            && (forall i :: 0 <= i < |logs| - 1 ==> Closed(d, logs[i]))
            && |EncodeAll(d, logs[|logs| - 1])| < LOG_SIZE
    decreases |ops|
  {
    if ops == [] {
      assert EMPTY.logs[..0] == [];
    } else {
      var m, e := Run(d, ops[..|ops| - 1]), EntryOf(ops[|ops| - 1]);
      LogsHoldTheRun(d, ops[..|ops| - 1]);
      AppendHolds(d, m.logs, e);
    }
  }

  lemma AppendHolds(d: Disk, logs: seq<seq<Entry>>, e: Entry)
    requires logs != [] && (forall i :: 0 <= i < |logs| - 1 ==> Closed(d, logs[i])) && |EncodeAll(d, logs[|logs| - 1])| < LOG_SIZE
    ensures var r := Append(d, logs, e);
            && Records(r) == Records(logs) + [e]
            && (forall i :: 0 <= i < |r| - 1 ==> Closed(d, r[i]))
            && |EncodeAll(d, r[|r| - 1])| < LOG_SIZE
  {
    var n := |logs| - 1;
    var last := logs[n] + [e];
    assert last[..|last| - 1] == logs[n];
    assert EncodeAll(d, []) == [];
    hide EncodeAll;
    RecordsGrow(logs, e);
    hide Records;
  }

  lemma RecordsGrow(logs: seq<seq<Entry>>, e: Entry)
    requires logs != []
    ensures var n := |logs| - 1;
            var grown := logs[n := logs[n] + [e]];
            Records(grown) == Records(logs) + [e] && Records(grown + [[]]) == Records(logs) + [e] && grown + [] == grown
  {
    var n := |logs| - 1;
    var grown := logs[n := logs[n] + [e]];
    InitAndLast(logs);
    assert grown == logs[..n] + [logs[n] + [e]];
    RecordsSnoc(logs[..n], logs[n]);
    RecordsSnoc(logs[..n], logs[n] + [e]);
    RecordsSnoc(grown, []);
    hide Records;
    Assoc(Records(logs[..n]), logs[n], [e]);
    assert Records(grown) + [] == Records(grown);
  }

  lemma RecordsSnoc(logs: seq<seq<Entry>>, log: seq<Entry>)
    ensures Records(logs + [log]) == Records(logs) + log
  {
    assert (logs + [log])[..|logs|] == logs;
  }

  /** Replay of the logs, file by file. */
  function Replay(d: Disk, logs: seq<seq<Entry>>): (kd: KeyDir) {
    if logs == [] then map[]
    else ApplyAll(d, logs[|logs| - 1], |logs| - 1, Replay(d, logs[..|logs| - 1]))
  }

  // ----- replay against the live directory -----

  /** The write can be told from what replay already knows: a set is later than the live entry of
      its key, and does not look like a tombstone. */
  predicate Distinguishable(kd: KeyDir, op: Op) {
    match op
    case SetOp(k, v, t) => (k in kd ==> kd[k].tstamp < t) && !(t == TSTAMP_MAX && v == [])
    case EraseOp(_) => true
  }

  lemma ReplayAppend(d: Disk, logs: seq<seq<Entry>>, e: Entry)
    requires logs != []
    ensures Replay(d, Append(d, logs, e)) == Apply(Replay(d, logs), e, |logs| - 1, ValueStart(d, logs, e))
  {
    var n := |logs| - 1;
    var last := logs[n] + [e];
    var logs1 := logs[n := last];
    assert logs1[..n] == logs[..n];
    assert last[..|logs[n]|] == logs[n];
    assert Replay(d, logs1) == Apply(Replay(d, logs), e, n, ValueStart(d, logs, e));
    if |EncodeAll(d, last)| >= LOG_SIZE {
      assert (logs1 + [[]])[..n + 1] == logs1;
    } else {
      assert logs1 + [] == logs1;
    }
  }

  predicate SlotBehind(s: Slot, id: nat, size: nat) {
    s.id < id || (s.id == id && s.vpos + s.vsize <= size)
  }

  /** All slots of the directory point before the next value to be written. */
  ghost predicate Behind(d: Disk, m: Model)
    requires m.logs != []
  {
    forall k :: k in m.kd ==> SlotBehind(m.kd[k], |m.logs| - 1, |EncodeAll(d, m.logs[|m.logs| - 1])|)
  }

  lemma BehindStep(d: Disk, m: Model, op: Op)
    requires m.logs != [] && Behind(d, m)
    ensures Behind(d, Step(d, m, op))
  {
    var e, n := EntryOf(op), |m.logs| - 1;
    var last := m.logs[n] + [e];
    assert last[..|m.logs[n]|] == m.logs[n];
    assert |EncodeAll(d, last)| == |EncodeAll(d, m.logs[n])| + |Encode(d, e)|;
    var r := Step(d, m, op);
    assert r.logs[n] == last;
  }

  /** One operation keeps replay and live directory together exactly when it is distinguishable. */
  lemma StepInStepIff(d: Disk, m: Model, op: Op)
    requires m.logs != [] && Behind(d, m) && Replay(d, m.logs) == m.kd
    ensures Replay(d, Step(d, m, op).logs) == Step(d, m, op).kd <==> Distinguishable(m.kd, op)
  {
    var e := EntryOf(op);
    ReplayAppend(d, m.logs, e);
    var replayed := Apply(m.kd, e, |m.logs| - 1, ValueStart(d, m.logs, e));
    match op
    case EraseOp(k) =>
    case SetOp(k, v, t) =>
      var slot := Slot(|m.logs| - 1, |v|, ValueStart(d, m.logs, e), t);
      assert Step(d, m, op).kd[k] == slot;
      if Tombstone(e) {
        assert k !in replayed;
      } else if k in m.kd && m.kd[k].tstamp >= t {
        assert replayed[k] == m.kd[k] != slot;
      }
  }

  /** Every write of the run is distinguishable when it is made. */
  ghost predicate AllDistinguishable(d: Disk, ops: seq<Op>) {
    forall n :: 0 <= n < |ops| ==> Distinguishable(Run(d, ops[..n]).kd, ops[n])
  }

  lemma RunSnoc(d: Disk, ops: seq<Op>, n: nat)
    requires n < |ops|
    ensures Run(d, ops[..n + 1]) == Step(d, Run(d, ops[..n]), ops[n])
  {
    assert ops[..n + 1][..n] == ops[..n];
  }

  lemma {:induction false} AlwaysBehind(d: Disk, ops: seq<Op>)
    ensures Behind(d, Run(d, ops))
    decreases |ops|
  {
    if ops != [] {
      AlwaysBehind(d, ops[..|ops| - 1]);
      BehindStep(d, Run(d, ops[..|ops| - 1]), ops[|ops| - 1]);
    }
  }

  /** Replay of what the first n operations wrote rebuilds the directory they left. */
  ghost predicate RebuiltAt(d: Disk, ops: seq<Op>, n: nat)
    requires n <= |ops|
  {
    Replay(d, Run(d, ops[..n]).logs) == Run(d, ops[..n]).kd
  }

  lemma RebuiltStepIff(d: Disk, ops: seq<Op>, n: nat)
    requires n < |ops| && RebuiltAt(d, ops, n)
    ensures RebuiltAt(d, ops, n + 1) <==> Distinguishable(Run(d, ops[..n]).kd, ops[n])
  {
    AlwaysBehind(d, ops[..n]);
    RunSnoc(d, ops, n);
    StepInStepIff(d, Run(d, ops[..n]), ops[n]);
  }

  /** In a distinguishable run replay rebuilds the live directory after every operation. */
  lemma {:induction false} ReplayRebuilds(d: Disk, ops: seq<Op>, n: nat)
    requires AllDistinguishable(d, ops) && n <= |ops|
    ensures RebuiltAt(d, ops, n)
    decreases n
  {
    if n == 0 {
      assert ops[..0] == [];
      assert Replay(d, [[]]) == ApplyAll(d, [], 0, Replay(d, []));
    } else {
      ReplayRebuilds(d, ops, n - 1);
      RebuiltStepIff(d, ops, n - 1);
    }
  }

  /** And those are exactly the runs for which it does. */
  lemma ReplayRebuildsIff(d: Disk, ops: seq<Op>)
    ensures (forall n :: 0 <= n <= |ops| ==> RebuiltAt(d, ops, n)) <==> AllDistinguishable(d, ops)
  {
    if AllDistinguishable(d, ops) {
      forall n | 0 <= n <= |ops| ensures RebuiltAt(d, ops, n) {
        ReplayRebuilds(d, ops, n);
      }
    }
    if forall n :: 0 <= n <= |ops| ==> RebuiltAt(d, ops, n) {
      forall n | 0 <= n < |ops| ensures Distinguishable(Run(d, ops[..n]).kd, ops[n]) {
        assert RebuiltAt(d, ops, n + 1);
        RebuiltStepIff(d, ops, n);
      }
    }
  }

  /** Strictly increasing timestamps below the tombstone value are distinguishable. */
  predicate Increasing(ops: seq<Op>) {
    && (forall n :: 0 <= n < |ops| && ops[n].SetOp? ==> ops[n].tstamp < TSTAMP_MAX)
    && (forall a, b :: 0 <= a < b < |ops| && ops[a].SetOp? && ops[b].SetOp? ==> ops[a].tstamp < ops[b].tstamp)
  }

  lemma {:induction false} StampsComeFromSets(d: Disk, ops: seq<Op>, n: nat, k: Bytes) returns (a: nat)
    requires n <= |ops| && k in Run(d, ops[..n]).kd
    ensures a < n && ops[a].SetOp? && ops[a].tstamp == Run(d, ops[..n]).kd[k].tstamp
    decreases n
  {
    if n == 0 {
      NothingRun(d, ops);
    } else {
      RunSnoc(d, ops, n - 1);
      hide Run;
      StampStep(d, Run(d, ops[..n - 1]), ops[n - 1], k);
      hide Step;
      if ops[n - 1].SetOp? && ops[n - 1].key == k {
        a := n - 1;
      } else {
        a := StampsComeFromSets(d, ops, n - 1, k);
      }
    }
  }

  lemma NothingRun(d: Disk, ops: seq<Op>)
    ensures Run(d, ops[..0]).kd == map[]
  {
    assert ops[..0] == [];
  }

  lemma StampStep(d: Disk, m: Model, op: Op, k: Bytes)
    requires m.logs != [] && k in Step(d, m, op).kd
    ensures if op.SetOp? && op.key == k then Step(d, m, op).kd[k].tstamp == op.tstamp else k in m.kd && Step(d, m, op).kd[k] == m.kd[k]
  {
    hide Append;
    hide ValueStart;
  }

  lemma IncreasingIsDistinguishable(d: Disk, ops: seq<Op>)
    requires Increasing(ops)
    ensures AllDistinguishable(d, ops)
  {
    forall n | 0 <= n < |ops| ensures Distinguishable(Run(d, ops[..n]).kd, ops[n]) {
      if ops[n].SetOp? && ops[n].key in Run(d, ops[..n]).kd {
        var a := StampsComeFromSets(d, ops, n, ops[n].key);
      }
    }
  }

  // ----- the values -----

  /** The value last set for each key and not erased since. */
  function Values(ops: seq<Op>): (m: map<Bytes, Bytes>) {
    if ops == [] then map[]
    else
      match ops[|ops| - 1]
      case SetOp(k, v, _) => Values(ops[..|ops| - 1])[k := v]
      case EraseOp(k) => Values(ops[..|ops| - 1]) - {k}
  }

  /** The bytes `get` reads for a slot. */
  ghost predicate Stored(d: Disk, logs: seq<seq<Entry>>, s: Slot, v: Bytes) {
    && s.id < |logs| && s.vpos + s.vsize <= |EncodeAll(d, logs[s.id])|
    && EncodeAll(d, logs[s.id])[s.vpos..s.vpos + s.vsize] == v
  }

  lemma StoredStays(d: Disk, logs: seq<seq<Entry>>, e: Entry, s: Slot, v: Bytes)
    requires logs != [] && Stored(d, logs, s, v)
    ensures Stored(d, Append(d, logs, e), s, v)
  {
    var n := |logs| - 1;
    var last := logs[n] + [e];
    assert Append(d, logs, e)[n] == last;
    assert last[..|logs[n]|] == logs[n];
    if s.id == n {
      var a, b := EncodeAll(d, logs[n]), Encode(d, e);
      assert EncodeAll(d, last) == a + b;
      assert (a + b)[s.vpos..s.vpos + s.vsize] == a[s.vpos..s.vpos + s.vsize];
    } else {
      assert Append(d, logs, e)[s.id] == logs[s.id];
    }
  }

  lemma StoredNew(d: Disk, logs: seq<seq<Entry>>, e: Entry)
    requires logs != []
    ensures Stored(d, Append(d, logs, e), Slot(|logs| - 1, |e.val|, ValueStart(d, logs, e), e.tstamp), e.val)
  {
    var n := |logs| - 1;
    var last := logs[n] + [e];
    assert Append(d, logs, e)[n] == last && last[..|logs[n]|] == logs[n];
    var a := EncodeAll(d, logs[n]);
    assert EncodeAll(d, last) == a + (Header(d, e) + e.key + e.val);
  }

  /** Directory and bytes give, for every key, the value last set. */
  ghost predicate Holds(d: Disk, m: Model, values: map<Bytes, Bytes>) {
    m.kd.Keys == values.Keys && forall k :: k in m.kd ==> Stored(d, m.logs, m.kd[k], values[k])
  }

  lemma HoldsStep(d: Disk, m: Model, op: Op, values: map<Bytes, Bytes>)
    requires m.logs != [] && Holds(d, m, values)
    ensures Holds(d, Step(d, m, op), match op case SetOp(k, v, _) => values[k := v] case EraseOp(k) => values - {k})
  {
    hide Stored;
    hide Append;
    hide EncodeAll;
    var e := EntryOf(op);
    forall k | k in m.kd ensures Stored(d, Append(d, m.logs, e), m.kd[k], values[k]) {
      StoredStays(d, m.logs, e, m.kd[k], values[k]);
    }
    StoredNew(d, m.logs, e);
  }

  /** After any run at all, `get` returns the value last set. */
  lemma {:induction false} GetReturnsLast(d: Disk, ops: seq<Op>)
    ensures Holds(d, Run(d, ops), Values(ops))
    decreases |ops|
  {
    if ops != [] {
      GetReturnsLast(d, ops[..|ops| - 1]);
      HoldsStep(d, Run(d, ops[..|ops| - 1]), ops[|ops| - 1], Values(ops[..|ops| - 1]));
    }
  }

  predicate ReadsSlot(files: seq<Bytes>, s: Slot, v: Bytes) {
    s.id < |files| && s.vpos + s.vsize <= |files[s.id]| && files[s.id][s.vpos..s.vpos + s.vsize] == v
  }

  /** What `get` needs to know of a key. */
  lemma SlotsHold(d: Disk, ops: seq<Op>, k: Bytes)
    ensures k in Run(d, ops).kd <==> k in Values(ops)
    ensures k in Run(d, ops).kd ==> ReadsSlot(Files(d, Run(d, ops).logs), Run(d, ops).kd[k], Values(ops)[k])
  {
    GetReturnsLast(d, ops);
    hide Run;
    hide Values;
    hide EncodeAll;
  }

  // ----- torn tails -----

  function Files(d: Disk, logs: seq<seq<Entry>>): (files: seq<Bytes>)
    ensures |files| == |logs| && forall i :: 0 <= i < |logs| ==> files[i] == EncodeAll(d, logs[i])
  {
    seq(|logs|, i requires 0 <= i < |logs| => EncodeAll(d, logs[i]))
  }

  /** Replay of files as bytes, in order of their ids; a file with a wrong checksum stops there. */
  function ReplayBytes(d: Disk, files: seq<Bytes>): (kd: KeyDir) {
    if files == [] then map[]
    else LoadFrom(d, files[|files| - 1], |files| - 1, 0, ReplayBytes(d, files[..|files| - 1])).kd
  }

  ghost predicate LogsFit(logs: seq<seq<Entry>>) {
    forall i :: 0 <= i < |logs| ==> AllFit(logs[i])
  }

  lemma {:induction false} ReplayBytesWhole(d: Disk, logs: seq<seq<Entry>>)
    requires LogsFit(logs)
    ensures ReplayBytes(d, Files(d, logs)) == Replay(d, logs)
    decreases |logs|
  {
    if logs != [] {
      var n := |logs| - 1;
      ReplayBytesWhole(d, logs[..n]);
      assert Files(d, logs)[..n] == Files(d, logs[..n]);
      LoadWhole(d, logs[n], n, Replay(d, logs[..n]));
    }
  }

  lemma {:induction false} RunFits(d: Disk, ops: seq<Op>)
    requires forall i :: 0 <= i < |ops| ==> OpFits(ops[i])
    ensures LogsFit(Run(d, ops).logs)
    decreases |ops|
  {
    if ops != [] {
      RunFits(d, ops[..|ops| - 1]);
      var m := Run(d, ops[..|ops| - 1]);
      var n, e := |m.logs| - 1, EntryOf(ops[|ops| - 1]);
      assert AllFit(m.logs[n] + [e]);
    }
  }

  /** What the newest log was one operation ago, unless it is a fresh one. */
  lemma AppendBefore(d: Disk, logs: seq<seq<Entry>>, e: Entry, m: nat)
    requires logs != []
    requires var r := Append(d, logs, e); m < |r[|r| - 1]|
    ensures var r := Append(d, logs, e);
            var n := |logs| - 1;
            && |r| == |logs|
            && m <= |logs[n]|
            && r[n := r[n][..m]] == logs[n := logs[n][..m]]
  {
    hide EncodeAll;
    var r, n := Append(d, logs, e), |logs| - 1;
    assert r == logs[n := logs[n] + [e]];
    assert (logs[n] + [e])[..m] == logs[n][..m];
  }

  /** The newest log cut to its first m records is the log of some earlier point of the run. */
  lemma {:induction false} CutIsEarlier(d: Disk, ops: seq<Op>, m: nat) returns (k: nat)
    requires var logs := Run(d, ops).logs; m <= |logs[|logs| - 1]|
    ensures k <= |ops|
    ensures var logs := Run(d, ops).logs;
            var n := |logs| - 1;
            Replay(d, Run(d, ops[..k]).logs) == Replay(d, logs[n := logs[n][..m]])
    decreases |ops|
  {
    RunLogs(d, ops);
    hide Run;
    hide Append;
    hide Replay;
    var logs := Run(d, ops).logs;
    var n := |logs| - 1;
    if m == |logs[n]| {
      k := |ops|;
      assert ops[..k] == ops && logs[n][..m] == logs[n];
      assert logs[n := logs[n]] == logs;
    } else {
      var before := ops[..|ops| - 1];
      AppendBefore(d, Run(d, before).logs, EntryOf(ops[|ops| - 1]), m);
      k := CutIsEarlier(d, before, m);
      assert before[..k] == ops[..k];
    }
  }

  lemma RunLogs(d: Disk, ops: seq<Op>)
    ensures ops == [] ==> Run(d, ops).logs == [[]]
    ensures ops != [] ==> Run(d, ops).logs == Append(d, Run(d, ops[..|ops| - 1]).logs, EntryOf(ops[|ops| - 1]))
  {
    hide Append;
  }

  /** Cutting the newest log at any byte replays to the live directory of some point of the run. */
  lemma TornTailIsAPrefix(d: Disk, ops: seq<Op>, c: nat) returns (k: nat)
    requires AllDistinguishable(d, ops) && forall i :: 0 <= i < |ops| ==> OpFits(ops[i])
    requires var files := Files(d, Run(d, ops).logs); c <= |files[|files| - 1]|
    ensures k <= |ops|
    ensures var files := Files(d, Run(d, ops).logs); var n := |files| - 1;
            ReplayBytes(d, files[n := files[n][..c]]) == Run(d, ops[..k]).kd
  {
    hide Run;
    hide LoadFrom;
    hide EncodeAll;
    hide ApplyAll;
    var logs := Run(d, ops).logs;
    var n := |logs| - 1;
    RunFits(d, ops);
    var m := CutReplays(d, logs, c);
    k := CutIsEarlier(d, ops, m);
    ReplayRebuilds(d, ops, k);
  }

  lemma ReplaysLast(d: Disk, files: seq<Bytes>, logs: seq<seq<Entry>>)
    requires files != [] && logs != []
    ensures var n := |files| - 1; ReplayBytes(d, files) == LoadFrom(d, files[n], n, 0, ReplayBytes(d, files[..n])).kd
    ensures var n := |logs| - 1; Replay(d, logs) == ApplyAll(d, logs[n], n, Replay(d, logs[..n]))
  {
    hide LoadFrom;
    hide ApplyAll;
  }

  /** The last of some sequences cut to n elements, if it has as many. */
  function CutLast<T>(ss: seq<seq<T>>, n: nat): (r: seq<seq<T>>)
    requires ss != []
  {
    var k := |ss| - 1;
    if n <= |ss[k]| then ss[k := ss[k][..n]] else ss
  }

  lemma CutLastParts<T>(ss: seq<seq<T>>, n: nat)
    requires ss != [] && n <= |ss[|ss| - 1]|
    ensures var k, r := |ss| - 1, CutLast(ss, n); |r| == k + 1 && r[..k] == ss[..k] && r[k] == ss[k][..n]
  {
  }

  /** Replay of logs whose newest is cut at byte c. */
  lemma CutReplays(d: Disk, logs: seq<seq<Entry>>, c: nat) returns (m: nat)
    requires logs != [] && LogsFit(logs) && c <= |EncodeAll(d, logs[|logs| - 1])|
    ensures m <= |logs[|logs| - 1]| && ReplayBytes(d, CutLast(Files(d, logs), c)) == Replay(d, CutLast(logs, m))
  {
    hide LoadFrom;
    hide ApplyAll;
    hide EncodeAll;
    hide ReplayBytes;
    hide Replay;
    var files, n := Files(d, logs), |logs| - 1;
    NothingApplied(d, logs[n], n, Replay(d, logs[..n]));
    m := LoadPrefix(d, logs[n], n, Replay(d, logs[..n]), c, 0);
    CutLastParts(files, c);
    CutLastParts(logs, m);
    hide CutLast;
    ReplayBytesWhole(d, logs[..n]);
    assert files[..n] == Files(d, logs[..n]);
    ReplaysLast(d, CutLast(files, c), CutLast(logs, m));
  }

  // ----- the store as an object -----

  /** The files after appending a record's bytes to the newest. */
  function Grow(files: seq<Bytes>, record: Bytes): (r: seq<Bytes>)
    requires files != []
  {
    var n := |files| - 1;
    files[n := files[n] + record] + (if |files[n] + record| >= LOG_SIZE then [[]] else [])
  }

  lemma FilesAppend(d: Disk, logs: seq<seq<Entry>>, e: Entry)
    requires logs != []
    ensures Files(d, Append(d, logs, e)) == Grow(Files(d, logs), Encode(d, e))
  {
    var n := |logs| - 1;
    var last := logs[n] + [e];
    assert last[..|logs[n]|] == logs[n];
  }

  lemma {:induction false} LastIsOpen(d: Disk, ops: seq<Op>)
    ensures var logs := Run(d, ops).logs; |EncodeAll(d, logs[|logs| - 1])| < LOG_SIZE
  {
  }

  /** The bytes of a run whose writes replay can tell apart. */
  ghost predicate LeftBehind(d: Disk, casks: seq<Bytes>, past: seq<Op>) {
    && casks == Files(d, Run(d, past).logs) && AllDistinguishable(d, past)
    && forall i :: 0 <= i < |past| ==> OpFits(past[i])
  }

  ghost predicate LastLoads(d: Disk, casks: seq<Bytes>) {
    && casks != [] && |casks[|casks| - 1]| < LOG_SIZE
    && LoadFrom(d, casks[|casks| - 1], |casks| - 1, 0, ReplayBytes(d, casks[..|casks| - 1])).ok
  }

  lemma ReopenedAsLeft(d: Disk, casks: seq<Bytes>, past: seq<Op>)
    requires LeftBehind(d, casks, past)
    ensures LastLoads(d, casks) && ReplayBytes(d, casks) == Run(d, past).kd
  {
    var logs := Run(d, past).logs;
    var n := |logs| - 1;
    LastIsOpen(d, past);
    RunFits(d, past);
    hide Run;
    ReplayBytesWhole(d, logs);
    hide ReplayBytes;
    hide EncodeAll;
    hide ApplyAll;
    hide Replay;
    LoadWhole(d, logs[n], n, ReplayBytes(d, casks[..n]));
    hide LoadFrom;
    assert past[..|past|] == past;
    ReplayRebuilds(d, past, |past|);
  }

  /** File i can be replayed to its end, after the files before it. */
  ghost predicate Loads(d: Disk, casks: seq<Bytes>, i: nat)
    requires i < |casks|
  {
    LoadFrom(d, casks[i], i, 0, ReplayBytes(d, casks[..i])).ok
  }

  /** The log to append to after file i. */
  function NextLog(casks: seq<Bytes>, i: nat): (id: nat)
    requires i < |casks|
  {
    if |casks[i]| < LOG_SIZE then i else i + 1
  }

  /** The log to append to is the largest that any undamaged file asks for, or the first. */
  ghost predicate IsCurrent(d: Disk, casks: seq<Bytes>, n: nat, curr: nat)
    requires n <= |casks|
  {
    && (forall i :: 0 <= i < n && Loads(d, casks, i) ==> NextLog(casks, i) <= curr)
    && (curr == 0 || exists i :: 0 <= i < n && Loads(d, casks, i) && NextLog(casks, i) == curr)
  }

  lemma CurrentNext(d: Disk, casks: seq<Bytes>, n: nat, curr: nat)
    requires n < |casks| && curr <= n && IsCurrent(d, casks, n, curr)
    ensures IsCurrent(d, casks, n + 1, if Loads(d, casks, n) then NextLog(casks, n) else curr)
  {
    hide Loads;
    if Loads(d, casks, n) {
      assert n < n + 1 && Loads(d, casks, n) && NextLog(casks, n) >= curr;
    }
  }

  /** Every file is replayed in order of its id, a damaged one as far as it goes. */
  method LoadAll(d: Disk, casks: seq<Bytes>) returns (kd: KeyDir, curr: nat)
    ensures kd == ReplayBytes(d, casks) && curr <= |casks| && IsCurrent(d, casks, |casks|, curr)
  {
    kd, curr := map[], 0;
    for id := 0 to |casks|
      invariant kd == ReplayBytes(d, casks[..id]) && 0 <= curr <= id && IsCurrent(d, casks, id, curr)
    {
      var ok;
      assert casks[..id + 1][..id] == casks[..id];
      kd, ok := LoadFile(d, casks[id], id, kd);
      assert ok == Loads(d, casks, id);
      hide Loads;
      hide LoadFrom;
      CurrentNext(d, casks, id, curr);
      hide IsCurrent;
      if ok {
        // the larger of the two, as the ids come in order
        curr := if |casks[id]| < LOG_SIZE then id else id + 1;
      }
    }
    assert casks[..|casks|] == casks;
  }

  /** A log that loads is never appended to once it is full. */
  lemma FullIsNotCurrent(d: Disk, casks: seq<Bytes>, curr: nat)
    requires IsCurrent(d, casks, |casks|, curr) && curr < |casks| && Loads(d, casks, curr)
    ensures |casks[curr]| < LOG_SIZE
  {
    assert NextLog(casks, curr) <= curr;
  }

  lemma LastIsCurrent(d: Disk, casks: seq<Bytes>, curr: nat)
    requires LastLoads(d, casks) && IsCurrent(d, casks, |casks|, curr)
    ensures curr == |casks| - 1
  {
    assert Loads(d, casks, |casks| - 1);
  }

  /** What one more operation writes, in bytes. */
  lemma RunStep(d: Disk, ops: seq<Op>, op: Op)
    ensures Run(d, ops + [op]) == Step(d, Run(d, ops), op)
    ensures Files(d, Run(d, ops + [op]).logs) == Grow(Files(d, Run(d, ops).logs), Encode(d, EntryOf(op)))
  {
    hide Run;
    hide EncodeAll;
    hide Encode;
    hide Append;
    hide Grow;
    FilesAppend(d, Run(d, ops).logs, EntryOf(op));
    RunAppend(d, ops, op);
  }

  lemma RunAppend(d: Disk, ops: seq<Op>, op: Op)
    ensures Run(d, ops + [op]) == Step(d, Run(d, ops), op)
  {
    assert (ops + [op])[..|ops|] == ops;
  }

  /** The store: cask.0 to cask.currId as bytes, the last one open for appending. */
  class Bitcask {
    const disk: Disk
    var files: seq<Bytes>
    var keyDir: KeyDir
    var currId: nat
    ghost var history: seq<Op>

    ghost predicate Valid()
      reads this
    {
      && files == Files(disk, Run(disk, history).logs)
      && keyDir == Run(disk, history).kd
      && currId == |files| - 1
    }

    /** Opens a datastore; an empty one gives an empty store, and what a run left behind gives the store
        as it was. */
    constructor (d: Disk, casks: seq<Bytes>, ghost past: seq<Op>)
      ensures disk == d && history == past && keyDir == ReplayBytes(d, casks)
      ensures IsCurrent(d, casks, |casks|, currId) && files == if currId < |casks| then casks else casks + [[]]
      ensures LeftBehind(d, casks, past) || (casks == [] && past == []) ==> Valid()
    {
      var kd, curr := LoadAll(d, casks);
      disk, keyDir, currId, history := d, kd, curr, past;
      files := if curr < |casks| then casks else casks + [[]];
      if LeftBehind(d, casks, past) {
        ReopenedAsLeft(d, casks, past);
        LastIsCurrent(d, casks, curr);
      }
    }

    /** Appends a record; if the log then reached its size limit, a new one is opened. */
    method Write(entry: Entry)
      requires files != [] && currId == |files| - 1
      modifies this`files, this`currId
      ensures files == Grow(old(files), Encode(disk, entry)) && currId == |files| - 1
    {
      files := files[currId := files[currId] + Encode(disk, entry)];
      if |files[currId]| >= LOG_SIZE {
        currId := currId + 1;
        files := files + [[]];
      }
    }

    method Set(key: Bytes, value: Bytes, tstamp: int)
      requires Valid() && OpFits(SetOp(key, value, tstamp))
      modifies this
      ensures Valid() && history == old(history) + [SetOp(key, value, tstamp)]
    {
      RunStep(disk, history, SetOp(key, value, tstamp));
      hide Run;
      hide Encode;
      hide EncodeAll;
      hide Append;
      hide Grow;
      keyDir := keyDir[key := Slot(currId, |value|, |files[currId]| + 16 + |key|, tstamp)];
      Write(Entry(tstamp, key, value));
      history := history + [SetOp(key, value, tstamp)];
    }

    method Get(key: Bytes) returns (r: Option<Bytes>)
      requires Valid()
      ensures r == if key in Values(history) then Some(Values(history)[key]) else None
    {
      SlotsHold(disk, history, key);
      hide Run;
      hide Values;
      if key !in keyDir {
        return None;
      }
      var kdVal := keyDir[key];
      return Some(files[kdVal.id][kdVal.vpos..kdVal.vpos + kdVal.vsize]);
    }

    method Erase(key: Bytes) returns (r: Option<Bytes>)
      requires Valid() && OpFits(EraseOp(key))
      modifies this
      ensures Valid() && history == old(history) + [EraseOp(key)]
      ensures r == if key in Values(old(history)) then Some(Values(old(history))[key]) else None
    {
      hide Run;
      hide Encode;
      hide EncodeAll;
      hide Append;
      hide Grow;
      hide Values;
      r := Get(key);
      RunStep(disk, history, EraseOp(key));
      Write(Entry(TSTAMP_MAX, key, []));
      keyDir := keyDir - {key};
      history := history + [EraseOp(key)];
    }
  }
}
