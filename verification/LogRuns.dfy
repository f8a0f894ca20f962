/**
  Whole runs of appending and age eviction.  Sorting happens only when a batch
  breaks the order and eviction only ever looks at a prefix, yet each label set
  ends up with the stable time-sort of everything appended to it, minus what a
  later cutoff removed.
 */
module LogRuns {
  import opened Interning
  import opened LabelIndexing
  import opened LogStore
  import opened StableSorting
  import opened StreamMaps

  datatype Op = Append(ls: LabelSet, batch: seq<LogEntry>) | CutOff(cutoff: int)

  function Run(ops: seq<Op>): Contents<LogEntry> {
    if ops == [] then map[]
    else
      var before := Run(ops[..|ops| - 1]);
      match ops[|ops| - 1]
      case Append(ls, batch) => ContentsAfterIngest(before, ls, batch, Ts)
      case CutOff(cutoff) => ContentsAfterEvictBefore(before, cutoff, Ts)
  }

  /** What the cutoffs among `later` leave of a batch. */
  function AfterCutoffs(batch: seq<LogEntry>, later: seq<Op>): seq<LogEntry>
    decreases |later|
  {
    if later == [] then batch
    else
      match later[0]
      case Append(_, _) => AfterCutoffs(batch, later[1..])
      case CutOff(cutoff) => AfterCutoffs(AtLeast(batch, Ts, cutoff), later[1..])
  }

  /** What the first operation of a run contributes to `ls` in the end. */
  function Share(op: Op, later: seq<Op>, ls: LabelSet): seq<LogEntry> {
    if op.Append? && op.ls == ls then AfterCutoffs(op.batch, later) else []
  }

  /** All batches appended to `ls`, in arrival order, each minus its later cutoffs. */
  function Surviving(ops: seq<Op>, ls: LabelSet): seq<LogEntry> {
    if ops == [] then [] else Share(ops[0], ops[1..], ls) + Surviving(ops[1..], ls)
  }

  function EntriesOf(c: Contents<LogEntry>, ls: LabelSet): seq<LogEntry> {
    if ls in c then c[ls] else []
  }

  lemma {:induction false} AfterCutoffsSnoc(batch: seq<LogEntry>, later: seq<Op>, op: Op)
    ensures AfterCutoffs(batch, later + [op])
         == if op.CutOff? then AtLeast(AfterCutoffs(batch, later), Ts, op.cutoff) else AfterCutoffs(batch, later)
    decreases |later|
  {
    if later == [] {
      assert later + [op] == [op];
    } else {
      assert (later + [op])[1..] == later[1..] + [op];
      AfterCutoffsSnoc(if later[0].CutOff? then AtLeast(batch, Ts, later[0].cutoff) else batch, later[1..], op);
    }
  }

  lemma {:induction false} SurvivingSnoc(ops: seq<Op>, op: Op, ls: LabelSet)
    ensures op.Append? ==> Surviving(ops + [op], ls) == Surviving(ops, ls) + (if op.ls == ls then op.batch else [])
    ensures op.CutOff? ==> Surviving(ops + [op], ls) == AtLeast(Surviving(ops, ls), Ts, op.cutoff)
  {
    if ops == [] {
      assert ops + [op] == [op] && [op][1..] == [];
    } else {
      var rest := Surviving(ops[1..], ls);
      var first := Share(ops[0], ops[1..], ls);
      assert (ops + [op])[0] == ops[0] && (ops + [op])[1..] == ops[1..] + [op];
      SurvivingSnoc(ops[1..], op, ls);
      if ops[0].Append? { AfterCutoffsSnoc(ops[0].batch, ops[1..], op); }
      if op.CutOff? {
        AtLeastAppend(first, rest, Ts, op.cutoff);
      } else {
        var added := if op.ls == ls then op.batch else [];
        assert first + (rest + added) == (first + rest) + added;
      }
    }
  }

  /** The entries of every label set after any run. */
  lemma {:induction false} RunIsSortedSurvivors(ops: seq<Op>, ls: LabelSet)
    ensures EntriesOf(Run(ops), ls) == StableSort(Surviving(ops, ls), Ts)
  {
    if ops != [] {
      var before, op := ops[..|ops| - 1], ops[|ops| - 1];
      assert ops == before + [op];
      RunIsSortedSurvivors(before, ls);
      SurvivingSnoc(before, op, ls);
      match op {
        case Append(ls', batch) =>
          SortAppendSorted(Surviving(before, ls), batch, Ts);
          assert Surviving(before, ls) + [] == Surviving(before, ls);
        case CutOff(cutoff) => SortAtLeast(Surviving(before, ls), Ts, cutoff);
      }
    }
  }

  // ------------------------------------------------- runs of the store itself

  datatype StoreOp = IngestStream(labels: seq<Label>, entries: seq<LogEntry>) | EvictBefore(cutoff: int)

  predicate OpsInterned(r: Interner, ops: seq<StoreOp>) {
    forall i :: 0 <= i < |ops| && ops[i].IngestStream? ==> Interned(r, ops[i].labels)
  }

  /** The same operations with their label vectors in canonical form. */
  function Canonical(r: Interner, ops: seq<StoreOp>): (cs: seq<Op>)
    requires OpsInterned(r, ops)
    ensures |cs| == |ops|
  {
    if ops == [] then []
    else
      Canonical(r, ops[..|ops| - 1])
      + [match ops[|ops| - 1]
         case IngestStream(labels, entries) => Append(LabelSetOf(r, labels), entries)
         case EvictBefore(cutoff) => CutOff(cutoff)]
  }

  lemma {:induction false} CanonicalStable(earlier: Interner, later: Interner, ops: seq<StoreOp>)
    requires later.Valid() && later.GrownFrom(earlier) && OpsInterned(earlier, ops)
    ensures OpsInterned(later, ops) && Canonical(later, ops) == Canonical(earlier, ops)
  {
    forall i | 0 <= i < |ops| && ops[i].IngestStream? ensures Interned(later, ops[i].labels) {
      PairsStable(earlier, later, ops[i].labels);
    }
    if ops != [] {
      CanonicalStable(earlier, later, ops[..|ops| - 1]);
      var op := ops[|ops| - 1];
      if op.IngestStream? { PairsStable(earlier, later, op.labels); }
    }
  }

  /** A fresh store driven through any such run holds exactly what `Run` says. */
  method Replay(ops: seq<StoreOp>) returns (store: LogStore)
    ensures fresh(store) && store.Valid() && OpsInterned(store.interner, ops)
    ensures store.Contents() == Run(Canonical(store.interner, ops))
  {
    hide Indexed, AllKnown, AllSorted, TraceCovered, Total, ContentsOf, LabelSetOf, Interned;
    store := new LogStore.New();
    for n := 0 to |ops|
      invariant fresh(store) && store.Valid() && OpsInterned(store.interner, ops[..n])
      invariant store.Contents() == Run(Canonical(store.interner, ops[..n]))
    {
      assert ops[..n + 1][..n] == ops[..n] && ops[..n + 1][n] == ops[n];
      ghost var r := store.interner;
      match ops[n] {
        case IngestStream(labels, entries) =>
          InternAllCorrect(r, labels);
          store.IngestStream(labels, entries);
          CanonicalStable(r, store.interner, ops[..n]);
        case EvictBefore(cutoff) =>
          store.EvictBefore(cutoff);
      }
      OpsInternedSnoc(store.interner, ops, n);
      assert Canonical(store.interner, ops[..n + 1])[..n] == Canonical(store.interner, ops[..n]);
    }
    assert ops[..|ops|] == ops;
  }

  lemma OpsInternedSnoc(r: Interner, ops: seq<StoreOp>, n: nat)
    requires n < |ops| && OpsInterned(r, ops[..n])
    requires ops[n].IngestStream? ==> Interned(r, ops[n].labels)
    ensures OpsInterned(r, ops[..n + 1])
  {
    var upTo := ops[..n + 1];
    forall i | 0 <= i < |upTo| && upTo[i].IngestStream? ensures Interned(r, upTo[i].labels) {
      if i < n { assert ops[..n][i] == ops[i]; }
    }
  }

  // ------------------------------------------------------ runs of every operation

  datatype AnyOp =
    | Ingest(labels: seq<Label>, entries: seq<LogEntry>)
    | AgeOut(cutoff: int)
    | Shrink(maxEntries: nat)
    | DropService(service: string)
    | Reset
    | Rebuild

  /** No service was cleared since the trace index was last rebuilt for certain. */
  predicate IndexFresh(ops: seq<AnyOp>) {
    if ops == [] then true
    else
      match ops[|ops| - 1]
      case AgeOut(_) => true
      case Reset => true
      case DropService(_) => false
      case _ => IndexFresh(ops[..|ops| - 1])
  }

  /**
    Any run of operations keeps every index exact and every stream sorted; the
    trace index always covers the streams and is exact unless a service was cleared
    since the last age eviction.
   */
  method Drive(ops: seq<AnyOp>) returns (store: LogStore)
    ensures fresh(store) && store.Valid() && TraceCovered(store.streams, store.traceIndex)
    ensures IndexFresh(ops) ==> TraceExact(store.streams, store.traceIndex)
  {
    hide LogStore.Valid, TraceExact, TraceCovered, ContentsOf, DrainedInOrder, Retained, Appended;
    store := new LogStore.New();
    for n := 0 to |ops|
      invariant fresh(store) && store.Valid()
      invariant IndexFresh(ops[..n]) ==> TraceExact(store.streams, store.traceIndex)
    {
      assert ops[..n + 1][..n] == ops[..n] && ops[..n + 1][n] == ops[n];
      match ops[n] {
        case Ingest(labels, entries) => store.IngestStream(labels, entries);
        case AgeOut(cutoff) => store.EvictBefore(cutoff);
        case Shrink(maxEntries) => store.EvictToMax(maxEntries);
        case DropService(service) => store.ClearService(service);
        case Reset => store.Clear();
        case Rebuild =>
          DistinctLabelSets(store);
          store.RebuildStreamIds();
      }
    }
    assert ops[..|ops|] == ops;
    ValidCovers(store);
  }

  lemma ValidCovers(store: LogStore)
    requires store.Valid()
    ensures TraceCovered(store.streams, store.traceIndex)
  {
  }

  lemma DistinctLabelSets(store: LogStore)
    requires store.Valid()
    ensures forall i, j :: i in store.streams && j in store.streams && store.streams[i].labels == store.streams[j].labels ==> i == j
  {
    forall i, j | i in store.streams && j in store.streams && store.streams[i].labels == store.streams[j].labels ensures i == j {
      assert LabelsOf(store.streams)[i] == LabelsOf(store.streams)[j];
      assert store.streamIds[LabelsOf(store.streams)[i]] == i;
    }
  }
}
