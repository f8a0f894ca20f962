/**
  Ingest sequence numbers as interleaved steps: requests reserve numbers one by
  one before they take a store's lock, commits and evictions change the stores,
  snapshots clone one store after the other, and a restart keeps only what the
  last published snapshot holds.
 */
module IngestSeq {
  import opened Enumeration
  import opened LogStore
  import opened MetricStore
  import opened Options
  import opened StreamMaps
  import opened TraceIndexing
  import opened TraceStore

  datatype Kind = Logs | Metrics | Spans

  /** The numbers held by the three stores. */
  type Held = map<Kind, seq<nat>>

  /** Numbers reserved by a request that is not committed yet. */
  datatype InFlight = InFlight(kind: Kind, seqs: seq<nat>)

  /**
    `owner` is a history variable: every number restored or reserved in this
    process lifetime, with the store it belongs to.
   */
  datatype World = World(counter: nat, stores: Held, inFlight: map<nat, InFlight>, pending: map<nat, Held>,
                         published: Option<Held>, owner: map<nat, Kind>)

  datatype Step =
    | Reserve(request: nat, kind: Kind)
    | Commit(request: nat, accepted: seq<nat>)
    | Abandon(request: nat)
    | Evict(kind: Kind, kept: seq<nat>)
    | LoadCheckpoint
    | CloneStore(snapshot: nat, kind: Kind)
    | Publish(snapshot: nat)
    | Restart(restore: bool)

  function Holding(h: Held, k: Kind): seq<nat> {
    if k in h then h[k] else []
  }

  // ------------------------------------------------------------------ restoring

  function Max(a: nat, b: nat): nat { if a >= b then a else b }

  function MaxOf(xs: seq<nat>): (m: nat)
    ensures forall i :: 0 <= i < |xs| ==> xs[i] <= m
    ensures m == 0 || m in xs
  {
    if xs == [] then 0 else Max(MaxOf(xs[..|xs| - 1]), xs[|xs| - 1])
  }

  function MaxHeld(h: Held): nat {
    Max(Max(MaxOf(Holding(h, Logs)), MaxOf(Holding(h, Metrics))), MaxOf(Holding(h, Spans)))
  }

  function Numbers(h: Held): set<nat> {
    set k: Kind, n | n in Holding(h, k) :: n
  }

  /** The store each held number belongs to. */
  function Owners(h: Held): map<nat, Kind> {
    map n | n in Numbers(h) :: if n in Holding(h, Logs) then Logs else if n in Holding(h, Metrics) then Metrics else Spans
  }

  /** A process starting with the given stores. */
  function Booted(h: Held, published: Option<Held>): World {
    World(MaxHeld(h) + 1, h, map[], map[], published, Owners(h))
  }

  const Initial := Booted(map[], None)

  // ---------------------------------------------------------------------- steps

  /** `part` picks some of the elements of `whole`, none more often than it is there. */
  ghost predicate PartOf(part: seq<nat>, whole: seq<nat>) {
    multiset(part) <= multiset(whole)
  }

  ghost predicate Enabled(w: World, s: Step) {
    match s
    case Reserve(request, kind) => request in w.inFlight ==> w.inFlight[request].kind == kind
    case Commit(request, accepted) => request in w.inFlight && PartOf(accepted, w.inFlight[request].seqs)
    case Abandon(request) => request in w.inFlight
    case Evict(kind, kept) => PartOf(kept, Holding(w.stores, kind))
    case LoadCheckpoint => true
    case CloneStore(_, _) => true
    case Publish(snapshot) => snapshot in w.pending && w.pending[snapshot].Keys == {Logs, Metrics, Spans}
    case Restart(_) => true
  }

  function Reserved(w: World, request: nat): seq<nat> {
    if request in w.inFlight then w.inFlight[request].seqs else []
  }

  function Apply(w: World, s: Step): World {
    match s
    case Reserve(request, kind) =>
      w.(counter := w.counter + 1,
         inFlight := w.inFlight[request := InFlight(kind, Reserved(w, request) + [w.counter])],
         owner := w.owner[w.counter := kind])
    case Commit(request, accepted) =>
      if request !in w.inFlight then w
      else
        var kind := w.inFlight[request].kind;
        w.(inFlight := w.inFlight - {request}, stores := w.stores[kind := Holding(w.stores, kind) + accepted])
    case Abandon(request) => w.(inFlight := w.inFlight - {request})
    case Evict(kind, kept) => w.(stores := w.stores[kind := kept])
    case LoadCheckpoint => w
    case CloneStore(snapshot, kind) =>
      var cloned := if snapshot in w.pending then w.pending[snapshot] else map[];
      w.(pending := w.pending[snapshot := cloned[kind := Holding(w.stores, kind)]])
    case Publish(snapshot) =>
      if snapshot !in w.pending then w
      else w.(published := Some(w.pending[snapshot]), pending := w.pending - {snapshot})
    case Restart(restore) =>
      Booted(if restore && w.published.Some? then w.published.value else map[], w.published)
  }

  ghost predicate Possible(w: World, steps: seq<Step>) {
    steps == [] || (Possible(w, steps[..|steps| - 1]) && Enabled(Run(w, steps[..|steps| - 1]), steps[|steps| - 1]))
  }

  function Run(w: World, steps: seq<Step>): World {
    if steps == [] then w else Apply(Run(w, steps[..|steps| - 1]), steps[|steps| - 1])
  }

  // ------------------------------------------------------------------ invariant

  ghost predicate OwnedBy(xs: seq<nat>, k: Kind, owner: map<nat, Kind>) {
    forall i :: 0 <= i < |xs| ==> xs[i] in owner && owner[xs[i]] == k
  }

  /** Each store's numbers are distinct and belong to that store. */
  ghost predicate Owned(h: Held, owner: map<nat, Kind>) {
    forall k :: Distinct(Holding(h, k)) && OwnedBy(Holding(h, k), k, owner)
  }

  ghost predicate Apart(xs: seq<nat>, ys: seq<nat>) {
    forall n :: !(n in xs && n in ys)
  }

  /** No number occurs twice, in one store or in two. */
  ghost predicate AllDistinct(h: Held) {
    && (forall k :: Distinct(Holding(h, k)))
    && (forall k, l :: k != l ==> Apart(Holding(h, k), Holding(h, l)))
  }

  ghost predicate RequestsOwned(w: World) {
    forall r :: r in w.inFlight ==> Distinct(w.inFlight[r].seqs) && OwnedBy(w.inFlight[r].seqs, w.inFlight[r].kind, w.owner)
  }

  ghost predicate RequestsApart(w: World) {
    && (forall r, q :: r in w.inFlight && q in w.inFlight && r != q ==> Apart(w.inFlight[r].seqs, w.inFlight[q].seqs))
    && (forall r, k :: r in w.inFlight ==> Apart(w.inFlight[r].seqs, Holding(w.stores, k)))
  }

  ghost predicate Inv(w: World) {
    && (forall n :: n in w.owner ==> n < w.counter)
    && Owned(w.stores, w.owner)
    && RequestsOwned(w)
    && RequestsApart(w)
    && (forall s :: s in w.pending ==> Owned(w.pending[s], w.owner))
    && (w.published.Some? ==> AllDistinct(w.published.value))
  }

  lemma OwnedIsDistinct(h: Held, owner: map<nat, Kind>)
    requires Owned(h, owner)
    ensures AllDistinct(h)
  {
    forall k, l | k != l ensures Apart(Holding(h, k), Holding(h, l)) {
      assert OwnedBy(Holding(h, k), k, owner) && OwnedBy(Holding(h, l), l, owner);
    }
  }

  lemma DistinctPart(part: seq<nat>, whole: seq<nat>)
    requires PartOf(part, whole) && Distinct(whole)
    ensures Distinct(part) && forall n :: n in part ==> n in whole
  {
    forall n | n in part ensures n in whole { assert n in multiset(part); assert n in multiset(whole); }
    forall i, j | 0 <= i < j < |part| ensures part[i] != part[j] {
      var a, b := part[..j], part[j..];
      assert part == a + b && a[i] == part[i] && b[0] == part[j];
      assert multiset(part) == multiset(a) + multiset(b);
      assert part[i] in multiset(a) && part[j] in multiset(b);
      DistinctCount(whole, part[i]);
    }
  }

  lemma OwnedGrows(h: Held, owner: map<nat, Kind>, n: nat, k: Kind)
    requires Owned(h, owner) && n !in owner
    ensures Owned(h, owner[n := k])
  {
    forall l ensures OwnedBy(Holding(h, l), l, owner[n := k]) { assert OwnedBy(Holding(h, l), l, owner); }
  }

  lemma ReserveKeeps(w: World, request: nat, kind: Kind)
    requires Inv(w) && Enabled(w, Reserve(request, kind))
    ensures Inv(Apply(w, Reserve(request, kind)))
  {
    var w', n := Apply(w, Reserve(request, kind)), w.counter;
    assert n !in w.owner;
    OwnedGrows(w.stores, w.owner, n, kind);
    forall s | s in w'.pending ensures Owned(w'.pending[s], w'.owner) { OwnedGrows(w.pending[s], w.owner, n, kind); }
    forall r | r in w'.inFlight
      ensures Distinct(w'.inFlight[r].seqs) && OwnedBy(w'.inFlight[r].seqs, w'.inFlight[r].kind, w'.owner)
      ensures forall m :: m in w'.inFlight[r].seqs ==> (m == n && r == request) || m in Reserved(w, r)
    {
      if r in w.inFlight { assert OwnedBy(w.inFlight[r].seqs, w.inFlight[r].kind, w.owner); }
    }
    forall k ensures n !in Holding(w.stores, k) { assert OwnedBy(Holding(w.stores, k), k, w.owner); }
    forall r | r in w.inFlight ensures n !in w.inFlight[r].seqs { assert OwnedBy(w.inFlight[r].seqs, w.inFlight[r].kind, w.owner); }
    forall r, k | r in w'.inFlight ensures Apart(w'.inFlight[r].seqs, Holding(w'.stores, k)) {
      if r in w.inFlight { assert Apart(w.inFlight[r].seqs, Holding(w.stores, k)); }
    }
    forall r, q | r in w'.inFlight && q in w'.inFlight && r != q ensures Apart(w'.inFlight[r].seqs, w'.inFlight[q].seqs) {
      if r in w.inFlight && q in w.inFlight { assert Apart(w.inFlight[r].seqs, w.inFlight[q].seqs); }
    }
  }

  lemma CommitKeeps(w: World, request: nat, accepted: seq<nat>)
    requires Inv(w) && Enabled(w, Commit(request, accepted))
    ensures Inv(Apply(w, Commit(request, accepted)))
  {
    var w' := Apply(w, Commit(request, accepted));
    var batch := w.inFlight[request];
    DistinctPart(accepted, batch.seqs);
    var before, after := Holding(w.stores, batch.kind), Holding(w'.stores, batch.kind);
    assert Apart(batch.seqs, before);
    assert OwnedBy(batch.seqs, batch.kind, w.owner);
    forall i | 0 <= i < |accepted| ensures accepted[i] in batch.seqs && accepted[i] !in before { assert accepted[i] in accepted; }
    assert Distinct(before);
    assert Distinct(after) && OwnedBy(after, batch.kind, w'.owner);
    forall k ensures Distinct(Holding(w'.stores, k)) && OwnedBy(Holding(w'.stores, k), k, w'.owner) {
      if k != batch.kind { assert OwnedBy(Holding(w.stores, k), k, w.owner); }
    }
    forall r, k | r in w'.inFlight ensures Apart(w'.inFlight[r].seqs, Holding(w'.stores, k)) {
      assert Apart(w.inFlight[r].seqs, Holding(w.stores, k));
      assert Apart(w.inFlight[r].seqs, batch.seqs);
    }
  }

  lemma EvictKeeps(w: World, kind: Kind, kept: seq<nat>)
    requires Inv(w) && Enabled(w, Evict(kind, kept))
    ensures Inv(Apply(w, Evict(kind, kept)))
  {
    var w', before := Apply(w, Evict(kind, kept)), Holding(w.stores, kind);
    assert Distinct(before) && OwnedBy(before, kind, w.owner);
    DistinctPart(kept, before);
    forall i | 0 <= i < |kept| ensures kept[i] in w.owner && w.owner[kept[i]] == kind { assert kept[i] in kept; }
    forall k ensures Distinct(Holding(w'.stores, k)) && OwnedBy(Holding(w'.stores, k), k, w'.owner) {
      if k != kind { assert OwnedBy(Holding(w.stores, k), k, w.owner); }
    }
    forall r, k | r in w'.inFlight ensures Apart(w'.inFlight[r].seqs, Holding(w'.stores, k)) {
      assert Apart(w.inFlight[r].seqs, Holding(w.stores, k));
    }
  }

  lemma CloneKeeps(w: World, snapshot: nat, kind: Kind)
    requires Inv(w)
    ensures Inv(Apply(w, CloneStore(snapshot, kind)))
  {
    var w' := Apply(w, CloneStore(snapshot, kind));
    forall s | s in w'.pending ensures Owned(w'.pending[s], w'.owner) {
      forall k ensures Distinct(Holding(w'.pending[s], k)) && OwnedBy(Holding(w'.pending[s], k), k, w'.owner) {
        assert Distinct(Holding(w.stores, k)) && OwnedBy(Holding(w.stores, k), k, w.owner);
        if s in w.pending { assert Distinct(Holding(w.pending[s], k)) && OwnedBy(Holding(w.pending[s], k), k, w.owner); }
      }
    }
  }

  lemma BootInv(h: Held, published: Option<Held>)
    requires AllDistinct(h) && (published.Some? ==> AllDistinct(published.value))
    ensures Inv(Booted(h, published))
  {
    var w := Booted(h, published);
    assert Apart(Holding(h, Logs), Holding(h, Metrics)) && Apart(Holding(h, Logs), Holding(h, Spans)) && Apart(Holding(h, Metrics), Holding(h, Spans));
    forall k ensures Distinct(Holding(h, k)) && OwnedBy(Holding(h, k), k, w.owner) {
      var xs := Holding(h, k);
      forall i | 0 <= i < |xs| ensures xs[i] in w.owner && w.owner[xs[i]] == k { assert xs[i] in xs; }
    }
    forall n | n in w.owner ensures n < w.counter {
      assert n in Holding(h, Logs) || n in Holding(h, Metrics) || n in Holding(h, Spans);
    }
  }

  lemma StepKeeps(w: World, s: Step)
    requires Inv(w) && Enabled(w, s)
    ensures Inv(Apply(w, s))
  {
    match s
    case Reserve(request, kind) => ReserveKeeps(w, request, kind);
    case Commit(request, accepted) => CommitKeeps(w, request, accepted);
    case Abandon(request) =>
    case Evict(kind, kept) => EvictKeeps(w, kind, kept);
    case LoadCheckpoint =>
    case CloneStore(snapshot, kind) => CloneKeeps(w, snapshot, kind);
    case Publish(snapshot) => OwnedIsDistinct(w.pending[snapshot], w.owner);
    case Restart(restore) =>
      BootInv(if restore && w.published.Some? then w.published.value else map[], w.published);
  }

  lemma {:induction false} RunKeeps(w: World, steps: seq<Step>)
    requires Inv(w) && Possible(w, steps)
    ensures Inv(Run(w, steps))
  {
    if steps != [] {
      RunKeeps(w, steps[..|steps| - 1]);
      StepKeeps(Run(w, steps[..|steps| - 1]), steps[|steps| - 1]);
    }
  }

  /** A number is stored or on its way into a store. */
  ghost predicate Present(w: World, n: nat) {
    || (exists k :: n in Holding(w.stores, k))
    || (exists r :: r in w.inFlight && n in w.inFlight[r].seqs)
  }

  /** In every interleaving all numbers reserved or stored are distinct and below the counter. */
  lemma AlwaysDistinctAndBelow(steps: seq<Step>)
    requires Possible(Initial, steps)
    ensures var w := Run(Initial, steps);
            && AllDistinct(w.stores)
            && (forall r :: r in w.inFlight ==> Distinct(w.inFlight[r].seqs))
            && RequestsApart(w)
            && (forall n: nat :: Present(w, n) ==> n < w.counter)
            && (w.published.Some? ==> AllDistinct(w.published.value))
  {
    BootInv(map[], None);
    RunKeeps(Initial, steps);
    var w := Run(Initial, steps);
    OwnedIsDistinct(w.stores, w.owner);
    forall n: nat | Present(w, n) ensures n < w.counter { PresentOwned(w, n); }
  }

  lemma PresentOwned(w: World, n: nat)
    requires Inv(w) && Present(w, n)
    ensures n in w.owner
  {
    if k :| n in Holding(w.stores, k) {
      assert OwnedBy(Holding(w.stores, k), k, w.owner);
    } else {
      var r :| r in w.inFlight && n in w.inFlight[r].seqs;
      assert OwnedBy(w.inFlight[r].seqs, w.inFlight[r].kind, w.owner);
    }
  }

  // --------------------------------------------------------- checkpoint tokens

  /** The numbers handed out by a run. */
  ghost function HandedOut(w: World, steps: seq<Step>): set<nat> {
    if steps == [] then {}
    else
      var before := steps[..|steps| - 1];
      HandedOut(w, before) + if steps[|steps| - 1].Reserve? then {Run(w, before).counter} else {}
  }

  predicate NoRestart(steps: seq<Step>) {
    forall i :: 0 <= i < |steps| ==> !steps[i].Restart?
  }

  /** Within a lifetime the owners are those of before and the numbers handed out since, all from the counter on. */
  lemma {:induction false} OwnersSplit(w: World, steps: seq<Step>)
    requires NoRestart(steps)
    ensures Run(w, steps).counter >= w.counter
    ensures Run(w, steps).owner.Keys == w.owner.Keys + HandedOut(w, steps)
    ensures forall n :: n in HandedOut(w, steps) ==> n >= w.counter
  {
    if steps != [] {
      OwnersSplit(w, steps[..|steps| - 1]);
      var before, last := Run(w, steps[..|steps| - 1]), steps[|steps| - 1];
      assert !last.Restart?;
    }
  }

  /**
    A checkpoint token separates by reservation: whatever is present later in the
    same lifetime is at or above the token iff it was reserved after the load.
   */
  lemma TokenSeparates(w: World, steps: seq<Step>, n: nat)
    requires Inv(w) && Possible(w, steps) && NoRestart(steps) && Present(Run(w, steps), n)
    ensures n >= w.counter <==> n in HandedOut(w, steps)
  {
    RunKeeps(w, steps);
    OwnersSplit(w, steps);
    PresentOwned(Run(w, steps), n);
  }

  // ---------------------------------------------------- tokens across a restart

  /** Everything handed out in a lifetime that began with these stores lies at or above the token. */
  ghost predicate AlwaysAbove(h: Held, published: Option<Held>, token: nat) {
    forall steps :: Possible(Booted(h, published), steps) && NoRestart(steps) ==> AllAbove(h, published, steps, token)
  }

  ghost predicate AllAbove(h: Held, published: Option<Held>, steps: seq<Step>, token: nat) {
    forall n :: n in HandedOut(Booted(h, published), steps) ==> n >= token
  }

  /** After booting, one reservation hands out the seed. */
  lemma FirstReserved(w: World, request: nat)
    requires request !in w.inFlight
    ensures var steps := [Reserve(request, Logs)];
            && Possible(w, steps) && NoRestart(steps) && HandedOut(w, steps) == {w.counter} && Present(Run(w, steps), w.counter)
  {
    var steps := [Reserve(request, Logs)];
    NothingRun(w);
    assert steps[..0] == [];
    assert Run(w, steps) == Apply(w, steps[0]);
    assert w.counter in Run(w, steps).inFlight[request].seqs;
  }

  /** Restoring keeps later numbers at or above a token iff what was restored reaches up to the token. */
  lemma TokenSurvivesRestartIff(h: Held, published: Option<Held>, token: nat)
    ensures AlwaysAbove(h, published, token) <==> MaxHeld(h) + 1 >= token
  {
    var w := Booted(h, published);
    if AlwaysAbove(h, published, token) {
      FirstReserved(w, 0);
      assert AllAbove(h, published, [Reserve(0, Logs)], token);
    }
    if MaxHeld(h) + 1 >= token {
      forall steps | Possible(w, steps) && NoRestart(steps) ensures AllAbove(h, published, steps, token) {
        OwnersSplit(w, steps);
      }
    }
  }

  /** The stores a restart finds. */
  function Restored(w: World, restore: bool): Held {
    if restore && w.published.Some? then w.published.value else map[]
  }

  /** `n` was reserved after the load of the token at `w`: in its lifetime, or in the next one. */
  ghost predicate ReservedSince(w: World, steps: seq<Step>, restore: bool, later: seq<Step>, n: nat) {
    n in HandedOut(w, steps) || n in HandedOut(Apply(Run(w, steps), Restart(restore)), later)
  }

  /** The token loaded at `w` separates whatever is present after the restart and any later steps. */
  ghost predicate SeparatesAcross(w: World, steps: seq<Step>, restore: bool) {
    forall later, n: nat :: SeparatesLater(w, steps, restore, later, n)
  }

  ghost predicate SeparatesLater(w: World, steps: seq<Step>, restore: bool, later: seq<Step>, n: nat) {
    var booted := Apply(Run(w, steps), Restart(restore));
    (Possible(booted, later) && NoRestart(later) && Present(Run(booted, later), n))
    ==> (n >= w.counter <==> ReservedSince(w, steps, restore, later, n))
  }

  /** The restored stores reach up to the token, and what they hold from before this lifetime lies below it. */
  ghost predicate SnapshotFits(w: World, steps: seq<Step>, restore: bool) {
    var h := Restored(Run(w, steps), restore);
    && MaxHeld(h) + 1 >= w.counter
    && forall n :: n in Numbers(h) ==> n in Run(w, steps).owner || n < w.counter
  }

  lemma BootedHolds(h: Held, published: Option<Held>, n: nat)
    requires n in Numbers(h)
    ensures Present(Booted(h, published), n)
  {
    var k: Kind :| n in Holding(h, k);
    assert n in Holding(Booted(h, published).stores, k);
  }

  lemma FitsSeparates(w: World, steps: seq<Step>, restore: bool, later: seq<Step>, n: nat)
    requires Inv(w) && Possible(w, steps) && NoRestart(steps) && SnapshotFits(w, steps, restore)
    ensures SeparatesLater(w, steps, restore, later, n)
  {
    hide Inv, Possible, Run, HandedOut, MaxHeld, Holding;
    var before := Run(w, steps);
    var h := Restored(before, restore);
    var booted := Booted(h, before.published);
    RunKeeps(w, steps);
    OwnersSplit(w, steps);
    StepKeeps(before, Restart(restore));
    if Possible(booted, later) && NoRestart(later) && Present(Run(booted, later), n) {
      RunKeeps(booted, later);
      OwnersSplit(booted, later);
      PresentOwned(Run(booted, later), n);
      OwnedBelow(w, n);
    }
  }

  lemma OwnedBelow(w: World, n: nat)
    requires Inv(w)
    ensures n in w.owner ==> n < w.counter
  {
  }

  lemma SeparatesFits(w: World, steps: seq<Step>, restore: bool)
    requires NoRestart(steps) && SeparatesAcross(w, steps, restore)
    ensures SnapshotFits(w, steps, restore)
  {
    hide Possible, Run, HandedOut, Present, Holding, MaxHeld;
    var before := Run(w, steps);
    var h := Restored(before, restore);
    var booted := Booted(h, before.published);
    OwnersSplit(w, steps);
    FirstReserved(booted, 0);
    assert SeparatesLater(w, steps, restore, [Reserve(0, Logs)], booted.counter);
    AtLeastCounter(w, steps, booted.counter);
    forall n | n in Numbers(h) ensures n in before.owner || n < w.counter {
      BootedHolds(h, before.published, n);
      NothingRun(booted);
      assert SeparatesLater(w, steps, restore, [], n);
    }
  }

  lemma AtLeastCounter(w: World, steps: seq<Step>, n: nat)
    requires NoRestart(steps)
    ensures n in HandedOut(w, steps) ==> n >= w.counter
  {
    OwnersSplit(w, steps);
  }

  /** Across one restart a token separates exactly when the snapshot fits it. */
  lemma TokenSeparatesAcrossIff(w: World, steps: seq<Step>, restore: bool)
    requires Inv(w) && Possible(w, steps) && NoRestart(steps)
    ensures SeparatesAcross(w, steps, restore) <==> SnapshotFits(w, steps, restore)
  {
    hide SnapshotFits, SeparatesLater, Inv, Possible, NoRestart;
    if SnapshotFits(w, steps, restore) {
      forall later, n: nat ensures SeparatesLater(w, steps, restore, later, n) { FitsSeparates(w, steps, restore, later, n); }
    }
    if SeparatesAcross(w, steps, restore) { SeparatesFits(w, steps, restore); }
  }

  const LosingRun := [Reserve(0, Logs), Reserve(0, Logs), LoadCheckpoint, Restart(false), Reserve(0, Logs)]

  lemma RunNext(w: World, steps: seq<Step>, n: nat)
    requires n < |steps|
    ensures Run(w, steps[..n + 1]) == Apply(Run(w, steps[..n]), steps[n])
    ensures Possible(w, steps[..n + 1]) <==> Possible(w, steps[..n]) && Enabled(Run(w, steps[..n]), steps[n])
    ensures HandedOut(w, steps[..n + 1])
         == HandedOut(w, steps[..n]) + if steps[n].Reserve? then {Run(w, steps[..n]).counter} else {}
  {
    assert steps[..n + 1][..n] == steps[..n];
  }

  /** Across a restart it does not: numbers lost with the process are handed out again, below an old token. */
  lemma RestartForgetsTokens()
    ensures Possible(Initial, LosingRun)
    ensures var token := Run(Initial, LosingRun[..2]).counter;
            Present(Run(Initial, LosingRun), 1) && 1 in HandedOut(Initial, LosingRun) && 1 < token
  {
    hide Run, Possible, HandedOut;
    var r := LosingRun;
    RunNext(Initial, r, 0);
    RunNext(Initial, r, 1);
    RunNext(Initial, r, 2);
    RunNext(Initial, r, 3);
    RunNext(Initial, r, 4);
    NothingRun(Initial);
    assert r[..0] == [] && r[..5] == r;
    assert Initial.counter == 1 && Run(Initial, r[..4]) == Initial;
    assert Run(Initial, r).inFlight[0].seqs == [1];
  }

  lemma NothingRun(w: World)
    ensures Run(w, []) == w && Possible(w, []) && HandedOut(w, []) == {}
  {
  }

  // ------------------------------------------------------ re-seeding the counter

  function EntrySeq(e: LogEntry): nat { e.ingestSeq }
  function SampleSeq(s: Sample): nat { s.ingestSeq }
  function SpanSeq(s: Span): nat { s.ingestSeq }

  /** `m` bounds every number in the lists, and is one of them unless it is 0. */
  ghost predicate Highest<T>(lists: map<nat, seq<T>>, seqOf: T -> nat, m: nat) {
    && (forall k, i :: k in lists && 0 <= i < |lists[k]| ==> seqOf(lists[k][i]) <= m)
    && (m == 0 || exists k, i :: k in lists && 0 <= i < |lists[k]| && seqOf(lists[k][i]) == m)
  }

  method HighestSeq<T>(lists: map<nat, seq<T>>, seqOf: T -> nat) returns (m: nat)
    ensures Highest(lists, seqOf, m)
  {
    m := 0;
    var todo := lists.Keys;
    while todo != {}
      invariant todo <= lists.Keys
      invariant forall k, i :: k in lists && k !in todo && 0 <= i < |lists[k]| ==> seqOf(lists[k][i]) <= m
      invariant m == 0 || exists k, i :: k in lists && 0 <= i < |lists[k]| && seqOf(lists[k][i]) == m
      decreases todo
    {
      var k :| k in todo;
      for i := 0 to |lists[k]|
        invariant forall j, i :: j in lists && j !in todo && 0 <= i < |lists[j]| ==> seqOf(lists[j][i]) <= m
        invariant forall j :: 0 <= j < i ==> seqOf(lists[k][j]) <= m
        invariant m == 0 || exists k, i :: k in lists && 0 <= i < |lists[k]| && seqOf(lists[k][i]) == m
      {
        if seqOf(lists[k][i]) > m { m := seqOf(lists[k][i]); }
      }
      todo := todo - {k};
    }
  }

  function EntryLists<T>(streams: Streams<T>): map<nat, seq<T>> {
    map id | id in streams :: streams[id].entries
  }

  /** The counter seed after a restore lies above everything restored, and is 1 for empty stores. */
  method SequenceSeed(logs: LogStore, metrics: MetricStore, traces: TraceStore) returns (seed: nat)
    ensures forall id, i :: id in logs.streams && 0 <= i < |logs.streams[id].entries| ==> logs.streams[id].entries[i].ingestSeq < seed
    ensures forall id, i :: id in metrics.series && 0 <= i < |metrics.series[id].entries| ==> metrics.series[id].entries[i].ingestSeq < seed
    ensures forall t, i :: t in traces.traces && 0 <= i < |traces.traces[t]| ==> traces.traces[t][i].ingestSeq < seed
    ensures logs.streams == map[] && metrics.series == map[] && traces.traces == map[] ==> seed == 1
    ensures exists l, m, s :: Highest(EntryLists(logs.streams), EntrySeq, l) && Highest(EntryLists(metrics.series), SampleSeq, m)
                           && Highest(traces.traces, SpanSeq, s) && seed == Max(Max(l, m), s) + 1
  {
    var l := HighestSeq(EntryLists(logs.streams), EntrySeq);
    var m := HighestSeq(EntryLists(metrics.series), SampleSeq);
    var s := HighestSeq(traces.traces, SpanSeq);
    seed := Max(Max(l, m), s) + 1;
    forall id, i | id in logs.streams && 0 <= i < |logs.streams[id].entries| ensures logs.streams[id].entries[i].ingestSeq < seed {
      assert EntrySeq(EntryLists(logs.streams)[id][i]) <= l;
    }
    forall id, i | id in metrics.series && 0 <= i < |metrics.series[id].entries| ensures metrics.series[id].entries[i].ingestSeq < seed {
      assert SampleSeq(EntryLists(metrics.series)[id][i]) <= m;
    }
    forall t, i | t in traces.traces && 0 <= i < |traces.traces[t]| ensures traces.traces[t][i].ingestSeq < seed {
      assert SpanSeq(traces.traces[t][i]) <= s;
    }
  }
}
