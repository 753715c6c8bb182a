/** What the catalog keeps over whole histories of loads, one at a time and overlapping. */
module CatalogRuns {
  import opened Prelude
  import opened Workflow
  import opened Compiler
  import opened WorkflowSoundness
  import opened Tokenizer
  import opened Discovery
  import opened Catalog
  import opened Samples

  // ---- Authority in an installed snapshot ----

  predicate CoreStepUses(ops: Operations, id: string, k: nat, r: string) {
    && id in ops && ops[id].source.Core?
    && k < |ops[id].definition.steps| && ops[id].definition.steps[k].uses == r
  }

  /** The protected primitives are exactly those that some core operation uses. */
  lemma {:induction false} CoreUsesExactlyTheProtected(table: Table, ops: Operations, r: string)
    requires Separated(table, ops)
    ensures r in table && !table[r].authorable <==> exists id, k :: CoreStepUses(ops, id, k, r)
  {
    assert r in Protected(table) <==> r in CoreReferences(ops);
    if r in CoreReferences(ops) {
      var id, k :| id in ops && ops[id].source.Core? && 0 <= k < |ops[id].definition.steps| &&
        r == ops[id].definition.steps[k].uses;
      assert CoreStepUses(ops, id, k, r);
    }
  }

  lemma {:induction false} ManagedUsesNoneOfTheProtected(table: Table, ops: Operations, core: string, managed: string)
    requires Separated(table, ops)
    requires core in ops && managed in ops && ops[core].source.Core? && ops[managed].source.Managed?
    ensures forall i, j | 0 <= i < |ops[core].definition.steps| && 0 <= j < |ops[managed].definition.steps| ::
              ops[core].definition.steps[i].uses != ops[managed].definition.steps[j].uses
  {
    StepsUseKnownPrimitives(table, ops[managed].definition, Managed);
    forall i | 0 <= i < |ops[core].definition.steps| ensures ops[core].definition.steps[i].uses in Protected(table) {
      assert ops[core].definition.steps[i].uses in CoreReferences(ops);
    }
  }

  /** And no two core operations report the same metric. */
  lemma {:induction false} CoreMetricsDiffer(table: Table, ops: Operations, core: string)
    requires Separated(table, ops) && core in ops && ops[core].source.Core? && ops[core].definition.metric.Some?
    ensures forall id | id in ops && id != core && ops[id].source.Core? ::
              ops[id].definition.metric != ops[core].definition.metric
  {
  }

  /**
   An installed snapshot separates authority: no core and managed operation share an id or a primitive,
   and a managed operation runs through the guarded invoker as if the guard were not there.
   */
  lemma {:induction false} SnapshotSeparatesAuthority(table: Table, ops: Operations, core: string, managed: string)
    requires SoundTable(table) && Separated(table, ops)
    requires core in ops && managed in ops && ops[core].source.Core? && ops[managed].source.Managed?
    ensures core != managed
    ensures forall i, j | 0 <= i < |ops[core].definition.steps| && 0 <= j < |ops[managed].definition.steps| ::
              ops[core].definition.steps[i].uses != ops[managed].definition.steps[j].uses
    ensures forall w, inputs ::
              Execute(Guarded(w), table, ops[managed].definition, inputs) ==
                Execute(w, table, ops[managed].definition, inputs)
  {
    ManagedUsesNoneOfTheProtected(table, ops, core, managed);
    GuardIsVoidFor(table, ops[managed]);
  }

  lemma {:induction false} GuardIsVoidFor(table: Table, op: Compiled)
    requires SoundTable(table) && Sound(table, op) && op.source.Managed?
    ensures forall w, inputs ::
              Execute(Guarded(w), table, op.definition, inputs) == Execute(w, table, op.definition, inputs)
  {
    forall w, inputs
      ensures Execute(Guarded(w), table, op.definition, inputs) == Execute(w, table, op.definition, inputs)
    {
      GuardNeverFiresForManaged(w, table, op, inputs);
    }
  }

  // ---- What is on the disk ----

  predicate FiledFrom(f: File, source: Source, ops: Operations) {
    && f.Success? && f.value.id in ops
    && ops[f.value.id].definition == f.value && ops[f.value.id].source == source
  }

  lemma {:induction false} FilesInOrder(disk: Disk, i: nat)
    requires i < |disk.Files()|
    ensures i < |disk.core| ==> disk.Files()[i] == Sourced(Core, disk.core[i])
    ensures |disk.core| <= i ==>
              && disk.managedConfigured && i - |disk.core| < |disk.managed|
              && disk.Files()[i] == Sourced(Managed, disk.managed[i - |disk.core|])
  {
  }

  lemma {:induction false} CoreFileIsHeld(disk: Disk, ops: Operations, f: File)
    requires Filed(disk.Files(), |disk.Files()|, ops) && f in disk.core
    ensures FiledFrom(f, Core, ops)
  {
    var i :| 0 <= i < |disk.core| && disk.core[i] == f;
    FilesInOrder(disk, i);
    assert FiledAs(disk.Files()[i], ops);
  }

  lemma {:induction false} ManagedFileIsHeld(disk: Disk, ops: Operations, f: File)
    requires Filed(disk.Files(), |disk.Files()|, ops) && disk.managedConfigured && f in disk.managed
    ensures FiledFrom(f, Managed, ops)
  {
    var i :| 0 <= i < |disk.managed| && disk.managed[i] == f;
    FilesInOrder(disk, |disk.core| + i);
    assert FiledAs(disk.Files()[|disk.core| + i], ops);
  }

  lemma {:induction false} OperationHasItsFile(disk: Disk, ops: Operations, id: string)
    requires Filed(disk.Files(), |disk.Files()|, ops) && id in ops
    ensures ops[id].definition.id == id && OnDisk(disk, ops[id])
  {
    var files := disk.Files();
    assert HasFile(files, |files|, id);
    var i :| 0 <= i < |files| && files[i].file.Success? && files[i].file.value.id == id;
    assert FiledAs(files[i], ops);
    FilesInOrder(disk, i);
  }

  /** The file an operation was compiled from is where its source says. */
  predicate OnDisk(disk: Disk, op: Compiled) {
    var f: File := Success(op.definition);
    match op.source
    case Core => f in disk.core
    case Managed => disk.managedConfigured && f in disk.managed
  }

  /**
   A loaded catalog holds the files of the disk and nothing else: every core file, every managed file when
   a managed directory is configured, each under its own id and marked with where it came from.
   */
  lemma {:induction false} CatalogHoldsTheDisk(table: Table, checksum: Definition -> string, disk: Disk,
                                               ops: Operations)
    requires Loadable(table, checksum, disk, ops)
    ensures forall f | f in disk.core :: FiledFrom(f, Core, ops)
    ensures disk.managedConfigured ==> forall f | f in disk.managed :: FiledFrom(f, Managed, ops)
    ensures forall id | id in ops :: ops[id].definition.id == id && OnDisk(disk, ops[id])
  {
    forall f | f in disk.core ensures FiledFrom(f, Core, ops) { CoreFileIsHeld(disk, ops, f); }
    if disk.managedConfigured {
      forall f | f in disk.managed ensures FiledFrom(f, Managed, ops) { ManagedFileIsHeld(disk, ops, f); }
    }
    forall id | id in ops ensures ops[id].definition.id == id && OnDisk(disk, ops[id]) {
      OperationHasItsFile(disk, ops, id);
    }
  }

  // ---- Loads one after another ----

  ghost predicate LoadStep(table: Table, fold: Folding, s: State, next: State) {
    Installs(table, fold, s, next) || Fails(s, next)
  }

  /** A history of completed loads, starting where the manager starts. */
  ghost predicate History(table: Table, fold: Folding, states: seq<State>) {
    states != [] && states[0] == Empty &&
    forall i | 0 <= i < |states| - 1 :: LoadStep(table, fold, states[i], states[i + 1])
  }

  /** How many loads among the first `n` installed something. */
  ghost function InstallCount(states: seq<State>, n: nat): nat
    requires n < |states|
  {
    if n == 0 then 0 else InstallCount(states, n - 1) + if states[n].snapshot != states[n - 1].snapshot then 1 else 0
  }

  /**
   Over any history of good and bad loads the generation counts the installs exactly, health matches the
   live snapshot, a failed load changes nothing that is served, and from the first install on the core
   ids are the same in every later state.
   */
  lemma {:induction false} HistoryKeepsTheLastGoodSnapshot(table: Table, fold: Folding, states: seq<State>, i: nat,
                                                           j: nat)
    requires History(table, fold, states) && i <= j < |states|
    ensures Coherent(states[j]) && Generation(states[j]) == InstallCount(states, j)
    ensures states[j].health.status.Ok? <==> j > 0 && states[j].snapshot != states[j - 1].snapshot
    ensures states[j].health.lastError.None? <==> j == 0 || states[j].snapshot != states[j - 1].snapshot
    ensures Generation(states[i]) <= Generation(states[j])
    ensures Generation(states[i]) == Generation(states[j]) ==> states[i].snapshot == states[j].snapshot
    ensures states[i].snapshot.Some? ==>
              states[j].snapshot.Some? &&
              IdsFrom(states[j].snapshot.value.operations, Core) == IdsFrom(states[i].snapshot.value.operations, Core)
    decreases j
  {
    if j > 0 {
      var before := if i < j then i else j - 1;
      HistoryKeepsTheLastGoodSnapshot(table, fold, states, before, j - 1);
      assert LoadStep(table, fold, states[j - 1], states[j - 1 + 1]);
      LoadStepKeeps(table, fold, states[j - 1], states[j]);
    }
  }

  lemma {:induction false} LoadStepKeeps(table: Table, fold: Folding, s: State, next: State)
    requires Coherent(s) && LoadStep(table, fold, s, next)
    ensures Coherent(next)
    ensures Generation(next) == Generation(s) + if next.snapshot == s.snapshot then 0 else 1
    ensures next.health.status.Ok? <==> next.snapshot != s.snapshot
    ensures next.health.lastError.None? <==> next.snapshot != s.snapshot
    ensures s.snapshot.Some? ==>
              next.snapshot.Some? &&
              IdsFrom(next.snapshot.value.operations, Core) == IdsFrom(s.snapshot.value.operations, Core)
  {
  }

  /** What health says of a served catalog, in the catalog's own terms. */
  lemma {:induction false} HealthCountsWhatIsServed(s: State)
    requires Coherent(s) && s.snapshot.Some?
    ensures var live := s.snapshot.value;
            && s.health.generation == live.generation && s.health.hash == Some(live.hash)
            && s.health.coreCount == |set id | id in live.operations && live.operations[id].source.Core?|
            && s.health.managedCount == |set id | id in live.operations && live.operations[id].source.Managed?|
  {
    var ops := s.snapshot.value.operations;
    assert IdsFrom(ops, Core) == set id | id in ops && ops[id].source.Core?;
    assert IdsFrom(ops, Managed) == set id | id in ops && ops[id].source.Managed?;
  }

  // ---- Overlapping loads ----

  /** A load that has passed all its checks and waits for the lock to install. */
  datatype Loader = Loader(operations: Operations, index: Index, hash: string)

  datatype System = System(state: State, pending: map<nat, Loader>)

  ghost predicate Checks(table: Table, fold: Folding, s: System, next: System, id: nat, l: Loader) {
    && id !in s.pending
    && Separated(table, l.operations) && Indexes(fold, l.operations, l.operations.Keys, l.index)
    && KeepsCore(s.state.snapshot, l.operations)
    && next == s.(pending := s.pending[id := l])
  }

  ghost predicate InstallsPending(s: System, next: System, id: nat) {
    && id in s.pending
    && var l := s.pending[id];
       var live := Snapshot(Generation(s.state) + 1, l.hash, l.operations, l.index);
       next == System(State(Some(live), FreshHealth(live)), s.pending - {id})
  }

  ghost predicate FailsPending(s: System, next: System, id: nat) {
    Fails(s.state, next.state) && next.pending == s.pending - {id}
  }

  /** One atomic step of any of the loads in progress. */
  ghost predicate SystemStep(table: Table, fold: Folding, s: System, next: System) {
    || (exists id, l :: Checks(table, fold, s, next, id, l))
    || (exists id :: InstallsPending(s, next, id))
    || (exists id :: FailsPending(s, next, id))
  }

  ghost predicate SystemValid(table: Table, fold: Folding, s: System) {
    && Coherent(s.state)
    && (s.state.snapshot.Some? ==> Servable(table, fold, s.state.snapshot.value))
    && forall id | id in s.pending ::
         Separated(table, s.pending[id].operations) &&
         Indexes(fold, s.pending[id].operations, s.pending[id].operations.Keys, s.pending[id].index)
  }

  /** Interleaving harms neither the snapshot nor health, and the generation still counts installs. */
  lemma {:induction false} OverlappingLoadsStayValid(table: Table, fold: Folding, s: System, next: System)
    requires SystemValid(table, fold, s) && SystemStep(table, fold, s, next)
    ensures SystemValid(table, fold, next)
    ensures Generation(next.state) == Generation(s.state) + if next.state.snapshot == s.state.snapshot then 0 else 1
    ensures next.state.snapshot != s.state.snapshot ==> next.state.health.status.Ok?
    ensures next.state.snapshot == s.state.snapshot && next.state.health.status.Ok? ==> next.state == s.state
  {
  }

  /** The last step that was not the check of another load installed a snapshot. */
  ghost predicate LastInstalled(run: seq<System>, i: nat)
    requires i < |run|
  {
    exists k | 0 < k <= i :: Installed(run, k) && run[k].state == run[i].state
  }

  predicate Installed(run: seq<System>, k: nat)
    requires 0 < k < |run|
  {
    run[k].state.snapshot != run[k - 1].state.snapshot
  }

  /**
   Over any interleaving, then, whatever is served is sound and described by health, which is good exactly
   while no load has failed since the last install.
   */
  lemma {:induction false} EveryServedSnapshotIsSound(table: Table, fold: Folding, run: seq<System>, i: nat)
    requires SystemRun(table, fold, run) && run[0] == System(Empty, map[]) && i < |run|
    ensures SystemValid(table, fold, run[i]) && Generation(run[i].state) <= i
    ensures run[i].state.health.status.Ok? <==> LastInstalled(run, i)
  {
    if i > 0 {
      EveryServedSnapshotIsSound(table, fold, run, i - 1);
      assert SystemStep(table, fold, run[i - 1], run[i - 1 + 1]);
      OverlappingLoadsStayValid(table, fold, run[i - 1], run[i]);
      if run[i].state.health.status.Ok? {
        if run[i].state == run[i - 1].state {
          var k :| 0 < k <= i - 1 && Installed(run, k) && run[k].state == run[i - 1].state;
          assert Installed(run, k) && run[k].state == run[i].state;
        } else {
          assert Installed(run, i);
        }
      }
    }
  }

  /** Every load in progress carries the core ids that are being served. */
  ghost predicate CoreIdsSettled(s: System) {
    s.state.snapshot.Some? &&
    forall id | id in s.pending ::
      IdsFrom(s.pending[id].operations, Core) == IdsFrom(s.state.snapshot.value.operations, Core)
  }

  ghost predicate SystemRun(table: Table, fold: Folding, run: seq<System>) {
    run != [] && forall i | 0 <= i < |run| - 1 :: SystemStep(table, fold, run[i], run[i + 1])
  }

  lemma {:induction false} SettledCoreIdsNeverChange(table: Table, fold: Folding, run: seq<System>, i: nat)
    requires SystemRun(table, fold, run) && CoreIdsSettled(run[0]) && i < |run|
    ensures CoreIdsSettled(run[i]) &&
            IdsFrom(run[i].state.snapshot.value.operations, Core) ==
              IdsFrom(run[0].state.snapshot.value.operations, Core)
  {
    if i > 0 {
      SettledCoreIdsNeverChange(table, fold, run, i - 1);
      assert SystemStep(table, fold, run[i - 1], run[i - 1 + 1]);
    }
  }

  /**
   When the core ids can change without a restart: from a state that serves a snapshot, every
   continuation keeps its core ids if and only if each load in progress already carries them. A load that
   made its checks before the first install is the one that may not.
   */
  lemma {:induction false} CoreIdsFixedExactlyWhenSettled(table: Table, fold: Folding, s: System)
    requires s.state.snapshot.Some?
    ensures CoreIdsSettled(s) <==>
              forall run: seq<System> | SystemRun(table, fold, run) && run[0] == s ::
                run[|run| - 1].state.snapshot.Some? &&
                IdsFrom(run[|run| - 1].state.snapshot.value.operations, Core) ==
                  IdsFrom(s.state.snapshot.value.operations, Core)
  {
    if CoreIdsSettled(s) {
      forall run: seq<System> | SystemRun(table, fold, run) && run[0] == s
        ensures run[|run| - 1].state.snapshot.Some? &&
          IdsFrom(run[|run| - 1].state.snapshot.value.operations, Core) ==
            IdsFrom(s.state.snapshot.value.operations, Core)
      {
        SettledCoreIdsNeverChange(table, fold, run, |run| - 1);
      }
    } else {
      var id :| id in s.pending &&
        IdsFrom(s.pending[id].operations, Core) != IdsFrom(s.state.snapshot.value.operations, Core);
      var l := s.pending[id];
      var live := Snapshot(Generation(s.state) + 1, l.hash, l.operations, l.index);
      var next := System(State(Some(live), FreshHealth(live)), s.pending - {id});
      assert InstallsPending(s, next, id);
      var run := [s, next];
      assert SystemRun(table, fold, run) && run[0] == s && run[|run| - 1] == next;
    }
  }

  // ---- Where it fails ----

  /** A catalog with one core operation. */
  function SampleLoader(fold: Folding, id: string): Loader {
    var op := SampleOperation(id);
    Loader(map[id := op], map t | t in IndexedTokens(fold, op) :: {id}, "")
  }

  lemma {:induction false} SampleLoaderIsSeparated(fold: Folding, id: string)
    ensures var l := SampleLoader(fold, id);
            && Separated(SampleTable, l.operations) && Indexes(fold, l.operations, l.operations.Keys, l.index)
            && IdsFrom(l.operations, Core) == {id}
  {
    var ops := SampleLoader(fold, id).operations;
    SampleOperationIsSound(id);
    assert ops[id].definition.steps[0].uses == SampleReference;
    assert CoreReferences(ops) == Protected(SampleTable);
    assert IdsFrom(ops, Core) == {id};
  }

  lemma {:induction false} BothCheck(table: Table, fold: Folding, a: Loader, b: Loader) returns (run: seq<System>)
    requires Separated(table, a.operations) && Indexes(fold, a.operations, a.operations.Keys, a.index)
    requires Separated(table, b.operations) && Indexes(fold, b.operations, b.operations.Keys, b.index)
    ensures SystemRun(table, fold, run) && |run| == 3 && run[0] == System(Empty, map[])
    ensures run[2] == System(Empty, map[1 := a, 2 := b])
  {
    var empty := System(Empty, map[]);
    var one := System(Empty, map[1 := a]);
    var both := System(Empty, map[1 := a, 2 := b]);
    assert Checks(table, fold, empty, one, 1, a);
    assert Checks(table, fold, one, both, 2, b);
    run := Extended(table, fold, [empty], one);
    run := Extended(table, fold, run, both);
  }

  /**
   Two loads that both made their checks before the first install: from an empty manager the first install
   serves the one catalog and the second the other, whatever their core ids are.
   */
  lemma {:induction false} SecondInstallReplacesTheFirst(table: Table, fold: Folding, a: Loader, b: Loader)
    returns (run: seq<System>)
    requires Separated(table, a.operations) && Indexes(fold, a.operations, a.operations.Keys, a.index)
    requires Separated(table, b.operations) && Indexes(fold, b.operations, b.operations.Keys, b.index)
    ensures SystemRun(table, fold, run) && |run| == 5 && run[0] == System(Empty, map[])
    ensures run[3].state.snapshot.Some? && run[3].state.snapshot.value.operations == a.operations
    ensures run[4].state.snapshot.Some? && run[4].state.snapshot.value.operations == b.operations
  {
    run := BothCheck(table, fold, a, b);
    var both := run[2];
    assert both.pending[1] == a && both.pending[2] == b;
    run := InstallNext(table, fold, run, 1);
    run := InstallNext(table, fold, run, 2);
  }

  /** So the core ids of a running catalog can change without a restart. */
  lemma {:induction false} CoreIdsCanChange(fold: Folding) returns (run: seq<System>)
    ensures SystemRun(SampleTable, fold, run) && |run| == 5 && run[0] == System(Empty, map[])
    ensures run[3].state.snapshot.Some? && IdsFrom(run[3].state.snapshot.value.operations, Core) == {"a"}
    ensures run[4].state.snapshot.Some? && IdsFrom(run[4].state.snapshot.value.operations, Core) == {"b"}
  {
    SampleLoaderIsSeparated(fold, "a");
    SampleLoaderIsSeparated(fold, "b");
    run := SecondInstallReplacesTheFirst(SampleTable, fold, SampleLoader(fold, "a"), SampleLoader(fold, "b"));
  }

  lemma {:induction false} InstallNext(table: Table, fold: Folding, run: seq<System>, id: nat)
    returns (longer: seq<System>)
    requires SystemRun(table, fold, run) && id in run[|run| - 1].pending
    ensures SystemRun(table, fold, longer) && |longer| == |run| + 1 && longer[..|run|] == run
    ensures var last, next := run[|run| - 1], longer[|run|];
            && next.pending == last.pending - {id}
            && next.state.snapshot.Some? && next.state.snapshot.value.operations == last.pending[id].operations
  {
    var next := AfterInstall(run[|run| - 1], id);
    assert SystemStep(table, fold, run[|run| - 1], next);
    longer := Extended(table, fold, run, next);
  }

  lemma {:induction false} Extended(table: Table, fold: Folding, run: seq<System>, next: System)
    returns (longer: seq<System>)
    requires SystemRun(table, fold, run) && SystemStep(table, fold, run[|run| - 1], next)
    ensures SystemRun(table, fold, longer) && longer == run + [next]
  {
    longer := run + [next];
    forall i | 0 <= i < |longer| - 1 ensures SystemStep(table, fold, longer[i], longer[i + 1]) {
      if i < |run| - 1 {
        assert longer[i] == run[i] && longer[i + 1] == run[i + 1];
      }
    }
  }

  function AfterInstall(s: System, id: nat): (next: System)
    requires id in s.pending
    ensures InstallsPending(s, next, id)
  {
    var l := s.pending[id];
    var live := Snapshot(Generation(s.state) + 1, l.hash, l.operations, l.index);
    System(State(Some(live), FreshHealth(live)), s.pending - {id})
  }
}
