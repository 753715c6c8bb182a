/** The operation catalog: compiling a directory into a snapshot, and keeping the last good one. */
module Catalog {
  import opened Prelude
  import opened Workflow
  import opened Compiler
  import opened Tokenizer
  import opened Discovery

  /** An operation file as it was read: a definition, or the error of reading it. */
  type File = Result<Definition, string>

  datatype Sourced = Sourced(source: Source, file: File)

  /** What one load finds on disk. */
  datatype Disk = Disk(
    managedConfigured: bool,
    managedAvailable: bool,
    common: Result<seq<string>, string>,
    core: seq<File>,
    managed: seq<File>)
  {
    /** The files in the order they are compiled. */
    function Files(): seq<Sourced> {
      seq(|core|, i requires 0 <= i < |core| => Sourced(Core, core[i])) +
      if managedConfigured then seq(|managed|, i requires 0 <= i < |managed| => Sourced(Managed, managed[i])) else []
    }
  }

  datatype Snapshot = Snapshot(generation: nat, hash: string, operations: Operations, index: Index)

  datatype Status = Ok | Degraded | Uninitialized

  datatype Health = Health(
    status: Status, hash: Option<string>, generation: nat, coreCount: nat, managedCount: nat, lastError: Option<string>)

  // ---- Authority ----

  function Protected(table: Table): set<string> {
    set r | r in table && !table[r].authorable
  }

  function IdsFrom(ops: Operations, source: Source): set<string> {
    set id | id in ops && ops[id].source == source
  }

  function CoreReferences(ops: Operations): set<string> {
    set id, k | id in ops && ops[id].source.Core? && 0 <= k < |ops[id].definition.steps| ::
      ops[id].definition.steps[k].uses
  }

  /** No two core operations report the same metric. */
  predicate DistinctMetrics(ops: Operations) {
    forall a, b | a in ops && b in ops && a != b && ops[a].source.Core? && ops[b].source.Core? ::
      ops[a].definition.metric.Some? ==> ops[a].definition.metric != ops[b].definition.metric
  }

  /** What a snapshot guarantees about its operations. */
  ghost predicate Separated(table: Table, ops: Operations) {
    && FiledById(ops)
    && (forall id | id in ops :: Sound(table, ops[id]))
    && CoreReferences(ops) == Protected(table)
    && DistinctMetrics(ops)
  }

  // ---- Compiling a directory ----

  /** The first `n` files compile, under ids no two of them share. */
  ghost predicate Compilable(table: Table, files: seq<Sourced>, n: nat)
    requires n <= |files|
  {
    && (forall i | 0 <= i < n :: files[i].file.Success? && Admissible(table, files[i].file.value, files[i].source))
    && (forall i, j | 0 <= i < j < n :: files[i].file.value.id != files[j].file.value.id)
  }

  /** `ops` holds exactly the first `n` files, soundly compiled. */
  ghost predicate Holds(table: Table, files: seq<Sourced>, n: nat, ops: Operations)
    requires n <= |files|
  {
    Filed(files, n, ops) && forall id | id in ops :: Sound(table, ops[id])
  }

  ghost predicate Filed(files: seq<Sourced>, n: nat, ops: Operations)
    requires n <= |files|
  {
    && (forall i | 0 <= i < n :: FiledAs(files[i], ops))
    && forall id | id in ops :: ops[id].Id() == id && HasFile(files, n, id)
  }

  predicate FiledAs(f: Sourced, ops: Operations) {
    && f.file.Success? && f.file.value.id in ops
    && ops[f.file.value.id].definition == f.file.value && ops[f.file.value.id].source == f.source
  }

  ghost predicate HasFile(files: seq<Sourced>, n: nat, id: string)
    requires n <= |files|
  {
    exists i | 0 <= i < n :: files[i].file.Success? && files[i].file.value.id == id
  }

  method CompileFiles(table: Table, checksum: Definition -> string, files: seq<Sourced>)
    returns (r: Result<Operations, string>)
    ensures r.Success? <==> Compilable(table, files, |files|)
    ensures r.Success? ==> Holds(table, files, |files|, r.value)
  {
    var ops: Operations := map[];
    for i := 0 to |files|
      invariant Compilable(table, files, i)
      invariant Holds(table, files, i, ops)
    {
      var compiled := CompileFile(table, checksum, files, i, ops);
      match compiled {
        case Failure(code) => return Failure(code);
        case Success(op) => ops := ops[op.Id() := op];
      }
    }
    return Success(ops);
  }

  /** One file, given what the earlier ones compiled to. */
  method CompileFile(table: Table, checksum: Definition -> string, files: seq<Sourced>, i: nat, ops: Operations)
    returns (r: Result<Compiled, string>)
    requires i < |files| && Compilable(table, files, i) && Holds(table, files, i, ops)
    ensures r.Success? <==> Compilable(table, files, i + 1)
    ensures r.Failure? ==> !Compilable(table, files, |files|)
    ensures r.Success? ==> Holds(table, files, i + 1, ops[r.value.Id() := r.value])
  {
    CompilableNext(table, files, i);
    if files[i].file.Failure? { return Failure("parse_error"); }
    var d := files[i].file.value;
    var compiled := CompileOperation(table, checksum, d, files[i].source);
    if compiled.Failure? { return Failure("validation_error"); }
    if d.id in ops {
      Duplicate(files, i, ops);
      var overrides := files[i].source.Managed? && ops[d.id].source.Core?;
      return Failure(if overrides then "protected_operation_override" else "duplicate_operation");
    }
    FileAdded(files, i, ops, compiled.value);
    return Success(compiled.value);
  }

  lemma {:induction false} CompilableNext(table: Table, files: seq<Sourced>, i: nat)
    requires i < |files| && Compilable(table, files, i)
    ensures Compilable(table, files, i + 1) <==>
              && files[i].file.Success? && Admissible(table, files[i].file.value, files[i].source)
              && forall j | 0 <= j < i :: files[j].file.value.id != files[i].file.value.id
    ensures !Compilable(table, files, i + 1) ==> !Compilable(table, files, |files|)
  {
  }

  lemma {:induction false} Duplicate(files: seq<Sourced>, i: nat, ops: Operations)
    requires i < |files| && Filed(files, i, ops) && files[i].file.Success? && files[i].file.value.id in ops
    ensures exists j | 0 <= j < i :: files[j].file.Success? && files[j].file.value.id == files[i].file.value.id
  {
  }

  lemma {:induction false} FileAdded(files: seq<Sourced>, i: nat, ops: Operations, op: Compiled)
    requires i < |files| && Filed(files, i, ops)
    requires files[i].file.Success? && op.definition == files[i].file.value && op.source == files[i].source
    requires op.Id() !in ops
    ensures Filed(files, i + 1, ops[op.Id() := op])
    ensures forall j | 0 <= j < i :: files[j].file.Success? && files[j].file.value.id != files[i].file.value.id
  {
    var extended := ops[op.Id() := op];
    forall id | id in extended
      ensures extended[id].Id() == id && HasFile(files, i + 1, id)
    {
      if id == op.Id() {
        assert files[i].file.value.id == id;
      } else {
        assert HasFile(files, i, id);
      }
    }
    forall j | 0 <= j < i ensures FiledAs(files[j], extended) {
      assert FiledAs(files[j], ops);
    }
  }

  /** A disk whose content can be installed, leaving the comparison with the running catalog aside. */
  ghost predicate Loadable(table: Table, checksum: Definition -> string, disk: Disk, ops: Operations) {
    && (disk.managedConfigured ==> disk.managedAvailable)
    && disk.common.Success? && disk.core != []
    && Compilable(table, disk.Files(), |disk.Files()|) && Holds(table, disk.Files(), |disk.Files()|, ops)
    && CoreReferences(ops) == Protected(table) && DistinctMetrics(ops)
  }

  /** Core operations are neither added, removed nor renamed while a snapshot is served. */
  predicate KeepsCore(running: Option<Snapshot>, ops: Operations) {
    running.Some? ==> IdsFrom(ops, Core) == IdsFrom(running.value.operations, Core)
  }

  /** The disk can be installed over what is running. */
  ghost predicate Installable(table: Table, checksum: Definition -> string, disk: Disk, running: Option<Snapshot>) {
    exists ops :: Loadable(table, checksum, disk, ops) && KeepsCore(running, ops)
  }

  // ---- The manager ----

  function CountFrom(ops: Operations, source: Source): nat {
    |IdsFrom(ops, source)|
  }

  function FreshHealth(s: Snapshot): Health {
    Health(Ok, Some(s.hash), s.generation, CountFrom(s.operations, Core), CountFrom(s.operations, Managed), None)
  }

  datatype State = State(snapshot: Option<Snapshot>, health: Health)

  const Empty := State(None, Health(Uninitialized, None, 0, 0, 0, None))

  function Generation(s: State): nat {
    if s.snapshot.Some? then s.snapshot.value.generation else 0
  }

  /** Health describes the live snapshot, whatever happened to later reloads. */
  ghost predicate Coherent(s: State) {
    match s.snapshot
    case None => s.health.(lastError := None) == Empty.health
    case Some(live) =>
      && 0 < live.generation && s.health.generation == live.generation
      && s.health.hash == Some(live.hash)
      && s.health.coreCount == |IdsFrom(live.operations, Core)|
      && s.health.managedCount == |IdsFrom(live.operations, Managed)|
      && !s.health.status.Uninitialized?
  }

  /** A snapshot that may be served: its operations separate authority and its index is theirs. */
  ghost predicate Servable(table: Table, fold: Folding, s: Snapshot) {
    Separated(table, s.operations) && Indexes(fold, s.operations, s.operations.Keys, s.index)
  }

  /** A load that installs `next`. */
  ghost predicate Installs(table: Table, fold: Folding, s: State, next: State) {
    && next.snapshot.Some? && Servable(table, fold, next.snapshot.value)
    && next.snapshot.value.generation == Generation(s) + 1
    && Coherent(next) && next.health.status.Ok? && next.health.lastError.None?
    && KeepsCore(s.snapshot, next.snapshot.value.operations)
  }

  /** A load that fails. */
  ghost predicate Fails(s: State, next: State) {
    && next.snapshot == s.snapshot
    && next.health.lastError.Some?
    && next.health == s.health.(
         status := if s.snapshot.Some? then Degraded else Uninitialized, lastError := next.health.lastError)
  }

  lemma {:induction false} InstallingInstalls(table: Table, fold: Folding, s: State, live: Snapshot)
    requires Servable(table, fold, live) && live.generation == Generation(s) + 1
    requires KeepsCore(s.snapshot, live.operations)
    ensures Installs(table, fold, s, State(Some(live), FreshHealth(live)))
  {
  }

  lemma {:induction false} FailingFails(table: Table, fold: Folding, s: State, next: State)
    requires Coherent(s) && Fails(s, next)
    ensures Coherent(next) && !Installs(table, fold, s, next)
  {
  }

  class OperationCatalogManager {
    const table: Table
    const fold: Folding
    const checksum: Definition -> string
    const digest: (seq<string>, Operations) -> string
    var snapshot: Option<Snapshot>
    var health: Health

    constructor (table: Table, fold: Folding, checksum: Definition -> string,
                 digest: (seq<string>, Operations) -> string)
      ensures this.table == table && this.fold == fold && this.checksum == checksum && this.digest == digest
      ensures Now() == Empty && Valid()
    {
      this.table, this.fold, this.checksum, this.digest := table, fold, checksum, digest;
      snapshot, health := Empty.snapshot, Empty.health;
    }

    function Now(): State
      reads this
    {
      State(snapshot, health)
    }

    ghost predicate Valid()
      reads this
    {
      Coherent(Now()) && (snapshot.Some? ==> Servable(table, fold, snapshot.value))
    }

    /**
     `load`, one call at a time. It installs the disk's content when that is loadable and keeps the core
     ids, and otherwise leaves the snapshot alone and records the failure. The caller sees an error only
     on an initial load or while there is nothing to serve.
     */
    method Load(disk: Disk, initial: bool) returns (r: Result<Snapshot, string>)
      requires Valid()
      modifies this
      ensures Valid()
      ensures Installs(table, fold, old(Now()), Now()) || Fails(old(Now()), Now())
      ensures Installs(table, fold, old(Now()), Now()) ==>
                && Loadable(table, checksum, disk, snapshot.value.operations)
                && snapshot.value.hash == digest(disk.common.value, snapshot.value.operations)
      ensures Installs(table, fold, old(Now()), Now()) <==> Installable(table, checksum, disk, old(snapshot))
      ensures r.Failure? <==> Fails(old(Now()), Now()) && (initial || snapshot.None?)
      ensures r.Success? ==> snapshot == Some(r.value)
    {
      var prepared := Prepare(disk);
      match prepared {
        case Success(ops) =>
          var index := BuildIndex(fold, ops);
          var generation := (if snapshot.Some? then snapshot.value.generation else 0) + 1;
          var installed := Snapshot(generation, digest(disk.common.value, ops), ops, index);
          snapshot := Some(installed);
          health := FreshHealth(installed);
          InstallingInstalls(table, fold, old(Now()), installed);
          return Success(installed);
        case Failure(code) =>
          health := health.(status := if snapshot.Some? then Degraded else Uninitialized, lastError := Some(code));
          FailingFails(table, fold, old(Now()), Now());
          if initial || snapshot.None? { return Failure(code); }
          return Success(snapshot.value);
      }
    }

    /** The part of `load` before the lock is taken for good: read, compile and check. */
    method Prepare(disk: Disk) returns (r: Result<Operations, string>)
      ensures r.Success? ==>
                Loadable(table, checksum, disk, r.value) && Separated(table, r.value) && KeepsCore(snapshot, r.value)
      ensures r.Success? <==> Installable(table, checksum, disk, snapshot)
    {
      if disk.managedConfigured && !disk.managedAvailable { return Failure("managed_catalog_unavailable"); }
      if disk.common.Failure? { return Failure("common_instructions_invalid"); }
      if disk.core == [] { return Failure("core_catalog_empty"); }
      var compiled := CompileFiles(table, checksum, disk.Files());
      if compiled.Failure? { return Failure(compiled.error); }
      var ops := compiled.value;
      forall other | Loadable(table, checksum, disk, other) ensures SameFiling(other, ops) {
        FiledTwice(disk.Files(), other, ops);
        SameFilingAgrees(other, ops);
      }
      if CoreReferences(ops) != Protected(table) { return Failure("protected_primitive_wiring_incomplete"); }
      if !DistinctMetrics(ops) { return Failure("duplicate_core_metric"); }
      if !KeepsCore(snapshot, ops) {
        return Failure("core_topology_requires_restart");
      }
      return Success(ops);
    }
  }

  /** Two compilations of the same files agree on everything but possibly the derived summaries. */
  ghost predicate SameFiling(a: Operations, b: Operations) {
    && a.Keys == b.Keys
    && (forall id | id in a :: a[id].definition == b[id].definition && a[id].source == b[id].source)
    && CoreReferences(a) == CoreReferences(b) && (DistinctMetrics(a) <==> DistinctMetrics(b))
    && IdsFrom(a, Core) == IdsFrom(b, Core)
  }

  lemma {:induction false} FiledTwice(files: seq<Sourced>, a: Operations, b: Operations)
    requires Filed(files, |files|, a) && Filed(files, |files|, b)
    ensures a.Keys == b.Keys
    ensures forall id | id in a :: a[id].definition == b[id].definition && a[id].source == b[id].source
  {
    forall id | id in a ensures id in b && a[id].definition == b[id].definition && a[id].source == b[id].source {
      assert HasFile(files, |files|, id);
      var i :| 0 <= i < |files| && files[i].file.Success? && files[i].file.value.id == id;
      assert FiledAs(files[i], a) && FiledAs(files[i], b);
    }
    forall id | id in b ensures id in a {
      assert HasFile(files, |files|, id);
      var i :| 0 <= i < |files| && files[i].file.Success? && files[i].file.value.id == id;
      assert FiledAs(files[i], a);
    }
  }

  lemma {:induction false} SameFilingAgrees(a: Operations, b: Operations)
    requires a.Keys == b.Keys
    requires forall id | id in a :: a[id].definition == b[id].definition && a[id].source == b[id].source
    ensures SameFiling(a, b)
  {
    forall r ensures r in CoreReferences(a) <==> r in CoreReferences(b) {
      if r in CoreReferences(a) {
        var id, k :| id in a && a[id].source.Core? && 0 <= k < |a[id].definition.steps| &&
          r == a[id].definition.steps[k].uses;
        assert b[id].definition.steps[k].uses == r;
      }
      if r in CoreReferences(b) {
        var id, k :| id in b && b[id].source.Core? && 0 <= k < |b[id].definition.steps| &&
          r == b[id].definition.steps[k].uses;
        assert a[id].definition.steps[k].uses == r;
      }
    }
    assert CoreReferences(a) == CoreReferences(b);
    assert IdsFrom(a, Core) == IdsFrom(b, Core);
  }
}
