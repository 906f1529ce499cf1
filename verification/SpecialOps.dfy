/**
 * Project move, project rename and namespace rename (internal/storage/projectmove.go,
 * internal/storage/projectrename.go): journaled step sequences over directories,
 * sibling databases, the registry and grants, and the recovery that finishes or
 * undoes one found interrupted at startup. Each micro-step is one durable effect;
 * a crash keeps a prefix of them.
 */
module SpecialOps {
  import opened Wrappers

  /** A namespace and a project name; for namespaces the project is empty. */
  datatype Key = Key(ns: string, project: string)
  datatype Kind = CatalogDb | IndexDb | DeletedLogDb | VectorDb
  datatype Grant = NamespaceGrant(holder: string, ns: string) | ProjectGrant(holder: string, ns: string, project: string)
  /** The two scope stores grants live in; each is rewritten by itself. */
  datatype Store = Users | OAuth

  datatype Grants = Grants(users: set<Grant>, oauth: set<Grant>) {
    function Of(store: Store): set<Grant> {
      if store == Users then users else oauth
    }

    function With(store: Store, gs: set<Grant>): Grants {
      if store == Users then this.(users := gs) else this.(oauth := gs)
    }
  }

  datatype Op = OpMove | OpRenameProject | OpRenameNamespace
  datatype Journal = Journal(op: Op, src: Key, dst: Key, dirMoved: bool)

  /** Everything a restart finds. */
  datatype Disk = Disk(
    nsDirs: set<string>,
    repos: set<Key>,
    siblings: set<(Key, Kind)>,
    registry: map<string, set<string>>,
    grants: Grants,
    journal: Option<Journal>)

  // ----------------------------------------------------------------- micro-steps

  datatype Micro =
    | SetJournal(j: Journal)
    | ClearJournal
    | RenameProjectDir(src: Key, dst: Key)
    | RenameNamespaceDir(oldNs: string, newNs: string)
    | RelocateSibling(src: Key, dst: Key, kind: Kind, renameFails: bool)
    | RemoveSibling(key: Key, kind: Kind)
    | RegistryMoveProject(oldNs: string, project: string, newNs: string)
    | RegistryRenameProject(ns: string, oldName: string, newName: string)
    | RegistryRenameNamespace(oldNs: string, newNs: string)
    | RegistryAddProject(ns: string, project: string)
    | RewriteProjectGrants(src: Key, dst: Key, store: Store)
    | RewriteNamespaceGrants(oldNs: string, newNs: string, store: Store)

  predicate HasProject(reg: map<string, set<string>>, k: Key) {
    k.ns in reg && k.project in reg[k.ns]
  }

  function Dropped(reg: map<string, set<string>>, k: Key): map<string, set<string>> {
    if k.ns in reg then reg[k.ns := reg[k.ns] - {k.project}] else reg
  }

  function Added(reg: map<string, set<string>>, k: Key): map<string, set<string>> {
    reg[k.ns := (if k.ns in reg then reg[k.ns] else {}) + {k.project}]
  }

  function Renamed(ns: string, oldNs: string, newNs: string): string {
    if ns == oldNs then newNs else ns
  }

  function RenamedKey(k: Key, oldNs: string, newNs: string): Key {
    Key(Renamed(k.ns, oldNs, newNs), k.project)
  }

  function MovedGrant(g: Grant, src: Key, dst: Key): Grant {
    if g.ProjectGrant? && Key(g.ns, g.project) == src then ProjectGrant(g.holder, dst.ns, dst.project) else g
  }

  function RenamedGrant(g: Grant, oldNs: string, newNs: string): Grant {
    g.(ns := Renamed(g.ns, oldNs, newNs))
  }

  /** One durable effect; `None` is an error that leaves everything as it was. */
  function Do(d: Disk, m: Micro): Option<Disk> {
    match m
    case SetJournal(j) => Some(d.(journal := Some(j)))
    case ClearJournal => Some(d.(journal := None))
    case RenameProjectDir(src, dst) =>
      if src in d.repos then Some(d.(repos := d.repos - {src} + {dst})) else None
    case RenameNamespaceDir(o, n) =>
      if o in d.nsDirs then
        Some(d.(nsDirs := d.nsDirs - {o} + {n},
                repos := set k | k in d.repos :: RenamedKey(k, o, n),
                siblings := set x | x in d.siblings :: (RenamedKey(x.0, o, n), x.1)))
      else None
    case RelocateSibling(src, dst, kind, fails) =>
      if (src, kind) !in d.siblings then Some(d)
      else if fails then Some(d.(siblings := d.siblings - {(src, kind)}))
      else Some(d.(siblings := d.siblings - {(src, kind)} + {(dst, kind)}))
    case RemoveSibling(key, kind) => Some(d.(siblings := d.siblings - {(key, kind)}))
    case RegistryMoveProject(o, p, n) =>
      var oldHas, newHas := HasProject(d.registry, Key(o, p)), HasProject(d.registry, Key(n, p));
      if newHas && !oldHas then Some(d)
      else if newHas && oldHas then None
      else Some(d.(registry := Added(Dropped(d.registry, Key(o, p)), Key(n, p))))
    case RegistryRenameProject(ns, o, n) =>
      var oldHas, newHas := HasProject(d.registry, Key(ns, o)), HasProject(d.registry, Key(ns, n));
      if ns !in d.registry then None
      else if newHas && !oldHas then Some(d)
      else if newHas && oldHas then None
      else if !oldHas then None
      else Some(d.(registry := Added(Dropped(d.registry, Key(ns, o)), Key(ns, n))))
    case RegistryRenameNamespace(o, n) =>
      if n in d.registry && o !in d.registry then Some(d)
      else if n in d.registry then None
      else if o !in d.registry then None
      else Some(d.(registry := (d.registry - {o})[n := d.registry[o]]))
    case RegistryAddProject(ns, p) => Some(d.(registry := Added(d.registry, Key(ns, p))))
    case RewriteProjectGrants(src, dst, store) =>
      Some(d.(grants := d.grants.With(store, set g | g in d.grants.Of(store) :: MovedGrant(g, src, dst))))
    case RewriteNamespaceGrants(o, n, store) =>
      Some(d.(grants := d.grants.With(store, set g | g in d.grants.Of(store) :: RenamedGrant(g, o, n))))
  }

  /** A program step; errors of best-effort steps are only logged. */
  datatype Step = Step(micro: Micro, bestEffort: bool)

  /** The first `n` steps; a fatal error ends the program where it is. */
  function Prefix(d: Disk, prog: seq<Step>, n: nat): Disk
    decreases |prog|
  {
    if prog == [] || n == 0 then d
    else match Do(d, prog[0].micro)
      case Some(d') => Prefix(d', prog[1..], n - 1)
      case None => if prog[0].bestEffort then Prefix(d, prog[1..], n - 1) else d
  }

  /** The whole program. */
  function Run(d: Disk, prog: seq<Step>): Disk {
    Prefix(d, prog, |prog|)
  }

  // -------------------------------------------------------------------- programs

  /** Which relocations fail is up to the file system. */
  type Faults = Kind -> bool

  function Relocations(src: Key, dst: Key, faults: Faults): seq<Step> {
    [Step(RelocateSibling(src, dst, CatalogDb, faults(CatalogDb)), false),
     Step(RelocateSibling(src, dst, IndexDb, faults(IndexDb)), false),
     Step(RelocateSibling(src, dst, DeletedLogDb, faults(DeletedLogDb)), false),
     Step(RelocateSibling(src, dst, VectorDb, faults(VectorDb)), false)]
  }

  function RegistryStep(op: Op, src: Key, dst: Key): Micro {
    match op
    case OpMove => RegistryMoveProject(src.ns, src.project, dst.ns)
    case OpRenameProject => RegistryRenameProject(src.ns, src.project, dst.project)
    case OpRenameNamespace => RegistryRenameNamespace(src.ns, dst.ns)
  }

  function GrantSteps(op: Op, src: Key, dst: Key, cleaner: bool, bestEffort: bool): seq<Step> {
    if !cleaner then []
    else if op == OpRenameNamespace then
      [Step(RewriteNamespaceGrants(src.ns, dst.ns, Users), bestEffort), Step(RewriteNamespaceGrants(src.ns, dst.ns, OAuth), bestEffort)]
    else [Step(RewriteProjectGrants(src, dst, Users), bestEffort), Step(RewriteProjectGrants(src, dst, OAuth), bestEffort)]
  }

  /** The idempotent remainder after the directory rename, shared by the live tail and recovery. */
  function Complete(op: Op, src: Key, dst: Key, cleaner: bool, faults: Faults): seq<Step> {
    (if op == OpRenameNamespace then [] else Relocations(src, dst, faults))
    + [Step(RegistryStep(op, src, dst), false)]
    + GrantSteps(op, src, dst, cleaner, false)
    + [Step(ClearJournal, false)]
  }

  function RenameStep(op: Op, src: Key, dst: Key): Micro {
    if op == OpRenameNamespace then RenameNamespaceDir(src.ns, dst.ns) else RenameProjectDir(src, dst)
  }

  /** A live operation, from its journal entry to clearing it; a rename that fails moves nothing and ends it. */
  function Live(d: Disk, op: Op, src: Key, dst: Key, cleaner: bool, faults: Faults, renameFails: bool): seq<Step> {
    [Step(SetJournal(Journal(op, src, dst, false)), false)]
    + if renameFails || !AtOld(d, op, src) then [Step(ClearJournal, false)]
      else [Step(RenameStep(op, src, dst), false), Step(SetJournal(Journal(op, src, dst, true)), false)]
           + Complete(op, src, dst, cleaner, faults)
  }

  const DEFAULT_NAMESPACE := "default"

  /** The checks an operation makes before its first step. */
  predicate Admitted(d: Disk, op: Op, src: Key, dst: Key) {
    match op
    case OpMove =>
      && src.ns != dst.ns && src.project == dst.project
      && src in d.repos && dst.ns in d.registry && !HasProject(d.registry, dst) && dst !in d.repos
    case OpRenameProject =>
      && src.ns == dst.ns && src.project != dst.project
      && src in d.repos && !HasProject(d.registry, dst) && dst !in d.repos
    case OpRenameNamespace =>
      && src.ns != dst.ns && src.project == dst.project == ""
      && src.ns != DEFAULT_NAMESPACE && dst.ns != DEFAULT_NAMESPACE
      && src.ns in d.registry && dst.ns !in d.registry && dst.ns !in d.nsDirs
  }

  function RegistryRestore(d: Disk, op: Op, src: Key, dst: Key): seq<Step> {
    match op
    case OpMove =>
      if HasProject(d.registry, dst) then [Step(RegistryMoveProject(dst.ns, dst.project, src.ns), true)]
      else [Step(RegistryAddProject(src.ns, src.project), true)]
    case OpRenameProject =>
      if HasProject(d.registry, Key(src.ns, dst.project)) then [Step(RegistryRenameProject(src.ns, dst.project, src.project), true)]
      else []
    case OpRenameNamespace =>
      if dst.ns in d.registry && src.ns !in d.registry then [Step(RegistryRenameNamespace(dst.ns, src.ns), true)]
      else []
  }

  function StrayTargets(op: Op, dst: Key): seq<Step> {
    if op == OpRenameNamespace then []
    else [Step(RemoveSibling(dst, CatalogDb), true), Step(RemoveSibling(dst, IndexDb), true)]
  }

  function Rollback(d: Disk, op: Op, src: Key, dst: Key, cleaner: bool): seq<Step> {
    RegistryRestore(d, op, src, dst) + GrantSteps(op, dst, src, cleaner, true) + StrayTargets(op, dst) + [Step(ClearJournal, false)]
  }

  predicate AtOld(d: Disk, op: Op, src: Key) {
    if op == OpRenameNamespace then src.ns in d.nsDirs else src in d.repos
  }

  /** The probe on the target side is the same one. */
  predicate AtNew(d: Disk, op: Op, dst: Key) {
    AtOld(d, op, dst)
  }

  /** Recovery goes by where the directory is: forward from the new side, back from the old side, else only clearing. */
  function Recovery(d: Disk, cleaner: bool, faults: Faults): seq<Step> {
    if d.journal.None? then []
    else
      var j := d.journal.value;
      if AtNew(d, j.op, j.dst) && !AtOld(d, j.op, j.src) then Complete(j.op, j.src, j.dst, cleaner, faults)
      else if AtOld(d, j.op, j.src) && !AtNew(d, j.op, j.dst) then Rollback(d, j.op, j.src, j.dst, cleaner)
      else [Step(ClearJournal, false)]
  }

  predicate Inconsistent(d: Disk) {
    d.journal.Some? && AtNew(d, d.journal.value.op, d.journal.value.dst) == AtOld(d, d.journal.value.op, d.journal.value.src)
  }
}
