/**
 * Crash safety of the journaled operations: from every crash point, through any
 * number of further crashes during recovery, one recovery that runs to its end
 * leaves a project or namespace wholly on one side with the journal cleared,
 * except in the one case named here.
 */
module OpRecovery {
  import opened Wrappers
  import opened SpecialOps

  // -------------------------------------------------------------- running programs

  lemma RunCons(d: Disk, prog: seq<Step>)
    requires prog != []
    ensures Run(d, prog) == match Do(d, prog[0].micro)
                            case Some(d') => Run(d', prog[1..])
                            case None => if prog[0].bestEffort then Run(d, prog[1..]) else d
  {
  }

  lemma {:induction false} PrefixLong(d: Disk, prog: seq<Step>, n: nat)
    requires n >= |prog|
    ensures Prefix(d, prog, n) == Run(d, prog)
    decreases |prog|
  {
    hide Do;
    if prog != [] {
      match Do(d, prog[0].micro)
      case Some(d') => PrefixLong(d', prog[1..], n - 1);
      case None => PrefixLong(d, prog[1..], n - 1);
    }
  }

  lemma {:induction false} PrefixShort(d: Disk, a: seq<Step>, b: seq<Step>, n: nat)
    requires n <= |a|
    ensures Prefix(d, a + b, n) == Prefix(d, a, n)
    decreases |a|
  {
    hide Do;
    if a != [] && n > 0 {
      assert (a + b)[0] == a[0] && (a + b)[1..] == a[1..] + b;
      match Do(d, a[0].micro)
      case Some(d') => PrefixShort(d', a[1..], b, n - 1);
      case None => if a[0].bestEffort { PrefixShort(d, a[1..], b, n - 1); }
    }
  }

  lemma ClearRuns(d: Disk)
    ensures Run(d, [Step(ClearJournal, false)]) == d.(journal := None)
  {
    RunCons(d, [Step(ClearJournal, false)]);
  }

  // ------------------------------------------------------------------------ grants

  function Regrant(op: Op, g: Grant, src: Key, dst: Key): Grant {
    if op == OpRenameNamespace then RenamedGrant(g, src.ns, dst.ns) else MovedGrant(g, src, dst)
  }

  /** All grants with `src` rewritten to `dst`. */
  function Regranted(op: Op, grants: set<Grant>, src: Key, dst: Key): set<Grant> {
    set g | g in grants :: Regrant(op, g, src, dst)
  }

  /** Each store's grants, rewritten or not: a crash may come between the two. */
  ghost predicate RegrantedSome(gs: Grants, gs0: Grants, op: Op, src: Key, dst: Key) {
    forall store: Store :: gs.Of(store) == gs0.Of(store) || RegrantedIn(gs, gs0, op, src, dst, store)
  }

  predicate RegrantedIn(gs: Grants, gs0: Grants, op: Op, src: Key, dst: Key, store: Store) {
    gs.Of(store) == Regranted(op, gs0.Of(store), src, dst)
  }

  /** Both stores rewritten. */
  predicate RegrantedAll(gs: Grants, gs0: Grants, op: Op, src: Key, dst: Key) {
    RegrantedIn(gs, gs0, op, src, dst, Users) && RegrantedIn(gs, gs0, op, src, dst, OAuth)
  }

  predicate NamedBy(op: Op, g: Grant, k: Key) {
    if op == OpRenameNamespace then g.ns == k.ns else g.ProjectGrant? && Key(g.ns, g.project) == k
  }

  /** Rewriting is idle exactly when no grant names the source. */
  lemma RegrantIdle(op: Op, grants: set<Grant>, src: Key, dst: Key)
    requires if op == OpRenameNamespace then src.ns != dst.ns else src != dst
    ensures Regranted(op, grants, src, dst) == grants <==> forall g :: g in grants ==> !NamedBy(op, g, src)
  {
    if g :| g in grants && NamedBy(op, g, src) {
      forall h | h in grants ensures Regrant(op, h, src, dst) != g {
      }
      assert g !in Regranted(op, grants, src, dst);
    } else {
      forall g | g in grants ensures g in Regranted(op, grants, src, dst) {
        assert Regrant(op, g, src, dst) == g;
      }
    }
  }

  lemma RegrantTwice(op: Op, grants: set<Grant>, src: Key, dst: Key)
    requires if op == OpRenameNamespace then src.ns != dst.ns else src != dst
    ensures Regranted(op, Regranted(op, grants, src, dst), src, dst) == Regranted(op, grants, src, dst)
  {
    RegrantIdle(op, Regranted(op, grants, src, dst), src, dst);
  }

  // ------------------------------------------------------------------------ stages

  /** The registry after the record changed sides. */
  function Rekeyed(reg: map<string, set<string>>, op: Op, src: Key, dst: Key): map<string, set<string>> {
    if op != OpRenameNamespace then Added(Dropped(reg, src), dst)
    else if src.ns in reg then (reg - {src.ns})[dst.ns := reg[src.ns]]
    else reg
  }

  /** A rename of a project the registry does not list: its re-key can never succeed. */
  predicate Unlisted(d0: Disk, op: Op, src: Key) {
    op == OpRenameProject && !HasProject(d0.registry, src)
  }

  /** A rename of a namespace whose directory is missing: its directory rename can never succeed. */
  predicate Missing(d0: Disk, op: Op, src: Key) {
    op == OpRenameNamespace && src.ns !in d0.nsDirs
  }

  predicate Names(j: Option<Journal>, op: Op, src: Key, dst: Key) {
    j.Some? && j.value.op == op && j.value.src == src && j.value.dst == dst
  }

  /** The directory has not moved; at most the effects of rolling back were applied. */
  ghost predicate Before(d: Disk, d0: Disk, op: Op, src: Key, dst: Key) {
    && d.nsDirs == d0.nsDirs && d.repos == d0.repos
    && d.siblings <= d0.siblings
    && (forall x :: x in d0.siblings && x !in d.siblings ==> op != OpRenameNamespace && x.0 == dst && x.1 in {CatalogDb, IndexDb})
    && (d.registry == d0.registry || (op == OpMove && d.registry == Added(d0.registry, src)))
    && RegrantedSome(d.grants, d0.grants, op, dst, src)
  }

  ghost predicate DirsMoved(d: Disk, d0: Disk, op: Op, src: Key, dst: Key) {
    if op == OpRenameNamespace then
      && d.nsDirs == d0.nsDirs - {src.ns} + {dst.ns}
      && d.repos == set k | k in d0.repos :: RenamedKey(k, src.ns, dst.ns)
    else d.nsDirs == d0.nsDirs && d.repos == d0.repos - {src} + {dst}
  }

  /** Sibling databases, each still at the source or relocated; one of a `safe` kind is never dropped. */
  ghost predicate SiblingsMoved(d: Disk, d0: Disk, op: Op, src: Key, dst: Key, safe: set<Kind>) {
    if op == OpRenameNamespace then
      d.siblings == set x | x in d0.siblings :: (RenamedKey(x.0, src.ns, dst.ns), x.1)
    else
      && (forall x: (Key, Kind) :: x.0 != src && x.0 != dst ==> (x in d.siblings <==> x in d0.siblings))
      && (forall k :: (src, k) in d.siblings ==> (src, k) in d0.siblings)
      && (forall k :: (dst, k) in d.siblings ==> (dst, k) in d0.siblings || ((src, k) in d0.siblings && (src, k) !in d.siblings))
      && (forall k :: (dst, k) in d0.siblings ==> (dst, k) in d.siblings)
      && (forall k :: k in safe && (src, k) in d0.siblings && (src, k) !in d.siblings ==> (dst, k) in d.siblings)
  }

  /** The directory has moved; each of the later steps has or has not happened. */
  ghost predicate Moved(d: Disk, d0: Disk, op: Op, src: Key, dst: Key, safe: set<Kind>) {
    && DirsMoved(d, d0, op, src, dst)
    && SiblingsMoved(d, d0, op, src, dst, safe)
    && (d.registry == d0.registry || (!Unlisted(d0, op, src) && d.registry == Rekeyed(d0.registry, op, src, dst)))
    && RegrantedSome(d.grants, d0.grants, op, src, dst)
  }

  /** Nothing of the project, or of the namespace, is left under the source name. */
  ghost predicate OldSideBare(d: Disk, op: Op, src: Key) {
    if op == OpRenameNamespace then
      && src.ns !in d.nsDirs
      && (forall k :: k in d.repos ==> k.ns != src.ns)
      && (forall x :: x in d.siblings ==> x.0.ns != src.ns)
    else src !in d.repos && forall k :: (src, k) !in d.siblings
  }

  /** Wholly on the new side. */
  ghost predicate OnNewSide(d: Disk, d0: Disk, op: Op, src: Key, dst: Key, safe: set<Kind>) {
    && Moved(d, d0, op, src, dst, safe) && OldSideBare(d, op, src)
    && d.registry == Rekeyed(d0.registry, op, src, dst)
  }

  // --------------------------------------------------- the new side, entry by entry

  /** After a project went from `src` to `dst`: no other project, record, database or namespace is touched. */
  ghost predicate ProjectArrived(e: Disk, d0: Disk, src: Key, dst: Key, safe: set<Kind>) {
    && e.nsDirs == d0.nsDirs && e.registry.Keys == d0.registry.Keys
    && (forall k: Key :: k in e.repos <==> k == dst || (k != src && k in d0.repos))
    && (forall ns, p :: ns in e.registry ==>
          (p in e.registry[ns] <==> Key(ns, p) == dst || (Key(ns, p) != src && p in d0.registry[ns])))
    && (forall x: (Key, Kind) :: x.0 != src && x.0 != dst ==> (x in e.siblings <==> x in d0.siblings))
    && (forall kind :: (src, kind) !in e.siblings)
    && (forall kind :: (dst, kind) in e.siblings ==> (src, kind) in d0.siblings || (dst, kind) in d0.siblings)
    && (forall kind :: (dst, kind) in d0.siblings || (kind in safe && (src, kind) in d0.siblings) ==> (dst, kind) in e.siblings)
  }

  /** After a namespace went from `o` to `n`: each of its projects, databases and its whole record; nothing else. */
  ghost predicate NamespaceArrived(e: Disk, d0: Disk, o: string, n: string) {
    && e.nsDirs == d0.nsDirs - {o} + {n}
    && (forall p :: Key(o, p) !in e.repos && (Key(n, p) in e.repos <==> Key(o, p) in d0.repos || Key(n, p) in d0.repos))
    && (forall k: Key :: k.ns != o && k.ns != n ==> (k in e.repos <==> k in d0.repos))
    && (forall p, kind :: (Key(o, p), kind) !in e.siblings
          && ((Key(n, p), kind) in e.siblings <==> (Key(o, p), kind) in d0.siblings || (Key(n, p), kind) in d0.siblings))
    && (forall x: (Key, Kind) :: x.0.ns != o && x.0.ns != n ==> (x in e.siblings <==> x in d0.siblings))
    && e.registry.Keys == d0.registry.Keys - {o} + {n}
    && o in d0.registry && e.registry[n] == d0.registry[o]
    && (forall ns :: ns in d0.registry && ns != o ==> e.registry[ns] == d0.registry[ns])
    && ("default" in e.registry <==> "default" in d0.registry) && ("default" in e.nsDirs <==> "default" in d0.nsDirs)
  }

  ghost predicate Arrived(e: Disk, d0: Disk, op: Op, src: Key, dst: Key, safe: set<Kind>) {
    if op == OpRenameNamespace then NamespaceArrived(e, d0, src.ns, dst.ns) else ProjectArrived(e, d0, src, dst, safe)
  }

  /** One store's grants once every grant on `src` reads `dst`: holders stay, all other grants stay. */
  ghost predicate ScopesArrived(gs: set<Grant>, gs0: set<Grant>, op: Op, src: Key, dst: Key) {
    if op == OpRenameNamespace then
      forall h ::
        && NamespaceGrant(h, src.ns) !in gs
        && (NamespaceGrant(h, dst.ns) in gs <==> NamespaceGrant(h, src.ns) in gs0 || NamespaceGrant(h, dst.ns) in gs0)
        && (forall p :: ProjectGrant(h, src.ns, p) !in gs
              && (ProjectGrant(h, dst.ns, p) in gs <==> ProjectGrant(h, src.ns, p) in gs0 || ProjectGrant(h, dst.ns, p) in gs0))
        && (forall ns :: ns != src.ns && ns != dst.ns ==> (NamespaceGrant(h, ns) in gs <==> NamespaceGrant(h, ns) in gs0))
        && (forall ns, p :: ns != src.ns && ns != dst.ns ==> (ProjectGrant(h, ns, p) in gs <==> ProjectGrant(h, ns, p) in gs0))
    else
      forall h ::
        && (forall ns :: NamespaceGrant(h, ns) in gs <==> NamespaceGrant(h, ns) in gs0)
        && ProjectGrant(h, src.ns, src.project) !in gs
        && (ProjectGrant(h, dst.ns, dst.project) in gs <==>
              ProjectGrant(h, src.ns, src.project) in gs0 || ProjectGrant(h, dst.ns, dst.project) in gs0)
        && (forall ns, p :: Key(ns, p) != src && Key(ns, p) != dst ==> (ProjectGrant(h, ns, p) in gs <==> ProjectGrant(h, ns, p) in gs0))
  }

  ghost predicate GrantsArrived(gs: Grants, gs0: Grants, op: Op, src: Key, dst: Key) {
    ScopesArrived(gs.users, gs0.users, op, src, dst) && ScopesArrived(gs.oauth, gs0.oauth, op, src, dst)
  }

  lemma NewSideArrived(e: Disk, d0: Disk, op: Op, src: Key, dst: Key, safe: set<Kind>)
    requires Admitted(d0, op, src, dst) && !Unlisted(d0, op, src) && OnNewSide(e, d0, op, src, dst, safe)
    ensures Arrived(e, d0, op, src, dst, safe)
  {
    hide RegrantedSome;
  }

  /** On the new side every entry is where it belongs, and so is every grant once both stores are rewritten. */
  lemma ArrivedThere(e: Disk, d0: Disk, op: Op, src: Key, dst: Key, safe: set<Kind>)
    requires Admitted(d0, op, src, dst)
    ensures OnNewSide(e, d0, op, src, dst, safe) && !Unlisted(d0, op, src) ==> Arrived(e, d0, op, src, dst, safe)
    ensures RegrantedAll(e.grants, d0.grants, op, src, dst) ==> GrantsArrived(e.grants, d0.grants, op, src, dst)
  {
    assert if op == OpRenameNamespace then src.ns != dst.ns else src != dst;
    hide Admitted, OnNewSide, Unlisted, Arrived, Regranted, ScopesArrived;
    if OnNewSide(e, d0, op, src, dst, safe) && !Unlisted(d0, op, src) {
      NewSideArrived(e, d0, op, src, dst, safe);
    }
    if RegrantedAll(e.grants, d0.grants, op, src, dst) {
      RegrantedArrived(e.grants.users, d0.grants.users, op, src, dst);
      RegrantedArrived(e.grants.oauth, d0.grants.oauth, op, src, dst);
    }
  }

  lemma RegrantedArrived(gs: set<Grant>, gs0: set<Grant>, op: Op, src: Key, dst: Key)
    requires if op == OpRenameNamespace then src.ns != dst.ns else src != dst
    requires gs == Regranted(op, gs0, src, dst)
    ensures ScopesArrived(gs, gs0, op, src, dst)
  {
    forall g: Grant ensures g in gs <==> exists g0 :: g0 in gs0 && Regrant(op, g0, src, dst) == g {
    }
    forall g0 | g0 in gs0 ensures Regrant(op, g0, src, dst) in gs {
    }
  }

  /** Every disk a crash can leave behind. */
  ghost predicate Stage(d: Disk, d0: Disk, op: Op, src: Key, dst: Key, safe: set<Kind>) {
    && (d.journal == None || Names(d.journal, op, src, dst))
    && (|| Before(d, d0, op, src, dst)
        || (!Missing(d0, op, src) && Moved(d, d0, op, src, dst, safe)
            && (d.journal == None ==> OnNewSide(d, d0, op, src, dst, safe))))
  }

  // ----------------------------------------------------------- rolling back

  predicate IsGrantStep(m: Micro) {
    m.RewriteProjectGrants? || m.RewriteNamespaceGrants?
  }

  /** One store rewritten: that store is done and the other is as it was. */
  lemma RewriteRuns(d: Disk, gs0: Grants, op: Op, src: Key, dst: Key, m: Micro)
    requires if op == OpRenameNamespace then src.ns != dst.ns else src != dst
    requires RegrantedSome(d.grants, gs0, op, src, dst) && IsGrantStep(m)
    requires if op == OpRenameNamespace then m.RewriteNamespaceGrants? && m.oldNs == src.ns && m.newNs == dst.ns
             else m.RewriteProjectGrants? && m.src == src && m.dst == dst
    ensures Do(d, m).Some? && Do(d, m).value == d.(grants := Do(d, m).value.grants)
    ensures RegrantedIn(Do(d, m).value.grants, gs0, op, src, dst, m.store)
    ensures forall store: Store :: store != m.store ==> Do(d, m).value.grants.Of(store) == d.grants.Of(store)
    ensures forall store: Store :: RegrantedIn(d.grants, gs0, op, src, dst, store) ==>
              RegrantedIn(Do(d, m).value.grants, gs0, op, src, dst, store)
    ensures RegrantedSome(Do(d, m).value.grants, gs0, op, src, dst)
  {
    RegrantTwice(op, gs0.Of(m.store), src, dst);
    assert Do(d, m).value.grants == d.grants.With(m.store, Regranted(op, d.grants.Of(m.store), src, dst));
    hide Regranted;
  }

  /** A step of a rollback. */
  ghost predicate BackStep(m: Micro, op: Op, src: Key, dst: Key) {
    match m
    case RegistryAddProject(ns, p) => op == OpMove && Key(ns, p) == src
    case RewriteProjectGrants(a, b, _) => op != OpRenameNamespace && a == dst && b == src
    case RewriteNamespaceGrants(o, n, _) => op == OpRenameNamespace && o == dst.ns && n == src.ns
    case RemoveSibling(k, kind) => op != OpRenameNamespace && k == dst && kind in {CatalogDb, IndexDb}
    case ClearJournal => true
    case _ => false
  }

  lemma BackStepKeeps(d: Disk, d0: Disk, op: Op, src: Key, dst: Key, m: Micro)
    requires Admitted(d0, op, src, dst) && Before(d, d0, op, src, dst) && BackStep(m, op, src, dst)
    ensures Do(d, m).Some? && Before(Do(d, m).value, d0, op, src, dst)
    ensures Do(d, m).value.journal == if m.ClearJournal? then None else d.journal
  {
    match m
    case RewriteProjectGrants(_, _, store) => RewriteRuns(d, d0.grants, op, dst, src, m);
    case RewriteNamespaceGrants(_, _, store) => RewriteRuns(d, d0.grants, op, dst, src, m);
    case _ =>
  }

  ghost predicate AllBack(prog: seq<Step>, op: Op, src: Key, dst: Key) {
    forall i :: 0 <= i < |prog| ==> BackStep(prog[i].micro, op, src, dst)
  }

  lemma {:induction false} BackPrefix(d: Disk, d0: Disk, op: Op, src: Key, dst: Key, prog: seq<Step>, n: nat)
    requires Admitted(d0, op, src, dst) && Before(d, d0, op, src, dst) && AllBack(prog, op, src, dst)
    ensures Before(Prefix(d, prog, n), d0, op, src, dst)
    ensures Prefix(d, prog, n).journal in {d.journal, None}
    ensures prog != [] && prog[|prog| - 1].micro.ClearJournal? && n >= |prog| ==> Prefix(d, prog, n).journal == None
    decreases |prog|
  {
    hide Before, Admitted, Do, BackStep;
    if prog != [] && n > 0 {
      BackStepKeeps(d, d0, op, src, dst, prog[0].micro);
      assert forall i :: 0 <= i < |prog[1..]| ==> prog[1..][i] == prog[i + 1];
      assert AllBack(prog[1..], op, src, dst);
      BackPrefix(Do(d, prog[0].micro).value, d0, op, src, dst, prog[1..], n - 1);
    }
  }

  lemma RollbackIsBack(d: Disk, d0: Disk, op: Op, src: Key, dst: Key, cleaner: bool)
    requires Admitted(d0, op, src, dst) && Before(d, d0, op, src, dst)
    ensures var p := Rollback(d, op, src, dst, cleaner);
            AllBack(p, op, src, dst) && p != [] && p[|p| - 1].micro.ClearJournal?
  {
  }

  /** Undone effects stay undone. */
  ghost predicate BackGained(d: Disk, e: Disk, d0: Disk, op: Op, src: Key, dst: Key) {
    && e.siblings <= d.siblings
    && (op == OpMove && d.registry == Added(d0.registry, src) ==> e.registry == d.registry)
    && (forall store: Store :: RegrantedIn(d.grants, d0.grants, op, dst, src, store) ==>
                                 RegrantedIn(e.grants, d0.grants, op, dst, src, store))
  }

  /** What each step of a rollback is for, once it has run. */
  ghost predicate BackDone(e: Disk, d0: Disk, op: Op, src: Key, dst: Key, m: Micro) {
    && (m.RemoveSibling? ==> (m.key, m.kind) !in e.siblings)
    && (m.RegistryAddProject? ==> e.registry == Added(d0.registry, src))
    && (IsGrantStep(m) ==> RegrantedIn(e.grants, d0.grants, op, dst, src, m.store))
  }

  lemma BackStepDoes(d: Disk, d0: Disk, op: Op, src: Key, dst: Key, m: Micro)
    requires Admitted(d0, op, src, dst) && Before(d, d0, op, src, dst) && BackStep(m, op, src, dst)
    ensures Do(d, m).Some? && BackGained(d, Do(d, m).value, d0, op, src, dst) && BackDone(Do(d, m).value, d0, op, src, dst, m)
  {
    if IsGrantStep(m) {
      RewriteRuns(d, d0.grants, op, dst, src, m);
    } else if m.RegistryAddProject? {
      assert Added(Added(d0.registry, src), src) == Added(d0.registry, src);
    }
  }

  lemma BackDoneStays(d: Disk, e: Disk, d0: Disk, op: Op, src: Key, dst: Key, m: Micro)
    requires BackStep(m, op, src, dst) && BackDone(d, d0, op, src, dst, m) && BackGained(d, e, d0, op, src, dst)
    ensures BackDone(e, d0, op, src, dst, m)
  {
  }

  lemma BackGainedTransitive(a: Disk, b: Disk, c: Disk, d0: Disk, op: Op, src: Key, dst: Key)
    requires BackGained(a, b, d0, op, src, dst) && BackGained(b, c, d0, op, src, dst)
    ensures BackGained(a, c, d0, op, src, dst)
  {
  }

  /** A rollback that runs to its end has done all its steps. */
  lemma {:induction false} BackRun(d: Disk, d0: Disk, op: Op, src: Key, dst: Key, prog: seq<Step>)
    requires Admitted(d0, op, src, dst) && Before(d, d0, op, src, dst) && AllBack(prog, op, src, dst)
    ensures BackGained(d, Run(d, prog), d0, op, src, dst)
    ensures forall i :: 0 <= i < |prog| ==> BackDone(Run(d, prog), d0, op, src, dst, prog[i].micro)
    decreases |prog|
  {
    if prog != [] {
      var m := prog[0].micro;
      BackStepKeeps(d, d0, op, src, dst, m);
      BackStepDoes(d, d0, op, src, dst, m);
      hide Before, Admitted, Do, BackStep, BackGained, BackDone, Run;
      var c := Do(d, m).value;
      RunCons(d, prog);
      assert forall i :: 0 <= i < |prog[1..]| ==> prog[1..][i] == prog[i + 1];
      assert AllBack(prog[1..], op, src, dst);
      BackRun(c, d0, op, src, dst, prog[1..]);
      BackDoneStays(c, Run(d, prog), d0, op, src, dst, m);
      BackGainedTransitive(d, c, Run(d, prog), d0, op, src, dst);
      forall i | 0 <= i < |prog| ensures BackDone(Run(d, prog), d0, op, src, dst, prog[i].micro) {
        if i > 0 {
          assert prog[i] == prog[1..][i - 1];
        }
      }
    }
  }

  /** Rolled back: no stray catalog or index under the target, the record re-added, grants back at the source. */
  ghost predicate RolledBack(e: Disk, d0: Disk, op: Op, src: Key, dst: Key, cleaner: bool) {
    && Before(e, d0, op, src, dst) && e.journal == None
    && (op != OpRenameNamespace ==> (dst, CatalogDb) !in e.siblings && (dst, IndexDb) !in e.siblings)
    && (op == OpMove ==> e.registry == Added(d0.registry, src))
    && (cleaner ==> RegrantedAll(e.grants, d0.grants, op, dst, src))
  }

  lemma RollbackRuns(d: Disk, d0: Disk, op: Op, src: Key, dst: Key, cleaner: bool)
    requires Admitted(d0, op, src, dst) && Before(d, d0, op, src, dst)
    ensures RolledBack(Run(d, Rollback(d, op, src, dst, cleaner)), d0, op, src, dst, cleaner)
  {
    var p := Rollback(d, op, src, dst, cleaner);
    RollbackIsBack(d, d0, op, src, dst, cleaner);
    BackPrefix(d, d0, op, src, dst, p, |p|);
    BackRun(d, d0, op, src, dst, p);
    RollbackHas(d, d0, op, src, dst, cleaner);
    hide Before, Admitted, Do, BackStep, Run, Rollback, Regranted, Added;
    var e := Run(d, p);
    var n := |p| - 1;
    if op != OpRenameNamespace {
      assert BackDone(e, d0, op, src, dst, p[n - 2].micro) && BackDone(e, d0, op, src, dst, p[n - 1].micro);
    }
    if op == OpMove {
      assert BackDone(e, d0, op, src, dst, p[0].micro);
    }
    if cleaner {
      var at := if op == OpRenameNamespace then n - 2 else n - 4;
      assert BackDone(e, d0, op, src, dst, p[at].micro) && BackDone(e, d0, op, src, dst, p[at + 1].micro);
    }
  }

  lemma RollbackHas(d: Disk, d0: Disk, op: Op, src: Key, dst: Key, cleaner: bool)
    requires Admitted(d0, op, src, dst) && Before(d, d0, op, src, dst)
    ensures var p := Rollback(d, op, src, dst, cleaner);
            var n := |p| - 1;
            && (op != OpRenameNamespace ==>
                  n >= 2 && p[n - 2].micro == RemoveSibling(dst, CatalogDb) && p[n - 1].micro == RemoveSibling(dst, IndexDb))
            && (op == OpMove ==> n >= 3 && p[0].micro == RegistryAddProject(src.ns, src.project))
            && var at := if op == OpRenameNamespace then n - 2 else n - 4;
               cleaner ==> at >= 0 && IsGrantStep(p[at].micro) && p[at].micro.store == Users
                           && IsGrantStep(p[at + 1].micro) && p[at + 1].micro.store == OAuth
  {
  }

  /** After the first step a rollback leaves the registry alone. */
  lemma {:induction false} RegistryUntouched(d: Disk, prog: seq<Step>)
    requires forall i :: 0 <= i < |prog| ==>
               IsGrantStep(prog[i].micro) || prog[i].micro.RemoveSibling? || prog[i].micro.ClearJournal?
    ensures Run(d, prog).registry == d.registry
    decreases |prog|
  {
    if prog != [] {
      var m := prog[0].micro;
      assert Do(d, m).Some? && Do(d, m).value.registry == d.registry;
      RunCons(d, prog);
      assert forall i :: 0 <= i < |prog[1..]| ==> prog[1..][i] == prog[i + 1];
      hide Run, Do;
      RegistryUntouched(Do(d, m).value, prog[1..]);
    }
  }

  /**
   * What a rollback makes of the registry, whatever disk it starts from: a record that had
   * reached the target comes back to the source, a move registers its source in any case,
   * and no other entry changes.
   */
  ghost predicate RegistryBack(reg: map<string, set<string>>, reg': map<string, set<string>>, op: Op, src: Key, dst: Key) {
    if op == OpRenameNamespace then
      if dst.ns in reg && src.ns !in reg then
        && reg'.Keys == reg.Keys - {dst.ns} + {src.ns} && reg'[src.ns] == reg[dst.ns]
        && forall ns :: ns in reg && ns != dst.ns ==> reg'[ns] == reg[ns]
      else reg' == reg
    else
      var here, there := src.ns in reg && src.project in reg[src.ns], dst.ns in reg && dst.project in reg[dst.ns];
      && reg'.Keys == reg.Keys + (if op == OpMove then {src.ns} else {})
      && forall ns, p :: ns in reg' ==>
           (p in reg'[ns] <==> if Key(ns, p) == dst then there && here
                               else if Key(ns, p) == src then here || there || op == OpMove
                               else ns in reg && p in reg[ns])
  }

  lemma RollbackRegistry(d: Disk, op: Op, src: Key, dst: Key, cleaner: bool)
    requires if op == OpRenameNamespace then src.ns != dst.ns
             else src != dst && (if op == OpMove then src.project == dst.project else src.ns == dst.ns)
    ensures RegistryBack(d.registry, Run(d, Rollback(d, op, src, dst, cleaner)).registry, op, src, dst)
  {
    var p := Rollback(d, op, src, dst, cleaner);
    var first := RegistryRestore(d, op, src, dst);
    var rest := GrantSteps(op, dst, src, cleaner, true) + StrayTargets(op, dst) + [CLEAR];
    assert p == first + rest;
    RestoreStep(d, op, src, dst);
    hide RegistryBack, RegistryRestore, Do, Run, Rollback;
    RegistryUntouched(d, rest);
    if first == [] {
      assert p == rest;
    } else {
      RunCons(d, p);
      assert p[0] == first[0] && p[1..] == rest;
      if Do(d, p[0].micro).Some? { RegistryUntouched(Do(d, p[0].micro).value, rest); }
    }
  }

  lemma RestoreStep(d: Disk, op: Op, src: Key, dst: Key)
    requires if op == OpRenameNamespace then src.ns != dst.ns
             else src != dst && (if op == OpMove then src.project == dst.project else src.ns == dst.ns)
    ensures var first := RegistryRestore(d, op, src, dst);
            && |first| <= 1 && (first != [] ==> first[0].bestEffort)
            && RegistryBack(d.registry,
                            if first != [] && Do(d, first[0].micro).Some? then Do(d, first[0].micro).value.registry else d.registry,
                            op, src, dst)
  {
  }

  // ------------------------------------------------------------- finishing forward

  /** A step of the remainder, allowed from any moved disk. */
  ghost predicate Remainder(m: Micro, op: Op, src: Key, dst: Key, safe: set<Kind>) {
    match m
    case RelocateSibling(a, b, k, fails) => op != OpRenameNamespace && a == src && b == dst && (k in safe ==> !fails)
    case RewriteProjectGrants(a, b, _) => op != OpRenameNamespace && a == src && b == dst
    case RewriteNamespaceGrants(o, n, _) => op == OpRenameNamespace && o == src.ns && n == dst.ns
    case SetJournal(j) => Names(Some(j), op, src, dst)
    case _ => m == RegistryStep(op, src, dst)
  }

  /** The re-key fails exactly for an unlisted project, on every moved disk. */
  lemma RegistryStepRuns(d: Disk, d0: Disk, op: Op, src: Key, dst: Key, safe: set<Kind>)
    requires Admitted(d0, op, src, dst) && Moved(d, d0, op, src, dst, safe)
    ensures Do(d, RegistryStep(op, src, dst)) ==
            if Unlisted(d0, op, src) then None else Some(d.(registry := Rekeyed(d0.registry, op, src, dst)))
  {
    hide DirsMoved, SiblingsMoved, Regranted;
  }

  lemma RelocateRuns(d: Disk, d0: Disk, op: Op, src: Key, dst: Key, safe: set<Kind>, m: Micro)
    requires Admitted(d0, op, src, dst) && SiblingsMoved(d, d0, op, src, dst, safe)
    requires Remainder(m, op, src, dst, safe) && m.RelocateSibling?
    ensures Do(d, m).Some? && Do(d, m).value == d.(siblings := Do(d, m).value.siblings)
    ensures SiblingsMoved(Do(d, m).value, d0, op, src, dst, safe)
    ensures (src, m.kind) !in Do(d, m).value.siblings
    ensures forall k :: (src, k) in Do(d, m).value.siblings ==> (src, k) in d.siblings
  {
  }

  /** What one remainder step does: everything gained stays gained. */
  ghost predicate Forward(d: Disk, e: Disk, d0: Disk, op: Op, src: Key, dst: Key, safe: set<Kind>, m: Micro) {
    && Moved(e, d0, op, src, dst, safe)
    && (forall k :: (src, k) in e.siblings ==> (src, k) in d.siblings)
    && (m.RelocateSibling? ==> (src, m.kind) !in e.siblings)
    && (d.registry == Rekeyed(d0.registry, op, src, dst) || m == RegistryStep(op, src, dst) ==>
          e.registry == Rekeyed(d0.registry, op, src, dst))
    && (forall store: Store :: RegrantedIn(d.grants, d0.grants, op, src, dst, store) || (IsGrantStep(m) && m.store == store) ==>
                                 RegrantedIn(e.grants, d0.grants, op, src, dst, store))
  }

  lemma RemainderStep(d: Disk, d0: Disk, op: Op, src: Key, dst: Key, safe: set<Kind>, m: Micro)
    requires Admitted(d0, op, src, dst) && Moved(d, d0, op, src, dst, safe) && Remainder(m, op, src, dst, safe)
    ensures Do(d, m).None? <==> Unlisted(d0, op, src) && m == RegistryStep(op, src, dst)
    ensures Do(d, m).Some? ==> Forward(d, Do(d, m).value, d0, op, src, dst, safe, m)
    ensures Do(d, m).Some? && !m.SetJournal? ==> Do(d, m).value.journal == d.journal
    ensures Do(d, m).Some? && Names(d.journal, op, src, dst) ==> Names(Do(d, m).value.journal, op, src, dst)
  {
    assert if op == OpRenameNamespace then src.ns != dst.ns else src != dst;
    hide Regranted, Rekeyed, HasProject, Admitted, RegrantedIn, RegrantedSome, DirsMoved;
    match m
    case RewriteProjectGrants(_, _, _) => RewriteRuns(d, d0.grants, op, src, dst, m);
    case RewriteNamespaceGrants(_, _, _) => RewriteRuns(d, d0.grants, op, src, dst, m);
    case SetJournal(_) =>
    case RelocateSibling(_, _, _, _) => RelocateRuns(d, d0, op, src, dst, safe, m);
    case _ => RegistryStepRuns(d, d0, op, src, dst, safe);
  }

  ghost predicate AllRemainder(prog: seq<Step>, op: Op, src: Key, dst: Key, safe: set<Kind>) {
    forall i :: 0 <= i < |prog| ==> Remainder(prog[i].micro, op, src, dst, safe) && !prog[i].bestEffort
  }

  lemma {:induction false} RemainderPrefix(d: Disk, d0: Disk, op: Op, src: Key, dst: Key, safe: set<Kind>, prog: seq<Step>, n: nat)
    requires Admitted(d0, op, src, dst) && Moved(d, d0, op, src, dst, safe) && AllRemainder(prog, op, src, dst, safe)
    requires Names(d.journal, op, src, dst)
    ensures Moved(Prefix(d, prog, n), d0, op, src, dst, safe) && Names(Prefix(d, prog, n).journal, op, src, dst)
    decreases |prog|
  {
    hide Moved, Admitted, Unlisted, Do, Names, Remainder, RegistryStep;
    if prog != [] && n > 0 {
      RemainderStep(d, d0, op, src, dst, safe, prog[0].micro);
      if Do(d, prog[0].micro).Some? {
        assert forall i :: 0 <= i < |prog[1..]| ==> prog[1..][i] == prog[i + 1];
        assert AllRemainder(prog[1..], op, src, dst, safe);
        RemainderPrefix(Do(d, prog[0].micro).value, d0, op, src, dst, safe, prog[1..], n - 1);
      }
    }
  }

  const CLEAR := Step(ClearJournal, false)

  /** Everything the remainder is for, once it has run. */
  ghost predicate Finished(e: Disk, d0: Disk, op: Op, src: Key, dst: Key, prog: seq<Step>) {
    && (forall i :: 0 <= i < |prog| && prog[i].micro.RelocateSibling? ==> (src, prog[i].micro.kind) !in e.siblings)
    && (forall i :: 0 <= i < |prog| && prog[i].micro == RegistryStep(op, src, dst) ==> e.registry == Rekeyed(d0.registry, op, src, dst))
    && (forall i :: 0 <= i < |prog| && IsGrantStep(prog[i].micro) ==>
          RegrantedIn(e.grants, d0.grants, op, src, dst, prog[i].micro.store))
  }

  /** Gains of an earlier state are still there. */
  ghost predicate Gained(d: Disk, e: Disk, d0: Disk, op: Op, src: Key, dst: Key) {
    && (forall k :: (src, k) in e.siblings ==> (src, k) in d.siblings)
    && (d.registry == Rekeyed(d0.registry, op, src, dst) ==> e.registry == d.registry)
    && (forall store: Store :: RegrantedIn(d.grants, d0.grants, op, src, dst, store) ==>
                                 RegrantedIn(e.grants, d0.grants, op, src, dst, store))
  }

  lemma FinishedCons(d: Disk, c: Disk, e: Disk, d0: Disk, op: Op, src: Key, dst: Key, safe: set<Kind>, prog: seq<Step>)
    requires prog != [] && Forward(d, c, d0, op, src, dst, safe, prog[0].micro)
    requires Gained(c, e, d0, op, src, dst) && Finished(e, d0, op, src, dst, prog[1..])
    ensures Gained(d, e, d0, op, src, dst) && Finished(e, d0, op, src, dst, prog)
  {
    hide Moved, Rekeyed, Regranted, RegistryStep;
    forall i | 0 < i < |prog| ensures prog[i] == prog[1..][i - 1] {
    }
  }

  /** Where every step can succeed, running the steps and then clearing finishes the operation. */
  lemma {:induction false} RemainderRun(d: Disk, d0: Disk, op: Op, src: Key, dst: Key, safe: set<Kind>, prog: seq<Step>)
    requires Admitted(d0, op, src, dst) && Moved(d, d0, op, src, dst, safe) && AllRemainder(prog, op, src, dst, safe)
    requires !Unlisted(d0, op, src)
    ensures var e := Run(d, prog + [CLEAR]);
            && e.journal == None && Moved(e, d0, op, src, dst, safe)
            && Gained(d, e, d0, op, src, dst) && Finished(e, d0, op, src, dst, prog)
    decreases |prog|
  {
    if prog == [] {
      assert prog + [CLEAR] == [CLEAR];
      ClearRuns(d);
    } else {
      hide Moved, Admitted, Unlisted, Do, Remainder, RegistryStep, Forward, Finished, Gained, Run;
      RemainderStep(d, d0, op, src, dst, safe, prog[0].micro);
      var c := Do(d, prog[0].micro).value;
      assert forall i :: 0 <= i < |prog[1..]| ==> prog[1..][i] == prog[i + 1];
      assert AllRemainder(prog[1..], op, src, dst, safe);
      assert Moved(c, d0, op, src, dst, safe) by { ForwardMoved(d, c, d0, op, src, dst, safe, prog[0].micro); }
      RemainderRun(c, d0, op, src, dst, safe, prog[1..]);
      assert (prog + [CLEAR])[1..] == prog[1..] + [CLEAR];
      RunCons(d, prog + [CLEAR]);
      FinishedCons(d, c, Run(c, prog[1..] + [CLEAR]), d0, op, src, dst, safe, prog);
    }
  }

  lemma ForwardMoved(d: Disk, e: Disk, d0: Disk, op: Op, src: Key, dst: Key, safe: set<Kind>, m: Micro)
    requires Forward(d, e, d0, op, src, dst, safe, m)
    ensures Moved(e, d0, op, src, dst, safe)
  {
  }

  /** Where the re-key cannot succeed, no number of steps reaches the clearing of the journal. */
  lemma {:induction false} UnlistedNeverClears(d: Disk, d0: Disk, op: Op, src: Key, dst: Key, safe: set<Kind>, prog: seq<Step>, n: nat)
    requires Admitted(d0, op, src, dst) && Moved(d, d0, op, src, dst, safe) && AllRemainder(prog, op, src, dst, safe)
    requires Unlisted(d0, op, src) && Names(d.journal, op, src, dst)
    requires exists i :: 0 <= i < |prog| && prog[i].micro == RegistryStep(op, src, dst)
    ensures var e := Prefix(d, prog + [CLEAR], n);
            Moved(e, d0, op, src, dst, safe) && Names(e.journal, op, src, dst)
    decreases |prog|
  {
    hide Moved, Admitted, Unlisted, Do, Names, Remainder, RegistryStep, Forward;
    if n > 0 {
      RemainderStep(d, d0, op, src, dst, safe, prog[0].micro);
      assert (prog + [CLEAR])[0] == prog[0] && (prog + [CLEAR])[1..] == prog[1..] + [CLEAR];
      if Do(d, prog[0].micro).Some? {
        var c := Do(d, prog[0].micro).value;
        ForwardMoved(d, c, d0, op, src, dst, safe, prog[0].micro);
        assert forall i :: 0 <= i < |prog[1..]| ==> prog[1..][i] == prog[i + 1];
        assert AllRemainder(prog[1..], op, src, dst, safe);
        var i :| 0 <= i < |prog| && prog[i].micro == RegistryStep(op, src, dst);
        assert prog[1..][i - 1].micro == RegistryStep(op, src, dst);
        UnlistedNeverClears(c, d0, op, src, dst, safe, prog[1..], n - 1);
      }
    }
  }

  /** `Complete` without its last step. */
  function Work(op: Op, src: Key, dst: Key, cleaner: bool, faults: Faults): seq<Step> {
    (if op == OpRenameNamespace then [] else Relocations(src, dst, faults))
    + [Step(RegistryStep(op, src, dst), false)] + GrantSteps(op, src, dst, cleaner, false)
  }

  ghost predicate Spares(faults: Faults, safe: set<Kind>) {
    forall k :: k in safe ==> !faults(k)
  }

  lemma WorkIsRemainder(op: Op, src: Key, dst: Key, cleaner: bool, faults: Faults, safe: set<Kind>)
    requires Spares(faults, safe)
    ensures var w := Work(op, src, dst, cleaner, faults);
            && AllRemainder(w, op, src, dst, safe) && Complete(op, src, dst, cleaner, faults) == w + [CLEAR]
            && exists i :: 0 <= i < |w| && w[i].micro == RegistryStep(op, src, dst)
  {
    var w := Work(op, src, dst, cleaner, faults);
    assert w[if op == OpRenameNamespace then 0 else 4].micro == RegistryStep(op, src, dst);
  }

  /** The whole of the work relocates every kind, re-keys, and rewrites grants when a cleaner is wired. */
  lemma WorkFinishes(d: Disk, d0: Disk, op: Op, src: Key, dst: Key, cleaner: bool, faults: Faults)
    requires Finished(d, d0, op, src, dst, Work(op, src, dst, cleaner, faults))
    ensures op != OpRenameNamespace ==> forall k :: (src, k) !in d.siblings
    ensures d.registry == Rekeyed(d0.registry, op, src, dst)
    ensures cleaner ==> RegrantedAll(d.grants, d0.grants, op, src, dst)
  {
    hide Rekeyed, Regranted, RegistryStep;
    var w := Work(op, src, dst, cleaner, faults);
    var at := if op == OpRenameNamespace then 0 else 4;
    assert w[at].micro == RegistryStep(op, src, dst);
    if cleaner {
      assert IsGrantStep(w[at + 1].micro) && w[at + 1].micro.store == Users;
      assert IsGrantStep(w[at + 2].micro) && w[at + 2].micro.store == OAuth;
    }
    if op != OpRenameNamespace {
      forall k ensures (src, k) !in d.siblings {
        var i := match k case CatalogDb => 0 case IndexDb => 1 case DeletedLogDb => 2 case VectorDb => 3;
        assert w[i].micro.RelocateSibling? && w[i].micro.kind == k;
      }
    }
  }

  lemma MovedIsBare(d: Disk, d0: Disk, op: Op, src: Key, dst: Key, safe: set<Kind>)
    requires Admitted(d0, op, src, dst) && Moved(d, d0, op, src, dst, safe)
    requires op != OpRenameNamespace ==> forall k :: (src, k) !in d.siblings
    ensures OldSideBare(d, op, src)
  {
    hide Rekeyed, Regranted;
  }

  /** Finishing forward from a moved disk. */
  lemma CompleteRuns(d: Disk, d0: Disk, op: Op, src: Key, dst: Key, cleaner: bool, faults: Faults, safe: set<Kind>)
    requires Admitted(d0, op, src, dst) && Moved(d, d0, op, src, dst, safe) && Spares(faults, safe)
    requires Names(d.journal, op, src, dst)
    ensures var e := Run(d, Complete(op, src, dst, cleaner, faults));
            if Unlisted(d0, op, src) then Moved(e, d0, op, src, dst, safe) && Names(e.journal, op, src, dst)
            else && e.journal == None && OnNewSide(e, d0, op, src, dst, safe)
                 && (cleaner ==> RegrantedAll(e.grants, d0.grants, op, src, dst))
  {
    hide Moved, Admitted, Unlisted, Names, Finished, Gained, Complete, Work, OldSideBare, Regranted, Rekeyed;
    var w := Work(op, src, dst, cleaner, faults);
    WorkIsRemainder(op, src, dst, cleaner, faults, safe);
    var e := Run(d, w + [CLEAR]);
    if Unlisted(d0, op, src) {
      UnlistedNeverClears(d, d0, op, src, dst, safe, w, |w + [CLEAR]|);
    } else {
      RemainderRun(d, d0, op, src, dst, safe, w);
      WorkFinishes(e, d0, op, src, dst, cleaner, faults);
      MovedIsBare(e, d0, op, src, dst, safe);
    }
  }

  /** A crash anywhere in the remainder. */
  lemma CompletePrefix(d: Disk, d0: Disk, op: Op, src: Key, dst: Key, cleaner: bool, faults: Faults, safe: set<Kind>, n: nat)
    requires Admitted(d0, op, src, dst) && Moved(d, d0, op, src, dst, safe) && Spares(faults, safe)
    requires Names(d.journal, op, src, dst) && !Missing(d0, op, src)
    ensures Stage(Prefix(d, Complete(op, src, dst, cleaner, faults), n), d0, op, src, dst, safe)
  {
    hide Moved, Before, Admitted, Unlisted, Missing, Names, Complete, Work, OldSideBare, Regranted, Rekeyed;
    var w := Work(op, src, dst, cleaner, faults);
    WorkIsRemainder(op, src, dst, cleaner, faults, safe);
    if n <= |w| {
      PrefixShort(d, w, [CLEAR], n);
      RemainderPrefix(d, d0, op, src, dst, safe, w, n);
      NamesSome(Prefix(d, w, n).journal, op, src, dst);
    } else {
      PrefixLong(d, w + [CLEAR], n);
      CompleteRuns(d, d0, op, src, dst, cleaner, faults, safe);
      if Unlisted(d0, op, src) {
        NamesSome(Run(d, w + [CLEAR]).journal, op, src, dst);
      }
    }
  }

  lemma NamesSome(j: Option<Journal>, op: Op, src: Key, dst: Key)
    requires Names(j, op, src, dst)
    ensures j != None
  {
  }

  // ----------------------------------------------------------------- whole runs

  lemma BeforeProbes(d: Disk, d0: Disk, op: Op, src: Key, dst: Key)
    requires Admitted(d0, op, src, dst) && Before(d, d0, op, src, dst)
    ensures !AtNew(d, op, dst) && (AtOld(d, op, src) <==> !Missing(d0, op, src))
  {
  }

  lemma MovedProbes(d: Disk, d0: Disk, op: Op, src: Key, dst: Key, safe: set<Kind>)
    requires Admitted(d0, op, src, dst) && Moved(d, d0, op, src, dst, safe)
    ensures AtNew(d, op, dst) && !AtOld(d, op, src)
  {
    hide SiblingsMoved, Regranted, Rekeyed;
  }

  /** One recovery, cut short after `n` effects, stays within the stages. */
  lemma RecoveryStage(d: Disk, d0: Disk, op: Op, src: Key, dst: Key, cleaner: bool, faults: Faults, safe: set<Kind>, n: nat)
    requires Admitted(d0, op, src, dst) && Stage(d, d0, op, src, dst, safe) && Spares(faults, safe)
    ensures Stage(Prefix(d, Recovery(d, cleaner, faults), n), d0, op, src, dst, safe)
  {
    hide Moved, Before, Admitted, Missing, Complete, Rollback, OldSideBare, Do, AtOld, AtNew;
    if d.journal.Some? {
      if Before(d, d0, op, src, dst) {
        BeforeProbes(d, d0, op, src, dst);
        RollbackIsBack(d, d0, op, src, dst, cleaner);
        BackPrefix(d, d0, op, src, dst, Recovery(d, cleaner, faults), n);
      } else {
        MovedProbes(d, d0, op, src, dst, safe);
        CompletePrefix(d, d0, op, src, dst, cleaner, faults, safe, n);
      }
    }
  }

  /** The live operation, cut short after `n` effects. */
  lemma LiveStage(d0: Disk, op: Op, src: Key, dst: Key, cleaner: bool, faults: Faults, renameFails: bool, safe: set<Kind>, n: nat)
    requires Admitted(d0, op, src, dst) && Spares(faults, safe)
    requires n == 0 ==> d0.journal == None
    ensures Stage(Prefix(d0, Live(d0, op, src, dst, cleaner, faults, renameFails), n), d0, op, src, dst, safe)
  {
    var p := Live(d0, op, src, dst, cleaner, faults, renameFails);
    var j := Journal(op, src, dst, false);
    var d1 := d0.(journal := Some(j));
    assert Before(d0, d0, op, src, dst) && Before(d1, d0, op, src, dst) by { hide Admitted; }
    if n > 0 {
      assert Prefix(d0, p, n) == Prefix(d1, p[1..], n - 1) by { hide Complete; }
      if renameFails || Missing(d0, op, src) {
        AbortedLive(d1, n - 1);
        assert p[1..] == [CLEAR];
      } else {
        LiveTail(d0, d1, op, src, dst, cleaner, faults, safe, n - 1);
      }
    }
  }

  lemma AbortedLive(d1: Disk, n: nat)
    ensures Prefix(d1, [CLEAR], n) == if n == 0 then d1 else d1.(journal := None)
  {
  }

  /** The pivot: one rename moves a project, or a namespace with all its projects and databases. */
  lemma RenameMoves(d0: Disk, d1: Disk, op: Op, src: Key, dst: Key, safe: set<Kind>)
    requires Admitted(d0, op, src, dst) && !Missing(d0, op, src) && d1 == d0.(journal := d1.journal)
    ensures var r := Do(d1, RenameStep(op, src, dst));
            r.Some? && Moved(r.value, d0, op, src, dst, safe) && r.value.journal == d1.journal
  {
  }

  lemma LiveTail(d0: Disk, d1: Disk, op: Op, src: Key, dst: Key, cleaner: bool, faults: Faults, safe: set<Kind>, n: nat)
    requires Admitted(d0, op, src, dst) && !Missing(d0, op, src) && Spares(faults, safe)
    requires d1 == d0.(journal := Some(Journal(op, src, dst, false)))
    ensures var tail := [Step(RenameStep(op, src, dst), false), Step(SetJournal(Journal(op, src, dst, true)), false)]
                        + Complete(op, src, dst, cleaner, faults);
            Stage(Prefix(d1, tail, n), d0, op, src, dst, safe)
  {
    var complete := Complete(op, src, dst, cleaner, faults);
    var set2 := Step(SetJournal(Journal(op, src, dst, true)), false);
    var tail := [Step(RenameStep(op, src, dst), false), set2] + complete;
    if n == 0 {
      assert Before(d1, d0, op, src, dst) by { hide Admitted; }
    } else {
      RenameMoves(d0, d1, op, src, dst, safe);
      hide Moved, Before, Admitted, Missing, Complete, OldSideBare, RenameStep;
      var d2 := Do(d1, RenameStep(op, src, dst)).value;
      assert tail[1..] == [set2] + complete && tail[1..][1..] == complete;
      hide Do;
      assert Prefix(d1, tail, n) == Prefix(d2, tail[1..], n - 1);
      if n > 1 {
        assert Remainder(set2.micro, op, src, dst, safe);
        NotTheRegistryStep(set2.micro, op, src, dst);
        RemainderStep(d2, d0, op, src, dst, safe, set2.micro);
        var d3 := Do(d2, set2.micro).value;
        SetJournalRuns(d2, set2.micro.j, op, src, dst);
        ForwardMoved(d2, d3, d0, op, src, dst, safe, set2.micro);
        CompletePrefix(d3, d0, op, src, dst, cleaner, faults, safe, n - 2);
      }
    }
  }

  lemma NotTheRegistryStep(m: Micro, op: Op, src: Key, dst: Key)
    requires m.SetJournal?
    ensures m != RegistryStep(op, src, dst)
  {
  }

  lemma SetJournalRuns(d: Disk, j: Journal, op: Op, src: Key, dst: Key)
    requires Names(Some(j), op, src, dst)
    ensures Do(d, SetJournal(j)) == Some(d.(journal := Some(j)))
  {
  }

  /** The uninterrupted operation: all on the new side, or nothing changed, or an unlisted project moved with its journal left. */
  lemma LiveRuns(d0: Disk, op: Op, src: Key, dst: Key, cleaner: bool, faults: Faults, renameFails: bool, safe: set<Kind>)
    requires Admitted(d0, op, src, dst) && Spares(faults, safe)
    ensures var e := Run(d0, Live(d0, op, src, dst, cleaner, faults, renameFails));
            if renameFails || Missing(d0, op, src) then e == d0.(journal := None)
            else if Unlisted(d0, op, src) then Moved(e, d0, op, src, dst, safe) && e.journal.Some?
            else && e.journal == None && OnNewSide(e, d0, op, src, dst, safe) && Arrived(e, d0, op, src, dst, safe)
                 && (cleaner ==> RegrantedAll(e.grants, d0.grants, op, src, dst))
                 && (cleaner ==> GrantsArrived(e.grants, d0.grants, op, src, dst))
  {
    var p := Live(d0, op, src, dst, cleaner, faults, renameFails);
    var d1 := d0.(journal := Some(Journal(op, src, dst, false)));
    RunCons(d0, p);
    if renameFails || Missing(d0, op, src) {
      assert p[1..] == [CLEAR];
      ClearRuns(d1);
    } else {
      var set2 := Step(SetJournal(Journal(op, src, dst, true)), false);
      RenameMoves(d0, d1, op, src, dst, safe);
      hide Moved, Before, Admitted, Missing, Complete, OldSideBare, RenameStep, Run, Unlisted;
      var d2 := Do(d1, RenameStep(op, src, dst)).value;
      RunCons(d1, p[1..]);
      assert p[1..][1..] == [set2] + Complete(op, src, dst, cleaner, faults);
      assert p[1..][1..][1..] == Complete(op, src, dst, cleaner, faults);
      RunCons(d2, p[1..][1..]);
      var d3 := d2.(journal := Some(Journal(op, src, dst, true)));
      assert Moved(d3, d0, op, src, dst, safe) by {
        RemainderStep(d2, d0, op, src, dst, safe, set2.micro);
        NotTheRegistryStep(set2.micro, op, src, dst);
      }
      CompleteRuns(d3, d0, op, src, dst, cleaner, faults, safe);
      ArrivedThere(Run(d3, Complete(op, src, dst, cleaner, faults)), d0, op, src, dst, safe);
    }
  }

  /** One start of the server: its recovery runs `cut` effects before the next crash. */
  datatype Restart = Restart(cut: nat, cleaner: bool, faults: Faults)

  function AfterRestarts(d: Disk, restarts: seq<Restart>): Disk
    decreases |restarts|
  {
    if restarts == [] then d
    else var r := restarts[0];
         AfterRestarts(Prefix(d, Recovery(d, r.cleaner, r.faults), r.cut), restarts[1..])
  }

  ghost predicate AllSpare(restarts: seq<Restart>, safe: set<Kind>) {
    forall i :: 0 <= i < |restarts| ==> Spares(restarts[i].faults, safe)
  }

  lemma {:induction false} RestartsStage(d: Disk, d0: Disk, op: Op, src: Key, dst: Key, safe: set<Kind>, restarts: seq<Restart>)
    requires Admitted(d0, op, src, dst) && Stage(d, d0, op, src, dst, safe) && AllSpare(restarts, safe)
    ensures Stage(AfterRestarts(d, restarts), d0, op, src, dst, safe)
    decreases |restarts|
  {
    hide Stage, Admitted, Recovery, Prefix, Spares;
    if restarts != [] {
      var r := restarts[0];
      RecoveryStage(d, d0, op, src, dst, r.cleaner, r.faults, safe, r.cut);
      RestartsStage(Prefix(d, Recovery(d, r.cleaner, r.faults), r.cut), d0, op, src, dst, safe, restarts[1..]);
    }
  }

  /** The disk after a live operation crashed and was recovered, or crashed again, any number of times. */
  function Crashed(d0: Disk, op: Op, src: Key, dst: Key, live: Restart, renameFails: bool, restarts: seq<Restart>): Disk {
    AfterRestarts(Prefix(d0, Live(d0, op, src, dst, live.cleaner, live.faults, renameFails), live.cut), restarts)
  }

  /** The operation has written its own journal entry, or found none of an earlier one. */
  predicate OwnJournal(d0: Disk, live: Restart) {
    live.cut > 0 || d0.journal == None
  }

  lemma CrashedStage(d0: Disk, op: Op, src: Key, dst: Key, safe: set<Kind>, live: Restart, renameFails: bool, restarts: seq<Restart>)
    requires Admitted(d0, op, src, dst) && OwnJournal(d0, live) && Spares(live.faults, safe) && AllSpare(restarts, safe)
    ensures Stage(Crashed(d0, op, src, dst, live, renameFails, restarts), d0, op, src, dst, safe)
  {
    LiveStage(d0, op, src, dst, live.cleaner, live.faults, renameFails, safe, live.cut);
    RestartsStage(Prefix(d0, Live(d0, op, src, dst, live.cleaner, live.faults, renameFails), live.cut), d0, op, src, dst, safe, restarts);
  }

  /**
   * However often the server crashed, one recovery that runs to its end leaves the source side as it was,
   * or everything on the new side; it clears the journal except after moving an unlisted project.
   */
  lemma RecoveryResolves(d0: Disk, op: Op, src: Key, dst: Key, safe: set<Kind>, live: Restart, renameFails: bool,
                         restarts: seq<Restart>, cleaner: bool, faults: Faults)
    requires Admitted(d0, op, src, dst) && OwnJournal(d0, live)
    requires Spares(live.faults, safe) && AllSpare(restarts, safe) && Spares(faults, safe)
    ensures var d := Crashed(d0, op, src, dst, live, renameFails, restarts);
            var e := Run(d, Recovery(d, cleaner, faults));
            && (Before(e, d0, op, src, dst) || Moved(e, d0, op, src, dst, safe))
            && (e.journal == None <==> !(Unlisted(d0, op, src) && Moved(e, d0, op, src, dst, safe)))
            && (e.journal == None ==> Before(e, d0, op, src, dst) || OnNewSide(e, d0, op, src, dst, safe))
            && (Moved(e, d0, op, src, dst, safe) <==> AtNew(d, op, dst))
            && (d.journal.Some? && AtOld(d, op, src) ==> RolledBack(e, d0, op, src, dst, cleaner))
            && (d.journal.Some? && cleaner && OnNewSide(e, d0, op, src, dst, safe) ==>
                  RegrantedAll(e.grants, d0.grants, op, src, dst) && GrantsArrived(e.grants, d0.grants, op, src, dst))
            && (OnNewSide(e, d0, op, src, dst, safe) ==> Arrived(e, d0, op, src, dst, safe))
  {
    CrashedStage(d0, op, src, dst, safe, live, renameFails, restarts);
    Resolves(Crashed(d0, op, src, dst, live, renameFails, restarts), d0, op, src, dst, safe, cleaner, faults);
  }

  lemma NotBoth(d: Disk, d0: Disk, op: Op, src: Key, dst: Key, safe: set<Kind>)
    requires Admitted(d0, op, src, dst)
    ensures !(Before(d, d0, op, src, dst) && Moved(d, d0, op, src, dst, safe))
  {
    if Before(d, d0, op, src, dst) && Moved(d, d0, op, src, dst, safe) {
      BeforeProbes(d, d0, op, src, dst);
      MovedProbes(d, d0, op, src, dst, safe);
      assert false;
    }
  }

  lemma UnlistedNeverNew(d: Disk, d0: Disk, op: Op, src: Key, dst: Key, safe: set<Kind>)
    requires Admitted(d0, op, src, dst) && Unlisted(d0, op, src)
    ensures !OnNewSide(d, d0, op, src, dst, safe)
  {
    hide Regranted, SiblingsMoved, OldSideBare, DirsMoved;
    assert HasProject(Rekeyed(d0.registry, op, src, dst), dst) && !HasProject(d0.registry, dst);
  }

  lemma Resolves(d: Disk, d0: Disk, op: Op, src: Key, dst: Key, safe: set<Kind>, cleaner: bool, faults: Faults)
    requires Admitted(d0, op, src, dst) && Stage(d, d0, op, src, dst, safe) && Spares(faults, safe)
    ensures var e := Run(d, Recovery(d, cleaner, faults));
            && (Before(e, d0, op, src, dst) || Moved(e, d0, op, src, dst, safe))
            && (e.journal == None <==> !(Unlisted(d0, op, src) && Moved(e, d0, op, src, dst, safe)))
            && (e.journal == None ==> Before(e, d0, op, src, dst) || OnNewSide(e, d0, op, src, dst, safe))
            && (Moved(e, d0, op, src, dst, safe) <==> AtNew(d, op, dst))
            && (d.journal.Some? && AtOld(d, op, src) ==> RolledBack(e, d0, op, src, dst, cleaner))
            && (d.journal.Some? && cleaner && OnNewSide(e, d0, op, src, dst, safe) ==>
                  RegrantedAll(e.grants, d0.grants, op, src, dst) && GrantsArrived(e.grants, d0.grants, op, src, dst))
            && (OnNewSide(e, d0, op, src, dst, safe) ==> Arrived(e, d0, op, src, dst, safe))
  {
    hide Moved, Before, Admitted, Missing, Complete, Rollback, RolledBack, OldSideBare, Do, AtOld, AtNew, Unlisted, Regranted;
    hide Arrived, GrantsArrived;
    var p := Recovery(d, cleaner, faults);
    var e := Run(d, p);
    ArrivedThere(e, d0, op, src, dst, safe);
    NotBoth(d, d0, op, src, dst, safe);
    NotBoth(e, d0, op, src, dst, safe);
    if Unlisted(d0, op, src) {
      UnlistedNeverNew(e, d0, op, src, dst, safe);
    }
    if Before(d, d0, op, src, dst) {
      BeforeProbes(d, d0, op, src, dst);
      if d.journal.Some? {
        RollbackIsBack(d, d0, op, src, dst, cleaner);
        BackPrefix(d, d0, op, src, dst, p, |p|);
        RollbackRuns(d, d0, op, src, dst, cleaner);
      }
    } else {
      MovedProbes(d, d0, op, src, dst, safe);
      if d.journal.Some? {
        CompleteRuns(d, d0, op, src, dst, cleaner, faults, safe);
      }
    }
  }

  /** The inconsistent branch is reached exactly when a namespace without a directory was being renamed. */
  lemma InconsistentIffMissing(d0: Disk, op: Op, src: Key, dst: Key, live: Restart, renameFails: bool, restarts: seq<Restart>)
    requires Admitted(d0, op, src, dst) && OwnJournal(d0, live)
    ensures var d := Crashed(d0, op, src, dst, live, renameFails, restarts);
            Inconsistent(d) <==> Missing(d0, op, src) && d.journal.Some?
  {
    var d := Crashed(d0, op, src, dst, live, renameFails, restarts);
    CrashedStage(d0, op, src, dst, {}, live, renameFails, restarts);
    if Before(d, d0, op, src, dst) {
      BeforeProbes(d, d0, op, src, dst);
    } else {
      MovedProbes(d, d0, op, src, dst, {});
    }
  }

  /** A crash right after the journal entry does reach it. */
  lemma MissingReachesInconsistent(d0: Disk, src: Key, dst: Key, faults: Faults)
    requires Admitted(d0, OpRenameNamespace, src, dst) && Missing(d0, OpRenameNamespace, src)
    ensures Inconsistent(Crashed(d0, OpRenameNamespace, src, dst, Restart(1, false, faults), false, []))
  {
    var p := Live(d0, OpRenameNamespace, src, dst, false, faults, false);
    assert Prefix(d0, p, 1) == d0.(journal := Some(Journal(OpRenameNamespace, src, dst, false)));
  }

  /**
   * What a rollback restores, exactly: the registry unless it moved an unregistered
   * project, the grants unless some named the target, the databases unless the target had
   * a stray catalog or index.
   */
  lemma RolledBackIsOld(e: Disk, d0: Disk, op: Op, src: Key, dst: Key, cleaner: bool)
    requires Admitted(d0, op, src, dst) && RolledBack(e, d0, op, src, dst, cleaner)
    ensures e.registry == d0.registry <==> op != OpMove || HasProject(d0.registry, src)
    ensures cleaner ==>
              (e.grants == d0.grants <==> forall store: Store, g :: g in d0.grants.Of(store) ==> !NamedBy(op, g, dst))
    ensures op != OpRenameNamespace ==>
              (e.siblings == d0.siblings <==> (dst, CatalogDb) !in d0.siblings && (dst, IndexDb) !in d0.siblings)
    ensures op == OpRenameNamespace ==> e.siblings == d0.siblings
    ensures e.nsDirs == d0.nsDirs && e.repos == d0.repos
    ensures cleaner ==> GrantsArrived(e.grants, d0.grants, op, dst, src)
    ensures op == OpMove ==>
              forall ns, p :: (ns in e.registry && p in e.registry[ns]) <==>
                              Key(ns, p) == src || (ns in d0.registry && p in d0.registry[ns])
  {
    if cleaner {
      RegrantedArrived(e.grants.users, d0.grants.users, op, dst, src);
      RegrantedArrived(e.grants.oauth, d0.grants.oauth, op, dst, src);
    }
    hide ScopesArrived;
    RegrantIdle(op, d0.grants.users, dst, src);
    RegrantIdle(op, d0.grants.oauth, dst, src);
    if HasProject(d0.registry, src) {
      assert d0.registry[src.ns] + {src.project} == d0.registry[src.ns];
      assert Added(d0.registry, src) == d0.registry;
    } else {
      assert HasProject(Added(d0.registry, src), src);
    }
    hide Regranted, Added;
    assert d0.grants.users == d0.grants.Of(Users) && d0.grants.oauth == d0.grants.Of(OAuth);
  }

  // ---------------------------------------- the operation after a stuck rename

  /** The project renamed but never re-keyed: at its new place, listed nowhere, its grants under the old name. */
  ghost predicate LeftBehind(d: Disk, before: Disk, src: Key, dst: Key) {
    && src !in d.repos && dst in d.repos
    && !HasProject(d.registry, src) && !HasProject(d.registry, dst)
    && (forall store: Store, g :: g in before.grants.Of(store) && NamedBy(OpRenameProject, g, src) ==> g in d.grants.Of(store))
  }

  /**
   * The next operation overwrites the journal of a stuck rename. It resolves as ever by
   * itself, but nothing will finish the rename any more: its project stays unlisted and
   * its grants stay with the old name, through any crashes and recoveries.
   */
  lemma NextOperationForgets(d0: Disk, src1: Key, dst1: Key, d1: Disk, op: Op, src: Key, dst: Key, safe: set<Kind>,
                             live: Restart, renameFails: bool, restarts: seq<Restart>)
    requires Admitted(d0, OpRenameProject, src1, dst1) && Unlisted(d0, OpRenameProject, src1)
    requires Moved(d1, d0, OpRenameProject, src1, dst1, safe) && Names(d1.journal, OpRenameProject, src1, dst1)
    requires op != OpRenameNamespace && {src, dst} !! {src1, dst1} && Admitted(d1, op, src, dst) && live.cut > 0
    ensures var d := Crashed(d1, op, src, dst, live, renameFails, restarts);
            && (d.journal == None || Names(d.journal, op, src, dst))
            && !Names(d.journal, OpRenameProject, src1, dst1)
            && LeftBehind(d, d1, src1, dst1)
  {
    var d := Crashed(d1, op, src, dst, live, renameFails, restarts);
    CrashedStage(d1, op, src, dst, {}, live, renameFails, restarts);
    assert LeftBehind(d1, d1, src1, dst1);
    hide Crashed, Moved, Before, Admitted;
    if Before(d, d1, op, src, dst) {
      BeforeSpares(d, d1, op, src, dst, src1, dst1);
    } else {
      MovedSpares(d, d1, op, src, dst, src1, dst1);
    }
  }

  lemma GrantsSpare(gs: Grants, gs0: Grants, op: Op, src: Key, dst: Key, other: Key, store: Store, g: Grant)
    requires op != OpRenameNamespace && other != src && RegrantedSome(gs, gs0, op, src, dst)
    requires g in gs0.Of(store) && NamedBy(OpRenameProject, g, other)
    ensures g in gs.Of(store)
  {
    assert Regrant(op, g, src, dst) == g;
  }

  lemma BeforeSpares(d: Disk, d1: Disk, op: Op, src: Key, dst: Key, src1: Key, dst1: Key)
    requires op != OpRenameNamespace && {src, dst} !! {src1, dst1}
    requires Before(d, d1, op, src, dst) && LeftBehind(d1, d1, src1, dst1)
    ensures LeftBehind(d, d1, src1, dst1)
  {
    assert {src, dst} * {src1, dst1} == {};
    assert src1 != dst && src1 != src && dst1 != src;
    forall store: Store, g | g in d1.grants.Of(store) && NamedBy(OpRenameProject, g, src1) ensures g in d.grants.Of(store) {
      GrantsSpare(d.grants, d1.grants, op, dst, src, src1, store, g);
    }
    hide Regranted, NamedBy, RegrantedSome;
  }

  lemma MovedSpares(d: Disk, d1: Disk, op: Op, src: Key, dst: Key, src1: Key, dst1: Key)
    requires op != OpRenameNamespace && {src, dst} !! {src1, dst1}
    requires Moved(d, d1, op, src, dst, {}) && LeftBehind(d1, d1, src1, dst1)
    ensures LeftBehind(d, d1, src1, dst1)
  {
    assert {src, dst} * {src1, dst1} == {};
    assert src1 != dst && src1 != src && dst1 != src && dst1 != dst;
    forall store: Store, g | g in d1.grants.Of(store) && NamedBy(OpRenameProject, g, src1) ensures g in d.grants.Of(store) {
      GrantsSpare(d.grants, d1.grants, op, src, dst, src1, store, g);
    }
    hide Regranted, NamedBy, RegrantedSome, SiblingsMoved;
  }

  /** Such a rename: a project directory in a managed namespace whose record does not list it. */
  lemma UnlistedHappens(faults: Faults, cleaner: bool)
    ensures var src, dst := Key("team", "notes"), Key("team", "journal");
            var d0 := Disk({"team"}, {src}, {}, map["team" := {}], Grants({}, {}), None);
            && Admitted(d0, OpRenameProject, src, dst) && Unlisted(d0, OpRenameProject, src)
            && Run(d0, Live(d0, OpRenameProject, src, dst, cleaner, faults, false)).journal.Some?
  {
    var src, dst := Key("team", "notes"), Key("team", "journal");
    var d0 := Disk({"team"}, {src}, {}, map["team" := {}], Grants({}, {}), None);
    LiveRuns(d0, OpRenameProject, src, dst, cleaner, faults, false, {});
  }
}
