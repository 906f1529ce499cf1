/**
 * Whole runs of the write/commit protocol: every state reached by successful file
 * operations, background commits, crashes and revivals keeps the invariant.
 */
module ProtocolRuns {
  import opened Wrappers
  import opened GitTree
  import opened Protocol
  import DL = DeletedLog

  // ------------------------------------------------------------------ commits

  lemma ViewAppend(h: seq<Commit>, c: Commit)
    ensures View(h + [c]) == View(h) + [DL.Commit(Flat(c.tree), c.meta)]
  {
  }

  lemma CleanCommitOk(m: map<Path, Blob>, e: WalEntry, root: bool)
    requires PrefixFree(m) && EntryClean(m, e)
    requires if root then m == map[] else ApplyEntry(m, e) != m
    ensures DL.CommitOk(m, OpMetaForEntry(e), ApplyEntry(m, e), root)
  {
    CleanEntryEffect(m, e);
    if e.WalDelete? && e.path !in m {
      assert m - {e.path} == m;
    }
  }

  lemma ViewLength(hist: seq<Commit>)
    ensures |View(hist)| == |hist|
  {
    hide Flat;
  }

  lemma ViewAt(h: seq<Commit>, k: nat)
    requires k < |h|
    ensures |View(h)| == |h| && View(h)[k].files == Flat(h[k].tree) && View(h)[k].meta == h[k].meta
  {
    hide Flat;
  }

  lemma ChangedTreeCommitOk(base: Tree, e: WalEntry, root: bool)
    requires Canonical(base) && PrefixFree(Flat(base)) && EntryClean(Flat(base), e)
    requires if root then base == [] else BuildTree(base, e) != base
    ensures ValidEntry(e) && DL.CommitOk(Flat(base), OpMetaForEntry(e), Flat(BuildTree(base, e)), root)
  {
    BuildTreeFlat(base, e);
    if !root && Flat(BuildTree(base, e)) == Flat(base) {
      FlatDetermines(BuildTree(base, e), base);
    }
    CleanCommitOk(Flat(base), e, root);
  }

  /** A commit that changes the tree extends the history properly. */
  lemma {:induction false} NewCommitHistory(hist: seq<Commit>, deleted: DL.Records, base: Tree, e: WalEntry, c: Commit)
    requires HistoryInv(hist, deleted)
    requires Canonical(base) && ValidEntry(e) && base == if hist == [] then [] else hist[|hist| - 1].tree
    requires PrefixFree(Flat(base)) && EntryClean(Flat(base), e)
    requires hist == [] || BuildTree(base, e) != base
    requires c == Commit(BuildTree(base, e), OpMetaForEntry(e))
    ensures HistoryInv(hist + [c], DL.Hook(deleted, c.meta, |hist|))
  {
    hide DL.CommitOk, DL.HistoryOk, DL.RecordsOk, Flat, BuildTree, EntryClean, PrefixFree, Canonical;
    BuildTreeFlat(base, e);
    ChangedTreeCommitOk(base, e, hist == []);
    FlatOfNothing();
    StepsExtend(hist, c);
    hide CommitStepOk, View;
    ViewAppend(hist, c);
    StepsAreHistory(hist + [c]);
    ViewLength(hist);
    DL.HookKeepsRecords(View(hist), DL.Commit(Flat(c.tree), c.meta), deleted);
  }

  lemma StepsExtend(hist: seq<Commit>, c: Commit)
    requires forall k :: 0 <= k < |hist| ==> CommitStepOk(hist, k)
    requires Canonical(c.tree)
    requires DL.CommitOk(if hist == [] then map[] else Flat(hist[|hist| - 1].tree), c.meta, Flat(c.tree), hist == [])
    ensures forall k :: 0 <= k < |hist + [c]| ==> CommitStepOk(hist + [c], k)
  {
    hide DL.CommitOk, Flat, Canonical;
    var h := hist + [c];
    forall k | 0 <= k < |h| ensures CommitStepOk(h, k) {
      if k < |hist| {
        assert CommitStepOk(hist, k);
      }
    }
  }

  lemma FlatOfNothing()
    ensures Flat([]) == map[]
  {
  }

  /** Commit by commit, the viewed history is one the deleted log can rely on. */
  lemma {:induction false} StepsAreHistory(h: seq<Commit>)
    requires forall k :: 0 <= k < |h| ==> CommitStepOk(h, k)
    ensures DL.HistoryOk(View(h))
  {
    hide DL.CommitOk, Flat, Canonical;
    ViewLength(h);
    if h != [] {
      var n := |h| - 1;
      var front := h[..n];
      forall k | 0 <= k < n ensures CommitStepOk(front, k) {
        assert CommitStepOk(h, k);
      }
      StepsAreHistory(front);
      assert h == front + [h[n]];
      ViewAppend(front, h[n]);
      ViewLength(front);
      assert View(h)[..n] == View(front);
      assert CommitStepOk(h, n);
      ViewAt(h, n);
      if n > 0 {
        ViewAt(h, n - 1);
      }
      assert DL.LastCommitOk(View(h));
    }
  }

  /** Committing the same entry again builds the tree HEAD already has. */
  lemma CommittedTreeIsFixed(base: Tree, e: WalEntry)
    requires Canonical(base) && ValidEntry(e) && (e.WalMove? ==> !Related(e.src, e.path))
    ensures var tree := BuildTree(base, e);
            BuildTree(tree, e) == tree && ApplyEntry(Flat(tree), e) == Flat(tree)
  {
    var tree := BuildTree(base, e);
    BuildTreeFlat(base, e);
    BuildTreeFlat(tree, e);
    EntryIdempotent(Flat(base), e);
    FlatDetermines(BuildTree(tree, e), tree);
  }

  /** Redoing a landed commit after a crash takes the no-change exit: no second commit, nothing else touched. */
  lemma RedoIsSilent(s: State)
    requires Inv(s) && s.landed
    ensures forall i :: 0 <= i < |s.wal| ==> ValidEntry(s.wal[i])
    ensures CommitNext(s) == s
  {
    WalValid(s);
  }

  lemma CommitKeeps(s: State)
    requires Inv(s)
    ensures forall i :: 0 <= i < |s.wal| ==> ValidEntry(s.wal[i])
    ensures Inv(CommitNext(s)) && Inv(CommitCrashNext(s))
    ensures s.wal != [] ==> CommitNext(s).landed
  {
    WalValid(s);
    if s.landed {
      RedoIsSilent(s);
    } else if s.wal != [] {
      CommitFreshKeeps(s);
    }
  }

  lemma CommitFreshKeeps(s: State)
    requires Inv(s) && !s.landed && s.wal != []
    requires forall i :: 0 <= i < |s.wal| ==> ValidEntry(s.wal[i])
    ensures Inv(CommitNext(s)) && Inv(CommitCrashNext(s))
  {
    hide HistoryInv, LogInv, LandedInv, Flat, ApplyEntry, BuildTree, EntryClean, DL.Hook, EntryPaths;
    var e, base, t := s.wal[0], HeadTree(s), CommitNext(s);
    HeadCanonical(s);
    LogCommit(HeadFiles(s), Pending(s), s.files);
    if s.history == [] || BuildTree(base, e) != base {
      var c := Commit(BuildTree(base, e), OpMetaForEntry(e));
      NewCommitHistory(s.history, s.deleted - s.lagging, base, e, c);
      HookLags(s.deleted, s.lagging, e, |s.history|);
      FewerRecords(t.history, DL.Hook(s.deleted - s.lagging, c.meta, |s.history|), s.deleted - (s.lagging + EntryPaths(e)));
    }
    CommitFreshLands(s, t, e, base);
    CommitFreshLands(s, CommitCrashNext(s), e, base);
  }

  /** The hook settles an entry's own paths and no others. */
  lemma HookLags(recs: DL.Records, lagging: set<Path>, e: WalEntry, n: nat)
    ensures DL.Hook(recs, OpMetaForEntry(e), n) - (lagging - EntryPaths(e)) == DL.Hook(recs - lagging, OpMetaForEntry(e), n)
    ensures forall p :: p in recs - (lagging + EntryPaths(e)) ==>
              p in DL.Hook(recs - lagging, OpMetaForEntry(e), n) && DL.Hook(recs - lagging, OpMetaForEntry(e), n)[p] == recs[p]
  {
  }

  lemma FewerRecords(h: seq<Commit>, recs: DL.Records, fewer: DL.Records)
    requires HistoryInv(h, recs) && forall p :: p in fewer ==> p in recs && recs[p] == fewer[p]
    ensures HistoryInv(h, fewer)
  {
    hide CommitStepOk, View, DL.Deletion;
  }

  lemma HeadCanonical(s: State)
    requires HistoryInv(s.history, s.deleted - s.lagging)
    ensures Canonical(HeadTree(s))
  {
    if s.history != [] {
      assert CommitStepOk(s.history, |s.history| - 1);
    }
  }

  lemma CommitFreshLands(s: State, t: State, e: WalEntry, base: Tree)
    requires Canonical(base) && base == HeadTree(s) && !s.landed && s.wal != [] && e == s.wal[0]
    requires ValidEntry(e) && (e.WalMove? ==> !Related(e.src, e.path))
    requires t.wal == s.wal && t.landed && t.history != [] && HeadTree(t) == BuildTree(base, e)
    ensures LandedInv(HeadTree(t), t.wal[0])
    ensures HeadFiles(t) == ApplyEntry(HeadFiles(s), e)
    ensures Pending(t) == Pending(s)[1..]
  {
    BuildTreeFlat(base, e);
    CommittedTreeIsFixed(base, e);
  }

  lemma LogCommit(head: map<Path, Blob>, pending: seq<WalEntry>, files: map<Path, Blob>)
    requires LogInv(head, pending, files) && pending != []
    ensures PrefixFree(head) && EntryClean(head, pending[0]) && ValidEntry(pending[0])
    ensures pending[0].WalMove? ==> !Related(pending[0].src, pending[0].path)
    ensures LogInv(ApplyEntry(head, pending[0]), pending[1..], files)
  {
    CleanEntryEffect(head, pending[0]);
  }

  lemma RemoveKeeps(s: State)
    requires Inv(s)
    ensures Inv(RemoveNext(s))
  {
    if s.landed && s.wal != [] {
      assert Pending(RemoveNext(s)) == Pending(s);
    }
  }

  // -------------------------------------------------------------------- steps

  datatype Step =
    | Write(path: Path, ifMatch: Option<Etag>, requireExisting: bool, transform: Blob -> Option<Blob>, fault: Fault)
    | Delete(path: Path, ifMatch: Option<Etag>, fault: Fault)
    | Move(src: Path, path: Path, ifMatch: Option<Etag>, fault: Fault)
    | CommitOldest
    | CommitThenCrash
    | RemoveOldest
    | Revive(path: Path, fromCommit: Option<nat>, fault: Fault)
    | RebuildDeletedLog(depth: int)

  ghost predicate Rebuilt(s: State, t: State, depth: int) {
    && t == s.(deleted := t.deleted, lagging := {})
    && DL.IsWalk(View(s.history), DL.WindowStart(View(s.history), depth), t.deleted)
  }

  /** The transform of a whole-file write. */
  function Constant(c: Blob): Blob -> Option<Blob> {
    _ => Some(c)
  }

  /** Revival re-creates the last content as an ordinary write and drops the record; a diverged record rebuilds the log. */
  ghost predicate Revived(s: State, p: Path, fromCommit: Option<nat>, fault: Fault, t: State) {
    match ReviveContent(s, p, fromCommit)
    case Some(c) =>
      var w := WriteNext(s, p, None, false, Constant(c), fault);
      t == if WriteOutcome(s, p, None, false, Constant(c), fault).Done? then w.(deleted := w.deleted - {p}) else w
    case None =>
      if ResolveDeletion(s, p, fromCommit).None? then t == s
      else exists depth :: Rebuilt(s, t, depth)
  }

  /** What an operation answers; the worker's steps answer nothing. */
  ghost function StepOutcome(s: State, step: Step): Option<Outcome> {
    match step
    case Write(p, m, req, f, fault) => Some(WriteOutcome(s, p, m, req, f, fault))
    case Delete(p, m, fault) => Some(DeleteOutcome(s, p, m, fault))
    case Move(src, p, m, fault) => Some(MoveOutcome(s, src, p, m, fault))
    case Revive(p, from, fault) =>
      if ReviveContent(s, p, from).None? then None
      else Some(WriteOutcome(s, p, None, false, Constant(ReviveContent(s, p, from).value), fault))
    case _ => None
  }

  /**
   * One step. Operations that fail halfway are outside a run: the agreement they leave
   * has its own theorems, from `UnloggedWriteAgreement` to `UnloggedMoveDisagrees`.
   */
  ghost predicate Next(s: State, step: Step, t: State) {
    && (StepOutcome(s, step).Some? ==> !Partial(StepOutcome(s, step).value))
    && match step
       case Write(p, m, req, f, fault) => ValidPath(p) && t == WriteNext(s, p, m, req, f, fault)
       case Delete(p, m, fault) => ValidPath(p) && t == DeleteNext(s, p, m, fault)
       case Move(src, p, m, fault) => ValidPath(src) && ValidPath(p) && t == MoveNext(s, src, p, m, fault)
       case CommitOldest => (forall i :: 0 <= i < |s.wal| ==> ValidEntry(s.wal[i])) && t == CommitNext(s)
       case CommitThenCrash => (forall i :: 0 <= i < |s.wal| ==> ValidEntry(s.wal[i])) && t == CommitCrashNext(s)
       case RemoveOldest => t == RemoveNext(s)
       case Revive(p, from, fault) => ValidPath(p) && Revived(s, p, from, fault, t)
       case RebuildDeletedLog(depth) => Rebuilt(s, t, depth)
  }

  lemma RebuiltKeeps(s: State, t: State, depth: int)
    requires Inv(s) && Rebuilt(s, t, depth)
    ensures Inv(t)
  {
    hide DL.RecordsOk, DL.HistoryOk, DL.IsWalk, LogInv, View;
    DL.WalkRecordsOk(View(s.history), DL.WindowStart(View(s.history), depth), t.deleted);
    assert t.deleted - {} == t.deleted;
  }

  lemma DropRecordKeeps(s: State, p: Path)
    requires Inv(s)
    ensures Inv(s.(deleted := s.deleted - {p}))
  {
    hide LogInv, LandedInv, CommitStepOk, View, DL.Deletion;
    FewerRecords(s.history, s.deleted - s.lagging, s.deleted - {p} - s.lagging);
  }

  lemma RevivedKeeps(s: State, p: Path, fromCommit: Option<nat>, fault: Fault, t: State)
    requires Inv(s) && ValidPath(p) && Revived(s, p, fromCommit, fault, t)
    requires ReviveContent(s, p, fromCommit).Some? ==>
               !Partial(WriteOutcome(s, p, None, false, Constant(ReviveContent(s, p, fromCommit).value), fault))
    ensures Inv(t)
  {
    match ReviveContent(s, p, fromCommit)
    case Some(c) =>
      WriteKeeps(s, p, None, false, Constant(c), fault);
      DropRecordKeeps(WriteNext(s, p, None, false, Constant(c), fault), p);
    case None =>
      if ResolveDeletion(s, p, fromCommit).Some? {
        var depth :| Rebuilt(s, t, depth);
        RebuiltKeeps(s, t, depth);
      }
  }

  /** Every step keeps the invariant. */
  lemma NextKeeps(s: State, step: Step, t: State)
    requires Inv(s) && Next(s, step, t)
    ensures Inv(t)
  {
    match step
    case Write(p, m, req, f, fault) => WriteKeeps(s, p, m, req, f, fault);
    case Delete(p, m, fault) => DeleteKeeps(s, p, m, fault);
    case Move(src, p, m, fault) => MoveKeeps(s, src, p, m, fault);
    case CommitOldest => CommitKeeps(s);
    case CommitThenCrash => CommitKeeps(s);
    case RemoveOldest => RemoveKeeps(s);
    case Revive(p, from, fault) => RevivedKeeps(s, p, from, fault, t);
    case RebuildDeletedLog(depth) => RebuiltKeeps(s, t, depth);
  }

  // --------------------------------------------------------------------- runs

  /** A run of a project from its creation. */
  ghost predicate Run(states: seq<State>, steps: seq<Step>) {
    && |states| == |steps| + 1
    && states[0] == EMPTY_PROJECT
    && forall i :: 0 <= i < |steps| ==> Next(states[i], steps[i], states[i + 1])
  }

  lemma RunStep(states: seq<State>, steps: seq<Step>, i: nat)
    requires Run(states, steps) && i + 1 < |states|
    ensures |states| == |steps| + 1 && Next(states[i], steps[i], states[i + 1])
  {
    hide Next;
  }

  lemma RunStart(states: seq<State>, steps: seq<Step>)
    requires Run(states, steps)
    ensures |states| == |steps| + 1 && states[0] == EMPTY_PROJECT && states[0].lagging == {}
  {
  }

  lemma EmptyInv()
    ensures Inv(EMPTY_PROJECT)
  {
    assert View([]) == [];
    assert Etags(map[]) == map[];
    assert EMPTY_PROJECT.deleted - {} == map[];
  }

  lemma {:induction false} RunInv(states: seq<State>, steps: seq<Step>, i: nat)
    requires Run(states, steps) && i < |states|
    ensures Inv(states[i])
  {
    hide *;
    RunStart(states, steps);
    if i == 0 {
      EmptyInv();
    } else {
      RunStep(states, steps, i - 1);
      RunInv(states, steps, i - 1);
      NextKeeps(states[i - 1], steps[i - 1], states[i]);
    }
  }

  /**
   * At every moment of every run, HEAD plus the pending log is exactly the managed
   * working tree; once the log is drained, HEAD alone is.
   */
  lemma HeadCatchesUp(states: seq<State>, steps: seq<Step>, i: nat)
    requires Run(states, steps) && i < |states|
    ensures Agreement(states[i]) && Managed(states[i]) == states[i].files
    ensures states[i].wal == [] ==> HeadFiles(states[i]) == states[i].files
  {
    RunInv(states, steps, i);
    InvAgreement(states[i]);
  }

  lemma HistoryGrowsStep(s: State, step: Step, t: State)
    requires Next(s, step, t)
    ensures s.history <= t.history
  {
  }

  /** History only grows. */
  lemma {:induction false} HistoryGrows(states: seq<State>, steps: seq<Step>, i: nat, j: nat)
    requires Run(states, steps) && i <= j < |states|
    ensures states[i].history <= states[j].history
    decreases j
  {
    hide *;
    if i < j {
      RunStep(states, steps, j - 1);
      HistoryGrows(states, steps, i, j - 1);
      HistoryGrowsStep(states[j - 1], steps[j - 1], states[j]);
    }
  }

  /**
   * Commit `k` deleted `p`: the commit found by name is `k`, its parent holds the path
   * and no tree since does, so the content read there is the last ever committed. The one
   * exception is a first-ever commit that was a delete, which has no parent to read.
   */
  ghost predicate NamesDeletion(hist: seq<Commit>, p: Path, k: nat) {
    && k < |hist|
    && (k == 0 ==> hist[0].meta == DL.OpDelete(p))
    && (DL.ContentAtDeletionParent(View(hist), k, p).Some? <==> k > 0)
    && (k > 0 ==>
          && DL.DeletionCommit(View(hist), p) == Some(k)
          && p in Flat(hist[k - 1].tree)
          && DL.ContentAtDeletionParent(View(hist), k, p) == Some(Flat(hist[k - 1].tree)[p])
          && forall j :: k <= j < |hist| ==> p !in Flat(hist[j].tree))
  }

  lemma RecordNamesDeletion(hist: seq<Commit>, deleted: DL.Records, p: Path)
    requires HistoryInv(hist, deleted) && p in deleted
    ensures NamesDeletion(hist, p, deleted[p])
  {
    hide DL.HistoryOk, DL.DeletionCommit, Flat, Canonical, View;
    var k, h := deleted[p], View(hist);
    ViewLength(hist);
    assert DL.Deletion(h, p, k);
    DL.RecordRevivesLastContent(h, p, k);
    ViewAt(hist, 0);
    if k > 0 {
      ViewAt(hist, k - 1);
      forall j | k <= j < |hist| ensures p !in Flat(hist[j].tree) {
        ViewAt(hist, j);
        assert p !in h[j].files;
      }
    }
  }

  lemma InvHistory(s: State)
    requires Inv(s)
    ensures HistoryInv(s.history, s.deleted - s.lagging)
  {
  }

  /** At every moment of every run, each recorded path that does not lag names its own deletion. */
  lemma EveryRecordNamesItsDeletion(states: seq<State>, steps: seq<Step>, i: nat, p: Path)
    requires Run(states, steps) && i < |states| && p in states[i].deleted && p !in states[i].lagging
    ensures NamesDeletion(states[i].history, p, states[i].deleted[p])
  {
    hide *;
    RunInv(states, steps, i);
    InvHistory(states[i]);
    RecordNamesDeletion(states[i].history, states[i].deleted - states[i].lagging, p);
  }

  /** Without a crash between a commit and its record update, nothing lags. */
  lemma {:induction false} NothingLags(states: seq<State>, steps: seq<Step>, i: nat)
    requires Run(states, steps) && i < |states|
    requires forall k :: 0 <= k < i ==> !steps[k].CommitThenCrash?
    ensures states[i].lagging == {}
  {
    hide *;
    if i == 0 {
      RunStart(states, steps);
    } else {
      RunStep(states, steps, i - 1);
      NothingLags(states, steps, i - 1);
      StepLags(states[i - 1], steps[i - 1], states[i]);
    }
  }

  lemma StepLags(s: State, step: Step, t: State)
    requires Next(s, step, t) && !step.CommitThenCrash?
    ensures t.lagging <= s.lagging
  {
  }

  /** A lost record update does harm exactly when the commit re-creates a path that has a record. */
  lemma LostUpdateHarm(hist: seq<Commit>, recs: DL.Records, c: Commit)
    requires HistoryInv(hist, recs) && CommitStepOk(hist + [c], |hist|)
    ensures DL.RecordsOk(View(hist + [c]), recs) <==> c.meta.OpDelete? || c.meta.path !in recs
  {
    var n := |hist|;
    var g, d := View(hist), DL.Commit(Flat(c.tree), c.meta);
    ViewAppend(hist, c);
    ViewLength(hist);
    if n > 0 { ViewAt(hist, n - 1); }
    assert DL.CommitOk(if n == 0 then map[] else Flat(hist[n - 1].tree), c.meta, d.files, n == 0);
    hide Flat, View, Canonical;
    if !c.meta.OpDelete? && c.meta.path in recs {
      assert c.meta.path in DL.After(g + [d], n);
    } else {
      forall p | p in recs ensures DL.Deletion(g + [d], p, recs[p]) {
        assert DL.Deletion(g, p, recs[p]);
        assert p !in DL.After(g, n - 1);
        DL.DeletionSurvives(g, d, p, recs[p]);
      }
    }
  }

  lemma RevivedStep(s: State, p: Path, t: State)
    requires Revived(s, p, None, NoFault, t) && p in s.deleted && !Clash(s.files, p)
    requires s.deleted[p] > 0 && NamesDeletion(s.history, p, s.deleted[p])
    ensures t.files == s.files[p := Flat(s.history[s.deleted[p] - 1].tree)[p]] && p !in t.deleted
  {
    hide Flat, View;
  }

  /**
   * In every run, reviving a recorded path puts the last content committed before the
   * deletion back as an ordinary write and takes the path off the deleted list.
   */
  lemma RevivalRestoresLastContent(states: seq<State>, steps: seq<Step>, i: nat, p: Path)
    requires Run(states, steps) && i + 1 < |states| && steps[i] == Revive(p, None, NoFault)
    requires p in states[i].deleted && p !in states[i].lagging && states[i].deleted[p] > 0 && !Clash(states[i].files, p)
    ensures var k := states[i].deleted[p];
            && k < |states[i].history| && p in Flat(states[i].history[k - 1].tree)
            && states[i + 1].files == states[i].files[p := Flat(states[i].history[k - 1].tree)[p]]
            && p !in states[i + 1].deleted
  {
    assert Next(states[i], steps[i], states[i + 1]);
    hide Flat, View, Run;
    EveryRecordNamesItsDeletion(states, steps, i, p);
    RevivedStep(states[i], p, states[i + 1]);
  }

  // ------------------------------------------------------------ conditional edits

  function Lookup(files: map<Path, Blob>, p: Path): Option<Blob> {
    if p in files then Some(files[p]) else None
  }

  /** A client read the file at some moment and writes what it made of it, or deletes it, under the etag of what it read. */
  datatype Edit =
    | Change(readAt: nat, change: Blob -> Blob, fault: Fault)
    | Removal(readAt: nat, fault: Fault)

  function EditStep(states: seq<State>, p: Path, edit: Edit): Step
    requires edit.readAt < |states|
  {
    var read := Current(states[edit.readAt].files, p);
    match edit
    case Change(_, change, fault) => Write(p, Some(Sha(read)), false, Constant(change(read)), fault)
    case Removal(_, fault) => Delete(p, Some(Sha(read)), fault)
  }

  /** Only conditional edits change the file; anything may happen to other files. */
  ghost predicate ConditionalOnly(states: seq<State>, steps: seq<Step>, p: Path, edits: map<nat, Edit>)
    requires |states| == |steps| + 1
  {
    forall j :: 0 <= j < |steps| ==> EditedOrStill(states, steps, p, edits, j)
  }

  ghost predicate EditedOrStill(states: seq<State>, steps: seq<Step>, p: Path, edits: map<nat, Edit>, j: nat)
    requires |states| == |steps| + 1 && j < |steps|
  {
    if j in edits then edits[j].readAt <= j && steps[j] == EditStep(states, p, edits[j])
    else Lookup(states[j + 1].files, p) == Lookup(states[j].files, p)
  }

  ghost predicate Accepted(s: State, step: Step) {
    StepOutcome(s, step).Some? && StepOutcome(s, step).value.Done?
  }

  /** All accepted edits before moment `m`, each applied to the result of the ones before it. */
  ghost function Composed(states: seq<State>, steps: seq<Step>, edits: map<nat, Edit>, m: nat): Option<Blob>
    requires |states| == |steps| + 1 && m <= |steps|
  {
    if m == 0 then None
    else
      var before := Composed(states, steps, edits, m - 1);
      if m - 1 in edits && Accepted(states[m - 1], steps[m - 1]) then
        match edits[m - 1]
        case Change(_, change, _) => Some(change(if before.Some? then before.value else ""))
        case Removal(_, _) => None
      else before
  }

  /** An edit is accepted only on exactly the bytes its client had read; refused, it leaves the file alone. */
  lemma EditActsOnWhatItRead(states: seq<State>, steps: seq<Step>, p: Path, edit: Edit, j: nat)
    requires Run(states, steps) && j < |steps| && edit.readAt <= j && steps[j] == EditStep(states, p, edit)
    ensures Accepted(states[j], steps[j]) ==>
              && Current(states[j].files, p) == Current(states[edit.readAt].files, p)
              && Lookup(states[j + 1].files, p) ==
                 match edit
                 case Change(_, change, _) => Some(change(Current(states[edit.readAt].files, p)))
                 case Removal(_, _) => None
    ensures !Accepted(states[j], steps[j]) ==> states[j + 1] == states[j]
    ensures Current(states[j].files, p) != Current(states[edit.readAt].files, p) ==> !Accepted(states[j], steps[j])
  {
    RunStep(states, steps, j);
  }

  /**
   * No lost update between clients: however reads, writes and deletes interleave, the file is
   * always the accepted edits composed in order, each made from the content it replaced.
   */
  lemma {:induction false} AcceptedEditsCompose(states: seq<State>, steps: seq<Step>, p: Path, edits: map<nat, Edit>, m: nat)
    requires Run(states, steps) && ConditionalOnly(states, steps, p, edits) && m <= |steps|
    ensures Lookup(states[m].files, p) == Composed(states, steps, edits, m)
    decreases m
  {
    if m == 0 {
      RunStart(states, steps);
    } else {
      var j := m - 1;
      assert EditedOrStill(states, steps, p, edits, j);
      hide ConditionalOnly;
      AcceptedEditsCompose(states, steps, p, edits, j);
      if j in edits { EditActsOnWhatItRead(states, steps, p, edits[j], j); }
      hide Run, Accepted, EditStep;
    }
  }
}
