/**
 * The deleted-file records over whole runs: not only is every record true, every
 * deletion gets one. Between repairs the newest commit that names a path decides
 * its record, and in a run without crash, repair or revival the records are those
 * of the whole history.
 */
module RecordRuns {
  import opened Wrappers
  import opened GitTree
  import opened Protocol
  import opened ProtocolRuns
  import DL = DeletedLog

  /** A commit's trailer names the path it wrote or deleted, and both paths of a move. */
  predicate Names(m: DL.Meta, p: Path) {
    p == m.path || (m.OpMove? && p == m.from)
  }

  /** The newest commit from `lo` on that names `p` is `k`. */
  ghost predicate NewestNaming(hist: seq<Commit>, lo: nat, k: nat, p: Path) {
    && lo <= k < |hist| && Names(hist[k].meta, p)
    && forall j :: k < j < |hist| ==> !Names(hist[j].meta, p)
  }

  ghost predicate Unnamed(hist: seq<Commit>, lo: nat, p: Path) {
    forall j :: lo <= j < |hist| ==> !Names(hist[j].meta, p)
  }

  /** Steps other than commits that set the record of `p`: repairs, and its own revival. */
  ghost predicate Resets(s: State, step: Step, p: Path) {
    match step
    case RebuildDeletedLog(_) => true
    case Revive(q, from, _) => q == p || ReviveContent(s, q, from).None?
    case _ => false
  }

  /** What one step does to the record of a path. */
  lemma RecordStep(s: State, step: Step, t: State, p: Path)
    requires Next(s, step, t) && !Resets(s, step, p)
    ensures s.history <= t.history && |t.history| <= |s.history| + 1
    ensures t.history == s.history ==>
              DL.Lookup(t.deleted, p) == DL.Lookup(s.deleted, p) && (p in t.lagging <==> p in s.lagging)
    ensures |t.history| > |s.history| ==>
              var m := t.history[|s.history|].meta;
              if !Names(m, p) then DL.Lookup(t.deleted, p) == DL.Lookup(s.deleted, p) && (p in t.lagging <==> p in s.lagging)
              else p in t.lagging || DL.Lookup(t.deleted, p) == if m == DL.OpDelete(p) then Some(|s.history|) else None
  {
    hide Flat, BuildTree, View, DL.DeletionCommit, ReviveContent, DL.IsWalk, ValidPath;
    if step.CommitOldest? || step.CommitThenCrash? {
      hide Revived, Rebuilt;
      CommitRecords(s, t, step.CommitThenCrash?, p);
    }
  }

  lemma CommitRecords(s: State, t: State, crash: bool, p: Path)
    requires forall i :: 0 <= i < |s.wal| ==> ValidEntry(s.wal[i])
    requires t == if crash then CommitCrashNext(s) else CommitNext(s)
    ensures s.history <= t.history && |t.history| <= |s.history| + 1
    ensures t.history == s.history ==> t.deleted == s.deleted && t.lagging == s.lagging
    ensures |t.history| > |s.history| ==>
              var m := t.history[|s.history|].meta;
              if !Names(m, p) then DL.Lookup(t.deleted, p) == DL.Lookup(s.deleted, p) && (p in t.lagging <==> p in s.lagging)
              else p in t.lagging || DL.Lookup(t.deleted, p) == if m == DL.OpDelete(p) then Some(|s.history|) else None
  {
    hide BuildTree;
  }

  /**
   * Every deletion gets its record, and nothing else does: from any moment on, the record
   * of a path is what the newest commit naming it says, or what it was. Only paths whose
   * update a crash cut off are excepted, until a commit names them again.
   */
  lemma {:induction false} NewestCommitDecides(states: seq<State>, steps: seq<Step>, i: nat, j: nat, p: Path)
    requires Run(states, steps) && i <= j < |states| && p !in states[j].lagging
    requires forall k :: i <= k < j ==> !Resets(states[k], steps[k], p)
    ensures |states[i].history| <= |states[j].history|
    ensures forall k: nat :: NewestNaming(states[j].history, |states[i].history|, k, p) ==>
              DL.Lookup(states[j].deleted, p) == if states[j].history[k].meta == DL.OpDelete(p) then Some(k) else None
    ensures Unnamed(states[j].history, |states[i].history|, p) ==> DL.Lookup(states[j].deleted, p) == DL.Lookup(states[i].deleted, p)
    decreases j
  {
    hide *;
    if i < j {
      var s, t, lo := states[j - 1], states[j], |states[i].history|;
      RunStep(states, steps, j - 1);
      RecordStep(s, steps[j - 1], t, p);
      HistoryGrows(states, steps, i, j - 1);
      if |t.history| > |s.history| && Names(t.history[|s.history|].meta, p) {
        LastOneNames(t.history, lo, p);
      } else {
        NewestCommitDecides(states, steps, i, j - 1, p);
        LastOneDoesNot(s.history, t.history, lo, p);
      }
    } else {
      EmptyStretch(states[i].history, p);
    }
  }

  lemma EmptyStretch(hist: seq<Commit>, p: Path)
    ensures forall k: nat :: !NewestNaming(hist, |hist|, k, p)
  {
  }

  lemma LastOneNames(hist: seq<Commit>, lo: nat, p: Path)
    requires lo < |hist| && Names(hist[|hist| - 1].meta, p)
    ensures forall k: nat :: NewestNaming(hist, lo, k, p) ==> k == |hist| - 1
    ensures !Unnamed(hist, lo, p)
  {
    forall k: nat | NewestNaming(hist, lo, k, p) ensures k == |hist| - 1 {
      assert !(k < |hist| - 1);
    }
  }

  lemma LastOneDoesNot(shorter: seq<Commit>, hist: seq<Commit>, lo: nat, p: Path)
    requires lo <= |shorter| <= |hist| <= |shorter| + 1 && shorter <= hist
    requires |hist| > |shorter| ==> !Names(hist[|shorter|].meta, p)
    ensures forall k: nat :: NewestNaming(hist, lo, k, p) ==> NewestNaming(shorter, lo, k, p) && hist[k] == shorter[k]
    ensures Unnamed(hist, lo, p) ==> Unnamed(shorter, lo, p)
  {
    forall k: nat | NewestNaming(hist, lo, k, p) ensures NewestNaming(shorter, lo, k, p) && hist[k] == shorter[k] {
      assert k < |shorter|;
      forall j | k < j < |shorter| ensures !Names(shorter[j].meta, p) {
        assert hist[j] == shorter[j];
      }
    }
    if Unnamed(hist, lo, p) {
      forall j | lo <= j < |shorter| ensures !Names(shorter[j].meta, p) {
        assert hist[j] == shorter[j];
      }
    }
  }

  // -------------------------------------------------- the log of the whole history

  /** Steps that set records other than by a commit that landed in peace. */
  ghost predicate Undisturbed(states: seq<State>, steps: seq<Step>, i: nat)
    requires |states| == |steps| + 1 && i < |states|
  {
    forall k :: 0 <= k < i ==> !steps[k].RebuildDeletedLog? && !steps[k].Revive?
  }

  lemma HookLogStep(s: State, step: Step, t: State, p: Path)
    requires Next(s, step, t) && !step.RebuildDeletedLog? && !step.Revive?
    requires p !in s.lagging ==> DL.Lookup(s.deleted, p) == DL.Lookup(DL.HookLog(View(s.history)), p)
    ensures p !in t.lagging ==> DL.Lookup(t.deleted, p) == DL.Lookup(DL.HookLog(View(t.history)), p)
  {
    RecordStep(s, step, t, p);
    if t.history != s.history {
      var c := t.history[|s.history|];
      assert t.history == s.history + [c];
      hide Next, Flat;
      ViewAppend(s.history, c);
      ViewLength(s.history);
      HookLogOneMore(View(s.history), DL.Commit(Flat(c.tree), c.meta), p);
    }
  }

  lemma HookLogOneMore(h: DL.History, c: DL.Commit, p: Path)
    ensures DL.Lookup(DL.HookLog(h + [c]), p) ==
            if !Names(c.meta, p) then DL.Lookup(DL.HookLog(h), p)
            else if c.meta == DL.OpDelete(p) then Some(|h|) else None
  {
    assert (h + [c])[..|h|] == h;
  }

  /** Without repairs and revivals the records are those of the whole history, but for paths a crash cut off. */
  lemma {:induction false} RecordsAreHookLog(states: seq<State>, steps: seq<Step>, i: nat, p: Path)
    requires Run(states, steps) && i < |states| && Undisturbed(states, steps, i)
    ensures p !in states[i].lagging ==> DL.Lookup(states[i].deleted, p) == DL.Lookup(DL.HookLog(View(states[i].history)), p)
  {
    if i == 0 {
      RunStart(states, steps);
      assert View([]) == [];
    } else {
      RunStep(states, steps, i - 1);
      hide Run, Next;
      RecordsAreHookLog(states, steps, i - 1, p);
      HookLogStep(states[i - 1], steps[i - 1], states[i], p);
    }
  }

  /** Where no commit was cut off either, the two logs are the same. */
  lemma WholeLogKept(states: seq<State>, steps: seq<Step>, i: nat)
    requires Run(states, steps) && i < |states| && Undisturbed(states, steps, i)
    requires forall k :: 0 <= k < i ==> !steps[k].CommitThenCrash?
    ensures states[i].deleted == DL.HookLog(View(states[i].history))
  {
    NothingLags(states, steps, i);
    hide Run, Undisturbed, DL.Lookup;
    forall p ensures DL.Lookup(states[i].deleted, p) == DL.Lookup(DL.HookLog(View(states[i].history)), p) {
      RecordsAreHookLog(states, steps, i, p);
    }
    DL.LookupDetermines(states[i].deleted, DL.HookLog(View(states[i].history)));
  }

  // ------------------------------------------------------------ repair and revival

  /** A repair leaves exactly the paths whose newest touch in its window deletes them, and nothing lagging. */
  lemma RepairLeaves(s: State, depth: int, t: State, p: Path)
    requires Next(s, RebuildDeletedLog(depth), t)
    ensures t == s.(deleted := t.deleted, lagging := {})
    ensures var h := View(s.history);
            && (p in t.deleted ==> DL.InWindow(h, depth, t.deleted[p]) && DL.LastDeletedAt(h, t.deleted[p], p))
            && forall k: nat :: DL.InWindow(h, depth, k) && DL.LastDeletedAt(h, k, p) ==> DL.Lookup(t.deleted, p) == Some(k)
  {
    DL.WalkSees(View(s.history), depth, t.deleted, p);
  }

  /** A revival that finds content drops that one record, or, refused, none. */
  lemma RevivalLeaves(s: State, p: Path, from: Option<nat>, fault: Fault, t: State)
    requires Next(s, Revive(p, from, fault), t) && ReviveContent(s, p, from).Some?
    ensures t.history == s.history && t.lagging == s.lagging
    ensures t.deleted == if fault.WriteFault? || Clash(s.files, p) then s.deleted else s.deleted - {p}
  {
    hide View;
  }

  /** The commit a revival reads the parent of: the caller's, else the recorded one, else the newest that removed the path. */
  ghost predicate RevivesFrom(s: State, p: Path, from: Option<nat>, k: nat) {
    if from.Some? then k == from.value
    else if p in s.deleted then k == s.deleted[p]
    else RemovedAt(s.history, k, p) && forall j :: k < j < |s.history| ==> !RemovedAt(s.history, j, p)
  }

  ghost predicate RemovedAt(hist: seq<Commit>, k: nat, p: Path) {
    0 < k < |hist| && p in Flat(hist[k - 1].tree) && p !in Flat(hist[k].tree)
  }

  /** That commit's parent holds `c` at the path. */
  ghost predicate HeldBefore(hist: seq<Commit>, k: nat, p: Path, c: Blob) {
    0 < k < |hist| && p in Flat(hist[k - 1].tree) && Flat(hist[k - 1].tree)[p] == c
  }

  /** The model's choice of content is the one so described. */
  lemma RevivalReads(s: State, p: Path, from: Option<nat>, c: Blob)
    ensures ReviveContent(s, p, from) == Some(c) <==> exists k: nat :: RevivesFrom(s, p, from, k) && HeldBefore(s.history, k, p, c)
  {
    hide Flat, View, RemovedAt;
    ViewLength(s.history);
    forall k: nat | 0 < k < |s.history| {
      ViewAt(s.history, k - 1);
    }
    if from.None? && p !in s.deleted {
      NewestRemoval(s.history, p);
    }
    if ResolveDeletion(s, p, from).Some? {
      assert RevivesFrom(s, p, from, ResolveDeletion(s, p, from).value);
    }
  }

  lemma NewestRemoval(hist: seq<Commit>, p: Path)
    ensures forall k: nat :: DL.DeletionCommit(View(hist), p) == Some(k) <==>
              RemovedAt(hist, k, p) && forall j :: k < j < |hist| ==> !RemovedAt(hist, j, p)
  {
    var h := View(hist);
    hide DL.DeletionCommit, View;
    forall k: nat ensures DL.Removes(h, p, k) <==> RemovedAt(hist, k, p) {
      RemovalSeen(hist, k, p);
    }
    ViewLength(hist);
    hide RemovedAt, DL.Removes;
    if k: nat :| RemovedAt(hist, k, p) && forall j :: k < j < |hist| ==> !RemovedAt(hist, j, p) {
      DL.DeletionCommitIs(h, p, k);
    }
    DL.DeletionCommitNewest(h, p);
  }

  lemma RemovalSeen(hist: seq<Commit>, k: nat, p: Path)
    ensures DL.Removes(View(hist), p, k) <==> RemovedAt(hist, k, p)
  {
    hide Flat, View;
    ViewLength(hist);
    if 0 < k < |hist| {
      ViewAt(hist, k - 1);
      ViewAt(hist, k);
    }
  }

  /**
   * A revival from `s` to `t`: with the content found, an ordinary write of it that also
   * drops the record; with none, an answer of divergence that leaves files and log alone.
   */
  ghost predicate RevivePromise(s: State, p: Path, from: Option<nat>, fault: Fault, r: Outcome, t: State) {
    && (forall k: nat, c :: RevivesFrom(s, p, from, k) && HeldBefore(s.history, k, p, c) ==>
          && (r.Done? <==> !fault.WriteFault? && !fault.LogFault? && !Clash(s.files, p))
          && (r.Done? ==>
                t == s.(files := s.files[p := c], catalog := s.catalog[p := Sha(c)], wal := s.wal + [WalWrite(p, c)],
                        deleted := s.deleted - {p})))
    && ((forall k: nat, c :: RevivesFrom(s, p, from, k) ==> !HeldBefore(s.history, k, p, c)) ==>
          r == Failed(Diverged) && t == s.(deleted := t.deleted, lagging := t.lagging))
  }

  lemma ReviveKeepsPromise(s: State, p: Path, from: Option<nat>, fault: Fault, r: Outcome, t: State)
    requires match ReviveContent(s, p, from)
             case Some(c) =>
               && r == WriteOutcome(s, p, None, false, Constant(c), fault)
               && var w := WriteNext(s, p, None, false, Constant(c), fault);
                  t == if r.Done? then w.(deleted := w.deleted - {p}) else w
             case None => r == Failed(Diverged) && t == s.(deleted := t.deleted, lagging := t.lagging)
    ensures RevivePromise(s, p, from, fault, r, t)
  {
    hide RevivesFrom, HeldBefore, ReviveContent;
    var found := ReviveContent(s, p, from);
    forall k: nat, c | RevivesFrom(s, p, from, k) && HeldBefore(s.history, k, p, c) ensures found == Some(c) {
      RevivalReads(s, p, from, c);
    }
    if found.Some? {
      var c := found.value;
      RevivalReads(s, p, from, c);
      WriteKeepsPromise(s, p, None, false, Constant(c), fault);
      hide WriteOutcome, WriteNext;
      assert WritePromise(s, p, None, false, Constant(c), fault, r,
                          WriteNext(s, p, None, false, Constant(c), fault));
    }
  }
}
