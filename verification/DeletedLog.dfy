/**
 * The log of currently deleted files: the live commit-land hook
 * (internal/storage/deletedlog_store.go), the bounded newest-first repair walk
 * (internal/storage/deletedlog_repair.go) and the resolution of a deletion
 * commit for revival (internal/storage/deletedlog_revive.go). Histories are
 * linear; a commit is named by its position.
 */
module DeletedLog {
  import opened Wrappers
  import opened GitTree

  /** The operation trailer of a commit; a move's `path` is its destination. */
  datatype Meta = OpWrite(path: Path) | OpDelete(path: Path) | OpMove(path: Path, from: Path)
  /** A commit seen flat: the files of its tree and its trailer. */
  datatype Commit = Commit(files: map<Path, Blob>, meta: Meta)
  type History = seq<Commit>

  /** Recorded deletions: path to deletion commit. */
  type Records = map<Path, nat>

  function Before(h: History, k: nat): map<Path, Blob>
    requires k < |h|
  {
    if k == 0 then map[] else h[k - 1].files
  }

  function After(h: History, k: nat): map<Path, Blob>
    requires k < |h|
  {
    h[k].files
  }

  // ----------------------------------------------------------------- the hook

  /** What landing a commit does to the live log. */
  function Hook(recs: Records, meta: Meta, commit: nat): Records {
    match meta
    case OpDelete(p) => recs[p := commit]
    case OpMove(p, from) => recs - {from} - {p}
    case OpWrite(p) => recs - {p}
  }

  /** The live log after the whole history landed, oldest first. */
  ghost function HookLog(h: History): Records {
    if h == [] then map[]
    else
      var n := |h| - 1;
      Hook(HookLog(h[..n]), h[n].meta, n)
  }

  // ----------------------------------------------------------------- the walk

  datatype Changes = Changes(added: set<Path>, removed: set<Path>, modified: set<Path>)

  /** The tree difference against the first parent; a root commit only adds. */
  function CommitTreeChanges(h: History, k: nat): Changes
    requires k < |h|
  {
    var now := After(h, k);
    if k == 0 then Changes(now.Keys, {}, {})
    else
      var was := Before(h, k);
      Changes(now.Keys - was.Keys, was.Keys - now.Keys, set p | p in now && p in was && now[p] != was[p])
  }

  predicate MetaMatchesDiff(m: Meta, c: Changes) {
    match m
    case OpMove(p, from) => from in c.removed && p in c.added
    case OpDelete(p) => p in c.removed
    case OpWrite(p) => p in c.added || p in c.modified
  }

  /** The commit adds, removes or modifies `p`. */
  ghost predicate Touches(h: History, k: nat, p: Path)
    requires k < |h|
  {
    var was, now := Before(h, k), After(h, k);
    (p in was) != (p in now) || (p in was && p in now && was[p] != now[p])
  }

  /** The commit is read as deleting `p`: it removes it, and not as the source of a confirmed move. */
  ghost predicate Deletes(h: History, k: nat, p: Path)
    requires k < |h|
  {
    && p in Before(h, k) && p !in After(h, k)
    && !(h[k].meta.OpMove? && h[k].meta.from == p && h[k].meta.path in After(h, k) && h[k].meta.path !in Before(h, k))
  }

  lemma ChangesAreTouches(h: History, k: nat, p: Path)
    requires k < |h|
    ensures var c := CommitTreeChanges(h, k);
            && (p in c.added <==> p !in Before(h, k) && p in After(h, k))
            && (p in c.removed <==> p in Before(h, k) && p !in After(h, k))
            && (Touches(h, k, p) <==> p in c.added || p in c.removed || p in c.modified)
  {
  }

  /** The newest commit at or after `lo` that touched `p`. */
  ghost function LastTouch(h: History, lo: nat, p: Path): Option<nat>
    requires lo <= |h|
    decreases |h| - lo
  {
    if lo == |h| then None
    else if LastTouch(h, lo + 1, p).Some? then LastTouch(h, lo + 1, p)
    else if Touches(h, lo, p) then Some(lo)
    else None
  }

  /** First-seen-wins, stated outright: a path counts as deleted when the newest commit touching it deletes it. */
  ghost predicate IsWalk(h: History, lo: nat, recs: Records)
    requires lo <= |h|
  {
    forall p :: match LastTouch(h, lo, p)
                case None => p !in recs
                case Some(k) => k < |h| && (p in recs <==> Deletes(h, k, p)) && (p in recs ==> recs[p] == k)
  }

  lemma LastTouchRange(h: History, lo: nat, p: Path)
    requires lo <= |h|
    ensures LastTouch(h, lo, p).Some? ==>
              var k := LastTouch(h, lo, p).value;
              lo <= k < |h| && Touches(h, k, p) && forall j :: k < j < |h| ==> !Touches(h, j, p)
    ensures LastTouch(h, lo, p).None? ==> forall j :: lo <= j < |h| ==> !Touches(h, j, p)
    decreases |h| - lo
  {
    if lo < |h| { LastTouchRange(h, lo + 1, p); }
  }

  /** Marks every path of `ps` not yet decided. */
  method MarkAll(decided: set<Path>, recs: Records, ps: set<Path>, deleted: bool, commit: nat)
    returns (decided': set<Path>, recs': Records)
    ensures decided' == decided + ps
    ensures recs' == if deleted then recs + map p | p in ps && p !in decided :: commit else recs
  {
    decided', recs' := decided, recs;
    var todo := ps;
    while todo != {}
      invariant todo <= ps
      invariant decided' == decided + (ps - todo)
      invariant recs' == if deleted then recs + map p | p in ps && p !in todo && p !in decided :: commit else recs
      decreases todo
    {
      var p :| p in todo;
      if p !in decided' {
        decided' := decided' + {p};
        if deleted { recs' := recs'[p := commit]; }
      }
      todo := todo - {p};
    }
  }

  /** One commit of the walk: the trailer when the difference confirms it, then the raw difference. */
  method WalkCommit(h: History, k: nat, decided: set<Path>, recs: Records) returns (decided': set<Path>, recs': Records)
    requires k < |h|
    ensures forall p :: p in decided' <==> p in decided || Touches(h, k, p)
    ensures forall p :: p in recs' <==> p in recs || (p !in decided && Deletes(h, k, p))
    ensures forall p :: p in recs' ==> recs'[p] == if p !in decided && Deletes(h, k, p) then k else recs[p]
  {
    var c := CommitTreeChanges(h, k);
    forall p { ChangesAreTouches(h, k, p); }
    var d, r := decided, recs;
    if MetaMatchesDiff(h[k].meta, c) {
      match h[k].meta
      case OpMove(p, from) =>
        d, r := MarkAll(d, r, {from}, false, k);
        d, r := MarkAll(d, r, {p}, false, k);
      case OpDelete(p) => d, r := MarkAll(d, r, {p}, true, k);
      case OpWrite(p) => d, r := MarkAll(d, r, {p}, false, k);
    }
    d, r := MarkAll(d, r, c.removed, true, k);
    d, r := MarkAll(d, r, c.added, false, k);
    d, r := MarkAll(d, r, c.modified, false, k);
    decided', recs' := d, r;
  }

  function RepairDepth(depth: int): nat {
    if depth <= 0 then 50 else depth
  }

  function WindowStart(h: History, depth: int): nat {
    if RepairDepth(depth) >= |h| then 0 else |h| - RepairDepth(depth)
  }

  /** Commit `k` is among the newest `depth`, 50 when no depth is set. */
  predicate InWindow(h: History, depth: int, k: nat) {
    k < |h| <= k + if depth <= 0 then 50 else depth
  }

  /** The newest commit touching `p` is `k`, and it deletes it. */
  ghost predicate LastDeletedAt(h: History, k: nat, p: Path)
    requires k < |h|
  {
    Deletes(h, k, p) && forall j :: k < j < |h| ==> !Touches(h, j, p)
  }

  /** The walk's records, commit by commit. */
  lemma WalkSees(h: History, depth: int, recs: Records, p: Path)
    requires IsWalk(h, WindowStart(h, depth), recs)
    ensures p in recs ==> InWindow(h, depth, recs[p]) && LastDeletedAt(h, recs[p], p)
    ensures forall k: nat :: InWindow(h, depth, k) && LastDeletedAt(h, k, p) ==> p in recs && recs[p] == k
  {
    LastTouchRange(h, WindowStart(h, depth), p);
    forall k: nat | InWindow(h, depth, k) && LastDeletedAt(h, k, p) ensures p in recs && recs[p] == k {
      assert Touches(h, k, p) && WindowStart(h, depth) <= k;
    }
  }

  /** The bounded newest-to-oldest walk. */
  method WalkDeletedNetState(h: History, depth: int) returns (recs: Records)
    ensures IsWalk(h, WindowStart(h, depth), recs)
    ensures forall p :: p in recs ==> InWindow(h, depth, recs[p]) && LastDeletedAt(h, recs[p], p)
    ensures forall p, k: nat :: InWindow(h, depth, k) && LastDeletedAt(h, k, p) ==> p in recs && recs[p] == k
  {
    var decided: set<Path> := {};
    recs := map[];
    var k := |h|;
    var n := 0;
    while k > 0 && n < RepairDepth(depth)
      invariant 0 <= k <= |h| && n == |h| - k <= RepairDepth(depth)
      invariant forall p :: p in decided <==> LastTouch(h, k, p).Some?
      invariant IsWalk(h, k, recs)
    {
      ghost var lo, recs0, decided0 := k, recs, decided;
      k := k - 1;
      n := n + 1;
      decided, recs := WalkCommit(h, k, decided, recs);
      WalkExtends(h, k, decided0, recs0, recs);
    }
    hide IsWalk, InWindow, LastDeletedAt;
    forall p { WalkSees(h, depth, recs, p); }
  }

  lemma WalkExtends(h: History, k: nat, decided: set<Path>, recs: Records, recs': Records)
    requires k < |h| && IsWalk(h, k + 1, recs)
    requires forall p :: p in decided <==> LastTouch(h, k + 1, p).Some?
    requires forall p :: p in recs' <==> p in recs || (p !in decided && Deletes(h, k, p))
    requires forall p :: p in recs' ==> recs'[p] == if p !in decided && Deletes(h, k, p) then k else recs[p]
    ensures IsWalk(h, k, recs')
  {
    forall p
      ensures match LastTouch(h, k, p)
              case None => p !in recs'
              case Some(j) => j < |h| && (p in recs' <==> Deletes(h, j, p)) && (p in recs' ==> recs'[p] == j)
    {
      LastTouchRange(h, k, p);
      LastTouchRange(h, k + 1, p);
    }
  }

  // ------------------------------------------------------ histories of commits

  /** What a commit may do to its parent's files. */
  ghost predicate CommitOk(was: map<Path, Blob>, meta: Meta, now: map<Path, Blob>, root: bool) {
    match meta
    case OpWrite(p) => p in now && now == was[p := now[p]] && now != was
    case OpDelete(p) => now == was - {p} && (root || p in was)
    case OpMove(p, from) => from in was && from != p && now == (was - {from})[p := was[from]]
  }

  /** A history made of write, delete and move commits, each changing the tree. */
  ghost predicate HistoryOk(h: History) {
    h == [] || (HistoryOk(h[..|h| - 1]) && LastCommitOk(h))
  }

  ghost predicate LastCommitOk(h: History)
    requires h != []
  {
    CommitOk(Before(h, |h| - 1), h[|h| - 1].meta, After(h, |h| - 1), |h| == 1)
  }

  lemma {:induction false} EachCommitOk(h: History, k: nat)
    requires HistoryOk(h) && k < |h|
    ensures CommitOk(Before(h, k), h[k].meta, After(h, k), k == 0)
    decreases |h|
  {
    var n := |h| - 1;
    if k < n {
      EachCommitOk(h[..n], k);
      BeforeAfterPrefix(h[..n], h[n], k);
      assert h == h[..n] + [h[n]];
    }
  }

  /** A move onto a path that already held a file. */
  ghost predicate OverwritingMoveFrom(h: History, k: nat, p: Path)
    requires k < |h|
  {
    h[k].meta.OpMove? && h[k].meta.from == p && h[k].meta.path in Before(h, k)
  }

  /** A recorded deletion: the parent held the path and no tree since has it; commit 0 only for a first-ever delete. */
  ghost predicate Deletion(h: History, p: Path, k: nat) {
    && k < |h|
    && (k > 0 ==> p in Before(h, k))
    && (k == 0 ==> h[0].meta == OpDelete(p))
    && forall j :: k <= j < |h| ==> p !in After(h, j)
  }

  ghost predicate RecordsOk(h: History, recs: Records) {
    forall p :: p in recs ==> Deletion(h, p, recs[p])
  }

  /** A path no commit of a stretch touches stays in or out of the tree throughout. */
  lemma {:induction false} UntouchedStays(h: History, p: Path, k: nat, j: nat)
    requires k <= j < |h|
    requires forall i :: k < i <= j ==> !Touches(h, i, p)
    ensures p in After(h, j) <==> p in After(h, k)
    decreases j - k
  {
    if k < j {
      UntouchedStays(h, p, k, j - 1);
      assert !Touches(h, j, p);
      assert Before(h, j) == After(h, j - 1);
    }
  }

  lemma NeverTouchedNeverThere(h: History, p: Path, j: nat)
    requires j < |h|
    requires forall i :: 0 <= i <= j ==> !Touches(h, i, p)
    ensures p !in After(h, j)
  {
    assert !Touches(h, 0, p);
    UntouchedStays(h, p, 0, j);
  }

  lemma BeforeAfterPrefix(g: History, c: Commit, k: nat)
    requires k < |g|
    ensures Before(g + [c], k) == Before(g, k) && After(g + [c], k) == After(g, k)
    ensures Before(g + [c], |g|) == After(g, |g| - 1) && After(g + [c], |g|) == c.files
  {
  }

  lemma DeletionSurvives(g: History, c: Commit, p: Path, k: nat)
    requires Deletion(g, p, k) && p !in c.files
    ensures Deletion(g + [c], p, k)
  {
    var h := g + [c];
    BeforeAfterPrefix(g, c, k);
    assert h[0] == g[0];
    forall j | k <= j < |h| ensures p !in After(h, j) {
      if j < |g| { BeforeAfterPrefix(g, c, j); }
    }
  }

  /** A path absent before a commit, and not made present by its operation, is absent after it. */
  lemma StaysAbsent(was: map<Path, Blob>, meta: Meta, now: map<Path, Blob>, root: bool, p: Path)
    requires CommitOk(was, meta, now, root) && p !in was
    requires meta.OpDelete? || meta.path != p
    ensures p !in now
  {
  }

  lemma HookKeepsRecord(g: History, c: Commit, recs: Records, p: Path)
    requires LastCommitOk(g + [c]) && RecordsOk(g, recs) && p in Hook(recs, c.meta, |g|)
    ensures Deletion(g + [c], p, Hook(recs, c.meta, |g|)[p])
  {
    var h, n := g + [c], |g|;
    if c.meta == OpDelete(p) {
      assert forall j :: n <= j < |h| ==> After(h, j) == c.files;
    } else {
      assert Deletion(g, p, recs[p]);
      assert p !in After(g, n - 1);
      BeforeAfterPrefix(g, c, n - 1);
      StaysAbsent(Before(h, n), c.meta, c.files, n == 0, p);
      DeletionSurvives(g, c, p, recs[p]);
    }
  }

  /** Landing one more commit keeps every record a genuine deletion. */
  lemma HookKeepsRecords(g: History, c: Commit, recs: Records)
    requires HistoryOk(g + [c]) && RecordsOk(g, recs)
    ensures RecordsOk(g + [c], Hook(recs, c.meta, |g|))
  {
    hide Deletion, Hook, LastCommitOk;
    HistoryPrefixOk(g, c);
    forall p | p in Hook(recs, c.meta, |g|) ensures Deletion(g + [c], p, Hook(recs, c.meta, |g|)[p]) {
      HookKeepsRecord(g, c, recs, p);
    }
  }

  lemma HistoryPrefixOk(g: History, c: Commit)
    ensures HistoryOk(g + [c]) <==> HistoryOk(g) && LastCommitOk(g + [c])
  {
    assert (g + [c])[..|g|] == g;
  }

  lemma {:induction false} HookLogRecords(h: History)
    requires HistoryOk(h)
    ensures RecordsOk(h, HookLog(h))
  {
    if h != [] {
      var n := |h| - 1;
      var g, c := h[..n], h[n];
      assert h == g + [c];
      HistoryPrefixOk(g, c);
      HookLogRecords(g);
      HookKeepsRecords(g, c, HookLog(g));
    }
  }

  /** Whatever the walk lists is a genuine deletion as well, and never the root commit. */
  lemma WalkRecordsOk(h: History, lo: nat, recs: Records)
    requires lo <= |h| && IsWalk(h, lo, recs)
    ensures RecordsOk(h, recs)
    ensures forall p :: p in recs ==> recs[p] > 0
  {
    forall p | p in recs ensures Deletion(h, p, recs[p]) && recs[p] > 0 {
      LastTouchRange(h, lo, p);
      var k := LastTouch(h, lo, p).value;
      forall j | k <= j < |h| ensures p !in After(h, j) {
        UntouchedStays(h, p, k, j);
      }
    }
  }

  // ------------------------------------------------------- hook against walk

  /** A commit that does not touch a path leaves its hook record alone. */
  lemma HookIgnoresUntouched(g: History, c: Commit, p: Path)
    requires g != [] && HistoryOk(g + [c]) && !Touches(g + [c], |g|, p)
    ensures p in HookLog(g + [c]) <==> p in HookLog(g)
    ensures p in HookLog(g) ==> HookLog(g + [c])[p] == HookLog(g)[p]
  {
    var h, n := g + [c], |g|;
    assert h[..n] == g && h[n] == c;
    HistoryPrefixOk(g, c);
    HookLogRecords(g);
    hide HistoryOk, Touches, LastCommitOk;
    assert p in HookLog(g) ==> Deletion(g, p, HookLog(g)[p]);
    assert p in HookLog(g) ==> p !in After(g, n - 1);
    hide RecordsOk, Deletion;
    UntouchedOperation(g, c, p);
  }

  lemma UntouchedOperation(g: History, c: Commit, p: Path)
    requires g != [] && LastCommitOk(g + [c]) && !Touches(g + [c], |g|, p)
    ensures c.meta != OpDelete(p)
    ensures c.meta.OpWrite? ==> c.meta.path != p
    ensures c.meta.OpMove? ==> c.meta.from != p && (c.meta.path == p ==> p in After(g, |g| - 1))
  {
    BeforeAfterPrefix(g, c, |g| - 1);
  }

  lemma HookAtTouch(g: History, c: Commit, p: Path)
    requires HistoryOk(g + [c]) && Touches(g + [c], |g|, p)
    ensures p in HookLog(g + [c]) <==> c.meta == OpDelete(p)
    ensures p in HookLog(g + [c]) ==> HookLog(g + [c])[p] == |g|
  {
    var h, n := g + [c], |g|;
    assert h[..n] == g && h[n] == c;
    HistoryPrefixOk(g, c);
    assert LastCommitOk(h);
  }

  /** No commit after `k` touches `p`. */
  ghost predicate QuietAfter(h: History, k: nat, p: Path) {
    forall i :: k < i < |h| ==> !Touches(h, i, p)
  }

  lemma TouchesPrefix(g: History, c: Commit, p: Path, k: nat)
    requires k < |g|
    ensures Touches(g, k, p) == Touches(g + [c], k, p)
    ensures QuietAfter(g + [c], k, p) ==> QuietAfter(g, k, p) && !Touches(g + [c], |g|, p)
  {
    BeforeAfterPrefix(g, c, k);
    if QuietAfter(g + [c], k, p) {
      forall i | k < i < |g| ensures !Touches(g, i, p) {
        BeforeAfterPrefix(g, c, i);
        assert !Touches(g + [c], i, p);
      }
    }
  }

  /** The hook's verdict on a path is set by the newest commit that touched it. */
  lemma {:induction false} HookAfterTouch(h: History, p: Path, k: nat)
    requires k < |h| && HistoryOk(h)
    requires Touches(h, k, p) && QuietAfter(h, k, p)
    ensures p in HookLog(h) <==> h[k].meta == OpDelete(p)
    ensures p in HookLog(h) ==> HookLog(h)[p] == k
    decreases |h|
  {
    var n := |h| - 1;
    var g, c := h[..n], h[n];
    assert h == g + [c];
    if k == n {
      HookAtTouch(g, c, p);
    } else {
      HistoryPrefixOk(g, c);
      TouchesPrefix(g, c, p, k);
      HookAfterTouch(g, p, k);
      HookIgnoresUntouched(g, c, p);
    }
  }

  ghost function Lookup(recs: Records, p: Path): Option<nat> {
    if p in recs then Some(recs[p]) else None
  }

  /**
   * Hook and walk agree on every path the window touches, except exactly the
   * sources of moves that overwrote their destination: the hook drops those,
   * the walk lists them as deleted.
   */
  lemma HookAgreesWithWalk(h: History, lo: nat, recs: Records, p: Path)
    requires lo <= |h| && HistoryOk(h) && IsWalk(h, lo, recs)
    requires LastTouch(h, lo, p).Some?
    ensures var k := LastTouch(h, lo, p).value;
            && k < |h|
            && (Lookup(HookLog(h), p) == Lookup(recs, p) <==> !OverwritingMoveFrom(h, k, p))
            && (OverwritingMoveFrom(h, k, p) ==> p !in HookLog(h) && Lookup(recs, p) == Some(k))
  {
    LastTouchRange(h, lo, p);
    var k := LastTouch(h, lo, p).value;
    EachCommitOk(h, k);
    assert QuietAfter(h, k, p);
    HookAfterTouch(h, p, k);
  }

  /** The hook only records paths that some commit touched, but for a first-ever delete. */
  lemma HookRecordsTouched(h: History, p: Path)
    requires HistoryOk(h) && p in HookLog(h)
    requires !h[0].meta.OpDelete?
    ensures LastTouch(h, 0, p).Some?
  {
    HookLogRecords(h);
    var k := HookLog(h)[p];
    assert Deletion(h, p, k);
    LastTouchRange(h, 0, p);
    if LastTouch(h, 0, p).None? {
      NeverTouchedNeverThere(h, p, k - 1);
    }
  }

  lemma FullWalkPoint(h: History, recs: Records, p: Path)
    requires HistoryOk(h) && IsWalk(h, 0, recs)
    requires forall k :: 0 <= k < |h| ==> !OverwritingMoveFrom(h, k, p)
    requires h != [] ==> !h[0].meta.OpDelete?
    ensures Lookup(recs, p) == Lookup(HookLog(h), p)
  {
    if LastTouch(h, 0, p).Some? {
      HookAgreesWithWalk(h, 0, recs, p);
    } else if p in HookLog(h) {
      HookRecordsTouched(h, p);
    }
  }

  /** A walk over the whole history rebuilds the hook's log exactly, when no move overwrote and the first commit is no delete. */
  lemma FullWalkIsHookLog(h: History, recs: Records)
    requires HistoryOk(h) && IsWalk(h, 0, recs)
    requires forall k, p :: 0 <= k < |h| ==> !OverwritingMoveFrom(h, k, p)
    requires h != [] ==> !h[0].meta.OpDelete?
    ensures recs == HookLog(h)
  {
    forall p ensures Lookup(recs, p) == Lookup(HookLog(h), p) {
      FullWalkPoint(h, recs, p);
    }
    LookupDetermines(recs, HookLog(h));
  }

  lemma LookupDetermines(a: Records, b: Records)
    requires forall p :: Lookup(a, p) == Lookup(b, p)
    ensures a == b
  {
    forall p ensures p in a <==> p in b {
      assert Lookup(a, p) == Lookup(b, p);
    }
    forall p | p in a ensures a[p] == b[p] {
      assert Lookup(a, p) == Lookup(b, p);
    }
  }

  // ------------------------------------------------------------------ revival

  /** The newest commit that lacks the path while its parent has it. */
  method FindDeletionCommit(h: History, p: Path) returns (k: Option<nat>)
    ensures k.Some? ==> 0 < k.value < |h| && p in Before(h, k.value) && p !in After(h, k.value)
    ensures k.Some? ==> forall j :: k.value < j < |h| ==> !(p in Before(h, j) && p !in After(h, j))
    ensures k.None? ==> forall j :: 0 < j < |h| ==> !(p in Before(h, j) && p !in After(h, j))
    ensures k == DeletionCommit(h, p)
  {
    var i := |h|;
    while i > 0
      invariant 0 <= i <= |h|
      invariant forall j :: i <= j < |h| && j > 0 ==> !(p in Before(h, j) && p !in After(h, j))
    {
      i := i - 1;
      if p !in After(h, i) && i != 0 && p in Before(h, i) {
        DeletionCommitIs(h, p, i);
        return Some(i);
      }
    }
    k := None;
    if DeletionCommit(h, p).Some? {
      DeletionCommitRange(h, p);
    }
  }

  ghost predicate Removes(h: History, p: Path, k: nat) {
    0 < k < |h| && p in Before(h, k) && p !in After(h, k)
  }

  function DeletionCommit(h: History, p: Path): Option<nat> {
    if |h| < 2 then None
    else
      var n := |h| - 1;
      if p in Before(h, n) && p !in After(h, n) then Some(n) else DeletionCommit(h[..n], p)
  }

  lemma DeletionCommitRange(h: History, p: Path)
    requires DeletionCommit(h, p).Some?
    ensures Removes(h, p, DeletionCommit(h, p).value)
  {
    var n := |h| - 1;
    if !(p in Before(h, n) && p !in After(h, n)) {
      DeletionCommitRange(h[..n], p);
      var k := DeletionCommit(h, p).value;
      assert Before(h, k) == Before(h[..n], k) && After(h, k) == After(h[..n], k);
    }
  }

  /** It is the newest removal, if there is any. */
  lemma DeletionCommitNewest(h: History, p: Path)
    ensures DeletionCommit(h, p).Some? ==>
              Removes(h, p, DeletionCommit(h, p).value) && forall j :: DeletionCommit(h, p).value < j < |h| ==> !Removes(h, p, j)
  {
    if DeletionCommit(h, p).Some? {
      DeletionCommitRange(h, p);
      LaterRemoval(h, p, DeletionCommit(h, p).value);
    }
  }

  lemma {:induction false} LaterRemoval(h: History, p: Path, k: nat)
    requires DeletionCommit(h, p) == Some(k)
    ensures forall j :: k < j < |h| ==> !Removes(h, p, j)
  {
    var n := |h| - 1;
    if !(p in Before(h, n) && p !in After(h, n)) {
      var g := h[..n];
      LaterRemoval(g, p, k);
      forall j | k < j < |h| ensures !Removes(h, p, j) {
        if j < n { assert !Removes(g, p, j) && Before(h, j) == Before(g, j) && After(h, j) == After(g, j); }
      }
    }
  }

  lemma DeletionCommitIs(h: History, p: Path, k: nat)
    requires Removes(h, p, k)
    requires forall j :: k < j < |h| ==> !Removes(h, p, j)
    ensures DeletionCommit(h, p) == Some(k)
  {
    var n := |h| - 1;
    if k < n {
      assert !Removes(h, p, n);
      var g := h[..n];
      assert Before(h, k) == Before(g, k) && After(h, k) == After(g, k);
      forall j | k < j < n ensures !Removes(g, p, j) {
        assert Before(h, j) == Before(g, j) && After(h, j) == After(g, j);
        assert !Removes(h, p, j);
      }
      DeletionCommitIs(g, p, k);
    }
  }

  /** The content at the deletion commit's parent, or `None` when history has diverged from the record. */
  function ContentAtDeletionParent(h: History, k: nat, p: Path): Option<Blob> {
    if k >= |h| || k == 0 then None
    else if p in h[k - 1].files then Some(h[k - 1].files[p])
    else None
  }

  /**
   * A recorded deletion other than a first-ever delete revives the last content
   * ever committed at the path, and the scan by name finds the same commit.
   */
  lemma RecordRevivesLastContent(h: History, p: Path, k: nat)
    requires Deletion(h, p, k)
    ensures ContentAtDeletionParent(h, k, p).Some? <==> k > 0
    ensures k > 0 ==> ContentAtDeletionParent(h, k, p) == Some(h[k - 1].files[p])
    ensures k > 0 ==> forall j :: k <= j < |h| ==> p !in h[j].files
    ensures k > 0 ==> DeletionCommit(h, p) == Some(k)
  {
    if k > 0 {
      assert forall j :: k <= j < |h| ==> h[j].files == After(h, j);
      forall j | k < j < |h| ensures !Removes(h, p, j) {
        assert Before(h, j) == After(h, j - 1);
      }
      DeletionCommitIs(h, p, k);
    }
  }
}
