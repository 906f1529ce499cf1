/**
 * The write/commit protocol of one project: file operations act on the working
 * tree, the catalog and the write-ahead log (internal/storage/fs_git.go,
 * internal/storage/move.go); the background worker commits log entries to git in
 * order and then removes them (internal/storage/commit.go). This module is the
 * state machine; `Storage` runs it on mutable fields.
 */
module Protocol {
  import opened Wrappers
  import opened GitTree
  import DL = DeletedLog

  /** The sha256 of a file's bytes, taken as collision-free. */
  datatype Etag = Sha(of: Blob)

  datatype WalEntry =
    | WalWrite(path: Path, content: Blob)
    | WalDelete(path: Path)
    | WalMove(src: Path, path: Path, content: Blob)

  datatype Commit = Commit(tree: Tree, meta: DL.Meta)

  datatype Error =
    | FileNotFound
    | VersionConflict(current: Etag)
    | Rejected
    | IoError
    | SourceNotFound
    | SamePath
    | RemoveFailed
    | LogFailed
    | Diverged

  datatype Outcome = Done(etag: Etag) | Failed(error: Error)

  /** What goes wrong in one operation: the new bytes cannot be written, the old file cannot be removed, or the log cannot be extended. */
  datatype Fault = NoFault | WriteFault | RemoveFault | LogFault

  /** An operation that failed halfway, behind effects it does not take back. */
  predicate Partial(r: Outcome) {
    r == Failed(RemoveFailed) || r == Failed(LogFailed)
  }

  /**
   * `landed` says that the oldest log entry is already committed: the worker
   * removes an entry only after its commit, and a crash may come in between.
   * `lagging` are the paths whose deleted records may lag behind the history: a
   * crash right after a commit loses its update of the records.
   */
  datatype State = State(
    files: map<Path, Blob>,
    catalog: map<Path, Etag>,
    wal: seq<WalEntry>,
    history: seq<Commit>,
    deleted: DL.Records,
    landed: bool,
    lagging: set<Path>)

  const EMPTY_PROJECT := State(map[], map[], [], [], map[], false, {})

  // ------------------------------------------------------------ file operations

  /** A file sits above or below `p`, so the file system refuses a file at `p`. */
  predicate Clash(files: map<Path, Blob>, p: Path) {
    exists q :: q in files && q != p && Related(p, q)
  }

  /** An absent file reads as empty. */
  function Current(files: map<Path, Blob>, p: Path): Blob {
    if p in files then files[p] else ""
  }

  function WriteOutcome(s: State, p: Path, ifMatch: Option<Etag>, requireExisting: bool,
                        transform: Blob -> Option<Blob>, fault: Fault): Outcome {
    var cur := Current(s.files, p);
    if requireExisting && p !in s.files && !Clash(s.files, p) then Failed(FileNotFound)
    else if ifMatch.Some? && ifMatch.value != Sha(cur) then Failed(VersionConflict(Sha(cur)))
    else if transform(cur).None? then Failed(Rejected)
    else if fault.WriteFault? || Clash(s.files, p) then Failed(IoError)
    else if fault.LogFault? then Failed(LogFailed)
    else Done(Sha(transform(cur).value))
  }

  /** Working tree, then log, then catalog. */
  function WriteNext(s: State, p: Path, ifMatch: Option<Etag>, requireExisting: bool,
                     transform: Blob -> Option<Blob>, fault: Fault): State {
    match WriteOutcome(s, p, ifMatch, requireExisting, transform, fault)
    case Failed(LogFailed) => s.(files := s.files[p := transform(Current(s.files, p)).value])
    case Failed(_) => s
    case Done(etag) =>
      s.(files := s.files[p := etag.of], wal := s.wal + [WalWrite(p, etag.of)], catalog := s.catalog[p := etag])
  }

  function DeleteOutcome(s: State, p: Path, ifMatch: Option<Etag>, fault: Fault): Outcome {
    var cur := Current(s.files, p);
    if ifMatch.Some? && ifMatch.value != Sha(cur) then Failed(VersionConflict(Sha(cur)))
    else if fault.LogFault? then Failed(LogFailed)
    else if fault.RemoveFault? || Clash(s.files, p) then Failed(RemoveFailed)
    else Done(Sha(cur))
  }

  /** Catalog, then log, then working tree: a failing removal leaves the entry queued. */
  function DeleteNext(s: State, p: Path, ifMatch: Option<Etag>, fault: Fault): State {
    match DeleteOutcome(s, p, ifMatch, fault)
    case Failed(LogFailed) => s.(catalog := s.catalog - {p})
    case Failed(RemoveFailed) => s.(catalog := s.catalog - {p}, wal := s.wal + [WalDelete(p)])
    case Failed(_) => s
    case Done(_) => s.(catalog := s.catalog - {p}, wal := s.wal + [WalDelete(p)], files := s.files - {p})
  }

  /** An existing target is guarded by its own etag, and never overwritten unasked; otherwise the source is guarded. */
  function MoveRefusal(files: map<Path, Blob>, src: Path, dst: Path, ifMatch: Option<Etag>): (e: Option<Error>)
    ensures e.None? ==> src in files && src != dst
    ensures e.None? && dst in files ==> ifMatch == Some(Sha(files[dst]))
    ensures e.None? && dst !in files && ifMatch.Some? ==> ifMatch == Some(Sha(files[src]))
    ensures e.Some? ==> !Partial(Failed(e.value))
  {
    if src == dst then Some(SamePath)
    else if src !in files then Some(SourceNotFound)
    else if dst in files && ifMatch != Some(Sha(files[dst])) then Some(VersionConflict(Sha(files[dst])))
    else if dst !in files && ifMatch.Some? && ifMatch.value != Sha(files[src]) then Some(VersionConflict(Sha(files[src])))
    else None
  }

  function MoveOutcome(s: State, src: Path, dst: Path, ifMatch: Option<Etag>, fault: Fault): Outcome {
    var refusal := MoveRefusal(s.files, src, dst, ifMatch);
    if refusal.Some? then Failed(refusal.value)
    else if fault.WriteFault? || Clash(s.files, dst) then Failed(IoError)
    else if fault.RemoveFault? then Failed(RemoveFailed)
    else if fault.LogFault? then Failed(LogFailed)
    else Done(Sha(s.files[src]))
  }

  /** Destination written, source removed, catalog moved, log extended, in this order. */
  function MoveNext(s: State, src: Path, dst: Path, ifMatch: Option<Etag>, fault: Fault): State {
    match MoveOutcome(s, src, dst, ifMatch, fault)
    case Failed(RemoveFailed) => s.(files := s.files[dst := s.files[src]])
    case Failed(LogFailed) =>
      s.(files := (s.files - {src})[dst := s.files[src]], catalog := (s.catalog - {src})[dst := Sha(s.files[src])])
    case Failed(_) => s
    case Done(etag) =>
      s.(files := (s.files - {src})[dst := etag.of],
         catalog := (s.catalog - {src})[dst := etag],
         wal := s.wal + [WalMove(src, dst, etag.of)])
  }

  // -------------------------------------------------- what the operations promise

  /**
   * A write, append, patch or link repair from `s` to `t`: when it succeeds, what it then
   * leaves, and that a stale etag is answered with the current one.
   */
  ghost predicate WritePromise(s: State, p: Path, ifMatch: Option<Etag>, requireExisting: bool,
                               transform: Blob -> Option<Blob>, fault: Fault, r: Outcome, t: State) {
    var current := if p in s.files then s.files[p] else "";
    && (r.Done? <==>
          && (requireExisting ==> p in s.files) && (ifMatch.Some? ==> ifMatch.value.of == current)
          && transform(current).Some? && !fault.WriteFault? && !fault.LogFault? && !Clash(s.files, p))
    && (r.Done? ==>
          && transform(current) == Some(r.etag.of)
          && t == s.(files := s.files[p := r.etag.of], catalog := s.catalog[p := r.etag], wal := s.wal + [WalWrite(p, r.etag.of)]))
    && (ifMatch.Some? && ifMatch.value.of != current && (p in s.files || !requireExisting) ==>
          r == Failed(VersionConflict(Sha(current))))
    && (requireExisting && p !in s.files && !Clash(s.files, p) ==> r == Failed(FileNotFound))
    && (transform(current).None? && (p in s.files || !requireExisting) && (ifMatch.Some? ==> ifMatch.value.of == current) ==>
          r == Failed(Rejected))
    && (r.Failed? && !Partial(r) ==> t == s)
  }

  ghost predicate DeletePromise(s: State, p: Path, ifMatch: Option<Etag>, fault: Fault, r: Outcome, t: State) {
    var current := if p in s.files then s.files[p] else "";
    && (r.Done? <==>
          (ifMatch.Some? ==> ifMatch.value.of == current) && !fault.LogFault? && !fault.RemoveFault? && !Clash(s.files, p))
    && (r.Done? ==> t == s.(files := s.files - {p}, catalog := s.catalog - {p}, wal := s.wal + [WalDelete(p)]))
    && (ifMatch.Some? && ifMatch.value.of != current ==> r == Failed(VersionConflict(Sha(current))) && t == s)
    && (r.Failed? && !Partial(r) ==> t == s)
  }

  /** The target's etag guards an existing target; the source's a new one. */
  ghost predicate MovePromise(s: State, src: Path, dst: Path, ifMatch: Option<Etag>, fault: Fault, r: Outcome, t: State) {
    && (r.Done? <==>
          && src != dst && src in s.files && fault.NoFault? && !Clash(s.files, dst)
          && if dst in s.files then ifMatch.Some? && ifMatch.value.of == s.files[dst]
             else ifMatch.Some? ==> ifMatch.value.of == s.files[src])
    && (r.Done? ==>
          var content := s.files[src];
          t == s.(files := (s.files - {src})[dst := content], catalog := (s.catalog - {src})[dst := Sha(content)],
                  wal := s.wal + [WalMove(src, dst, content)]))
    && (src == dst ==> r == Failed(SamePath))
    && (src != dst && src !in s.files ==> r == Failed(SourceNotFound))
    && (src != dst && src in s.files && dst in s.files && (ifMatch.None? || ifMatch.value.of != s.files[dst]) ==>
          r == Failed(VersionConflict(Sha(s.files[dst]))))
    && (src in s.files && dst !in s.files && ifMatch.Some? && ifMatch.value.of != s.files[src] ==>
          r == Failed(VersionConflict(Sha(s.files[src]))))
    && (r.Failed? && !Partial(r) ==> t == s)
  }

  lemma WriteKeepsPromise(s: State, p: Path, ifMatch: Option<Etag>, requireExisting: bool,
                          transform: Blob -> Option<Blob>, fault: Fault)
    ensures WritePromise(s, p, ifMatch, requireExisting, transform, fault,
                         WriteOutcome(s, p, ifMatch, requireExisting, transform, fault),
                         WriteNext(s, p, ifMatch, requireExisting, transform, fault))
  {
  }

  lemma DeleteKeepsPromise(s: State, p: Path, ifMatch: Option<Etag>, fault: Fault)
    ensures DeletePromise(s, p, ifMatch, fault, DeleteOutcome(s, p, ifMatch, fault), DeleteNext(s, p, ifMatch, fault))
  {
  }

  lemma MoveKeepsPromise(s: State, src: Path, dst: Path, ifMatch: Option<Etag>, fault: Fault)
    ensures MovePromise(s, src, dst, ifMatch, fault, MoveOutcome(s, src, dst, ifMatch, fault),
                        MoveNext(s, src, dst, ifMatch, fault))
  {
  }

  // ------------------------------------------------------------------ the worker

  function OpMetaForEntry(e: WalEntry): DL.Meta {
    match e
    case WalDelete(p) => DL.OpDelete(p)
    case WalMove(src, p, _) => DL.OpMove(p, src)
    case WalWrite(p, _) => DL.OpWrite(p)
  }

  /** The paths whose deleted records an entry's commit decides. */
  function EntryPaths(e: WalEntry): set<Path> {
    if e.WalMove? then {e.src, e.path} else {e.path}
  }

  predicate ValidEntry(e: WalEntry) {
    ValidPath(e.path) && (e.WalMove? ==> ValidPath(e.src))
  }

  function BuildTree(base: Tree, e: WalEntry): Tree
    requires ValidEntry(e)
  {
    match e
    case WalDelete(p) => ApplyToTree(base, p, None)
    case WalMove(src, p, c) => BuildMoveTree(base, src, p, c)
    case WalWrite(p, c) => ApplyToTree(base, p, Some(c))
  }

  /** The tree a commit starts from; an unborn HEAD starts from nothing. */
  function HeadTree(s: State): Tree {
    if s.history == [] then [] else s.history[|s.history| - 1].tree
  }

  /** Commits the oldest entry from its own bytes; an unchanged tree makes no commit, except on an unborn HEAD. */
  function CommitNext(s: State): State
    requires forall i :: 0 <= i < |s.wal| ==> ValidEntry(s.wal[i])
  {
    if s.wal == [] then s
    else
      var e := s.wal[0];
      var tree := BuildTree(HeadTree(s), e);
      if s.history != [] && tree == HeadTree(s) then s.(landed := true)
      else s.(history := s.history + [Commit(tree, OpMetaForEntry(e))],
              deleted := DL.Hook(s.deleted, OpMetaForEntry(e), |s.history|),
              lagging := s.lagging - EntryPaths(e),
              landed := true)
  }

  /** The same commit with a crash right after HEAD has advanced: the deleted records never learn of it. */
  function CommitCrashNext(s: State): State
    requires forall i :: 0 <= i < |s.wal| ==> ValidEntry(s.wal[i])
  {
    var t := CommitNext(s);
    if |t.history| == |s.history| then t
    else t.(deleted := s.deleted, lagging := s.lagging + EntryPaths(s.wal[0]))
  }

  /** Removes the oldest entry once its commit has landed. */
  function RemoveNext(s: State): State {
    if s.landed && s.wal != [] then s.(wal := s.wal[1..], landed := false) else s
  }

  // ------------------------------------------------------------------- revival

  /** The history seen flat. */
  function View(h: seq<Commit>): DL.History {
    seq(|h|, i requires 0 <= i < |h| => DL.Commit(Flat(h[i].tree), h[i].meta))
  }

  /** The deletion commit to revive from: the caller's, else the recorded one, else the newest found by name. */
  ghost function ResolveDeletion(s: State, p: Path, fromCommit: Option<nat>): Option<nat> {
    if fromCommit.Some? then fromCommit
    else if p in s.deleted then Some(s.deleted[p])
    else DL.DeletionCommit(View(s.history), p)
  }

  ghost function ReviveContent(s: State, p: Path, fromCommit: Option<nat>): Option<Blob> {
    match ResolveDeletion(s, p, fromCommit)
    case None => None
    case Some(k) => DL.ContentAtDeletionParent(View(s.history), k, p)
  }

  // -------------------------------------------------------- replay and agreement

  /** The flat meaning of one log entry. */
  ghost function ApplyEntry(m: map<Path, Blob>, e: WalEntry): map<Path, Blob> {
    match e
    case WalDelete(p) => Update(m, p, None)
    case WalMove(src, p, c) => Update(Update(m, src, None), p, Some(c))
    case WalWrite(p, c) => Update(m, p, Some(c))
  }

  ghost function Replay(m: map<Path, Blob>, es: seq<WalEntry>): map<Path, Blob>
    decreases |es|
  {
    if es == [] then m else Replay(ApplyEntry(m, es[0]), es[1..])
  }

  ghost function HeadFiles(s: State): map<Path, Blob> {
    Flat(HeadTree(s))
  }

  /** The working tree's bytes at the catalog's paths. */
  ghost function Managed(s: State): map<Path, Blob> {
    map p | p in s.files && p in s.catalog :: s.files[p]
  }

  /** HEAD plus the pending log is exactly the catalog's path set with the working tree's bytes. */
  ghost predicate Agreement(s: State) {
    && s.catalog.Keys <= s.files.Keys
    && (forall p :: p in s.catalog ==> s.catalog[p] == Sha(s.files[p]))
    && Replay(HeadFiles(s), s.wal) == Managed(s)
  }

  // ---------------------------------------------------------------- invariant

  ghost predicate PrefixFree(m: map<Path, Blob>) {
    && (forall p :: p in m ==> ValidPath(p))
    && forall p, q :: p in m && q in m && Related(p, q) ==> p == q
  }

  /** What a successful operation guarantees of its entry, relative to the files it acts on. */
  ghost predicate EntryClean(m: map<Path, Blob>, e: WalEntry) {
    && ValidEntry(e)
    && !Clash(m, e.path)
    && (e.WalMove? ==> e.src in m && m[e.src] == e.content && e.src != e.path)
  }

  ghost predicate CleanRun(m: map<Path, Blob>, es: seq<WalEntry>)
    decreases |es|
  {
    es == [] || (EntryClean(m, es[0]) && CleanRun(ApplyEntry(m, es[0]), es[1..]))
  }

  /** The entries HEAD does not contain yet. */
  ghost function Pending(s: State): seq<WalEntry> {
    if s.landed && s.wal != [] then s.wal[1..] else s.wal
  }

  /** One commit of a history: a canonical tree that its operation made from its parent's files. */
  ghost predicate CommitStepOk(h: seq<Commit>, k: nat)
    requires k < |h|
  {
    && Canonical(h[k].tree)
    && DL.CommitOk(if k == 0 then map[] else Flat(h[k - 1].tree), h[k].meta, Flat(h[k].tree), k == 0)
  }

  ghost predicate HistoryInv(h: seq<Commit>, deleted: DL.Records) {
    && (forall k :: 0 <= k < |h| ==> CommitStepOk(h, k))
    && DL.RecordsOk(View(h), deleted)
  }

  /** The entries HEAD still lacks lead cleanly from HEAD's files to the working tree. */
  ghost predicate LogInv(head: map<Path, Blob>, pending: seq<WalEntry>, files: map<Path, Blob>) {
    PrefixFree(head) && PrefixFree(files) && CleanRun(head, pending) && Replay(head, pending) == files
  }

  /** A landed entry is one HEAD's tree already contains. */
  ghost predicate LandedInv(head: Tree, e: WalEntry) {
    ValidEntry(e) && BuildTree(head, e) == head
  }

  ghost predicate Inv(s: State) {
    && HistoryInv(s.history, s.deleted - s.lagging)
    && LogInv(HeadFiles(s), Pending(s), s.files)
    && (s.landed ==> s.wal != [] && s.history != [] && LandedInv(HeadTree(s), s.wal[0]))
    && s.catalog == Etags(s.files)
  }

  ghost function Etags(m: map<Path, Blob>): map<Path, Etag> {
    map p | p in m :: Sha(m[p])
  }

  // ------------------------------------------------------------- flat entries

  /** On files without clashes an entry is a plain map update. */
  lemma CleanEntryEffect(m: map<Path, Blob>, e: WalEntry)
    requires PrefixFree(m) && EntryClean(m, e)
    ensures ApplyEntry(m, e) ==
            match e
            case WalWrite(p, c) => m[p := c]
            case WalDelete(p) => m - {p}
            case WalMove(src, p, c) => (m - {src})[p := c]
    ensures PrefixFree(ApplyEntry(m, e))
    ensures e.WalMove? ==> !Related(e.src, e.path)
  {
    NoClashUpdate(m, e.path, if e.WalDelete? then None else Some(e.content));
    if e.WalMove? {
      NoClashUpdate(m, e.src, None);
      NoClashUpdate(m - {e.src}, e.path, Some(e.content));
    }
  }

  lemma NoClashUpdate(m: map<Path, Blob>, p: Path, blob: Option<Blob>)
    requires PrefixFree(m) && ValidPath(p) && (p in m || !Clash(m, p))
    ensures Update(m, p, blob) == if blob.Some? then m[p := blob.value] else m - {p}
    ensures PrefixFree(Update(m, p, blob))
  {
    forall q | q in m && q != p ensures !Related(p, q) {
      assert p !in m ==> !Clash(m, p);
    }
    PlainUpdate(m, p, blob);
  }

  lemma EntryIdempotent(m: map<Path, Blob>, e: WalEntry)
    requires e.WalMove? ==> !Related(e.src, e.path)
    ensures ApplyEntry(ApplyEntry(m, e), e) == ApplyEntry(m, e)
  {
    match e
    case WalMove(src, p, c) => UpdateMoveIdempotent(m, src, p, c);
    case WalWrite(p, c) => UpdateIdempotent(m, p, Some(c));
    case WalDelete(p) => UpdateIdempotent(m, p, None);
  }

  lemma BuildTreeFlat(base: Tree, e: WalEntry)
    requires Canonical(base) && ValidEntry(e)
    ensures Canonical(BuildTree(base, e)) && Flat(BuildTree(base, e)) == ApplyEntry(Flat(base), e)
  {
    match e
    case WalMove(src, p, c) => FlatMove(base, src, p, c);
    case WalWrite(p, c) => ApplyCanonical(base, p, Some(c)); FlatApply(base, p, Some(c));
    case WalDelete(p) => ApplyCanonical(base, p, None); FlatApply(base, p, None);
  }

  lemma {:induction false} ReplayAppend(m: map<Path, Blob>, es: seq<WalEntry>, e: WalEntry)
    ensures Replay(m, es + [e]) == ApplyEntry(Replay(m, es), e)
    ensures CleanRun(m, es) && EntryClean(Replay(m, es), e) ==> CleanRun(m, es + [e])
    decreases |es|
  {
    if es == [] {
      assert es + [e] == [e];
      assert [e][1..] == [];
    } else {
      ReplayAppend(ApplyEntry(m, es[0]), es[1..], e);
      assert (es + [e])[1..] == es[1..] + [e];
    }
  }

  lemma {:induction false} CleanRunValid(m: map<Path, Blob>, es: seq<WalEntry>)
    requires CleanRun(m, es)
    ensures forall i :: 0 <= i < |es| ==> ValidEntry(es[i])
    decreases |es|
  {
    if es != [] {
      CleanRunValid(ApplyEntry(m, es[0]), es[1..]);
      forall i | 0 <= i < |es| ensures ValidEntry(es[i]) {
        assert i > 0 ==> es[i] == es[1..][i - 1];
      }
    }
  }

  lemma WholeLogValid(wal: seq<WalEntry>, landed: bool, head: map<Path, Blob>)
    requires CleanRun(head, if landed && wal != [] then wal[1..] else wal)
    requires landed && wal != [] ==> ValidEntry(wal[0])
    ensures forall i :: 0 <= i < |wal| ==> ValidEntry(wal[i])
  {
    hide CleanRun, ValidEntry;
    var pending := if landed && wal != [] then wal[1..] else wal;
    CleanRunValid(head, pending);
    forall i | 0 <= i < |wal| ensures ValidEntry(wal[i]) {
      assert landed && i > 0 ==> wal[i] == pending[i - 1];
    }
  }

  lemma WalValid(s: State)
    requires Inv(s)
    ensures forall i :: 0 <= i < |s.wal| ==> ValidEntry(s.wal[i])
  {
    hide HistoryInv, PrefixFree, Replay, CleanRun, Flat, ValidEntry, Etags, ApplyEntry, BuildTree;
    WholeLogValid(s.wal, s.landed, HeadFiles(s));
  }

  /** The invariant implies the agreement of HEAD, log, catalog and working tree. */
  lemma InvAgreement(s: State)
    requires Inv(s)
    ensures Agreement(s)
  {
    assert Managed(s) == s.files;
    if s.landed {
      assert CommitStepOk(s.history, |s.history| - 1);
      assert Canonical(HeadTree(s));
      BuildTreeFlat(HeadTree(s), s.wal[0]);
    }
    hide HistoryInv, Flat, Canonical, BuildTree, ApplyEntry, CleanRun, PrefixFree;
  }

  // -------------------------------------------------------- operations keep it

  lemma LogAppend(head: map<Path, Blob>, pending: seq<WalEntry>, files: map<Path, Blob>, e: WalEntry)
    requires LogInv(head, pending, files) && EntryClean(files, e)
    ensures LogInv(head, pending + [e], ApplyEntry(files, e))
  {
    CleanEntryEffect(files, e);
    ReplayAppend(head, pending, e);
  }

  /** A state that queued one clean entry and applied it to the files. */
  lemma AppendKeeps(s: State, t: State, e: WalEntry)
    requires Inv(s) && EntryClean(s.files, e)
    requires t.history == s.history && t.deleted == s.deleted && t.landed == s.landed && t.lagging == s.lagging
    requires t.wal == s.wal + [e]
    requires t.files == ApplyEntry(s.files, e)
    requires t.catalog == Etags(t.files)
    ensures Inv(t)
  {
    hide HistoryInv, LogInv, LandedInv, Flat, ApplyEntry, EntryClean;
    assert Pending(t) == Pending(s) + [e];
    LogAppend(HeadFiles(s), Pending(s), s.files, e);
  }

  lemma WriteKeeps(s: State, p: Path, ifMatch: Option<Etag>, requireExisting: bool,
                   transform: Blob -> Option<Blob>, fault: Fault)
    requires Inv(s) && ValidPath(p)
    requires !Partial(WriteOutcome(s, p, ifMatch, requireExisting, transform, fault))
    ensures Inv(WriteNext(s, p, ifMatch, requireExisting, transform, fault))
  {
    var t := WriteNext(s, p, ifMatch, requireExisting, transform, fault);
    match WriteOutcome(s, p, ifMatch, requireExisting, transform, fault)
    case Failed(_) =>
    case Done(etag) =>
      var e := WalWrite(p, etag.of);
      WrittenEtags(s.files, p, etag.of);
      CleanEntryEffect(s.files, e);
      AppendKeeps(s, t, e);
  }

  lemma WrittenEtags(m: map<Path, Blob>, p: Path, c: Blob)
    ensures Etags(m[p := c]) == Etags(m)[p := Sha(c)]
    ensures Etags(m - {p}) == Etags(m) - {p}
  {
  }

  lemma DeleteKeeps(s: State, p: Path, ifMatch: Option<Etag>, fault: Fault)
    requires Inv(s) && ValidPath(p)
    requires !Partial(DeleteOutcome(s, p, ifMatch, fault))
    ensures Inv(DeleteNext(s, p, ifMatch, fault))
  {
    var t := DeleteNext(s, p, ifMatch, fault);
    if DeleteOutcome(s, p, ifMatch, fault).Done? {
      var e := WalDelete(p);
      WrittenEtags(s.files, p, "");
      CleanEntryEffect(s.files, e);
      AppendKeeps(s, t, e);
    }
  }

  lemma MoveKeeps(s: State, src: Path, dst: Path, ifMatch: Option<Etag>, fault: Fault)
    requires Inv(s) && ValidPath(src) && ValidPath(dst)
    requires !Partial(MoveOutcome(s, src, dst, ifMatch, fault))
    ensures Inv(MoveNext(s, src, dst, ifMatch, fault))
  {
    var t := MoveNext(s, src, dst, ifMatch, fault);
    match MoveOutcome(s, src, dst, ifMatch, fault)
    case Failed(_) =>
    case Done(etag) =>
      var e := WalMove(src, dst, etag.of);
      MovedEtags(s.files, src, dst, etag.of);
      CleanEntryEffect(s.files, e);
      AppendKeeps(s, t, e);
  }

  lemma MovedEtags(m: map<Path, Blob>, src: Path, dst: Path, c: Blob)
    ensures Etags((m - {src})[dst := c]) == (Etags(m) - {src})[dst := Sha(c)]
  {
  }

  // ---------------------------------------------- operations that fail halfway

  lemma InvReplay(s: State)
    requires Inv(s)
    ensures Replay(HeadFiles(s), s.wal) == s.files && s.catalog == Etags(s.files) && PrefixFree(s.files)
  {
    InvAgreement(s);
    hide HistoryInv, LandedInv, Flat, Replay, PrefixFree;
    assert Managed(s) == s.files;
  }

  /** Bytes that reached the file but not log and catalog: no harm exactly at an unmanaged path or with equal bytes. */
  lemma UnloggedBytes(s: State, p: Path, c: Blob)
    requires Inv(s)
    ensures Agreement(s.(files := s.files[p := c])) <==> p !in s.files || s.files[p] == c
  {
    InvReplay(s);
    hide Inv, Flat, Replay;
    var t := s.(files := s.files[p := c]);
    if p !in s.files {
      assert Managed(t) == s.files;
    } else if s.files[p] == c {
      assert t.files == s.files && Managed(t) == s.files;
    } else {
      assert p in s.catalog && s.catalog[p] != Sha(c);
    }
  }

  /** A write whose log entry is refused leaves agreement exactly when the path is new or the bytes are the old ones. */
  lemma UnloggedWriteAgreement(s: State, p: Path, ifMatch: Option<Etag>, requireExisting: bool,
                               transform: Blob -> Option<Blob>)
    requires Inv(s) && ValidPath(p)
    requires WriteOutcome(s, p, ifMatch, requireExisting, transform, LogFault) == Failed(LogFailed)
    ensures Agreement(WriteNext(s, p, ifMatch, requireExisting, transform, LogFault)) <==>
            p !in s.files || transform(s.files[p]) == Some(s.files[p])
  {
    UnloggedBytes(s, p, transform(Current(s.files, p)).value);
  }

  /** A delete whose log entry is refused has dropped the path from the catalog: agreement is left exactly when there was no file. */
  lemma UnloggedDeleteAgreement(s: State, p: Path, ifMatch: Option<Etag>)
    requires Inv(s) && ValidPath(p)
    requires DeleteOutcome(s, p, ifMatch, LogFault) == Failed(LogFailed)
    ensures Agreement(DeleteNext(s, p, ifMatch, LogFault)) <==> p !in s.files
  {
    InvReplay(s);
    hide Inv, Flat, Replay;
    var t := DeleteNext(s, p, ifMatch, LogFault);
    if p !in s.files {
      assert t == s && Managed(t) == s.files;
    } else {
      assert p !in Managed(t);
    }
  }

  /**
   * A delete whose removal fails has already queued its entry. Agreement then
   * survives exactly when no managed file lies above or below the path.
   */
  lemma FailedDeleteAgreement(s: State, p: Path, ifMatch: Option<Etag>, fault: Fault)
    requires Inv(s) && ValidPath(p)
    requires DeleteOutcome(s, p, ifMatch, fault) == Failed(RemoveFailed)
    ensures Agreement(DeleteNext(s, p, ifMatch, fault)) <==> !Clash(s.files, p)
  {
    QueuedDelete(s, DeleteNext(s, p, ifMatch, fault), p);
    ClashSeenByDelete(s.files, p);
  }

  lemma QueuedDelete(s: State, t: State, p: Path)
    requires Inv(s) && t == s.(catalog := s.catalog - {p}, wal := s.wal + [WalDelete(p)])
    ensures Replay(HeadFiles(t), t.wal) == Update(s.files, p, None)
    ensures Managed(t) == s.files - {p}
    ensures Agreement(t) <==> Update(s.files, p, None) == s.files - {p}
  {
    InvReplay(s);
    UncataloguedIsManaged(s, t, p);
    hide Inv, Flat, Related, Replay, Managed, Update, Etags;
    ReplayAppend(HeadFiles(s), s.wal, WalDelete(p));
  }

  lemma UncataloguedIsManaged(s: State, t: State, p: Path)
    requires s.catalog == Etags(s.files) && t == s.(catalog := s.catalog - {p}, wal := t.wal)
    ensures Managed(t) == s.files - {p} && t.catalog == Etags(Managed(t))
  {
  }

  /** The log entry of a delete removes more than the path itself exactly when a file clashes with it. */
  lemma ClashSeenByDelete(m: map<Path, Blob>, p: Path)
    ensures Update(m, p, None) == m - {p} <==> !Clash(m, p)
  {
    if Clash(m, p) {
      var q :| q in m && q != p && Related(p, q);
      assert q in m - {p} && q !in Update(m, p, None);
    }
  }

  /**
   * A move whose source cannot be removed has already written the destination, and
   * neither catalog nor log follow. Agreement survives exactly when the destination
   * was new or held the same bytes.
   */
  lemma FailedMoveAgreement(s: State, src: Path, dst: Path, ifMatch: Option<Etag>)
    requires Inv(s) && ValidPath(src) && ValidPath(dst)
    requires MoveOutcome(s, src, dst, ifMatch, RemoveFault) == Failed(RemoveFailed)
    ensures Agreement(MoveNext(s, src, dst, ifMatch, RemoveFault)) <==>
            dst !in s.files || s.files[dst] == s.files[src]
  {
    UnloggedBytes(s, dst, s.files[src]);
  }

  /** A move whose log entry is refused never leaves agreement: HEAD and log still hold the source. */
  lemma UnloggedMoveDisagrees(s: State, src: Path, dst: Path, ifMatch: Option<Etag>)
    requires Inv(s) && ValidPath(src) && ValidPath(dst)
    requires MoveOutcome(s, src, dst, ifMatch, LogFault) == Failed(LogFailed)
    ensures !Agreement(MoveNext(s, src, dst, ifMatch, LogFault))
  {
    InvReplay(s);
    LostFile(s, MoveNext(s, src, dst, ifMatch, LogFault), src);
  }

  lemma LostFile(s: State, t: State, p: Path)
    requires Replay(HeadFiles(s), s.wal) == s.files && t.history == s.history && t.wal == s.wal
    requires p in s.files && p !in t.files
    ensures !Agreement(t)
  {
    hide Flat, Replay;
    assert p !in Managed(t);
  }

  /** What a write leaves behind, by its answer. */
  ghost predicate AfterWrite(s: State, p: Path, r: Outcome, t: State) {
    && (!Partial(r) ==> Inv(t))
    && (r == Failed(LogFailed) ==> p in t.files && (Agreement(t) <==> p !in s.files || t.files[p] == s.files[p]))
  }

  ghost predicate AfterDelete(s: State, p: Path, r: Outcome, t: State) {
    && (!Partial(r) ==> Inv(t))
    && (r == Failed(RemoveFailed) ==> (Agreement(t) <==> !Clash(s.files, p)))
    && (r == Failed(LogFailed) ==> (Agreement(t) <==> p !in s.files))
  }

  ghost predicate AfterMove(s: State, src: Path, dst: Path, r: Outcome, t: State) {
    && (!Partial(r) ==> Inv(t))
    && (r == Failed(RemoveFailed) ==> src in s.files && (Agreement(t) <==> dst !in s.files || s.files[dst] == s.files[src]))
    && (r == Failed(LogFailed) ==> !Agreement(t))
  }

  lemma WriteAgreement(s: State, p: Path, ifMatch: Option<Etag>, requireExisting: bool,
                       transform: Blob -> Option<Blob>, fault: Fault)
    requires Inv(s) && ValidPath(p)
    ensures AfterWrite(s, p, WriteOutcome(s, p, ifMatch, requireExisting, transform, fault),
                       WriteNext(s, p, ifMatch, requireExisting, transform, fault))
  {
    hide Inv, Agreement, Flat, PrefixFree, ValidPath, Clash;
    if Partial(WriteOutcome(s, p, ifMatch, requireExisting, transform, fault)) {
      UnloggedWriteAgreement(s, p, ifMatch, requireExisting, transform);
    } else {
      WriteKeeps(s, p, ifMatch, requireExisting, transform, fault);
    }
  }

  lemma DeleteAgreement(s: State, p: Path, ifMatch: Option<Etag>, fault: Fault)
    requires Inv(s) && ValidPath(p)
    ensures AfterDelete(s, p, DeleteOutcome(s, p, ifMatch, fault), DeleteNext(s, p, ifMatch, fault))
  {
    hide Inv, Agreement, Flat, PrefixFree, ValidPath, Clash;
    match DeleteOutcome(s, p, ifMatch, fault)
    case Failed(RemoveFailed) => FailedDeleteAgreement(s, p, ifMatch, fault);
    case Failed(LogFailed) => UnloggedDeleteAgreement(s, p, ifMatch);
    case _ => DeleteKeeps(s, p, ifMatch, fault);
  }

  lemma MoveAgreement(s: State, src: Path, dst: Path, ifMatch: Option<Etag>, fault: Fault)
    requires Inv(s) && ValidPath(src) && ValidPath(dst)
    ensures AfterMove(s, src, dst, MoveOutcome(s, src, dst, ifMatch, fault), MoveNext(s, src, dst, ifMatch, fault))
  {
    hide Inv, Agreement, Flat, PrefixFree, ValidPath, Clash;
    match MoveOutcome(s, src, dst, ifMatch, fault)
    case Failed(RemoveFailed) => FailedMoveAgreement(s, src, dst, ifMatch);
    case Failed(LogFailed) => UnloggedMoveDisagrees(s, src, dst, ifMatch);
    case _ => MoveKeeps(s, src, dst, ifMatch, fault);
  }

  /**
   * Locks are per path, and a move extends the log after it has removed its source. A
   * write to another path that slips in between is logged first; the move's entry then
   * undoes it in HEAD exactly when that path lies above or below the moved source.
   */
  lemma WriteInMoveGap(s: State, src: Path, dst: Path, q: Path, c: Blob, t: State)
    requires Inv(s) && ValidPath(src) && ValidPath(dst) && ValidPath(q)
    requires src in s.files && src != dst && !Clash(s.files, dst) && q != src && q != dst
    requires var moved := (s.files - {src})[dst := s.files[src]];
             && !Clash(moved, q)
             && t == s.(files := moved[q := c], catalog := Etags(moved[q := c]),
                        wal := s.wal + [WalWrite(q, c)] + [WalMove(src, dst, s.files[src])])
    ensures Agreement(t) <==> !Related(src, q)
    ensures Related(src, q) ==> q in t.files && q !in Replay(HeadFiles(t), t.wal)
  {
    hide *;
    InvReplay(s);
    SameHead(s, t);
    GapReplay(s, q, c, src, dst);
    GapEffect(s.files, src, dst, q, c);
    EtaggedAgreement(t);
  }

  lemma SameHead(s: State, t: State)
    requires s.history == t.history
    ensures HeadFiles(s) == HeadFiles(t)
  {
    hide Flat;
  }

  lemma EtaggedAgreement(t: State)
    requires t.catalog == Etags(t.files)
    ensures Agreement(t) <==> Replay(HeadFiles(t), t.wal) == t.files
  {
    hide Flat, Replay;
    assert Managed(t) == t.files;
  }

  lemma GapReplay(s: State, q: Path, c: Blob, src: Path, dst: Path)
    requires Replay(HeadFiles(s), s.wal) == s.files && src in s.files
    ensures Replay(HeadFiles(s), s.wal + [WalWrite(q, c)] + [WalMove(src, dst, s.files[src])])
         == ApplyEntry(ApplyEntry(s.files, WalWrite(q, c)), WalMove(src, dst, s.files[src]))
  {
    hide Flat, Replay, ApplyEntry;
    ReplayAppend(HeadFiles(s), s.wal, WalWrite(q, c));
    ReplayAppend(HeadFiles(s), s.wal + [WalWrite(q, c)], WalMove(src, dst, s.files[src]));
  }

  /** Who is above or below whom when a write slips into a move. */
  lemma GapApart(m: map<Path, Blob>, src: Path, dst: Path, q: Path)
    requires PrefixFree(m) && src in m && src != dst && !Clash(m, dst) && q != src && q != dst
    requires !Clash((m - {src})[dst := m[src]], q)
    ensures !Related(dst, q)
    ensures forall p :: p in m && p != q && p != src ==> !Related(q, p)
    ensures forall p :: p in m && p != src ==> !Related(src, p)
    ensures forall p :: p in m && p != dst ==> !Related(dst, p)
    ensures Related(q, src) == Related(src, q)
  {
    var moved := (m - {src})[dst := m[src]];
    assert dst in moved && !Related(q, dst);
    forall p | p in m && p != q && p != src ensures !Related(q, p) {
      assert p in moved;
    }
  }

  lemma GapEffect(m: map<Path, Blob>, src: Path, dst: Path, q: Path, c: Blob)
    requires PrefixFree(m) && src in m && src != dst && !Clash(m, dst) && q != src && q != dst
    requires !Clash((m - {src})[dst := m[src]], q)
    ensures var logged := ApplyEntry(ApplyEntry(m, WalWrite(q, c)), WalMove(src, dst, m[src]));
            && (Related(src, q) ==> q !in logged)
            && (!Related(src, q) ==> logged == (m - {src})[dst := m[src]][q := c])
  {
    GapApart(m, src, dst, q);
    hide Related, PrefixFree, Clash, Update;
    if Related(src, q) {
      GapUndone(Update(m, q, Some(c)), src, dst, q, m[src]);
    } else {
      GapKept(m, src, dst, q, c);
    }
  }

  lemma GapUndone(once: map<Path, Blob>, src: Path, dst: Path, q: Path, moved: Blob)
    requires Related(src, q) && q != dst
    ensures q !in ApplyEntry(once, WalMove(src, dst, moved))
  {
    hide Related;
  }

  lemma GapKept(m: map<Path, Blob>, src: Path, dst: Path, q: Path, c: Blob)
    requires src in m && src != dst && q != src && q != dst && !Related(src, q) && !Related(q, src) && !Related(dst, q)
    requires forall p :: p in m && p != q && p != src ==> !Related(q, p)
    requires forall p :: p in m && p != src ==> !Related(src, p)
    requires forall p :: p in m && p != dst ==> !Related(dst, p)
    ensures ApplyEntry(ApplyEntry(m, WalWrite(q, c)), WalMove(src, dst, m[src])) == (m - {src})[dst := m[src]][q := c]
  {
    hide Related, Update;
    PlainUpdate(m, q, Some(c));
    PlainUpdate(m[q := c], src, None);
    PlainUpdate(m[q := c] - {src}, dst, Some(m[src]));
  }

  /** Where nothing else is above or below, an update touches the path alone. */
  lemma PlainUpdate(m: map<Path, Blob>, p: Path, blob: Option<Blob>)
    requires forall x :: x in m && x != p ==> !Related(p, x)
    ensures Update(m, p, blob) == if blob.Some? then m[p := blob.value] else m - {p}
  {
    SelfRelated(p);
    hide Related;
  }

  lemma SelfRelated(p: Path)
    ensures Related(p, p)
  {
  }
}
