/**
 * One project's storage (internal/storage/fs_git.go, move.go, partialedit.go,
 * commit.go, deletedlog_revive.go): the file operations and the commit worker as
 * methods on mutable fields, each tied to the state machine in `Protocol`.
 */
module Storage {
  import opened Wrappers
  import opened GitTree
  import opened Protocol
  import opened ProtocolRuns
  import opened RecordRuns
  import DL = DeletedLog
  import PartialEdit

  class ProjectStorage {
    var files: map<Path, Blob>
    var catalog: map<Path, Etag>
    var wal: seq<WalEntry>
    var history: seq<Commit>
    var deleted: DL.Records
    /** The oldest log entry is committed and only awaits its removal. */
    ghost var landed: bool
    /** Paths whose deleted records a crash may have left behind. */
    ghost var lagging: set<Path>

    ghost function St(): State
      reads this
    {
      State(files, catalog, wal, history, deleted, landed, lagging)
    }

    constructor ()
      ensures St() == EMPTY_PROJECT && Inv(St())
    {
      files, catalog, wal, history, deleted, landed, lagging := map[], map[], [], [], map[], false, {};
      new;
      EmptyInv();
    }

    /** The shared read-modify-write section behind write, append, patch and link repair: file, then log, then catalog. */
    method WriteTransformed(path: Path, ifMatch: Option<Etag>, requireExisting: bool,
                            transform: Blob -> Option<Blob>, fault: Fault) returns (r: Outcome)
      requires ValidPath(path)
      modifies this
      ensures r == WriteOutcome(old(St()), path, ifMatch, requireExisting, transform, fault)
      ensures St() == WriteNext(old(St()), path, ifMatch, requireExisting, transform, fault)
      ensures old(Inv(St())) ==> AfterWrite(old(St()), path, r, St())
      ensures WritePromise(old(St()), path, ifMatch, requireExisting, transform, fault, r, St())
    {
      hide Inv, AfterWrite, Flat, PrefixFree, ValidPath, WritePromise;
      WriteKeepsPromise(St(), path, ifMatch, requireExisting, transform, fault);
      if Inv(St()) {
        WriteAgreement(St(), path, ifMatch, requireExisting, transform, fault);
      }
      var present := path in files;
      var current := if present then files[path] else "";
      if requireExisting && !present && !Clash(files, path) {
        return Failed(FileNotFound);
      }
      if ifMatch.Some? && ifMatch.value != Sha(current) {
        return Failed(VersionConflict(Sha(current)));
      }
      var content := transform(current);
      if content.None? {
        return Failed(Rejected);
      }
      if fault.WriteFault? || Clash(files, path) {
        return Failed(IoError);
      }
      files := files[path := content.value];
      if fault.LogFault? {
        return Failed(LogFailed);
      }
      wal := wal + [WalWrite(path, content.value)];
      catalog := catalog[path := Sha(content.value)];
      r := Done(Sha(content.value));
    }

    method Write(path: Path, content: Blob, ifMatch: Option<Etag>, fault: Fault) returns (r: Outcome)
      requires ValidPath(path)
      modifies this
      ensures old(Inv(St())) && !Partial(r) ==> Inv(St())
      ensures r.Done? ==> r.etag == Sha(content) && files == old(files)[path := content]
      ensures r.Done? && ifMatch.Some? ==> Current(old(files), path) == ifMatch.value.of
      ensures r == Failed(LogFailed) ==> files == old(files)[path := content] && wal == old(wal) && catalog == old(catalog)
      ensures r.Failed? && !Partial(r) ==> St() == old(St())
    {
      r := WriteTransformed(path, ifMatch, false, Constant(content), fault);
    }

    /** Edits an existing file only; the bytes are those of `SpliceAppend` on the file's own bytes. */
    method AppendToFile(path: Path, content: Blob, position: string, anchor: Blob, ifMatch: Option<Etag>, fault: Fault)
      returns (r: Outcome)
      requires ValidPath(path)
      modifies this
      ensures old(Inv(St())) && !Partial(r) ==> Inv(St())
      ensures r.Done? ==> path in old(files)
                          && PartialEdit.SpliceAppend(old(files)[path], content, position, anchor) == PartialEdit.Edited(r.etag.of)
                          && files == old(files)[path := r.etag.of]
      ensures path !in old(files) ==> r.Failed? && St() == old(St())
      ensures r.Failed? && !Partial(r) ==> St() == old(St())
    {
      r := WriteTransformed(path, ifMatch, true,
                            cur => EditBytes(PartialEdit.SpliceAppend(cur, content, position, anchor)), fault);
    }

    method PatchFile(path: Path, oldString: Blob, newString: Blob, ifMatch: Option<Etag>, fault: Fault) returns (r: Outcome)
      requires ValidPath(path)
      modifies this
      ensures old(Inv(St())) && !Partial(r) ==> Inv(St())
      ensures r.Done? ==> PartialEdit.SplicePatch(Current(old(files), path), oldString, newString) == PartialEdit.Edited(r.etag.of)
                          && files == old(files)[path := r.etag.of]
      ensures r.Failed? && !Partial(r) ==> St() == old(St())
    {
      r := WriteTransformed(path, ifMatch, false,
                            cur => EditBytes(PartialEdit.SplicePatch(cur, oldString, newString)), fault);
    }

    /** Catalog, then log, then working tree. A removal that fails leaves the entry queued behind it. */
    method DeleteFile(path: Path, ifMatch: Option<Etag>, fault: Fault) returns (r: Outcome)
      requires ValidPath(path)
      modifies this
      ensures r == DeleteOutcome(old(St()), path, ifMatch, fault)
      ensures St() == DeleteNext(old(St()), path, ifMatch, fault)
      ensures old(Inv(St())) ==> AfterDelete(old(St()), path, r, St())
      ensures DeletePromise(old(St()), path, ifMatch, fault, r, St())
    {
      hide Inv, AfterDelete, Flat, ValidPath, DeletePromise;
      DeleteKeepsPromise(St(), path, ifMatch, fault);
      if Inv(St()) {
        DeleteAgreement(St(), path, ifMatch, fault);
      }
      var current := if path in files then files[path] else "";
      if ifMatch.Some? && ifMatch.value != Sha(current) {
        return Failed(VersionConflict(Sha(current)));
      }
      catalog := catalog - {path};
      if fault.LogFault? {
        return Failed(LogFailed);
      }
      wal := wal + [WalDelete(path)];
      if fault.RemoveFault? || Clash(files, path) {
        return Failed(RemoveFailed);
      }
      files := files - {path};
      r := Done(Sha(current));
    }

    /** The dual if_match rule, and no overwrite unasked. */
    method CheckMove(src: Path, dst: Path, ifMatch: Option<Etag>) returns (refusal: Option<Error>)
      ensures refusal == MoveRefusal(files, src, dst, ifMatch)
      ensures src == dst ==> refusal == Some(SamePath)
      ensures src != dst && src !in files ==> refusal == Some(SourceNotFound)
      ensures src != dst && src in files ==>
                var guarded := if dst in files then files[dst] else files[src];
                refusal == if (if dst in files then ifMatch == Some(Sha(guarded)) else ifMatch.Some? ==> ifMatch.value.of == guarded)
                           then None else Some(VersionConflict(Sha(guarded)))
    {
      if src == dst {
        return Some(SamePath);
      }
      if src !in files {
        return Some(SourceNotFound);
      }
      if dst in files {
        if ifMatch.None? || ifMatch.value != Sha(files[dst]) {
          return Some(VersionConflict(Sha(files[dst])));
        }
      } else if ifMatch.Some? && ifMatch.value != Sha(files[src]) {
        return Some(VersionConflict(Sha(files[src])));
      }
      refusal := None;
    }

    /** Destination first, source last, then catalog and one log entry for both. */
    method Move(src: Path, dst: Path, ifMatch: Option<Etag>, fault: Fault) returns (r: Outcome)
      requires ValidPath(src) && ValidPath(dst)
      modifies this
      ensures r == MoveOutcome(old(St()), src, dst, ifMatch, fault)
      ensures St() == MoveNext(old(St()), src, dst, ifMatch, fault)
      ensures old(Inv(St())) ==> AfterMove(old(St()), src, dst, r, St())
      ensures MovePromise(old(St()), src, dst, ifMatch, fault, r, St())
    {
      hide Inv, AfterMove, Flat, PrefixFree, ValidPath, Clash, MoveRefusal, MovePromise;
      MoveKeepsPromise(St(), src, dst, ifMatch, fault);
      if Inv(St()) {
        MoveAgreement(St(), src, dst, ifMatch, fault);
      }
      var refusal := CheckMove(src, dst, ifMatch);
      if refusal.Some? {
        return Failed(refusal.value);
      }
      var content := files[src];
      if fault.WriteFault? || Clash(files, dst) {
        return Failed(IoError);
      }
      ghost var files0 := files;
      files := files[dst := content];
      if fault.RemoveFault? {
        return Failed(RemoveFailed);
      }
      files := files - {src};
      assert files == (files0 - {src})[dst := content];
      catalog := catalog - {src};
      catalog := catalog[dst := Sha(content)];
      if fault.LogFault? {
        return Failed(LogFailed);
      }
      wal := wal + [WalMove(src, dst, content)];
      r := Done(Sha(content));
    }

    /** Commits the oldest pending entry, unless it is committed already; a crash after that leaves the records behind. */
    method CommitEntry(crash: bool)
      requires Inv(St()) && wal != []
      modifies `history, `deleted, `landed, `lagging
      ensures Inv(St()) && landed
      ensures forall i :: 0 <= i < |old(wal)| ==> ValidEntry(old(wal)[i])
      ensures St() == if crash then CommitCrashNext(old(St())) else CommitNext(old(St()))
      ensures history == old(history) || |history| == |old(history)| + 1
      ensures old(history) <= history
      ensures old(landed) ==> St() == old(St())
    {
      hide HistoryInv, LogInv, LandedInv, Flat, ApplyToTree, BuildMoveTree, ValidEntry, DL.Hook, EntryPaths;
      CommitKeeps(St());
      if landed { RedoIsSilent(St()); }
      var e := wal[0];
      var base := if history == [] then [] else history[|history| - 1].tree;
      var tree := BuildTree(base, e);
      if history == [] || tree != base {
        var n := |history|;
        history := history + [Commit(tree, OpMetaForEntry(e))];
        if crash {
          lagging := lagging + EntryPaths(e);
        } else {
          deleted, lagging := DL.Hook(deleted, OpMetaForEntry(e), n), lagging - EntryPaths(e);
        }
      }
      landed := true;
    }

    /** Removes the oldest entry after its commit. */
    method RemoveEntry()
      requires Inv(St()) && wal != [] && landed
      modifies `wal, `landed
      ensures Inv(St()) && !landed && wal == old(wal)[1..]
    {
      RemoveKeeps(St());
      wal, landed := wal[1..], false;
    }

    /** The worker on a quiet project: entry by entry until the log is empty; HEAD then holds exactly the working tree. */
    method DrainLog()
      requires Inv(St())
      modifies `wal, `landed, `history, `deleted, `lagging
      ensures Inv(St()) && wal == []
      ensures HeadFiles(St()) == files
      ensures old(history) <= history
    {
      hide HistoryInv, LogInv, LandedInv, Flat, ValidEntry, CommitNext;
      while wal != []
        invariant Inv(St()) && old(history) <= history
        decreases |wal|
      {
        CommitEntry(false);
        RemoveEntry();
      }
      InvAgreement(St());
      assert Managed(St()) == files;
    }

    /** Replaces the deleted-file log by the bounded repair walk. */
    method RebuildDeletedLog(repairDepth: int)
      requires Inv(St())
      modifies `deleted, `lagging
      ensures Inv(St()) && Rebuilt(old(St()), St(), repairDepth)
    {
      deleted := DL.WalkDeletedNetState(View(history), repairDepth);
      lagging := {};
      RebuiltKeeps(old(St()), St(), repairDepth);
    }

    /** Re-creates a deleted file from its deletion commit's parent; a diverged record rebuilds the log instead. */
    method ReviveFile(path: Path, fromCommit: Option<nat>, repairDepth: int, fault: Fault) returns (r: Outcome)
      requires ValidPath(path) && Inv(St())
      modifies this
      ensures Revived(old(St()), path, fromCommit, fault, St())
      ensures RevivePromise(old(St()), path, fromCommit, fault, r, St())
      ensures !Partial(r) ==> Inv(St())
      ensures r.Done? ==> deleted == old(deleted) - {path} && ReviveContent(old(St()), path, fromCommit) == Some(r.etag.of)
                          && files == old(files)[path := r.etag.of]
      ensures r.Failed? && !Partial(r) ==> St() == old(St()).(deleted := deleted, lagging := lagging)
    {
      hide HistoryInv, LogInv, LandedInv, Flat, View, RevivePromise;
      var h := View(history);
      var commit := fromCommit;
      if commit.None? && path in deleted {
        commit := Some(deleted[path]);
      }
      if commit.None? {
        commit := DL.FindDeletionCommit(h, path);
        if commit.None? {
          ReviveKeepsPromise(St(), path, fromCommit, fault, Failed(Diverged), St());
          return Failed(Diverged);
        }
      }
      assert commit == ResolveDeletion(St(), path, fromCommit);
      var content := DL.ContentAtDeletionParent(h, commit.value, path);
      if content.None? {
        ghost var s := St();
        RebuildDeletedLog(repairDepth);
        ReviveKeepsPromise(s, path, fromCommit, fault, Failed(Diverged), St());
        return Failed(Diverged);
      }
      ghost var s := St();
      r := WriteTransformed(path, None, false, Constant(content.value), fault);
      if r.Done? {
        DropRecordKeeps(St(), path);
        deleted := deleted - {path};
      }
      ReviveKeepsPromise(s, path, fromCommit, fault, r, St());
    }
  }

  function EditBytes(r: PartialEdit.EditResult): Option<Blob> {
    match r
    case Edited(out) => Some(out)
    case _ => None
  }
}
