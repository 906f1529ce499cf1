/**
 * The special operations as the server performs them: checks first, then one durable
 * effect after another on its disk, until the process dies or a step fails. Each
 * method is proved to leave the disk where the step programs of SpecialOps say.
 */
module OpServer {
  import opened Wrappers
  import opened SpecialOps
  import opened OpRecovery

  class Server {
    var disk: Disk
    /** How many more effects the process lives to perform. */
    var lifetime: nat
    const cleaner: bool

    constructor (disk: Disk, lifetime: nat, cleaner: bool)
      ensures this.disk == disk && this.lifetime == lifetime && this.cleaner == cleaner
    {
      this.disk, this.lifetime, this.cleaner := disk, lifetime, cleaner;
    }

    /** One effect of a program whose remaining steps are `todo`; `go` is false when the program ends here. */
    method Apply(step: Step, ghost todo: seq<Step>) returns (go: bool)
      requires todo != [] && todo[0] == step
      modifies this`disk, this`lifetime
      ensures old(Prefix(disk, todo, lifetime)) == if go then Prefix(disk, todo[1..], lifetime) else disk
    {
      if lifetime == 0 {
        return false;
      }
      lifetime := lifetime - 1;
      match Do(disk, step.micro)
      case Some(d) =>
        disk := d;
        go := true;
      case None =>
        go := step.bestEffort;
    }

    /** The idempotent remainder: sibling databases one by one, then the registry, then grants. */
    method CompleteAfterRename(op: Op, src: Key, dst: Key, faults: Faults, ghost rest: seq<Step>) returns (go: bool)
      modifies this`disk, this`lifetime
      ensures old(Prefix(disk, Work(op, src, dst, cleaner, faults) + rest, lifetime)) ==
              if go then Prefix(disk, rest, lifetime) else disk
    {
      hide Prefix, Do;
      ghost var todo := Work(op, src, dst, cleaner, faults) + rest;
      ghost var goal := Prefix(disk, todo, lifetime);
      if op != OpRenameNamespace {
        var kinds := [CatalogDb, IndexDb, DeletedLogDb, VectorDb];
        ghost var all := todo;
        for i := 0 to |kinds|
          invariant todo == all[i..]
          invariant Prefix(disk, todo, lifetime) == goal
        {
          go := Apply(Step(RelocateSibling(src, dst, kinds[i], faults(kinds[i])), false), todo);
          if !go {
            return;
          }
          todo := todo[1..];
        }
      }
      assert todo == [Step(RegistryStep(op, src, dst), false)] + GrantSteps(op, src, dst, cleaner, false) + rest;
      go := Apply(Step(RegistryStep(op, src, dst), false), todo);
      if go && cleaner {
        assert todo[1..] == GrantSteps(op, src, dst, cleaner, false) + rest;
        go := RewriteGrants(op, src, dst, false, rest);
      } else {
        assert !cleaner ==> todo[1..] == rest;
      }
    }

    /**
     * Project move, project rename and namespace rename share one shape: checks, journal,
     * rename, remainder, clear. `leaseHeld`: a write is in progress on a project concerned.
     */
    method Relabel(op: Op, src: Key, dst: Key, namesValid: bool, leaseHeld: bool, faults: Faults, renameFails: bool)
      returns (accepted: bool)
      modifies this`disk, this`lifetime
      ensures accepted == (namesValid && !leaseHeld && Admitted(old(disk), op, src, dst))
      ensures op == OpMove && namesValid && !leaseHeld && src.project == dst.project ==>
                (accepted <==> src.ns != dst.ns && src in old(disk).repos && dst !in old(disk).repos
                               && dst.ns in old(disk).registry && dst.project !in old(disk).registry[dst.ns])
      ensures op == OpRenameProject && namesValid && !leaseHeld && src.ns == dst.ns ==>
                (accepted <==> src.project != dst.project && src in old(disk).repos && dst !in old(disk).repos
                               && (dst.ns in old(disk).registry ==> dst.project !in old(disk).registry[dst.ns]))
      ensures op == OpRenameNamespace && namesValid && !leaseHeld && src.project == dst.project == "" ==>
                (accepted <==> src.ns != dst.ns && "default" !in {src.ns, dst.ns} && dst.ns !in old(disk).nsDirs
                               && src.ns in old(disk).registry && dst.ns !in old(disk).registry)
      ensures !accepted ==> disk == old(disk)
      ensures accepted ==> disk == Prefix(old(disk), Live(old(disk), op, src, dst, cleaner, faults, renameFails), old(lifetime))
    {
      accepted := namesValid && Admitted(disk, op, src, dst) && !leaseHeld;
      if !accepted {
        return;
      }
      hide Prefix, Do, Complete, Work, Admitted, HasProject;
      ghost var todo := Live(disk, op, src, dst, cleaner, faults, renameFails);
      ghost var goal := Prefix(disk, todo, lifetime);
      var renames := !renameFails && AtOld(disk, op, src);
      var go := Apply(Step(SetJournal(Journal(op, src, dst, false)), false), todo);
      if !go {
        return;
      }
      todo := todo[1..];
      if !renames {
        assert todo == [CLEAR];
        go := Apply(Step(ClearJournal, false), todo);
        EndOfProgram(disk, todo[1..], lifetime);
        return;
      }
      var complete := Complete(op, src, dst, cleaner, faults);
      go := Apply(Step(RenameStep(op, src, dst), false), todo);
      if !go {
        return;
      }
      todo := todo[1..];
      assert todo == [Step(SetJournal(Journal(op, src, dst, true)), false)] + complete;
      go := Apply(Step(SetJournal(Journal(op, src, dst, true)), false), todo);
      if !go {
        return;
      }
      assert todo[1..] == complete;
      Finish(op, src, dst, faults);
    }

    /** The remainder and, when it ends well, the clearing of the journal. */
    method Finish(op: Op, src: Key, dst: Key, faults: Faults)
      modifies this`disk, this`lifetime
      ensures disk == old(Prefix(disk, Complete(op, src, dst, cleaner, faults), lifetime))
    {
      assert Complete(op, src, dst, cleaner, faults) == Work(op, src, dst, cleaner, faults) + [CLEAR];
      hide Prefix, Do, Complete, Work;
      var go := CompleteAfterRename(op, src, dst, faults, [CLEAR]);
      if go {
        go := Apply(Step(ClearJournal, false), [CLEAR]);
        EndOfProgram(disk, [CLEAR][1..], lifetime);
      }
    }

    /** The record goes back to the source name if it had reached the target; a move re-adds it otherwise. */
    method RestoreRegistry(op: Op, src: Key, dst: Key, ghost rest: seq<Step>) returns (go: bool)
      modifies this`disk, this`lifetime
      ensures old(Prefix(disk, RegistryRestore(disk, op, src, dst) + rest, lifetime)) ==
              if go then Prefix(disk, rest, lifetime) else disk
    {
      hide Prefix, Do, HasProject;
      ghost var todo := RegistryRestore(disk, op, src, dst) + rest;
      go := true;
      match op
      case OpMove =>
        if HasProject(disk.registry, dst) {
          go := Apply(Step(RegistryMoveProject(dst.ns, dst.project, src.ns), true), todo);
        } else {
          go := Apply(Step(RegistryAddProject(src.ns, src.project), true), todo);
        }
        assert todo[1..] == rest;
      case OpRenameProject =>
        if HasProject(disk.registry, Key(src.ns, dst.project)) {
          go := Apply(Step(RegistryRenameProject(src.ns, dst.project, src.project), true), todo);
          assert todo[1..] == rest;
        } else {
          assert todo == rest;
        }
      case OpRenameNamespace =>
        if dst.ns in disk.registry && src.ns !in disk.registry {
          go := Apply(Step(RegistryRenameNamespace(dst.ns, src.ns), true), todo);
          assert todo[1..] == rest;
        } else {
          assert todo == rest;
        }
    }

    /** The scope cleaner: one store after the other. */
    method RewriteGrants(op: Op, src: Key, dst: Key, bestEffort: bool, ghost rest: seq<Step>) returns (go: bool)
      requires cleaner
      modifies this`disk, this`lifetime
      ensures old(Prefix(disk, GrantSteps(op, src, dst, cleaner, bestEffort) + rest, lifetime)) ==
              if go then Prefix(disk, rest, lifetime) else disk
    {
      hide Prefix, Do;
      ghost var todo := GrantSteps(op, src, dst, cleaner, bestEffort) + rest;
      ghost var goal := Prefix(disk, todo, lifetime);
      ghost var all := todo;
      var stores := [Users, OAuth];
      go := true;
      for i := 0 to |stores|
        invariant todo == all[i..] && go
        invariant Prefix(disk, todo, lifetime) == goal
      {
        go := Apply(if op == OpRenameNamespace then Step(RewriteNamespaceGrants(src.ns, dst.ns, stores[i]), bestEffort)
                    else Step(RewriteProjectGrants(src, dst, stores[i]), bestEffort), todo);
        if !go {
          return;
        }
        todo := todo[1..];
      }
      assert todo == rest;
    }

    method RestoreGrants(op: Op, src: Key, dst: Key, ghost rest: seq<Step>) returns (go: bool)
      modifies this`disk, this`lifetime
      ensures old(Prefix(disk, GrantSteps(op, dst, src, cleaner, true) + rest, lifetime)) ==
              if go then Prefix(disk, rest, lifetime) else disk
    {
      hide Prefix, Do;
      go := true;
      if cleaner {
        go := RewriteGrants(op, dst, src, true, rest);
      } else {
        assert [] + rest == rest;
      }
    }

    method RemoveStrayTargets(op: Op, dst: Key, ghost rest: seq<Step>) returns (go: bool)
      modifies this`disk, this`lifetime
      ensures old(Prefix(disk, StrayTargets(op, dst) + rest, lifetime)) == if go then Prefix(disk, rest, lifetime) else disk
    {
      hide Prefix, Do;
      ghost var todo := StrayTargets(op, dst) + rest;
      ghost var goal := Prefix(disk, todo, lifetime);
      go := true;
      if op != OpRenameNamespace {
        ghost var all := todo;
        var kinds := [CatalogDb, IndexDb];
        for i := 0 to |kinds|
          invariant todo == all[i..] && go
          invariant Prefix(disk, todo, lifetime) == goal
        {
          go := Apply(Step(RemoveSibling(dst, kinds[i]), true), todo);
          if !go {
            return;
          }
          todo := todo[1..];
        }
      }
      assert todo == rest;
    }

    /** Undoing before the pivot; errors are only logged. */
    method RollBack(op: Op, src: Key, dst: Key)
      modifies this`disk, this`lifetime
      ensures disk == old(Prefix(disk, Rollback(disk, op, src, dst, cleaner), lifetime))
    {
      hide Prefix, Do, RegistryRestore, GrantSteps, StrayTargets;
      ghost var grants, strays := GrantSteps(op, dst, src, cleaner, true), StrayTargets(op, dst);
      assert Rollback(disk, op, src, dst, cleaner) ==
             RegistryRestore(disk, op, src, dst) + (grants + (strays + [CLEAR]));
      var go := RestoreRegistry(op, src, dst, grants + (strays + [CLEAR]));
      if go {
        go := RestoreGrants(op, src, dst, strays + [CLEAR]);
      }
      if go {
        go := RemoveStrayTargets(op, dst, [CLEAR]);
      }
      if go {
        go := Apply(Step(ClearJournal, false), [CLEAR]);
        EndOfProgram(disk, [CLEAR][1..], lifetime);
      }
    }

    /** Startup recovery, driven by where the directory is. */
    method RecoverInterruptedOp(faults: Faults)
      modifies this`disk, this`lifetime
      ensures disk == old(Prefix(disk, Recovery(disk, cleaner, faults), lifetime))
    {
      if disk.journal == None {
        return;
      }
      hide Prefix, Do, Complete, Rollback;
      var j := disk.journal.value;
      var newHas, oldHas := AtNew(disk, j.op, j.dst), AtOld(disk, j.op, j.src);
      if newHas && !oldHas {
        Finish(j.op, j.src, j.dst, faults);
      } else if oldHas && !newHas {
        RollBack(j.op, j.src, j.dst);
      } else {
        var go := Apply(Step(ClearJournal, false), [CLEAR]);
        EndOfProgram(disk, [CLEAR][1..], lifetime);
      }
    }
  }

  lemma EndOfProgram(d: Disk, todo: seq<Step>, n: nat)
    ensures todo == [] ==> Prefix(d, todo, n) == d
  {
  }

  lemma NothingDone(d: Disk, todo: seq<Step>)
    ensures Prefix(d, todo, 0) == d
  {
  }

  /** A server that dies anywhere in an operation, and its successor that lives through recovery. */
  method CrashAndRecover(d0: Disk, op: Op, src: Key, dst: Key, namesValid: bool, leaseHeld: bool,
                         dies: nat, faults: Faults, renameFails: bool, cleaner: bool)
      returns (accepted: bool, d: Disk)
    ensures accepted == (namesValid && !leaseHeld && Admitted(d0, op, src, dst))
    ensures !accepted || dies == 0 ==> d == Run(d0, Recovery(d0, cleaner, faults))
    ensures accepted && (d0.journal == None || dies > 0) && !Unlisted(d0, op, src) ==>
              && d.journal == None
              && (Before(d, d0, op, src, dst) || (OnNewSide(d, d0, op, src, dst, {}) && Arrived(d, d0, op, src, dst, {})))
  {
    var first := new Server(d0, dies, cleaner);
    accepted := first.Relabel(op, src, dst, namesValid, leaseHeld, faults, renameFails);
    var crashed := first.disk;
    var steps := Recovery(crashed, cleaner, faults);
    var second := new Server(crashed, |steps|, cleaner);
    second.RecoverInterruptedOp(faults);
    d := second.disk;
    if dies == 0 {
      NothingDone(d0, Live(d0, op, src, dst, cleaner, faults, renameFails));
    }
    if accepted && (d0.journal == None || dies > 0) {
      hide *;
      RecoveryResolves(d0, op, src, dst, {}, Restart(dies, cleaner, faults), renameFails, [], cleaner, faults);
    }
  }
}
