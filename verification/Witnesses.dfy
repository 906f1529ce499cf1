/**
 * The exceptions named by the exact theorems are not idle: for each, a run or a
 * history that the code goes through and that ends in the exceptional case.
 */
module Witnesses {
  import opened Wrappers
  import opened GitTree
  import opened Protocol
  import opened ProtocolRuns
  import DL = DeletedLog

  function Put(p: Path, c: Blob): Step {
    Write(p, None, false, Constant(c), NoFault)
  }

  lemma PutStep(s: State, p: Path, c: Blob)
    requires ValidPath(p) && !Clash(s.files, p)
    ensures var t := s.(files := s.files[p := c], wal := s.wal + [WalWrite(p, c)], catalog := s.catalog[p := Sha(c)]);
            Next(s, Put(p, c), t)
  {
  }

  /** Deleting a directory's name while a file lies below it: the entry is queued, the removal fails. */
  lemma FailedDeleteHappens() returns (states: seq<State>, steps: seq<Step>)
    ensures Run(states, steps)
    ensures var s := states[|states| - 1];
            Clash(s.files, ["a"]) && DeleteOutcome(s, ["a"], None, NoFault) == Failed(RemoveFailed)
  {
    var p := ["a", "b"];
    PutStep(EMPTY_PROJECT, p, "x");
    var s := EMPTY_PROJECT.(files := map[p := "x"], wal := [WalWrite(p, "x")], catalog := map[p := Sha("x")]);
    states, steps := [EMPTY_PROJECT, s], [Put(p, "x")];
    assert s.wal == EMPTY_PROJECT.wal + [WalWrite(p, "x")];
    assert p in s.files && p != ["a"] && ["a"] <= p;
  }

  /** Two files, and a move of one onto the other, asked for by its etag, whose source cannot be removed. */
  lemma FailedMoveHappens() returns (states: seq<State>, steps: seq<Step>)
    ensures Run(states, steps)
    ensures var s := states[|states| - 1];
            && MoveOutcome(s, ["a"], ["b"], Some(Sha("y")), RemoveFault) == Failed(RemoveFailed)
            && !Agreement(MoveNext(s, ["a"], ["b"], Some(Sha("y")), RemoveFault))
  {
    states, steps := TwoFiles();
    var s := states[2];
    RunInv(states, steps, 2);
    assert !Clash(s.files, ["b"]);
    FailedMoveAgreement(s, ["a"], ["b"], Some(Sha("y")));
  }

  lemma TwoFiles() returns (states: seq<State>, steps: seq<Step>)
    ensures Run(states, steps) && |states| == 3 && states[2].files == map[["a"] := "x", ["b"] := "y"]
  {
    var a, b := ["a"], ["b"];
    var s1 := EMPTY_PROJECT.(files := map[a := "x"], wal := [WalWrite(a, "x")], catalog := map[a := Sha("x")]);
    var s2 := s1.(files := map[a := "x", b := "y"], wal := s1.wal + [WalWrite(b, "y")], catalog := s1.catalog[b := Sha("y")]);
    PutStep(EMPTY_PROJECT, a, "x");
    assert s1.wal == EMPTY_PROJECT.wal + [WalWrite(a, "x")];
    assert !Clash(s1.files, b);
    PutStep(s1, b, "y");
    states, steps := [EMPTY_PROJECT, s1, s2], [Put(a, "x"), Put(b, "y")];
    hide Next, Inv;
  }

  /** A first-ever commit that deletes: its record has no parent to revive from. */
  lemma FirstDeleteHappens() returns (states: seq<State>, steps: seq<Step>)
    ensures Run(states, steps)
    ensures |states| == 3
    ensures var s := states[2];
            && ["a"] in s.deleted && s.deleted[["a"]] == 0
            && s.files == map[] && s.wal == [WalDelete(["a"])] && s.landed && s.history != []
  {
    var p := ["a"];
    var s1 := EMPTY_PROJECT.(wal := [WalDelete(p)]);
    assert ValidPath(p) && !Clash(EMPTY_PROJECT.files, p);
    assert Next(EMPTY_PROJECT, Delete(p, None, NoFault), s1);
    var s2 := CommitNext(s1);
    assert Next(s1, CommitOldest, s2);
    states, steps := [EMPTY_PROJECT, s1, s2], [Delete(p, None, NoFault), CommitOldest];
    hide Next, CommitNext;
  }

  /** A crash between advancing HEAD and the hook: the record of a file outlives the file's return. */
  lemma StaleRecordHappens() returns (states: seq<State>, steps: seq<Step>)
    ensures Run(states, steps)
    ensures var s := states[|states| - 1]; ["a"] in s.deleted && ["a"] in HeadFiles(s)
  {
    var p := ["a"];
    states, steps := FirstDeleteHappens();
    hide Run, Next, Inv, HeadFiles;
    var s2 := states[2];
    var s3 := RemoveNext(s2);
    var s4 := s3.(files := s3.files[p := "x"], wal := s3.wal + [WalWrite(p, "x")], catalog := s3.catalog[p := Sha("x")]);
    RemoveStep(s2);
    states, steps := Extend(states, steps, RemoveOldest, s3);
    RunInv(states, steps, 3);
    HeadCatchesUp(states, steps, 3);
    assert !Clash(s3.files, p);
    PutStep(s3, p, "x");
    states, steps := Extend(states, steps, Put(p, "x"), s4);
    RunInv(states, steps, 4);
    SameHead(s3, s4);
    var s5 := UnhookedWrite(s4, p, "x");
    states, steps := Extend(states, steps, CommitThenCrash, s5);
  }

  lemma Extend(states: seq<State>, steps: seq<Step>, step: Step, t: State)
    returns (states': seq<State>, steps': seq<Step>)
    requires Run(states, steps) && states != [] && Next(states[|states| - 1], step, t)
    ensures Run(states', steps') && states' == states + [t]
  {
    states', steps' := states + [t], steps + [step];
    hide Next;
  }

  lemma RemoveStep(s: State)
    ensures Next(s, RemoveOldest, RemoveNext(s))
  {
  }

  lemma SameHead(s: State, t: State)
    requires t.history == s.history
    ensures HeadFiles(t) == HeadFiles(s)
  {
  }

  lemma UnhookedWrite(s: State, p: Path, c: Blob) returns (t: State)
    requires Inv(s) && s.wal == [WalWrite(p, c)] && !s.landed && s.history != [] && p !in HeadFiles(s)
    ensures Next(s, CommitThenCrash, t)
    ensures t.deleted == s.deleted && p in HeadFiles(t)
  {
    var e := s.wal[0];
    CommitKeeps(s);
    t := CommitCrashNext(s);
    HeadCanonical(s);
    BuildTreeFlat(HeadTree(s), e);
  }

  /** Two writes and a move of the first file onto the second: hook and walk part ways. */
  lemma OverwritingMoveHappens() returns (h: DL.History)
    ensures |h| == 3 && DL.HistoryOk(h)
    ensures DL.LastTouch(h, 0, ["a"]) == Some(2) && DL.OverwritingMoveFrom(h, 2, ["a"])
  {
    var a, b := ["a"], ["b"];
    var c0 := DL.Commit(map[a := "x"], DL.OpWrite(a));
    var c1 := DL.Commit(map[a := "x", b := "y"], DL.OpWrite(b));
    var c2 := DL.Commit(map[b := "x"], DL.OpMove(b, a));
    h := [c0, c1, c2];
    assert b !in c0.files;
    assert c1.files == c0.files[b := "y"];
    assert c2.files == (c1.files - {a})[b := c1.files[a]];
    DL.HistoryPrefixOk([], c0);
    DL.HistoryPrefixOk([c0], c1);
    DL.HistoryPrefixOk([c0, c1], c2);
    assert [] + [c0] == [c0] && [c0] + [c1] == [c0, c1] && [c0, c1] + [c2] == h;
    assert DL.LastTouch(h, 3, a) == None;
    assert DL.Touches(h, 2, a) by { assert a in DL.Before(h, 2) && a !in DL.After(h, 2); }
    assert DL.LastTouch(h, 2, a) == Some(2);
    assert DL.LastTouch(h, 1, a) == Some(2);
  }
}
