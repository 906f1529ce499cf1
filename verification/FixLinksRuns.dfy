/**
 * Link repair among other work (internal/storage/fixlinks.go): a pass over the
 * referrers reads each file off the lock and writes it back on the condition that it
 * is still the same, while any other steps of the project happen in between.
 */
module FixLinksRuns {
  import opened Wrappers
  import opened GitTree
  import opened SlashPath
  import opened LinkScan
  import opened LinkRewrite
  import opened FixLinks
  import opened ProtocolRuns
  import P = Protocol
  import LinkSubst
  import LinkMeaning
  import LinkTokens

  /** One referrer's turn in a pass: when it was read and, if there was something to repair, which step wrote it. */
  datatype Turn = Turn(path: Path, readAt: nat, writeAt: Option<nat>, fault: P.Fault)

  /** A file that is there at the moment of reading and has links to repair. */
  predicate ToRepair(content: Option<Blob>, p: Path, src: string, dst: string, o: Oracles) {
    content.Some? && RewriteCount(content.value, Slashed(p), src, dst, o) > 0
  }

  /** The conditional write of a repair. */
  function RepairStep(p: Path, data: Blob, src: string, dst: string, o: Oracles, fault: P.Fault): Step {
    Write(p, Some(P.Sha(data)), false, RewriteOf(Slashed(p), src, dst, o), fault)
  }

  /** The turn happens between two moments of a run, its write on the bytes it read. */
  ghost predicate TurnOk(states: seq<P.State>, steps: seq<Step>, turn: Turn, from: nat, to: nat, src: string, dst: string, o: Oracles)
    requires |states| == |steps| + 1
  {
    && from <= turn.readAt <= to < |states|
    && var content := Lookup(states[turn.readAt].files, turn.path);
       if ToRepair(content, turn.path, src, dst, o) then
         && turn.writeAt.Some? && turn.readAt <= turn.writeAt.value < to
         && steps[turn.writeAt.value] == RepairStep(turn.path, content.value, src, dst, o, turn.fault)
       else turn.writeAt == None
  }

  /** A pass: turns for distinct referrers, one after the other, anything else in between. */
  ghost predicate PassOk(states: seq<P.State>, steps: seq<Step>, pass: seq<Turn>, from: nat, to: nat,
                         src: string, dst: string, o: Oracles)
    requires |states| == |steps| + 1
  {
    && from <= to < |states|
    && (forall k :: 0 <= k < |pass| ==> TurnOk(states, steps, pass[k], from, to, src, dst, o))
    && (forall k, m :: 0 <= k < m < |pass| ==> pass[k].path != pass[m].path && Ends(pass[k]) <= pass[m].readAt)
  }

  function Ends(turn: Turn): nat {
    match turn.writeAt
    case None => turn.readAt
    case Some(j) => j + 1
  }

  /** The pass's own steps. */
  predicate Own(pass: seq<Turn>, j: nat) {
    exists k :: 0 <= k < |pass| && pass[k].writeAt == Some(j)
  }

  /** Nobody but the pass changes the file between two moments. */
  ghost predicate LeftAlone(states: seq<P.State>, pass: seq<Turn>, p: Path, from: nat, to: nat)
    requires to < |states|
  {
    forall j :: from <= j < to && !Own(pass, j) ==> Lookup(states[j + 1].files, p) == Lookup(states[j].files, p)
  }

  // --------------------------------------------------------------- one repair step

  /** What a repair's write may do: replace the bytes it names by their rewrite, or nothing at all. */
  ghost predicate Replaces(s: P.State, t: P.State, p: Path, data: Blob, src: string, dst: string, o: Oracles) {
    Lookup(s.files, p) == Some(data) && t.files == s.files[p := Rewritten(data, Slashed(p), src, dst, o)]
  }

  lemma RepairStepEffect(s: P.State, t: P.State, p: Path, data: Blob, src: string, dst: string, o: Oracles, fault: P.Fault)
    requires Next(s, RepairStep(p, data, src, dst, o, fault), t) && P.PrefixFree(s.files)
    requires RewriteCount(data, Slashed(p), src, dst, o) > 0
    ensures if Lookup(s.files, p) == Some(data) && !fault.WriteFault? then Replaces(s, t, p, data, src, dst, o) else t == s
  {
    EmptyHasNoLinks(Slashed(p), src, dst, o);
    hide Rewritten, RewriteCount, Slashed;
    if p in s.files {
      assert !P.Clash(s.files, p);
    }
  }

  lemma RunFiles(states: seq<P.State>, steps: seq<Step>, i: nat)
    requires Run(states, steps) && i < |states|
    ensures P.PrefixFree(states[i].files)
  {
    RunInv(states, steps, i);
  }

  // -------------------------------------------------------------------- no lost update

  /** A turn's write: the bytes it read are replaced by their rewrite, or nothing happens. */
  ghost predicate WroteWhatItRead(states: seq<P.State>, turn: Turn, j: nat, src: string, dst: string, o: Oracles)
    requires turn.readAt < |states| && j + 1 < |states|
  {
    var p, read := turn.path, Lookup(states[turn.readAt].files, turn.path);
    && read.Some?
    && if Lookup(states[j].files, p) == read && !turn.fault.WriteFault?
       then Replaces(states[j], states[j + 1], p, read.value, src, dst, o)
       else states[j + 1] == states[j]
  }

  /**
   * No lost update: whatever else ran during the pass, a repair's write replaced exactly
   * the bytes the pass had read, in that one file, by their rewrite; a file that held
   * anything else by then is left as the other steps made it.
   */
  lemma PassLosesNothing(states: seq<P.State>, steps: seq<Step>, pass: seq<Turn>, from: nat, to: nat,
                         src: string, dst: string, o: Oracles, j: nat)
    requires Run(states, steps) && PassOk(states, steps, pass, from, to, src, dst, o) && Own(pass, j)
    ensures from <= j < to < |states|
    ensures exists k :: 0 <= k < |pass| && pass[k].writeAt == Some(j) && pass[k].readAt <= j
                        && WroteWhatItRead(states, pass[k], j, src, dst, o)
  {
    hide Run, Replaces, WroteWhatItRead, RewriteCount;
    var k :| 0 <= k < |pass| && pass[k].writeAt == Some(j);
    TurnEffect(states, steps, pass, from, to, src, dst, o, k);
  }

  lemma TurnEffect(states: seq<P.State>, steps: seq<Step>, pass: seq<Turn>, from: nat, to: nat,
                   src: string, dst: string, o: Oracles, k: nat)
    requires Run(states, steps) && PassOk(states, steps, pass, from, to, src, dst, o)
    requires k < |pass| && pass[k].writeAt.Some?
    ensures var j, p, read := pass[k].writeAt.value, pass[k].path, Lookup(states[pass[k].readAt].files, pass[k].path);
            && from <= pass[k].readAt <= j < to < |states| && ToRepair(read, p, src, dst, o)
            && WroteWhatItRead(states, pass[k], j, src, dst, o)
            && if Lookup(states[j].files, p) == read && !pass[k].fault.WriteFault?
               then Replaces(states[j], states[j + 1], p, read.value, src, dst, o)
               else states[j + 1] == states[j]
  {
    var turn := pass[k];
    var j := turn.writeAt.value;
    assert TurnOk(states, steps, turn, from, to, src, dst, o);
    var read := Lookup(states[turn.readAt].files, turn.path);
    hide Run, Next, RewriteCount, Rewritten, Slashed, P.PrefixFree;
    RunStep(states, steps, j);
    RunFiles(states, steps, j);
    RepairStepEffect(states[j], states[j + 1], turn.path, read.value, src, dst, o, turn.fault);
  }

  /** A turn changes no file but its own. */
  lemma OwnStepElsewhere(states: seq<P.State>, steps: seq<Step>, pass: seq<Turn>, from: nat, to: nat,
                         src: string, dst: string, o: Oracles, k: nat, q: Path)
    requires Run(states, steps) && PassOk(states, steps, pass, from, to, src, dst, o)
    requires k < |pass| && pass[k].writeAt.Some? && q != pass[k].path
    ensures var j := pass[k].writeAt.value; j < to && Lookup(states[j + 1].files, q) == Lookup(states[j].files, q)
  {
    hide Run, PassOk, ToRepair, Rewritten;
    TurnEffect(states, steps, pass, from, to, src, dst, o, k);
  }

  // --------------------------------------------------- files nobody else touches

  /** While neither others nor the pass write it, a file stays as it is. */
  lemma {:induction false} Steady(states: seq<P.State>, p: Path, i: nat, j: nat)
    requires i <= j < |states|
    requires forall n :: i <= n < j ==> Lookup(states[n + 1].files, p) == Lookup(states[n].files, p)
    ensures Lookup(states[j].files, p) == Lookup(states[i].files, p)
    decreases j
  {
    if i < j {
      Steady(states, p, i, j - 1);
      assert Lookup(states[j - 1 + 1].files, p) == Lookup(states[j - 1].files, p);
    }
  }

  lemma QuietStretch(states: seq<P.State>, steps: seq<Step>, pass: seq<Turn>, from: nat, to: nat,
                     src: string, dst: string, o: Oracles, p: Path, i: nat, j: nat)
    requires Run(states, steps) && PassOk(states, steps, pass, from, to, src, dst, o)
    requires LeftAlone(states, pass, p, from, to) && from <= i <= j <= to
    requires forall k :: 0 <= k < |pass| && pass[k].path == p && pass[k].writeAt.Some? ==> !(i <= pass[k].writeAt.value < j)
    ensures Lookup(states[j].files, p) == Lookup(states[i].files, p)
  {
    forall n | i <= n < j ensures Lookup(states[n + 1].files, p) == Lookup(states[n].files, p) {
      if Own(pass, n) {
        var k :| 0 <= k < |pass| && pass[k].writeAt == Some(n);
        OwnStepElsewhere(states, steps, pass, from, to, src, dst, o, k, p);
      }
    }
    Steady(states, p, i, j);
  }

  /** A file nobody else touches, and that has a turn, ends as what it was or as the rewrite of that. */
  lemma PassFixes(states: seq<P.State>, steps: seq<Step>, pass: seq<Turn>, from: nat, to: nat,
                  src: string, dst: string, o: Oracles, k: nat)
    requires Run(states, steps) && PassOk(states, steps, pass, from, to, src, dst, o) && k < |pass|
    requires LeftAlone(states, pass, pass[k].path, from, to)
    ensures var p, content := pass[k].path, Lookup(states[from].files, pass[k].path);
            Lookup(states[to].files, p) ==
            if ToRepair(content, p, src, dst, o) && !pass[k].fault.WriteFault?
            then Some(Rewritten(content.value, Slashed(p), src, dst, o)) else content
  {
    var turn := pass[k];
    assert TurnOk(states, steps, turn, from, to, src, dst, o);
    assert forall m :: 0 <= m < |pass| && pass[m].path == turn.path ==> m == k;
    hide Run, PassOk, TurnOk, LeftAlone, RewriteCount, Rewritten, Slashed;
    match turn.writeAt
    case None =>
      QuietStretch(states, steps, pass, from, to, src, dst, o, turn.path, from, to);
      QuietStretch(states, steps, pass, from, to, src, dst, o, turn.path, from, turn.readAt);
    case Some(j) =>
      TurnEffect(states, steps, pass, from, to, src, dst, o, k);
      QuietStretch(states, steps, pass, from, to, src, dst, o, turn.path, from, turn.readAt);
      QuietStretch(states, steps, pass, from, to, src, dst, o, turn.path, turn.readAt, j);
      QuietStretch(states, steps, pass, from, to, src, dst, o, turn.path, j + 1, to);
  }

  /** A file without a turn that nobody else touches stays as it was. */
  lemma PassSkips(states: seq<P.State>, steps: seq<Step>, pass: seq<Turn>, from: nat, to: nat,
                  src: string, dst: string, o: Oracles, p: Path)
    requires Run(states, steps) && PassOk(states, steps, pass, from, to, src, dst, o)
    requires LeftAlone(states, pass, p, from, to) && forall k :: 0 <= k < |pass| ==> pass[k].path != p
    ensures Lookup(states[to].files, p) == Lookup(states[from].files, p)
  {
    QuietStretch(states, steps, pass, from, to, src, dst, o, p, from, to);
  }

  // ------------------------------------------------------------- no link left behind

  /**
   * The links of this file that lead to the moved file are spelled with neutral bytes, and
   * what the parser protects shifts with the rewrite.
   */
  ghost predicate PlainReferrer(content: Doc, ref: string, src: string, dst: string, o: Oracles) {
    var shut, links := Marks(o.ranges(content), |content|), LinksOf(content, o);
    var out := Rewritten(content, ref, src, dst, o);
    && LinkMeaning.PlainMatches(content, links, ref, src, o.url)
    && LinkSubst.Shifted(shut, 0, LinkMeaning.PathEdits(content, links, ref, src, dst, o.url), Marks(o.ranges(out), |out|))
  }

  /** No link of the file resolves to the moved file's old place. */
  predicate NoLinkTo(content: Doc, ref: string, target: string, o: Oracles) {
    target !in Targets(content, LinksOf(content, o), ref, o.url)
  }

  lemma NothingToRewrite(content: Doc, ref: string, src: string, dst: string, o: Oracles)
    requires InProject(ref) && InProject(dst)
    ensures NoLinkTo(content, ref, src, o) <==> RewriteCount(content, ref, src, dst, o) == 0
  {
    hide ScanLinks, Targets, Rewrites, InProject;
    LinkMeaning.ScannersAgree(content, Marks(o.ranges(content), |content|), ref, src, dst, o.url);
  }

  lemma RewrittenHasNoLink(content: Doc, ref: string, src: string, dst: string, o: Oracles)
    requires InProject(ref) && InProject(dst) && LinkTokens.NeutralText(dst) && UrlOk(o.url) && src != dst
    requires PlainReferrer(content, ref, src, dst, o)
    ensures NoLinkTo(Rewritten(content, ref, src, dst, o), ref, src, o)
  {
    var out := Rewritten(content, ref, src, dst, o);
    hide ScanLinks, Targets, Rewrites, InProject, LinkMeaning.PlainMatches, LinkSubst.Shifted, LinkMeaning.PathEdits, LinkSubst.Splice;
    LinkMeaning.SecondRewriteIsIdle(content, Marks(o.ranges(content), |content|), ref, src, dst, o.url, Marks(o.ranges(out), |out|));
    NothingToRewrite(out, ref, src, dst, o);
  }

  /**
   * A pass over the referrers found at its start leaves no link to the moved file's old
   * place in any Markdown file that nobody else touched meanwhile, if no write failed.
   */
  lemma PassLeavesNoLink(states: seq<P.State>, steps: seq<Step>, pass: seq<Turn>, from: nat, to: nat,
                         src: string, dst: string, o: Oracles, p: Path)
    requires Run(states, steps) && PassOk(states, steps, pass, from, to, src, dst, o)
    requires forall q :: q in Referrers(states[from].files, src, dst, o) ==> exists k :: 0 <= k < |pass| && pass[k].path == q
    requires forall k :: 0 <= k < |pass| ==> !pass[k].fault.WriteFault?
    requires LeftAlone(states, pass, p, from, to) && p in states[from].files
    requires IsMarkdown(Slashed(p)) && Slashed(p) != src && Slashed(p) != dst && src != dst
    requires InProject(Slashed(p)) && InProject(dst) && LinkTokens.NeutralText(dst) && UrlOk(o.url)
    requires PlainReferrer(states[from].files[p], Slashed(p), src, dst, o)
    ensures p in states[to].files && NoLinkTo(states[to].files[p], Slashed(p), src, o)
  {
    var content, ref := states[from].files[p], Slashed(p);
    NothingToRewrite(content, ref, src, dst, o);
    RewrittenHasNoLink(content, ref, src, dst, o);
    if k :| 0 <= k < |pass| && pass[k].path == p {
      PassFixes(states, steps, pass, from, to, src, dst, o, k);
    } else {
      PassSkips(states, steps, pass, from, to, src, dst, o, p);
      assert p !in Referrers(states[from].files, src, dst, o);
    }
  }

  /** An undisturbed whole repair leaves no such link in any file but the moved one's two places. */
  lemma FixedHasNoLink(p: Path, content: Doc, src: string, dst: string, o: Oracles, fault: P.Fault)
    requires IsMarkdown(Slashed(p)) && Slashed(p) != src && Slashed(p) != dst && src != dst && !fault.WriteFault?
    requires InProject(Slashed(p)) && InProject(dst) && LinkTokens.NeutralText(dst) && UrlOk(o.url)
    requires PlainReferrer(content, Slashed(p), src, dst, o)
    ensures NoLinkTo(Fixed(p, content, src, dst, o, fault), Slashed(p), src, o)
  {
    NothingToRewrite(content, Slashed(p), src, dst, o);
    RewrittenHasNoLink(content, Slashed(p), src, dst, o);
  }
}
