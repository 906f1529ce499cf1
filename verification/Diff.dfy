/**
 * Structured diffs (internal/storage/diff.go): line-oriented chunks become numbered
 * lines, and clusters of changes with three lines of context become hunks. Patching
 * the old lines with the hunks gives the new lines, and the other way round.
 */
module Diff {
  import opened Wrappers

  datatype Kind = Equal | Added | Deleted | Other
  datatype Chunk = Chunk(kind: Kind, content: string)
  datatype Line = Line(kind: Kind, text: string)
  datatype Numbered = Numbered(line: Line, oldLn: nat, newLn: nat)
  datatype Hunk = Hunk(oldStart: nat, oldLines: nat, newStart: nat, newLines: nat, lines: seq<Line>)

  const MAX_DIFF_LINES: nat := 20000
  const CONTEXT: nat := 3

  // ----------------------------------------------------------------------- lines

  /** The lines of a text, each with its newline; a last line may lack one. */
  function SplitLines(s: string): (r: seq<string>)
    ensures forall l :: l in r ==> l != []
  {
    if s == "" then []
    else
      var n := LineLength(s);
      [s[..n]] + SplitLines(s[n..])
  }

  /** Length of the first line with its newline. */
  function LineLength(s: string): (n: nat)
    requires s != ""
    ensures 0 < n <= |s|
    ensures n < |s| ==> s[n - 1] == '\n'
    ensures forall i :: 0 <= i < n - 1 ==> s[i] != '\n'
  {
    if s[0] == '\n' || |s| == 1 then 1 else 1 + LineLength(s[1..])
  }

  function Joined(ls: seq<string>): string {
    if ls == [] then "" else ls[0] + Joined(ls[1..])
  }

  /** A line ends at its only newline, or is the last and has none. */
  predicate IsLine(l: string, last: bool) {
    && l != []
    && (forall i :: 0 <= i < |l| - 1 ==> l[i] != '\n')
    && (!last ==> l[|l| - 1] == '\n')
  }

  predicate AreLines(ls: seq<string>) {
    forall i :: 0 <= i < |ls| ==> IsLine(ls[i], i == |ls| - 1)
  }

  /** Splitting loses nothing, and gives the only way to cut the text into lines. */
  lemma {:induction false} SplitIsTheLines(s: string, ls: seq<string>)
    ensures ls == SplitLines(s) <==> AreLines(ls) && Joined(ls) == s
    decreases |s|, |ls|
  {
    SplitGivesLines(s);
    if AreLines(ls) && Joined(ls) == s {
      if ls == [] {
      } else {
        var rest := ls[1..];
        assert s[|ls[0]|..] == Joined(rest);
        assert AreLines(rest) by {
          forall i | 0 <= i < |rest| ensures IsLine(rest[i], i == |rest| - 1) {
            assert rest[i] == ls[i + 1];
          }
        }
        SplitIsTheLines(Joined(rest), rest);
        FirstLine(s, ls[0], rest);
        assert ls == [ls[0]] + rest;
      }
    }
  }

  lemma FirstLine(s: string, l: string, rest: seq<string>)
    requires s == l + Joined(rest) && IsLine(l, rest == [])
    ensures LineLength(s) == |l| && s[..|l|] == l
  {
    if rest == [] {
      assert s == l;
    }
    assert forall i :: 0 <= i < |l| ==> s[i] == l[i];
  }

  lemma LinesCons(l: string, rest: seq<string>)
    requires IsLine(l, rest == []) && AreLines(rest)
    ensures AreLines([l] + rest) && Joined([l] + rest) == l + Joined(rest)
  {
    hide IsLine;
    var ls := [l] + rest;
    assert ls[1..] == rest;
    forall i | 0 <= i < |ls| ensures IsLine(ls[i], i == |ls| - 1) {
      if i > 0 {
        assert ls[i] == rest[i - 1];
      }
    }
  }

  lemma {:induction false} SplitGivesLines(s: string)
    ensures AreLines(SplitLines(s)) && Joined(SplitLines(s)) == s
  {
    if s != "" {
      var n := LineLength(s);
      SplitGivesLines(s[n..]);
      assert SplitLines(s[n..]) == [] <==> n == |s|;
      hide AreLines, Joined;
      LinesCons(s[..n], SplitLines(s[n..]));
    }
  }

  function TrimNewline(l: string): string {
    if l != [] && l[|l| - 1] == '\n' then l[..|l| - 1] else l
  }

  function Tagged(kind: Kind, ls: seq<string>): (r: seq<Line>)
    ensures |r| == |ls| && forall i :: 0 <= i < |r| ==> r[i] == Line(kind, TrimNewline(ls[i]))
  {
    seq(|ls|, i requires 0 <= i < |ls| => Line(kind, TrimNewline(ls[i])))
  }

  function ChunkLines(c: Chunk): seq<Line> {
    if c.kind == Other then [] else Tagged(c.kind, SplitLines(c.content))
  }

  /** All lines of a diff, in order. */
  function Lines(chunks: seq<Chunk>): seq<Line> {
    if chunks == [] then [] else Lines(chunks[..|chunks| - 1]) + ChunkLines(chunks[|chunks| - 1])
  }

  // ----------------------------------------------------------------------- sides

  predicate OnSide(l: Line, skip: Kind) {
    l.kind != skip
  }

  /** The texts of one side: the old side skips added lines, the new side deleted ones. */
  function Side(ls: seq<Line>, skip: Kind): (r: seq<string>)
    ensures |r| <= |ls|
  {
    if ls == [] then []
    else Side(ls[..|ls| - 1], skip) + if OnSide(ls[|ls| - 1], skip) then [ls[|ls| - 1].text] else []
  }

  function Old(ls: seq<Line>): seq<string> { Side(ls, Added) }
  function New(ls: seq<Line>): seq<string> { Side(ls, Deleted) }

  lemma {:induction false} SideConcat(a: seq<Line>, b: seq<Line>, skip: Kind)
    ensures Side(a + b, skip) == Side(a, skip) + Side(b, skip)
    decreases |b|
  {
    if b == [] {
      assert a + b == a;
    } else {
      assert (a + b)[..|a + b| - 1] == a + b[..|b| - 1];
      SideConcat(a, b[..|b| - 1], skip);
    }
  }

  lemma SideSplit(ls: seq<Line>, i: nat, j: nat, skip: Kind)
    requires i <= j <= |ls|
    ensures Side(ls[..j], skip) == Side(ls[..i], skip) + Side(ls[i..j], skip)
    ensures Side(ls, skip) == Side(ls[..j], skip) + Side(ls[j..], skip)
    ensures Side(ls[i..], skip) == Side(ls[i..j], skip) + Side(ls[j..], skip)
  {
    hide Side;
    SideConcat(ls[..i], ls[i..j], skip);
    assert ls[..i] + ls[i..j] == ls[..j];
    SideConcat(ls[..j], ls[j..], skip);
    assert ls[..j] + ls[j..] == ls;
    SideConcat(ls[i..j], ls[j..], skip);
    assert ls[i..j] + ls[j..] == ls[i..];
  }

  /** Unchanged lines are the same on both sides. */
  lemma {:induction false} EqualSides(ls: seq<Line>)
    requires forall i :: 0 <= i < |ls| ==> ls[i].kind == Equal
    ensures Old(ls) == New(ls) && |Old(ls)| == |ls|
  {
    if ls != [] {
      EqualSides(ls[..|ls| - 1]);
    }
  }

  function NumberedAt(ls: seq<Line>, i: nat): Numbered
    requires i < |ls|
  {
    Numbered(ls[i],
             if OnSide(ls[i], Added) then 1 + |Old(ls[..i])| else 0,
             if OnSide(ls[i], Deleted) then 1 + |New(ls[..i])| else 0)
  }

  /** Lines with their 1-based numbers on each side. */
  function Numbers(ls: seq<Line>): (r: seq<Numbered>)
    ensures |r| == |ls| && forall i :: 0 <= i < |ls| ==> r[i] == NumberedAt(ls, i)
  {
    seq(|ls|, i requires 0 <= i < |ls| => NumberedAt(ls, i))
  }

  lemma NumbersPush(ls: seq<Line>, l: Line)
    ensures Numbers(ls + [l]) == Numbers(ls) + [NumberedAt(ls + [l], |ls|)]
    ensures (ls + [l])[..|ls|] == ls
  {
    assert (ls + [l])[..|ls|] == ls;
    forall i | 0 <= i < |ls| ensures NumberedAt(ls + [l], i) == NumberedAt(ls, i) {
      assert (ls + [l])[..i] == ls[..i];
    }
  }

  /** Numbered lines and counters that stand for `ls`. */
  ghost predicate Counted(flat: seq<Numbered>, oldLn: nat, newLn: nat, ls: seq<Line>) {
    flat == Numbers(ls) && oldLn == 1 + |Old(ls)| && newLn == 1 + |New(ls)|
  }

  lemma CountedPush(flat: seq<Numbered>, oldLn: nat, newLn: nat, ls: seq<Line>, l: Line)
    requires Counted(flat, oldLn, newLn, ls) && l.kind != Other
    ensures Counted(flat + [Numbered(l, if l.kind == Added then 0 else oldLn, if l.kind == Deleted then 0 else newLn)],
                    if l.kind == Added then oldLn else oldLn + 1,
                    if l.kind == Deleted then newLn else newLn + 1, ls + [l])
  {
    NumbersPush(ls, l);
  }

  /** One more line with the running counters. */
  method NumberLine(flat: seq<Numbered>, oldLn: nat, newLn: nat, line: Line, ghost before: seq<Line>)
      returns (flat': seq<Numbered>, oldLn': nat, newLn': nat)
    requires Counted(flat, oldLn, newLn, before) && line.kind != Other
    ensures Counted(flat', oldLn', newLn', before + [line]) && |flat'| == |flat| + 1
  {
    CountedPush(flat, oldLn, newLn, before, line);
    hide Counted;
    oldLn', newLn' := oldLn, newLn;
    var nl := Numbered(line, 0, 0);
    match line.kind {
      case Equal =>
        nl := Numbered(line, oldLn, newLn);
        oldLn', newLn' := oldLn + 1, newLn + 1;
      case Deleted =>
        nl := Numbered(line, oldLn, 0);
        oldLn' := oldLn + 1;
      case Added =>
        nl := Numbered(line, 0, newLn);
        newLn' := newLn + 1;
    }
    flat' := flat + [nl];
  }

  /** One chunk's lines with the running counters and cap. */
  method FlattenChunk(flat: seq<Numbered>, oldLn: nat, newLn: nat, c: Chunk, ghost before: seq<Line>)
      returns (flat': seq<Numbered>, oldLn': nat, newLn': nat, tooLarge: bool)
    requires Counted(flat, oldLn, newLn, before) && |flat| == |before| <= MAX_DIFF_LINES && c.kind != Other
    ensures tooLarge <==> |before + ChunkLines(c)| > MAX_DIFF_LINES
    ensures !tooLarge ==> Counted(flat', oldLn', newLn', before + ChunkLines(c)) && |flat'| == |before + ChunkLines(c)|
  {
    flat', oldLn', newLn', tooLarge := flat, oldLn, newLn, false;
    ChunkLinesAre(c);
    hide Counted, SplitLines, TrimNewline, ChunkLines;
    var ls := SplitLines(c.content);
    ghost var tagged := ChunkLines(c);
    assert before + tagged[..0] == before;
    for k := 0 to |ls|
      invariant Counted(flat', oldLn', newLn', before + tagged[..k])
      invariant |flat'| == |before| + k <= MAX_DIFF_LINES
    {
      if |flat'| + 1 > MAX_DIFF_LINES {
        tooLarge := true;
        return;
      }
      var line := Line(c.kind, TrimNewline(ls[k]));
      assert before + tagged[..k + 1] == before + tagged[..k] + [line];
      flat', oldLn', newLn' := NumberLine(flat', oldLn', newLn', line, before + tagged[..k]);
    }
    assert tagged[..|ls|] == tagged;
  }

  /** The flattening loop: chunks of an unknown kind are skipped, and the cap ends it. */
  method Flatten(chunks: seq<Chunk>) returns (flat: seq<Numbered>, tooLarge: bool)
    ensures tooLarge <==> |Lines(chunks)| > MAX_DIFF_LINES
    ensures !tooLarge ==> flat == Numbers(Lines(chunks))
  {
    flat, tooLarge := [], false;
    var oldLn, newLn := 1, 1;
    assert Counted([], 1, 1, Lines(chunks[..0]));
    hide Lines, Counted, ChunkLines;
    for c := 0 to |chunks|
      invariant Counted(flat, oldLn, newLn, Lines(chunks[..c]))
      invariant |flat| == |Lines(chunks[..c])| <= MAX_DIFF_LINES
    {
      LinesPush(chunks, c);
      if chunks[c].kind != Other {
        flat, oldLn, newLn, tooLarge := FlattenChunk(flat, oldLn, newLn, chunks[c], Lines(chunks[..c]));
        if tooLarge {
          LinesGrow(chunks, c + 1);
          return;
        }
      }
    }
    assert chunks[..|chunks|] == chunks;
    CountedFlat(flat, oldLn, newLn, Lines(chunks));
  }

  lemma CountedFlat(flat: seq<Numbered>, oldLn: nat, newLn: nat, ls: seq<Line>)
    requires Counted(flat, oldLn, newLn, ls)
    ensures flat == Numbers(ls)
  {
  }

  lemma ChunkLinesAre(c: Chunk)
    requires c.kind != Other
    ensures ChunkLines(c) == Tagged(c.kind, SplitLines(c.content))
  {
  }

  lemma LinesPush(chunks: seq<Chunk>, c: nat)
    requires c < |chunks|
    ensures Lines(chunks[..c + 1]) == Lines(chunks[..c]) + ChunkLines(chunks[c])
    ensures chunks[c].kind == Other ==> Lines(chunks[..c + 1]) == Lines(chunks[..c])
  {
    assert chunks[..c + 1][..c] == chunks[..c];
  }

  lemma {:induction false} LinesGrow(chunks: seq<Chunk>, c: nat)
    requires c <= |chunks|
    ensures |Lines(chunks[..c])| <= |Lines(chunks)|
    decreases |chunks|
  {
    if c == |chunks| {
      assert chunks[..c] == chunks;
    } else {
      var most := chunks[..|chunks| - 1];
      assert most[..c] == chunks[..c];
      LinesGrow(most, c);
    }
  }

  // -------------------------------------------------------------------- clusters

  /** Changes from `first` to `last` that share a hunk. */
  datatype Cluster = Cluster(first: nat, last: nat)

  function Start(c: Cluster): nat {
    if c.first < CONTEXT then 0 else c.first - CONTEXT
  }

  function Stop(c: Cluster, n: nat): nat {
    if c.last + CONTEXT + 1 > n then n else c.last + CONTEXT + 1
  }

  predicate Changed(ls: seq<Line>, i: int) {
    0 <= i < |ls| && ls[i].kind != Equal
  }

  /** No change strictly between two places. */
  predicate Quiet(ls: seq<Line>, from: int, to: int) {
    forall i :: from < i < to ==> !Changed(ls, i)
  }

  /** A cluster starts and ends with a change and has no more than six unchanged lines in a row. */
  predicate ClusterOk(ls: seq<Line>, c: Cluster) {
    && c.first <= c.last && Changed(ls, c.first) && Changed(ls, c.last)
    && (forall p, q :: c.first <= p < q <= c.last && Changed(ls, p) && Quiet(ls, p, q) && Changed(ls, q) ==> q - p - 1 <= 2 * CONTEXT)
  }

  /** Clusters split the changes, with more than six unchanged lines between neighbours. */
  predicate IsClusters(ls: seq<Line>, cs: seq<Cluster>) {
    && (forall k :: 0 <= k < |cs| ==> ClusterOk(ls, cs[k]))
    && (forall k :: 0 < k < |cs| ==> cs[k].first - cs[k - 1].last - 1 > 2 * CONTEXT && Quiet(ls, cs[k - 1].last, cs[k].first))
    && Quiet(ls, -1, if cs == [] then |ls| else cs[0].first)
    && (cs != [] ==> Quiet(ls, cs[|cs| - 1].last, |ls|))
  }

  /** The changed-line scan. */
  method ChangedLines(flat: seq<Numbered>, ghost ls: seq<Line>) returns (changed: seq<nat>)
    requires flat == Numbers(ls)
    ensures ListsChanges(ls, changed, |ls|)
  {
    changed := [];
    for i := 0 to |flat|
      invariant ListsChanges(ls, changed, i)
    {
      if flat[i].line.kind != Equal {
        changed := changed + [i];
      }
    }
  }

  /** Ascending, and exactly the changed lines below `n`. */
  ghost predicate ListsChanges(ls: seq<Line>, changed: seq<nat>, n: nat) {
    && (forall a, b :: 0 <= a < b < |changed| ==> changed[a] < changed[b])
    && (forall a :: 0 <= a < |changed| ==> changed[a] < n && Changed(ls, changed[a]))
    && (forall i :: 0 <= i < n && Changed(ls, i) ==> i in changed)
  }

  lemma QuietBetween(ls: seq<Line>, changed: seq<nat>, a: nat)
    requires ListsChanges(ls, changed, |ls|) && a <= |changed|
    ensures Quiet(ls, if a == 0 then -1 else changed[a - 1], if a == |changed| then |ls| else changed[a])
  {
    var lo, hi := if a == 0 then -1 else changed[a - 1], if a == |changed| then |ls| else changed[a];
    forall i | lo < i < hi ensures !Changed(ls, i) {
      assert forall b :: 0 <= b < |changed| ==> changed[b] <= lo || hi <= changed[b];
    }
  }

  /** At most six unchanged lines between each two neighbours from `i` to `j`. */
  predicate SmallGaps(changed: seq<nat>, i: nat, j: nat)
    requires j < |changed|
  {
    forall a :: i <= a < j ==> changed[a + 1] - changed[a] - 1 <= 2 * CONTEXT
  }

  /** Changes listed with small gaps form a cluster. */
  lemma GapsMakeCluster(ls: seq<Line>, changed: seq<nat>, i: nat, j: nat)
    requires ListsChanges(ls, changed, |ls|) && i <= j < |changed|
    requires SmallGaps(changed, i, j)
    ensures ClusterOk(ls, Cluster(changed[i], changed[j]))
  {
    forall p, q | changed[i] <= p < q <= changed[j] && Changed(ls, p) && Quiet(ls, p, q) && Changed(ls, q)
      ensures q - p - 1 <= 2 * CONTEXT
    {
      var a :| 0 <= a < |changed| && changed[a] == p;
      var b :| 0 <= b < |changed| && changed[b] == q;
      assert i <= a < b <= j;
      assert p < changed[a + 1] && Changed(ls, changed[a + 1]);
    }
  }

  // ----------------------------------------------------------------------- hunks

  function SideStart(ls: seq<Line>, start: nat, stop: nat, skip: Kind): nat
    requires start <= stop <= |ls|
  {
    if Side(ls[start..stop], skip) == [] then 0 else 1 + |Side(ls[..start], skip)|
  }

  /** The hunk for the lines from `start` to `stop`; a side with no lines there has start 0. */
  function HunkOf(ls: seq<Line>, start: nat, stop: nat): Hunk
    requires start <= stop <= |ls|
  {
    Hunk(SideStart(ls, start, stop, Added), |Old(ls[start..stop])|,
         SideStart(ls, start, stop, Deleted), |New(ls[start..stop])|, ls[start..stop])
  }

  lemma SidePush(ls: seq<Line>, start: nat, k: nat, skip: Kind)
    requires start <= k < |ls|
    ensures Side(ls[start..k + 1], skip) == Side(ls[start..k], skip) + if OnSide(ls[k], skip) then [ls[k].text] else []
    ensures |Side(ls[..k], skip)| == |Side(ls[..start], skip)| + |Side(ls[start..k], skip)|
    ensures ls[start..k + 1] == ls[start..k] + [ls[k]]
  {
    SideSplit(ls, start, k, skip);
    SideSnoc(ls[start..k], ls[k], skip);
    hide Side;
    assert ls[start..k + 1] == ls[start..k] + [ls[k]];
  }

  lemma SideSnoc(ls: seq<Line>, l: Line, skip: Kind)
    ensures Side(ls + [l], skip) == Side(ls, skip) + if OnSide(l, skip) then [l.text] else []
  {
    assert (ls + [l])[..|ls|] == ls;
  }

  /** A hunk with one more numbered line. */
  function HunkPush(h: Hunk, l: Numbered): Hunk {
    Hunk(if h.oldStart == 0 then l.oldLn else h.oldStart, h.oldLines + if l.oldLn > 0 then 1 else 0,
         if h.newStart == 0 then l.newLn else h.newStart, h.newLines + if l.newLn > 0 then 1 else 0, h.lines + [l.line])
  }

  function HunkFold(lines: seq<Numbered>): Hunk {
    if lines == [] then Hunk(0, 0, 0, 0, []) else HunkPush(HunkFold(lines[..|lines| - 1]), lines[|lines| - 1])
  }

  /** Hunk construction over its numbered lines. */
  method MakeHunk(lines: seq<Numbered>) returns (h: Hunk)
    ensures h == HunkFold(lines)
  {
    h := Hunk(0, 0, 0, 0, []);
    for k := 0 to |lines|
      invariant h == HunkFold(lines[..k])
    {
      var l := lines[k];
      assert lines[..k + 1][..k] == lines[..k];
      if l.oldLn > 0 {
        h := h.(oldStart := if h.oldStart == 0 then l.oldLn else h.oldStart, oldLines := h.oldLines + 1);
      }
      if l.newLn > 0 {
        h := h.(newStart := if h.newStart == 0 then l.newLn else h.newStart, newLines := h.newLines + 1);
      }
      h := h.(lines := h.lines + [l.line]);
    }
    assert lines[..|lines|] == lines;
  }

  lemma HunkGrows(ls: seq<Line>, start: nat, k: nat)
    requires start <= k < |ls|
    ensures HunkOf(ls, start, k + 1) == HunkPush(HunkOf(ls, start, k), NumberedAt(ls, k))
  {
    SidePush(ls, start, k, Added);
    SidePush(ls, start, k, Deleted);
    hide Side;
  }

  /** Counting and numbering a window line by line gives its sides' sizes and first positions. */
  lemma {:induction false} FoldIsHunk(ls: seq<Line>, start: nat, stop: nat)
    requires start <= stop <= |ls|
    ensures HunkFold(Numbers(ls)[start..stop]) == HunkOf(ls, start, stop)
    decreases stop
  {
    var w := Numbers(ls)[start..stop];
    if start == stop {
      assert ls[start..stop] == [];
    } else {
      hide HunkOf, NumberedAt, HunkPush;
      assert w[..|w| - 1] == Numbers(ls)[start..stop - 1];
      FoldIsHunk(ls, start, stop - 1);
      HunkGrows(ls, start, stop - 1);
    }
  }

  function ClusterHunk(ls: seq<Line>, c: Cluster): Hunk
    requires ClusterOk(ls, c)
  {
    HunkOf(ls, Start(c), Stop(c, |ls|))
  }

  ghost predicate AreHunks(ls: seq<Line>, cs: seq<Cluster>, hunks: seq<Hunk>) {
    |hunks| == |cs| && forall k :: 0 <= k < |cs| ==> ClusterOk(ls, cs[k]) && hunks[k] == ClusterHunk(ls, cs[k])
  }

  // --------------------------------------------------------------------- patching

  /** Where a hunk applies on the old side, 0-based. */
  function Offset(h: Hunk): nat {
    if h.oldStart == 0 then 0 else h.oldStart - 1
  }

  /** Applying hunks in order to the lines from `pos` on; `None` when one does not match. */
  function Patch(o: seq<string>, hunks: seq<Hunk>, pos: nat): Option<seq<string>> {
    if hunks == [] then if pos <= |o| then Some(o[pos..]) else None
    else
      var h := hunks[0];
      var at := Offset(h);
      if !(pos <= at && at + h.oldLines <= |o|) then None
      else if o[at..at + h.oldLines] != Old(h.lines) then None
      else match Patch(o, hunks[1..], at + h.oldLines)
        case None => None
        case Some(rest) => Some(o[pos..at] + New(h.lines) + rest)
  }

  /** The hunk that undoes a hunk. */
  function Mirror(l: Line): Line {
    Line(match l.kind case Added => Deleted case Deleted => Added case _ => l.kind, l.text)
  }

  function Mirrored(ls: seq<Line>): (r: seq<Line>)
    ensures |r| == |ls| && forall i :: 0 <= i < |ls| ==> r[i] == Mirror(ls[i])
  {
    seq(|ls|, i requires 0 <= i < |ls| => Mirror(ls[i]))
  }

  function Reverse(h: Hunk): Hunk {
    Hunk(h.newStart, h.newLines, h.oldStart, h.oldLines, Mirrored(h.lines))
  }

  function Reversed(hunks: seq<Hunk>): (r: seq<Hunk>)
    ensures |r| == |hunks| && forall k :: 0 <= k < |r| ==> r[k] == Reverse(hunks[k])
  {
    seq(|hunks|, k requires 0 <= k < |hunks| => Reverse(hunks[k]))
  }

  lemma {:induction false} MirrorSides(ls: seq<Line>)
    ensures Old(Mirrored(ls)) == New(ls) && New(Mirrored(ls)) == Old(ls)
  {
    if ls != [] {
      var front := ls[..|ls| - 1];
      MirrorSides(front);
      assert Mirrored(ls)[..|ls| - 1] == Mirrored(front);
    }
  }

  lemma MirrorHunk(ls: seq<Line>, start: nat, stop: nat)
    requires start <= stop <= |ls|
    ensures HunkOf(Mirrored(ls), start, stop) == Reverse(HunkOf(ls, start, stop))
  {
    assert Mirrored(ls)[start..stop] == Mirrored(ls[start..stop]);
    assert Mirrored(ls)[..start] == Mirrored(ls[..start]);
    MirrorSides(ls[start..stop]);
    MirrorSides(ls[..start]);
    hide Side, Mirrored;
  }

  lemma MirrorClusters(ls: seq<Line>, cs: seq<Cluster>)
    requires IsClusters(ls, cs)
    ensures IsClusters(Mirrored(ls), cs)
  {
    assert forall i: int :: Changed(Mirrored(ls), i) <==> Changed(ls, i);
    assert forall p: int, q: int :: Quiet(Mirrored(ls), p, q) <==> Quiet(ls, p, q);
    hide Changed, Quiet;
  }

  /** The cluster order, seen from the windows: a window stops before the next one starts. */
  lemma WindowsApart(ls: seq<Line>, cs: seq<Cluster>, k: nat)
    requires IsClusters(ls, cs) && k < |cs|
    ensures Start(cs[k]) <= cs[k].first <= cs[k].last < Stop(cs[k], |ls|) <= |ls|
    ensures k + 1 < |cs| ==> Stop(cs[k], |ls|) < Start(cs[k + 1])
  {
    assert ClusterOk(ls, cs[k]);
    if k + 1 < |cs| {
      assert ClusterOk(ls, cs[k + 1]);
    }
  }

  /** Lines outside every window are unchanged. */
  lemma GapIsEqual(ls: seq<Line>, cs: seq<Cluster>, k: nat)
    requires IsClusters(ls, cs) && k <= |cs|
    ensures var from := if k == 0 then 0 else Stop(cs[k - 1], |ls|);
            var to := if k == |cs| then |ls| else Start(cs[k]);
            from <= to <= |ls| && forall i :: 0 <= i < |ls[from..to]| ==> ls[from..to][i].kind == Equal
  {
    if k > 0 { WindowsApart(ls, cs, k - 1); }
    if k < |cs| { WindowsApart(ls, cs, k); }
    var from := if k == 0 then 0 else Stop(cs[k - 1], |ls|);
    var to := if k == |cs| then |ls| else Start(cs[k]);
    assert Quiet(ls, if k == 0 then -1 else cs[k - 1].last, if k == |cs| then |ls| else cs[k].first);
    hide IsClusters;
    QuietSlice(ls, from, to);
  }

  lemma QuietSlice(ls: seq<Line>, from: nat, to: nat)
    requires from <= to <= |ls| && forall i :: from <= i < to ==> !Changed(ls, i)
    ensures forall i :: 0 <= i < |ls[from..to]| ==> ls[from..to][i].kind == Equal
  {
    forall i | 0 <= i < to - from ensures ls[from..to][i].kind == Equal {
      assert !Changed(ls, from + i);
    }
  }

  lemma HunkApplies(ls: seq<Line>, start: nat, stop: nat)
    requires start < stop <= |ls|
    requires Old(ls[start..stop]) == [] ==> start == 0
    ensures var h := HunkOf(ls, start, stop);
            && Offset(h) == |Old(ls[..start])| && Offset(h) + h.oldLines == |Old(ls[..stop])| <= |Old(ls)|
            && Old(ls)[Offset(h)..Offset(h) + h.oldLines] == Old(h.lines)
  {
    SideSplit(ls, start, stop, Added);
    hide Side;
    assert ls[..0] == [];
    SideEmpty(Added);
  }

  lemma SideEmpty(skip: Kind)
    ensures Side([], skip) == []
  {
  }

  /** A window without old lines starts at the top: context would be on the old side. */
  lemma BareWindow(ls: seq<Line>, cs: seq<Cluster>, k: nat)
    requires IsClusters(ls, cs) && k < |cs|
    requires Old(ls[Start(cs[k])..Stop(cs[k], |ls|)]) == []
    ensures Start(cs[k]) == 0 && Stop(cs[k], |ls|) == |ls|
  {
    var start, stop := Start(cs[k]), Stop(cs[k], |ls|);
    WindowsApart(ls, cs, k);
    ContextIsQuiet(ls, cs, k);
    NoSideChanges(ls, start, stop);
    hide *;
    assert start >= cs[k].first && stop - 1 <= cs[k].last;
  }

  lemma NoSideChanges(ls: seq<Line>, start: nat, stop: nat)
    requires start < stop <= |ls| && Old(ls[start..stop]) == []
    ensures Changed(ls, start) && Changed(ls, stop - 1)
  {
    NoSide(ls[start..stop], Added);
    hide Side;
    assert ls[start..stop][0] == ls[start] && ls[start..stop][stop - 1 - start] == ls[stop - 1];
  }

  /** Context lines are unchanged. */
  lemma ContextIsQuiet(ls: seq<Line>, cs: seq<Cluster>, k: nat)
    requires IsClusters(ls, cs) && k < |cs|
    ensures forall i :: Start(cs[k]) <= i < cs[k].first || cs[k].last < i < Stop(cs[k], |ls|) ==> !Changed(ls, i)
  {
    if k > 0 { WindowsApart(ls, cs, k - 1); }
    WindowsApart(ls, cs, k);
    assert Quiet(ls, if k == 0 then -1 else cs[k - 1].last, cs[k].first);
    assert Quiet(ls, cs[k].last, if k == |cs| - 1 then |ls| else cs[k + 1].first);
  }

  lemma {:induction false} ChangeBehind(ls: seq<Line>, from: nat, i: nat) returns (p: nat)
    requires from <= i < |ls| && Changed(ls, from)
    ensures from <= p <= i && Changed(ls, p) && forall m :: p < m <= i ==> !Changed(ls, m)
    decreases i
  {
    if Changed(ls, i) {
      p := i;
    } else {
      p := ChangeBehind(ls, from, i - 1);
    }
  }

  lemma {:induction false} ChangeAhead(ls: seq<Line>, i: nat, last: nat) returns (q: nat)
    requires i <= last < |ls| && Changed(ls, last)
    ensures i <= q <= last && Changed(ls, q) && forall m :: i <= m < q ==> !Changed(ls, m)
    decreases last - i
  {
    if Changed(ls, i) {
      q := i;
    } else {
      q := ChangeAhead(ls, i + 1, last);
    }
  }

  /** Line `i` is in some hunk. */
  predicate Shown(ls: seq<Line>, cs: seq<Cluster>, i: nat) {
    exists k :: 0 <= k < |cs| && Start(cs[k]) <= i < Stop(cs[k], |ls|)
  }

  /** A changed line at most three lines away. */
  predicate NearChange(ls: seq<Line>, i: nat) {
    exists j :: 0 <= j < |ls| && ls[j].kind != Equal && j - 3 <= i <= j + 3
  }

  lemma InWindowIsNear(ls: seq<Line>, c: Cluster, i: nat)
    requires ClusterOk(ls, c) && Start(c) <= i < Stop(c, |ls|) <= |ls|
    ensures NearChange(ls, i)
  {
    if i < c.first {
      assert ls[c.first].kind != Equal;
    } else if i > c.last {
      assert ls[c.last].kind != Equal;
    } else {
      var p := ChangeBehind(ls, c.first, i);
      var q := ChangeAhead(ls, i, c.last);
      assert Quiet(ls, p, q);
      assert ls[p].kind != Equal && ls[q].kind != Equal;
      assert p < q ==> q - p - 1 <= 6;
    }
  }

  lemma NearIsInWindow(ls: seq<Line>, c: Cluster, i: nat, j: nat)
    requires i < |ls| && Changed(ls, j) && c.first <= j <= c.last && j - 3 <= i <= j + 3
    ensures Start(c) <= i < Stop(c, |ls|)
  {
  }

  /** A line is shown if and only if it or a line at most three away from it is changed. */
  lemma ShownIffNear(ls: seq<Line>, cs: seq<Cluster>, i: nat)
    requires IsClusters(ls, cs) && i < |ls|
    ensures Shown(ls, cs, i) <==> NearChange(ls, i)
  {
    hide ClusterOk, Start, Stop;
    if k :| 0 <= k < |cs| && Start(cs[k]) <= i < Stop(cs[k], |ls|) {
      WindowsApart(ls, cs, k);
      InWindowIsNear(ls, cs[k], i);
    }
    if j :| 0 <= j < |ls| && ls[j].kind != Equal && j - 3 <= i <= j + 3 {
      hide IsClusters;
      var k := ClusterAt(ls, cs, j, 0);
      NearIsInWindow(ls, cs[k], i, j);
    }
  }

  lemma {:induction false} NoSide(ls: seq<Line>, skip: Kind)
    requires Side(ls, skip) == []
    ensures forall i :: 0 <= i < |ls| ==> ls[i].kind == skip
  {
    if ls != [] {
      NoSide(ls[..|ls| - 1], skip);
    }
  }

  /** From any point between windows, the remaining hunks turn the rest of the old side into the rest of the new. */
  lemma {:induction false} PatchRest(ls: seq<Line>, cs: seq<Cluster>, hunks: seq<Hunk>, k: nat)
    requires IsClusters(ls, cs) && AreHunks(ls, cs, hunks) && k <= |cs|
    ensures var from := if k == 0 then 0 else Stop(cs[k - 1], |ls|);
            from <= |ls| && Patch(Old(ls), hunks[k..], |Old(ls[..from])|) == Some(New(ls[from..]))
    decreases |cs| - k
  {
    GapIsEqual(ls, cs, k);
    var from := if k == 0 then 0 else Stop(cs[k - 1], |ls|);
    var to := if k == |cs| then |ls| else Start(cs[k]);
    EqualSides(ls[from..to]);
    hide Side;
    if k == |cs| {
      PatchEnd(ls, hunks[k..], from);
    } else {
      WindowsApart(ls, cs, k);
      if Old(ls[to..Stop(cs[k], |ls|)]) == [] {
        BareWindow(ls, cs, k);
      }
      PatchRest(ls, cs, hunks, k + 1);
      hide Side, Patch, IsClusters, Quiet, Changed, ClusterOk, HunkOf;
      assert hunks[k..][1..] == hunks[k + 1..];
      PatchStep(ls, hunks[k..], from, to, Stop(cs[k], |ls|));
    }
  }

  lemma PatchEnd(ls: seq<Line>, hunks: seq<Hunk>, from: nat)
    requires from <= |ls| && hunks == [] && Old(ls[from..|ls|]) == New(ls[from..|ls|])
    ensures Patch(Old(ls), hunks, |Old(ls[..from])|) == Some(New(ls[from..]))
  {
    SideSplit(ls, 0, from, Added);
    assert ls[from..|ls|] == ls[from..];
    hide Side;
    assert Old(ls)[|Old(ls[..from])|..] == Old(ls[from..]);
  }

  lemma PatchCons(o: seq<string>, hunks: seq<Hunk>, pos: nat, gap: seq<string>, rest: seq<string>)
    requires hunks != [] && pos <= Offset(hunks[0]) && Offset(hunks[0]) + hunks[0].oldLines <= |o|
    requires o[Offset(hunks[0])..Offset(hunks[0]) + hunks[0].oldLines] == Old(hunks[0].lines)
    requires o[pos..Offset(hunks[0])] == gap && Patch(o, hunks[1..], Offset(hunks[0]) + hunks[0].oldLines) == Some(rest)
    ensures Patch(o, hunks, pos) == Some(gap + New(hunks[0].lines) + rest)
  {
    hide Side;
  }

  lemma SliceMiddle(a: seq<string>, b: seq<string>, c: seq<string>)
    ensures (a + b + c)[|a|..|a + b|] == b
  {
  }

  lemma PatchStep(ls: seq<Line>, hunks: seq<Hunk>, from: nat, to: nat, stop: nat)
    requires from <= to < stop <= |ls| && hunks != [] && hunks[0] == HunkOf(ls, to, stop)
    requires Old(ls[from..to]) == New(ls[from..to])
    requires Old(ls[to..stop]) == [] ==> to == 0
    requires Patch(Old(ls), hunks[1..], |Old(ls[..stop])|) == Some(New(ls[stop..]))
    ensures Patch(Old(ls), hunks, |Old(ls[..from])|) == Some(New(ls[from..]))
  {
    HunkApplies(ls, to, stop);
    GapOnOldSide(ls, from, to);
    RestOfNewSide(ls, from, to, stop);
    hide Side, Patch;
    PatchCons(Old(ls), hunks, |Old(ls[..from])|, Old(ls[from..to]), New(ls[stop..]));
  }

  lemma GapOnOldSide(ls: seq<Line>, from: nat, to: nat)
    requires from <= to <= |ls|
    ensures |Old(ls[..from])| <= |Old(ls[..to])| <= |Old(ls)|
    ensures Old(ls)[|Old(ls[..from])|..|Old(ls[..to])|] == Old(ls[from..to])
  {
    SideSplit(ls, from, to, Added);
    hide Side;
    SliceMiddle(Old(ls[..from]), Old(ls[from..to]), Old(ls[to..]));
  }

  lemma RestOfNewSide(ls: seq<Line>, from: nat, to: nat, stop: nat)
    requires from <= to <= stop <= |ls|
    ensures New(ls[from..]) == New(ls[from..to]) + New(ls[to..stop]) + New(ls[stop..])
  {
    SideSplit(ls, from, to, Deleted);
    SideSplit(ls, to, stop, Deleted);
    hide Side;
  }

  /** Patching forward gives the new side, patching back with the reversed hunks the old side. */
  lemma RoundTrip(ls: seq<Line>, cs: seq<Cluster>, hunks: seq<Hunk>)
    requires IsClusters(ls, cs) && AreHunks(ls, cs, hunks)
    ensures Patch(Old(ls), hunks, 0) == Some(New(ls))
    ensures Patch(New(ls), Reversed(hunks), 0) == Some(Old(ls))
  {
    PatchRest(ls, cs, hunks, 0);
    assert hunks[0..] == hunks && ls[0..] == ls && ls[..0] == [];
    var ms := Mirrored(ls);
    MirrorClusters(ls, cs);
    forall k | 0 <= k < |cs| ensures Reverse(hunks[k]) == ClusterHunk(ms, cs[k]) {
      WindowsApart(ls, cs, k);
      MirrorHunk(ls, Start(cs[k]), Stop(cs[k], |ls|));
    }
    PatchRest(ms, cs, Reversed(hunks), 0);
    MirrorSides(ls);
    assert Reversed(hunks)[0..] == Reversed(hunks) && ms[0..] == ms && ms[..0] == [];
  }

  /** Every changed line is inside exactly one window, and windows do not touch. */
  lemma EveryChangeOnce(ls: seq<Line>, cs: seq<Cluster>, i: nat)
    requires IsClusters(ls, cs) && Changed(ls, i)
    ensures exists k :: 0 <= k < |cs| && Start(cs[k]) <= i < Stop(cs[k], |ls|)
    ensures forall k, m :: 0 <= k < m < |cs| ==> Stop(cs[k], |ls|) < Start(cs[m])
  {
    var k := ClusterAt(ls, cs, i, 0);
    WindowsApart(ls, cs, k);
    forall a, b | 0 <= a < b < |cs| ensures Stop(cs[a], |ls|) < Start(cs[b]) {
      WindowsOrdered(ls, cs, a, b);
    }
  }

  lemma {:induction false} WindowsOrdered(ls: seq<Line>, cs: seq<Cluster>, a: nat, b: nat)
    requires IsClusters(ls, cs) && a < b < |cs|
    ensures Stop(cs[a], |ls|) < Start(cs[b])
    decreases b
  {
    WindowsApart(ls, cs, b - 1);
    if a < b - 1 {
      WindowsOrdered(ls, cs, a, b - 1);
    }
  }

  /** The cluster a changed line belongs to, searched from the left. */
  lemma ClusterAt(ls: seq<Line>, cs: seq<Cluster>, i: nat, from: nat) returns (k: nat)
    requires IsClusters(ls, cs) && Changed(ls, i) && from <= |cs|
    requires from > 0 ==> cs[from - 1].last < i
    ensures k < |cs| && cs[k].first <= i <= cs[k].last
    decreases |cs| - from
  {
    assert from < |cs|;
    if i <= cs[from].last {
      k := from;
    } else {
      k := ClusterAt(ls, cs, i, from + 1);
    }
  }

  /** A hunk without old lines means there was no old side, and it is the only hunk. */
  lemma NoOldLinesMeansAdded(ls: seq<Line>, cs: seq<Cluster>, hunks: seq<Hunk>, k: nat)
    requires IsClusters(ls, cs) && AreHunks(ls, cs, hunks) && k < |cs|
    ensures hunks[k].oldLines == 0 <==> Old(ls) == []
    ensures hunks[k].newLines == 0 <==> New(ls) == []
    ensures hunks[k].oldLines == 0 || hunks[k].newLines == 0 ==> |hunks| == 1
  {
    ZeroSide(ls, cs, k);
    MirrorClusters(ls, cs);
    ZeroSide(Mirrored(ls), cs, k);
    WindowsApart(ls, cs, k);
    MirrorHunk(ls, Start(cs[k]), Stop(cs[k], |ls|));
    MirrorSides(ls);
  }

  lemma ZeroSide(ls: seq<Line>, cs: seq<Cluster>, k: nat)
    requires IsClusters(ls, cs) && k < |cs|
    ensures ClusterHunk(ls, cs[k]).oldLines == 0 <==> Old(ls) == []
    ensures ClusterHunk(ls, cs[k]).oldLines == 0 ==> |cs| == 1
  {
    var start, stop := Start(cs[k]), Stop(cs[k], |ls|);
    WindowsApart(ls, cs, k);
    SideSplit(ls, start, stop, Added);
    if Old(ls[start..stop]) == [] {
      BareWindow(ls, cs, k);
      if k > 0 { WindowsApart(ls, cs, k - 1); }
      assert ls[0..|ls|] == ls;
    }
  }

  // ------------------------------------------------------------------ the whole diff

  /** The clusters found after looking at the first `i` changes. */
  ghost predicate Pending(ls: seq<Line>, changed: seq<nat>, cs: seq<Cluster>, i: nat) {
    && ListsChanges(ls, changed, |ls|) && i <= |changed|
    && (forall k :: 0 <= k < |cs| ==> ClusterOk(ls, cs[k]))
    && (forall k :: 0 < k < |cs| ==> cs[k].first - cs[k - 1].last - 1 > 2 * CONTEXT && Quiet(ls, cs[k - 1].last, cs[k].first))
    && (cs == [] <==> i == 0)
    && (cs != [] ==> cs[0].first == changed[0] && cs[|cs| - 1].last == changed[i - 1])
    && (cs != [] && i < |changed| ==> changed[i] - changed[i - 1] - 1 > 2 * CONTEXT)
  }

  lemma NextCluster(ls: seq<Line>, changed: seq<nat>, cs: seq<Cluster>, i: nat, j: nat)
    requires Pending(ls, changed, cs, i) && i <= j < |changed|
    requires SmallGaps(changed, i, j)
    requires j + 1 < |changed| ==> changed[j + 1] - changed[j] - 1 > 2 * CONTEXT
    ensures ClusterOk(ls, Cluster(changed[i], changed[j]))
    ensures Pending(ls, changed, cs + [Cluster(changed[i], changed[j])], j + 1)
  {
    GapsMakeCluster(ls, changed, i, j);
    QuietBetween(ls, changed, i);
    hide ClusterOk, Quiet, ListsChanges;
    PendingPush(ls, changed, cs, Cluster(changed[i], changed[j]), i, j);
  }

  lemma PendingPush(ls: seq<Line>, changed: seq<nat>, cs: seq<Cluster>, c: Cluster, i: nat, j: nat)
    requires Pending(ls, changed, cs, i) && i <= j < |changed| && ClusterOk(ls, c)
    requires c == Cluster(changed[i], changed[j])
    requires i > 0 ==> Quiet(ls, changed[i - 1], changed[i])
    requires j + 1 < |changed| ==> changed[j + 1] - changed[j] - 1 > 2 * CONTEXT
    ensures Pending(ls, changed, cs + [c], j + 1)
  {
    hide ClusterOk, Quiet, ListsChanges;
    var ds := cs + [c];
    forall k | 0 <= k < |ds| ensures ClusterOk(ls, ds[k]) {
      assert k < |cs| ==> ds[k] == cs[k];
    }
    forall k | 0 < k < |ds| ensures ds[k].first - ds[k - 1].last - 1 > 2 * CONTEXT && Quiet(ls, ds[k - 1].last, ds[k].first) {
      assert ds[k - 1] == cs[k - 1];
      assert k < |cs| ==> ds[k] == cs[k];
    }
    assert cs != [] ==> ds[0] == cs[0];
  }

  lemma HunksPush(ls: seq<Line>, cs: seq<Cluster>, hunks: seq<Hunk>, c: Cluster, h: Hunk)
    requires AreHunks(ls, cs, hunks) && ClusterOk(ls, c) && h == ClusterHunk(ls, c)
    ensures AreHunks(ls, cs + [c], hunks + [h])
  {
    hide ClusterOk, ClusterHunk;
  }

  lemma AllFound(ls: seq<Line>, changed: seq<nat>, cs: seq<Cluster>)
    requires Pending(ls, changed, cs, |changed|)
    ensures IsClusters(ls, cs)
  {
    QuietBetween(ls, changed, 0);
    QuietBetween(ls, changed, |changed|);
    hide ClusterOk, Quiet, ListsChanges;
  }

  lemma NothingYet(ls: seq<Line>, changed: seq<nat>)
    requires ListsChanges(ls, changed, |ls|)
    ensures Pending(ls, changed, [], 0) && AreHunks(ls, [], [])
  {
  }

  function WindowHunk(flat: seq<Numbered>, c: Cluster): Hunk
    requires c.first <= c.last < |flat|
  {
    HunkFold(flat[Start(c)..Stop(c, |flat|)])
  }

  /** The window with its context, clipped at both ends of the file. */
  method CutWindow(flat: seq<Numbered>, first: nat, last: nat) returns (h: Hunk)
    requires first <= last < |flat|
    ensures h == WindowHunk(flat, Cluster(first, last))
  {
    var start := if first < CONTEXT then 0 else first - CONTEXT;
    var end := if last + CONTEXT > |flat| - 1 then |flat| - 1 else last + CONTEXT;
    h := MakeHunk(flat[start..end + 1]);
  }

  /** The window that is cut is the cluster's. */
  lemma CutHunk(ls: seq<Line>, changed: seq<nat>, cs: seq<Cluster>, hunks: seq<Hunk>, i: nat, j: nat, h: Hunk)
    requires Pending(ls, changed, cs, i) && AreHunks(ls, cs, hunks) && i <= j < |changed|
    requires SmallGaps(changed, i, j)
    requires j + 1 < |changed| ==> changed[j + 1] - changed[j] - 1 > 2 * CONTEXT
    requires changed[i] <= changed[j] < |ls|
    requires h == WindowHunk(Numbers(ls), Cluster(changed[i], changed[j]))
    ensures var c := Cluster(changed[i], changed[j]);
            Pending(ls, changed, cs + [c], j + 1) && AreHunks(ls, cs + [c], hunks + [h])
  {
    hide Pending, AreHunks, HunkFold, Numbers, HunkOf;
    NextCluster(ls, changed, cs, i, j);
    FoldIsHunk(ls, Start(Cluster(changed[i], changed[j])), Stop(Cluster(changed[i], changed[j]), |ls|));
    HunksPush(ls, cs, hunks, Cluster(changed[i], changed[j]), h);
  }

  lemma PendingBounds(ls: seq<Line>, changed: seq<nat>, cs: seq<Cluster>, i: nat, j: nat)
    requires Pending(ls, changed, cs, i) && i <= j < |changed|
    ensures changed[i] <= changed[j] < |ls|
  {
  }

  /** Extends a cluster over changes whose context windows would touch. */
  method ClusterEnd(changed: seq<nat>, i: nat) returns (j: nat)
    requires i < |changed|
    ensures i <= j < |changed|
    ensures SmallGaps(changed, i, j)
    ensures j + 1 < |changed| ==> changed[j + 1] - changed[j] - 1 > 2 * CONTEXT
  {
    j := i;
    while j + 1 < |changed| && changed[j + 1] - changed[j] - 1 <= 2 * CONTEXT
      invariant i <= j < |changed|
      invariant SmallGaps(changed, i, j)
    {
      j := j + 1;
    }
  }

  /** The hunk for the cluster that starts at change `i`, and the change after it. */
  method CutNext(flat: seq<Numbered>, changed: seq<nat>, i: nat, ghost ls: seq<Line>, ghost cs: seq<Cluster>, ghost hunks: seq<Hunk>)
      returns (h: Hunk, next: nat, ghost c: Cluster)
    requires flat == Numbers(ls) && i < |changed|
    requires Pending(ls, changed, cs, i) && AreHunks(ls, cs, hunks)
    ensures i < next <= |changed| && Pending(ls, changed, cs + [c], next) && AreHunks(ls, cs + [c], hunks + [h])
  {
    hide *;
    var j := ClusterEnd(changed, i);
    PendingBounds(ls, changed, cs, i, j);
    h := CutWindow(flat, changed[i], changed[j]);
    CutHunk(ls, changed, cs, hunks, i, j, h);
    next, c := j + 1, Cluster(changed[i], changed[j]);
  }

  /** The loop over changes that cuts one hunk per cluster. */
  method CutHunks(flat: seq<Numbered>, changed: seq<nat>, ghost ls: seq<Line>) returns (hunks: seq<Hunk>, ghost cs: seq<Cluster>)
    requires flat == Numbers(ls) && ListsChanges(ls, changed, |ls|)
    ensures IsClusters(ls, cs) && AreHunks(ls, cs, hunks)
  {
    hide *;
    hunks, cs := [], [];
    NothingYet(ls, changed);
    var i := 0;
    while i < |changed|
      invariant i <= |changed| && Pending(ls, changed, cs, i) && AreHunks(ls, cs, hunks)
    {
      var h, next;
      ghost var c;
      h, next, c := CutNext(flat, changed, i, ls, cs, hunks);
      hunks, cs, i := hunks + [h], cs + [c], next;
    }
    AllFound(ls, changed, cs);
  }

  /** From chunks to hunks: over the line cap nothing is emitted, otherwise the hunks patch one side to the other. */
  method ChunksToHunks(chunks: seq<Chunk>) returns (hunks: seq<Hunk>, suppressed: bool, ghost cs: seq<Cluster>)
    ensures suppressed <==> |Lines(chunks)| > 20000
    ensures suppressed ==> hunks == []
    ensures !suppressed ==> IsClusters(Lines(chunks), cs) && AreHunks(Lines(chunks), cs, hunks)
    ensures !suppressed ==> Patch(Old(Lines(chunks)), hunks, 0) == Some(New(Lines(chunks)))
    ensures !suppressed ==> Patch(New(Lines(chunks)), Reversed(hunks), 0) == Some(Old(Lines(chunks)))
  {
    assert MAX_DIFF_LINES == 20000;
    hide *;
    hunks, cs := [], [];
    var flat;
    flat, suppressed := Flatten(chunks);
    if !suppressed {
      var changed := ChangedLines(flat, Lines(chunks));
      hunks, cs := CutHunks(flat, changed, Lines(chunks));
      RoundTrip(Lines(chunks), cs, hunks);
    }
  }

  // -------------------------------------------------------------- whole-file meaning

  /** The text of one side, as the chunks concatenate it. */
  function SideText(chunks: seq<Chunk>, skip: Kind): string {
    if chunks == [] then ""
    else SideText(chunks[..|chunks| - 1], skip) + SideChunk(chunks[|chunks| - 1], skip)
  }

  function SideChunk(c: Chunk, skip: Kind): string {
    if c.kind == skip || c.kind == Other then "" else c.content
  }

  /** The chunks are whole lines: what a side has before a chunk ends in a newline. */
  predicate WholeLines(chunks: seq<Chunk>, skip: Kind) {
    forall c :: 0 <= c < |chunks| && SideChunk(chunks[c], skip) != "" ==> EndsLine(SideText(chunks[..c], skip))
  }

  predicate EndsLine(s: string) {
    s != "" ==> s[|s| - 1] == '\n'
  }

  function Trimmed(ls: seq<string>): (r: seq<string>)
    ensures |r| == |ls| && forall i :: 0 <= i < |r| ==> r[i] == TrimNewline(ls[i])
  {
    seq(|ls|, i requires 0 <= i < |ls| => TrimNewline(ls[i]))
  }

  lemma LinesConcat(a: seq<string>, b: seq<string>)
    requires AreLines(a) && AreLines(b) && (a != [] ==> IsLine(a[|a| - 1], false))
    ensures AreLines(a + b)
  {
    hide IsLine;
    var ls := a + b;
    forall i | 0 <= i < |ls| ensures IsLine(ls[i], i == |ls| - 1) {
      if i < |a| {
        assert ls[i] == a[i] && IsLine(a[i], i == |a| - 1);
        LineAnywhere(a[i], i == |ls| - 1);
      } else {
        assert ls[i] == b[i - |a|];
      }
    }
  }

  lemma LineAnywhere(l: string, last: bool)
    ensures IsLine(l, false) ==> IsLine(l, last)
  {
  }

  lemma {:induction false} SplitConcat(a: string, b: string)
    requires EndsLine(a)
    ensures SplitLines(a + b) == SplitLines(a) + SplitLines(b)
  {
    SplitIsTheLines(a, SplitLines(a));
    SplitIsTheLines(b, SplitLines(b));
    var ls := SplitLines(a) + SplitLines(b);
    JoinedConcat(SplitLines(a), SplitLines(b));
    if a != "" {
      LastPiece(SplitLines(a));
    }
    LinesConcat(SplitLines(a), SplitLines(b));
    hide SplitLines, Joined, AreLines, EndsLine;
    SplitIsTheLines(a + b, ls);
  }

  lemma {:induction false} LastPiece(ls: seq<string>)
    requires ls != [] && forall i :: 0 <= i < |ls| ==> ls[i] != []
    ensures var l := ls[|ls| - 1]; Joined(ls) != "" && Joined(ls)[|Joined(ls)| - 1] == l[|l| - 1]
  {
    if |ls| > 1 {
      LastPiece(ls[1..]);
    }
  }

  lemma {:induction false} JoinedConcat(a: seq<string>, b: seq<string>)
    ensures Joined(a + b) == Joined(a) + Joined(b)
  {
    if a == [] {
      assert a + b == b;
    } else {
      JoinedConcat(a[1..], b);
      assert (a + b)[1..] == a[1..] + b && (a + b)[0] == a[0];
      assert Joined(a) == a[0] + Joined(a[1..]) && Joined(a + b) == a[0] + Joined((a + b)[1..]);
      hide Joined;
      assert a[0] + (Joined(a[1..]) + Joined(b)) == (a[0] + Joined(a[1..])) + Joined(b);
    }
  }

  /** Each side of the numbered lines is that file's own lines. */
  lemma {:induction false} SidesAreTheFiles(chunks: seq<Chunk>, skip: Kind)
    requires skip == Added || skip == Deleted
    requires WholeLines(chunks, skip)
    ensures Side(Lines(chunks), skip) == Trimmed(SplitLines(SideText(chunks, skip)))
  {
    if chunks != [] {
      var front, c := chunks[..|chunks| - 1], chunks[|chunks| - 1];
      assert WholeLines(front, skip) by {
        forall i | 0 <= i < |front| && SideChunk(front[i], skip) != "" ensures EndsLine(SideText(front[..i], skip)) {
          assert front[..i] == chunks[..i] && front[i] == chunks[i];
        }
      }
      SidesAreTheFiles(front, skip);
      SidesPush(front, c, skip);
    }
  }

  lemma SidesPush(front: seq<Chunk>, c: Chunk, skip: Kind)
    requires Side(Lines(front), skip) == Trimmed(SplitLines(SideText(front, skip)))
    requires SideChunk(c, skip) != "" ==> EndsLine(SideText(front, skip))
    ensures Side(Lines(front) + ChunkLines(c), skip) == Trimmed(SplitLines(SideText(front, skip) + SideChunk(c, skip)))
  {
    var text, more := SideText(front, skip), SideChunk(c, skip);
    SideConcat(Lines(front), ChunkLines(c), skip);
    ChunkSide(c, skip);
    hide SideText, SideChunk, SplitLines, Side, Lines, ChunkLines, EndsLine;
    if more != "" {
      SplitConcat(text, more);
    } else {
      assert text + more == text;
      NoLines();
    }
    assert Trimmed(SplitLines(text)) + Trimmed(SplitLines(more)) == Trimmed(SplitLines(text) + SplitLines(more));
  }

  lemma NoLines()
    ensures SplitLines("") == []
  {
  }

  lemma ChunkSide(c: Chunk, skip: Kind)
    ensures Side(ChunkLines(c), skip) == Trimmed(SplitLines(SideChunk(c, skip)))
  {
    if c.kind != Other {
      TaggedSide(c.kind, SplitLines(c.content), skip);
    }
  }

  lemma {:induction false} TaggedSide(kind: Kind, ls: seq<string>, skip: Kind)
    ensures Side(Tagged(kind, ls), skip) == if kind == skip then [] else Trimmed(ls)
    decreases |ls|
  {
    if ls != [] {
      var front := ls[..|ls| - 1];
      TaggedSide(kind, front, skip);
      var t := Tagged(kind, ls);
      assert t[..|t| - 1] == Tagged(kind, front);
      assert Side(t, skip) == Side(t[..|t| - 1], skip) + if kind != skip then [t[|t| - 1].text] else [];
      hide Side;
      assert Trimmed(ls) == Trimmed(front) + [TrimNewline(ls[|ls| - 1])];
    }
  }
}
