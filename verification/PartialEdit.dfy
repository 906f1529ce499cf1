/**
 * The byte computations of patch_file and append_to_file
 * (internal/storage/partialedit.go): a span is edited only when it matches
 * exactly once, where matches are counted greedily without overlap.
 */
module PartialEdit {
  import opened Wrappers

  type Bytes = string

  datatype EditResult =
    | Edited(out: Bytes)
    | MatchError(count: nat)
    | EmptyOldString
    | AnchorRequired
    | AnchorWithEnd
    | InvalidPosition

  predicate OccursAt(s: Bytes, sep: Bytes, i: nat) {
    i + |sep| <= |s| && s[i..i + |sep|] == sep
  }

  /** The leftmost occurrence. */
  function Index(s: Bytes, sep: Bytes): (r: Option<nat>)
    ensures r.Some? ==> r.value + |sep| <= |s|
    decreases |s|
  {
    if |sep| > |s| then None
    else if s[..|sep|] == sep then Some(0)
    else match Index(s[1..], sep)
      case Some(i) => Some(i + 1)
      case None => None
  }

  lemma {:induction false} IndexIsLeftmost(s: Bytes, sep: Bytes)
    ensures match Index(s, sep)
            case Some(i) => OccursAt(s, sep, i) && forall j: nat :: j < i ==> !OccursAt(s, sep, j)
            case None => forall j: nat :: !OccursAt(s, sep, j)
    decreases |s|
  {
    if |sep| > |s| {
    } else if s[..|sep|] == sep {
      assert OccursAt(s, sep, 0);
    } else {
      assert !OccursAt(s, sep, 0);
      hide OccursAt;
      IndexIsLeftmost(s[1..], sep);
      forall j: nat | j > 0 ensures OccursAt(s, sep, j) == OccursAt(s[1..], sep, j - 1) {
        OccursInRest(s, sep, 1, j - 1);
      }
    }
  }

  /** Non-overlapping occurrences, counted from the left. */
  function Count(s: Bytes, sep: Bytes): nat
    requires sep != ""
    decreases |s|
  {
    match Index(s, sep)
    case None => 0
    case Some(i) => 1 + Count(s[i + |sep|..], sep)
  }

  function SplicePatch(cur: Bytes, oldString: Bytes, newString: Bytes): EditResult {
    if oldString == "" then EmptyOldString
    else if Count(cur, oldString) != 1 then MatchError(Count(cur, oldString))
    else
      var idx := Index(cur, oldString).value;
      Edited(cur[..idx] + newString + cur[idx + |oldString|..])
  }

  function SpliceAppend(cur: Bytes, content: Bytes, position: string, anchor: Bytes): EditResult {
    if position == "" || position == "end" then
      if anchor != "" then AnchorWithEnd else Edited(cur + content)
    else if position == "before" || position == "after" then
      if anchor == "" then AnchorRequired
      else if Count(cur, anchor) != 1 then MatchError(Count(cur, anchor))
      else
        var idx := Index(cur, anchor).value;
        var at := if position == "after" then idx + |anchor| else idx;
        Edited(cur[..at] + content + cur[at..])
    else InvalidPosition
  }

  // ------------------------------------------------------- what acceptance means

  /** A proper prefix of the needle is also a suffix of it. */
  predicate SelfOverlaps(sep: Bytes) {
    exists d: nat :: 0 < d < |sep| && sep[d..] == sep[..|sep| - d]
  }

  ghost predicate OccursOnce(s: Bytes, sep: Bytes) {
    exists i: nat :: OccursAt(s, sep, i) && forall j: nat :: OccursAt(s, sep, j) ==> j == i
  }

  /** The greedy count is one exactly when an occurrence exists and all others overlap the leftmost. */
  lemma CountOne(s: Bytes, sep: Bytes)
    requires sep != ""
    ensures Count(s, sep) == 1 <==>
            Index(s, sep).Some? && forall j: nat :: OccursAt(s, sep, j) ==> j < Index(s, sep).value + |sep|
  {
    IndexIsLeftmost(s, sep);
    if Index(s, sep).Some? {
      var k := Index(s, sep).value + |sep|;
      RestHasNone(s, sep, k);
      CountPositive(s[k..], sep);
    }
  }

  lemma CountPositive(s: Bytes, sep: Bytes)
    requires sep != ""
    ensures Count(s, sep) > 0 <==> Index(s, sep).Some?
  {
  }

  lemma RestHasNone(s: Bytes, sep: Bytes, k: nat)
    requires k <= |s|
    ensures Index(s[k..], sep).None? <==> forall j: nat :: OccursAt(s, sep, j) ==> j < k
  {
    hide Index, OccursAt;
    IndexIsLeftmost(s[k..], sep);
    forall j: nat ensures OccursAt(s[k..], sep, j) == OccursAt(s, sep, k + j) {
      OccursInRest(s, sep, k, j);
    }
    if Index(s[k..], sep).Some? {
      assert OccursAt(s, sep, k + Index(s[k..], sep).value);
    } else {
      forall j: nat | OccursAt(s, sep, j) ensures j < k {
        if k <= j {
          OccursInRest(s, sep, k, j - k);
        }
      }
    }
  }

  lemma OccursInRest(s: Bytes, sep: Bytes, k: nat, j: nat)
    requires k <= |s|
    ensures OccursAt(s[k..], sep, j) <==> OccursAt(s, sep, k + j)
  {
    if k + j + |sep| <= |s| {
      assert s[k..][j..j + |sep|] == s[k + j..k + j + |sep|];
    }
  }

  /** Two overlapping occurrences make the needle overlap itself. */
  lemma OverlapMeansSelfOverlap(s: Bytes, sep: Bytes, i: nat, j: nat)
    requires OccursAt(s, sep, i) && OccursAt(s, sep, j) && i < j < i + |sep|
    ensures SelfOverlaps(sep)
  {
    var d := j - i;
    assert sep[d..] == s[j..i + |sep|] == sep[..|sep| - d];
  }

  /** A needle occurring once is counted once. */
  lemma OnceIsAccepted(s: Bytes, sep: Bytes)
    requires sep != "" && OccursOnce(s, sep)
    ensures Count(s, sep) == 1
  {
    CountOne(s, sep);
    IndexIsLeftmost(s, sep);
    var i :| OccursAt(s, sep, i) && forall j: nat :: OccursAt(s, sep, j) ==> j == i;
    assert Index(s, sep) == Some(i);
  }

  /** A needle with a self-overlap at `d`, followed by its own last `d` bytes, occurs twice and counts once. */
  function Overlapped(sep: Bytes, d: nat): Bytes
    requires d <= |sep|
  {
    sep + sep[|sep| - d..]
  }

  lemma OverlappedTwice(sep: Bytes, d: nat)
    requires 0 < d < |sep| && sep[d..] == sep[..|sep| - d]
    ensures var s := Overlapped(sep, d); OccursAt(s, sep, 0) && OccursAt(s, sep, d)
    ensures forall j: nat :: OccursAt(Overlapped(sep, d), sep, j) ==> j <= d
  {
    var s := Overlapped(sep, d);
    assert s[..|sep|] == sep;
    assert s[d..d + |sep|] == sep[d..] + sep[|sep| - d..] == sep[..|sep| - d] + sep[|sep| - d..] == sep;
  }

  lemma {:induction false} OverlappedCountsOnce(sep: Bytes, d: nat)
    requires 0 < d < |sep| && sep[d..] == sep[..|sep| - d]
    ensures Count(Overlapped(sep, d), sep) == 1 && !OccursOnce(Overlapped(sep, d), sep)
  {
    var s := Overlapped(sep, d);
    OverlappedTwice(sep, d);
    hide Overlapped, OccursAt;
    IndexIsLeftmost(s, sep);
    assert Index(s, sep) == Some(0);
    CountOne(s, sep);
  }

  /**
   * "Exactly once" is what it says for a needle if and only if the needle cannot
   * overlap itself; for any other needle some file with two occurrences is accepted.
   */
  lemma AcceptsIffUnique(sep: Bytes)
    requires sep != ""
    ensures (forall s :: Count(s, sep) == 1 <==> OccursOnce(s, sep)) <==> !SelfOverlaps(sep)
  {
    if SelfOverlaps(sep) {
      var d: nat :| 0 < d < |sep| && sep[d..] == sep[..|sep| - d];
      OverlappedCountsOnce(sep, d);
    } else {
      forall s ensures Count(s, sep) == 1 <==> OccursOnce(s, sep) {
        if OccursOnce(s, sep) {
          OnceIsAccepted(s, sep);
        }
        if Count(s, sep) == 1 {
          CountOneIsOnce(s, sep);
        }
      }
    }
  }

  lemma CountOneIsOnce(s: Bytes, sep: Bytes)
    requires sep != "" && !SelfOverlaps(sep) && Count(s, sep) == 1
    ensures OccursOnce(s, sep)
  {
    CountOne(s, sep);
    IndexIsLeftmost(s, sep);
    var i := Index(s, sep).value;
    forall j: nat | OccursAt(s, sep, j) ensures j == i {
      if i < j { OverlapMeansSelfOverlap(s, sep, i, j); }
    }
  }

  // ------------------------------------------------------------------ round trip

  /** Patching back with a replacement that cannot overlap itself restores the file whenever it is accepted. */
  lemma PatchBack(cur: Bytes, a: Bytes, b: Bytes, back: Bytes)
    requires b != "" && !SelfOverlaps(b)
    requires SplicePatch(cur, a, b).Edited?
    requires SplicePatch(SplicePatch(cur, a, b).out, b, a) == Edited(back)
    ensures back == cur
  {
    hide Count, SelfOverlaps, Index, OccursAt;
    var out := SplicePatch(cur, a, b).out;
    AcceptedHasIndex(cur, a);
    IndexIsLeftmost(cur, a);
    var i := Index(cur, a).value;
    SplicedOut(cur, i, a, b, out);
    OnlyOccurrence(out, b, i);
    OccurrenceSplits(cur, a, i);
  }

  lemma OccurrenceSplits(s: Bytes, sep: Bytes, i: nat)
    requires OccursAt(s, sep, i)
    ensures s == s[..i] + sep + s[i + |sep|..]
  {
  }

  lemma AcceptedHasIndex(cur: Bytes, a: Bytes)
    requires a != "" && Count(cur, a) == 1
    ensures Index(cur, a).Some?
  {
  }

  lemma SplicedOut(cur: Bytes, i: nat, a: Bytes, b: Bytes, out: Bytes)
    requires i + |a| <= |cur| && out == cur[..i] + b + cur[i + |a|..]
    ensures OccursAt(out, b, i) && out[..i] == cur[..i] && out[i + |b|..] == cur[i + |a|..]
  {
  }

  lemma OnlyOccurrence(s: Bytes, sep: Bytes, i: nat)
    requires sep != "" && !SelfOverlaps(sep) && Count(s, sep) == 1 && OccursAt(s, sep, i)
    ensures Index(s, sep) == Some(i)
  {
    CountOneIsOnce(s, sep);
    AcceptedHasIndex(s, sep);
    IndexIsLeftmost(s, sep);
  }

  /** Patching forward and back, both accepted. */
  predicate BothWays(cur: Bytes, a: Bytes, b: Bytes, back: Bytes) {
    SplicePatch(cur, a, b).Edited? && SplicePatch(SplicePatch(cur, a, b).out, b, a) == Edited(back)
  }

  /** A needle whose only place after `d` bytes is right behind them. */
  function Filler(d: nat): Bytes {
    seq(d, _ => 'a') + "b"
  }

  lemma FillerOnce(p: Bytes, d: nat)
    requires |p| == d > 0
    ensures forall i: nat :: OccursAt(p + Filler(d), Filler(d), i) <==> i == d
  {
    var a, cur := Filler(d), p + Filler(d);
    forall i: nat ensures OccursAt(cur, a, i) <==> i == d {
      if i < d && i + |a| <= |cur| {
        assert cur[i..i + |a|][d] == cur[i + d] == 'a' && a[d] == 'b';
      }
      assert cur[d..d + |a|] == a;
    }
  }

  lemma OnlyPlace(s: Bytes, sep: Bytes, i: nat)
    requires sep != "" && forall j: nat :: OccursAt(s, sep, j) <==> j == i
    ensures Count(s, sep) == 1 && Index(s, sep) == Some(i)
  {
    hide OccursAt;
    IndexIsLeftmost(s, sep);
    assert OccursAt(s, sep, i);
    CountOne(s, sep);
  }

  lemma OverlappedStart(b: Bytes, d: nat)
    requires 0 < d < |b| && b[d..] == b[..|b| - d]
    ensures Overlapped(b, d) == b[..d] + b && Count(Overlapped(b, d), b) == 1 && Index(Overlapped(b, d), b) == Some(0)
  {
    var s := Overlapped(b, d);
    OverlappedTwice(b, d);
    OverlappedCountsOnce(b, d);
    SecondOccurrence(b, d);
    hide Overlapped, OccursAt, Count, Index;
    IndexIsLeftmost(s, b);
  }

  lemma SecondOccurrence(b: Bytes, d: nat)
    requires 0 < d < |b| && b[d..] == b[..|b| - d]
    ensures Overlapped(b, d) == b[..d] + b
  {
    OverlappedTwice(b, d);
    var s := Overlapped(b, d);
    assert s == s[..d] + s[d..d + |b|];
    assert s[..d] == b[..d];
  }

  /** For any replacement that overlaps itself, some file comes back changed. */
  lemma PatchBackMisses(b: Bytes, d: nat) returns (cur: Bytes, a: Bytes, back: Bytes)
    requires 0 < d < |b| && b[d..] == b[..|b| - d]
    ensures BothWays(cur, a, b, back) && back != cur
  {
    a := Filler(d);
    cur := b[..d] + a;
    FillerOnce(b[..d], d);
    OnlyPlace(cur, a, d);
    OverlappedStart(b, d);
    var out := Overlapped(b, d);
    back := a + out[|b|..];
    hide Count, Index, Overlapped, OccursAt;
    assert cur[..d] + b + cur[d + |a|..] == out;
    assert out[..0] + a + out[|b|..] == back;
    assert back[d] == 'b' && cur[d] == 'a';
  }

  /** Patching back restores the file whenever it is accepted if and only if the replacement cannot overlap itself. */
  lemma PatchBackRestoresIff(b: Bytes)
    requires b != ""
    ensures (forall cur, a, back :: BothWays(cur, a, b, back) ==> back == cur) <==> !SelfOverlaps(b)
  {
    if SelfOverlaps(b) {
      var d: nat :| 0 < d < |b| && b[d..] == b[..|b| - d];
      var cur, a, back := PatchBackMisses(b, d);
    } else {
      forall cur, a, back | BothWays(cur, a, b, back) ensures back == cur {
        PatchBack(cur, a, b, back);
      }
    }
  }

  /** An accepted patch changes one occurrence and nothing around it. */
  lemma PatchReplacesOneSpan(cur: Bytes, a: Bytes, b: Bytes)
    ensures SplicePatch(cur, a, b).Edited? <==>
            a != "" && exists i: nat :: OccursAt(cur, a, i) && forall j: nat :: OccursAt(cur, a, j) ==> i <= j < i + |a|
    ensures SplicePatch(cur, a, b).Edited? ==>
              exists i: nat :: OccursAt(cur, a, i) && SplicePatch(cur, a, b).out == cur[..i] + b + cur[i + |a|..]
  {
    if a != "" {
      CountOne(cur, a);
      IndexIsLeftmost(cur, a);
      if i: nat :| OccursAt(cur, a, i) && forall j: nat :: OccursAt(cur, a, j) ==> i <= j < i + |a| {
        assert Index(cur, a) == Some(i);
      }
    }
  }

  /** Appending inserts the content whole, at the end or next to the anchor, and keeps every byte of the file around it. */
  lemma AppendInserts(cur: Bytes, content: Bytes, position: string, anchor: Bytes)
    requires SpliceAppend(cur, content, position, anchor).Edited?
    ensures exists at: nat :: at <= |cur|
              && SpliceAppend(cur, content, position, anchor).out == cur[..at] + content + cur[at..]
              && (anchor == "" ==> at == |cur|)
              && (position == "before" ==> OccursAt(cur, anchor, at))
              && (position == "after" ==> at >= |anchor| && OccursAt(cur, anchor, at - |anchor|))
  {
    var out := SpliceAppend(cur, content, position, anchor).out;
    if anchor == "" {
      assert out == cur[..|cur|] + content + cur[|cur|..];
    } else {
      AcceptedHasIndex(cur, anchor);
      IndexIsLeftmost(cur, anchor);
      var idx := Index(cur, anchor).value;
      var at := if position == "after" then idx + |anchor| else idx;
      assert out == cur[..at] + content + cur[at..];
    }
  }
}
