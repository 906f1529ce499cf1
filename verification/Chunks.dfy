/**
 * Splitting a file into chunks for similarity filtering
 * (internal/librariansrc/chunk.go): paragraphs, large ones split at lines, small
 * ones merged with the next. `trim` is the space trimming of a line.
 */
module Chunks {
  import opened Wrappers

  datatype Chunk = Chunk(content: string, startLine: nat, endLine: nat, isFrontmatter: bool)

  type Trim = string -> string

  // ----------------------------------------------------------------------- lines

  predicate NoNewlines(ls: seq<string>) {
    forall l :: l in ls ==> '\n' !in l
  }

  /** The text between newlines; there is always at least one line. */
  function Lines(s: string): (r: seq<string>)
    ensures r != [] && NoNewlines(r)
  {
    if s == "" then [""]
    else
      var rest := Lines(s[1..]);
      if s[0] == '\n' then [""] + rest else [[s[0]] + rest[0]] + rest[1..]
  }

  function Joined(ls: seq<string>): string {
    if ls == [] then "" else if |ls| == 1 then ls[0] else Joined(ls[..|ls| - 1]) + "\n" + ls[|ls| - 1]
  }

  lemma JoinedPush(ls: seq<string>, l: string)
    ensures Joined(ls + [l]) == if ls == [] then l else Joined(ls) + "\n" + l
  {
    assert (ls + [l])[..|ls|] == ls;
  }

  lemma Regroup(a: string, b: string, c: string)
    ensures (a + "\n" + b) + "\n" + c == a + "\n" + (b + "\n" + c)
  {
  }

  lemma {:induction false} JoinedConcat(a: seq<string>, b: seq<string>)
    requires a != [] && b != []
    ensures Joined(a + b) == Joined(a) + "\n" + Joined(b)
    decreases |b|
  {
    var front := b[..|b| - 1];
    assert a + b == (a + front) + [b[|b| - 1]];
    assert b == front + [b[|b| - 1]];
    JoinedPush(a + front, b[|b| - 1]);
    JoinedPush(front, b[|b| - 1]);
    hide Joined;
    if front == [] {
      assert a + front == a;
    } else {
      JoinedConcat(a, front);
      Regroup(Joined(a), Joined(front), b[|b| - 1]);
    }
  }

  /** Lines without newlines are recovered from their joined text. */
  lemma {:induction false} LinesOfJoined(ls: seq<string>)
    requires ls != [] && NoNewlines(ls)
    ensures Lines(Joined(ls)) == ls
    decreases |ls|
  {
    LinesOfOne(ls[0]);
    if |ls| > 1 {
      assert ls == ls[..1] + ls[1..] && ls[..1] == [ls[0]];
      JoinedConcat(ls[..1], ls[1..]);
      LinesOfJoined(ls[1..]);
      LinesAfter(ls[0], Joined(ls[1..]));
      assert Joined(ls) == ls[0] + "\n" + Joined(ls[1..]);
    } else {
      assert ls == [ls[0]];
    }
  }

  lemma {:induction false} LinesOfOne(l: string)
    requires '\n' !in l
    ensures Lines(l) == [l]
  {
    if l != "" {
      LinesOfOne(l[1..]);
      assert [l[0]] + l[1..] == l;
    }
  }

  lemma {:induction false} LinesAfter(l: string, s: string)
    requires '\n' !in l
    ensures Lines(l + "\n" + s) == [l] + Lines(s)
  {
    var t := l + "\n" + s;
    if l == "" {
      assert t[0] == '\n' && t[1..] == s;
    } else {
      LinesAfter(l[1..], s);
      assert t[0] == l[0] && t[1..] == l[1..] + "\n" + s;
      assert [l[0]] + l[1..] == l;
    }
  }

  lemma {:induction false} JoinedFirst(p: string, ls: seq<string>)
    requires ls != []
    ensures Joined([p + ls[0]] + ls[1..]) == p + Joined(ls)
    decreases |ls|
  {
    var n := |ls| - 1;
    var x := [p + ls[0]] + ls[1..];
    if n == 0 {
      assert x == [p + ls[0]];
    } else {
      var front, last := ls[..n], ls[n];
      JoinedFirst(p, front);
      assert ls == front + [last] && x == ([p + front[0]] + front[1..]) + [last];
      JoinedPush(front, last);
      JoinedPush([p + front[0]] + front[1..], last);
      hide Joined;
      assert p + (Joined(front) + "\n" + last) == (p + Joined(front)) + "\n" + last;
    }
  }

  /** Joining the lines gives the text back. */
  lemma {:induction false} JoinedLines(s: string)
    ensures Joined(Lines(s)) == s
  {
    if s != "" {
      JoinedLines(s[1..]);
      var rest := Lines(s[1..]);
      assert s == [s[0]] + s[1..];
      if s[0] == '\n' {
        JoinedConcat([""], rest);
        assert Joined([""]) == "";
        hide Joined, Lines;
        assert "" + "\n" + s[1..] == s;
      } else {
        assert Lines(s) == [[s[0]] + rest[0]] + rest[1..];
        hide Joined, Lines;
        JoinedFirst([s[0]], rest);
      }
    }
  }

  // ------------------------------------------------------------------------ tiles

  function NonBlank(ls: seq<string>, trim: Trim): seq<string> {
    if ls == [] then []
    else NonBlank(ls[..|ls| - 1], trim) + if trim(ls[|ls| - 1]) == "" then [] else [ls[|ls| - 1]]
  }

  lemma {:induction false} NonBlankConcat(a: seq<string>, b: seq<string>, trim: Trim)
    ensures NonBlank(a + b, trim) == NonBlank(a, trim) + NonBlank(b, trim)
    decreases |b|
  {
    if b == [] {
      assert a + b == a;
    } else {
      assert (a + b)[..|a + b| - 1] == a + b[..|b| - 1];
      NonBlankConcat(a, b[..|b| - 1], trim);
    }
  }

  lemma {:induction false} AllBlank(ls: seq<string>, trim: Trim)
    requires forall i :: 0 <= i < |ls| ==> trim(ls[i]) == ""
    ensures NonBlank(ls, trim) == []
  {
    if ls != [] {
      AllBlank(ls[..|ls| - 1], trim);
    }
  }

  lemma {:induction false} NoneBlank(ls: seq<string>, trim: Trim)
    requires forall i :: 0 <= i < |ls| ==> trim(ls[i]) != ""
    ensures NonBlank(ls, trim) == ls
  {
    if ls != [] {
      NoneBlank(ls[..|ls| - 1], trim);
    }
  }

  /** The text of a stretch of lines. */
  function Text(lines: seq<string>, a: nat, b: nat, trim: Trim): seq<string>
    requires a <= b <= |lines|
  {
    NonBlank(lines[a..b], trim)
  }

  lemma TextSplit(lines: seq<string>, a: nat, b: nat, c: nat, trim: Trim)
    requires a <= b <= c <= |lines|
    ensures Text(lines, a, c, trim) == Text(lines, a, b, trim) + Text(lines, b, c, trim)
  {
    assert lines[a..c] == lines[a..b] + lines[b..c];
    NonBlankConcat(lines[a..b], lines[b..c], trim);
  }

  /** A chunk carries exactly the non-blank lines of its range, and there are some. */
  predicate Faithful(c: Chunk, lines: seq<string>, trim: Trim) {
    && c.startLine < c.endLine <= |lines|
    && Text(lines, c.startLine, c.endLine, trim) != []
    && c.content == Joined(Text(lines, c.startLine, c.endLine, trim))
  }

  /** A stretch without text. */
  predicate Gap(lines: seq<string>, a: nat, b: nat, trim: Trim) {
    a <= b <= |lines| && Text(lines, a, b, trim) == []
  }

  function EndBefore(cs: seq<Chunk>, k: nat, from: nat): nat
    requires k <= |cs|
  {
    if k == 0 then from else cs[k - 1].endLine
  }

  function StartAt(cs: seq<Chunk>, k: nat, to: nat): nat
    requires k <= |cs|
  {
    if k == |cs| then to else cs[k].startLine
  }

  /** Chunks in order, with nothing but blank lines before, between and after them. */
  ghost predicate Tiles(cs: seq<Chunk>, lines: seq<string>, from: nat, to: nat, trim: Trim) {
    && (forall k :: 0 <= k < |cs| ==> Faithful(cs[k], lines, trim))
    && (forall k :: 0 <= k <= |cs| ==> Gap(lines, EndBefore(cs, k, from), StartAt(cs, k, to), trim))
  }

  /** The lines of all chunks, chunk after chunk. */
  function Carried(cs: seq<Chunk>): seq<string> {
    if cs == [] then [] else Carried(cs[..|cs| - 1]) + Lines(cs[|cs| - 1].content)
  }

  lemma FaithfulCarries(c: Chunk, lines: seq<string>, trim: Trim)
    requires Faithful(c, lines, trim) && NoNewlines(lines)
    ensures Lines(c.content) == Text(lines, c.startLine, c.endLine, trim)
  {
    NonBlankFrom(lines[c.startLine..c.endLine], trim);
    LinesOfJoined(Text(lines, c.startLine, c.endLine, trim));
  }

  lemma {:induction false} NonBlankFrom(ls: seq<string>, trim: Trim)
    ensures forall l :: l in NonBlank(ls, trim) ==> l in ls
  {
    if ls != [] {
      NonBlankFrom(ls[..|ls| - 1], trim);
    }
  }

  /** No line of text is lost, duplicated or moved. */
  lemma {:induction false} TilesCarryTheText(cs: seq<Chunk>, lines: seq<string>, from: nat, to: nat, trim: Trim)
    requires Tiles(cs, lines, from, to, trim) && NoNewlines(lines)
    ensures from <= to <= |lines| && Carried(cs) == Text(lines, from, to, trim)
    decreases |cs|
  {
    var n := |cs|;
    assert Gap(lines, EndBefore(cs, n, from), StartAt(cs, n, to), trim);
    if n > 0 {
      var front, c := cs[..n - 1], cs[n - 1];
      TilesFront(cs, lines, from, to, trim);
      TilesCarryTheText(front, lines, from, c.startLine, trim);
      FaithfulCarries(c, lines, trim);
      TextSplit(lines, from, c.startLine, c.endLine, trim);
      TextSplit(lines, from, c.endLine, to, trim);
    }
  }

  lemma TilesFront(cs: seq<Chunk>, lines: seq<string>, from: nat, to: nat, trim: Trim)
    requires Tiles(cs, lines, from, to, trim) && cs != []
    ensures var c := cs[|cs| - 1]; Tiles(cs[..|cs| - 1], lines, from, c.startLine, trim) && Faithful(c, lines, trim)
  {
    hide Faithful, Gap;
    var front := cs[..|cs| - 1];
    forall k | 0 <= k <= |front| ensures Gap(lines, EndBefore(front, k, from), StartAt(front, k, cs[|cs| - 1].startLine), trim) {
      assert EndBefore(front, k, from) == EndBefore(cs, k, from);
      assert StartAt(front, k, cs[|cs| - 1].startLine) == StartAt(cs, k, to);
    }
  }

  lemma TilesPush(cs: seq<Chunk>, c: Chunk, lines: seq<string>, from: nat, to: nat, trim: Trim)
    requires Tiles(cs, lines, from, c.startLine, trim) && Faithful(c, lines, trim) && Gap(lines, c.endLine, to, trim)
    ensures Tiles(cs + [c], lines, from, to, trim)
  {
    hide Faithful, Gap;
    var ds := cs + [c];
    forall k | 0 <= k <= |ds| ensures Gap(lines, EndBefore(ds, k, from), StartAt(ds, k, to), trim) {
      if k <= |cs| {
        assert EndBefore(ds, k, from) == EndBefore(cs, k, from);
        assert StartAt(ds, k, to) == StartAt(cs, k, c.startLine);
      }
    }
  }

  /** More blank lines at the end. */
  lemma TilesExtend(cs: seq<Chunk>, lines: seq<string>, from: nat, mid: nat, to: nat, trim: Trim)
    requires Tiles(cs, lines, from, mid, trim) && Gap(lines, mid, to, trim)
    ensures Tiles(cs, lines, from, to, trim)
  {
    var n := |cs|;
    assert Gap(lines, EndBefore(cs, n, from), StartAt(cs, n, mid), trim);
    TextSplit(lines, EndBefore(cs, n, from), mid, to, trim);
    hide Faithful, Text;
    forall k | 0 <= k <= n ensures Gap(lines, EndBefore(cs, k, from), StartAt(cs, k, to), trim) {
      if k < n {
        assert StartAt(cs, k, to) == StartAt(cs, k, mid);
      }
    }
  }

  lemma {:induction false} TilesConcat(a: seq<Chunk>, b: seq<Chunk>, lines: seq<string>, from: nat, mid: nat, to: nat, trim: Trim)
    requires Tiles(a, lines, from, mid, trim) && Tiles(b, lines, mid, to, trim)
    ensures Tiles(a + b, lines, from, to, trim)
    decreases |b|
  {
    hide Faithful, Gap;
    if b == [] {
      assert a + b == a;
      assert Gap(lines, EndBefore(b, 0, mid), StartAt(b, 0, to), trim);
      TilesExtend(a, lines, from, mid, to, trim);
    } else {
      var front, c := b[..|b| - 1], b[|b| - 1];
      assert Gap(lines, EndBefore(b, |b|, mid), StartAt(b, |b|, to), trim);
      TilesFront(b, lines, mid, to, trim);
      TilesConcat(a, front, lines, from, mid, c.startLine, trim);
      TilesPush(a + front, c, lines, from, to, trim);
      assert a + b == (a + front) + [c];
    }
  }

  // -------------------------------------------------------------------- paragraphs

  /** Every line of the range is text. */
  predicate Solid(c: Chunk, lines: seq<string>, trim: Trim) {
    c.startLine < c.endLine <= |lines| && forall i :: c.startLine <= i < c.endLine ==> trim(lines[i]) != ""
  }

  lemma SolidIsFaithful(c: Chunk, lines: seq<string>, trim: Trim)
    requires Solid(c, lines, trim) && c.content == Joined(lines[c.startLine..c.endLine])
    ensures Faithful(c, lines, trim)
  {
    NoneBlank(lines[c.startLine..c.endLine], trim);
  }

  lemma BlankIsGap(lines: seq<string>, i: nat, trim: Trim)
    requires i < |lines| && trim(lines[i]) == ""
    ensures Gap(lines, i, i + 1, trim)
  {
    AllBlank(lines[i..i + 1], trim);
  }

  lemma NoGap(lines: seq<string>, i: nat, trim: Trim)
    requires i <= |lines|
    ensures Gap(lines, i, i, trim) && Tiles([], lines, i, i, trim)
  {
    assert lines[i..i] == [];
    assert Gap(lines, EndBefore([], 0, i), StartAt([], 0, i), trim);
  }

  /** Closing a paragraph of consecutive text lines. */
  lemma ClosePara(cs: seq<Chunk>, c: Chunk, lines: seq<string>, from: nat, trim: Trim)
    requires Tiles(cs, lines, from, c.startLine, trim) && Solid(c, lines, trim)
    requires c.content == Joined(lines[c.startLine..c.endLine])
    ensures Tiles(cs + [c], lines, from, c.endLine, trim)
  {
    SolidIsFaithful(c, lines, trim);
    NoGap(lines, c.endLine, trim);
    hide Faithful, Gap, Solid, Tiles;
    TilesPush(cs, c, lines, from, c.endLine, trim);
  }

  ghost predicate AllSolid(cs: seq<Chunk>, lines: seq<string>, trim: Trim) {
    forall k :: 0 <= k < |cs| ==> Solid(cs[k], lines, trim)
  }

  predicate Body(cs: seq<Chunk>) {
    forall k :: 0 <= k < |cs| ==> !cs[k].isFrontmatter
  }

  /** The open paragraph: the text lines just before line `i`. */
  ghost predicate Open(para: seq<string>, paraStart: nat, i: nat, lines: seq<string>, trim: Trim) {
    && paraStart <= i <= |lines| && para == lines[paraStart..i]
    && forall j :: paraStart <= j < i ==> trim(lines[j]) != ""
  }

  lemma OpenPush(para: seq<string>, start: nat, i: nat, lines: seq<string>, trim: Trim)
    requires Open(para, start, i, lines, trim) && i < |lines| && trim(lines[i]) != ""
    ensures Open(para + [lines[i]], start, i + 1, lines, trim)
  {
  }

  lemma OpenNone(i: nat, lines: seq<string>, trim: Trim)
    requires i <= |lines|
    ensures Open([], i, i, lines, trim)
  {
  }

  /** Neighbours have at least one line between them. */
  predicate Separate(cs: seq<Chunk>) {
    forall k :: 0 < k < |cs| ==> cs[k - 1].endLine < cs[k].startLine
  }

  /** A paragraph from line `at` on would be separate from the last one. */
  predicate Apart(cs: seq<Chunk>, at: nat) {
    cs != [] ==> cs[|cs| - 1].endLine < at
  }

  /** Paragraph chunks so far: maximal runs of text lines. */
  ghost predicate Paras(raw: seq<Chunk>, lines: seq<string>, from: nat, to: nat, trim: Trim) {
    Tiles(raw, lines, from, to, trim) && AllSolid(raw, lines, trim) && Body(raw) && Separate(raw)
  }

  lemma ApartLater(cs: seq<Chunk>, at: nat, later: nat)
    requires at < later && (cs != [] ==> cs[|cs| - 1].endLine <= at)
    ensures Apart(cs, later)
  {
  }

  lemma {:induction false} OpenCloses(para: seq<string>, start: nat, i: nat, lines: seq<string>, trim: Trim, raw: seq<Chunk>, from: nat)
    requires Open(para, start, i, lines, trim) && Paras(raw, lines, from, start, trim) && Apart(raw, start) && para != []
    ensures start + |para| == i && Paras(raw + [Chunk(Joined(para), start, i, false)], lines, from, i, trim)
  {
    hide Tiles, Joined;
    var c := Chunk(Joined(para), start, i, false);
    assert Solid(c, lines, trim) && c.content == Joined(lines[start..i]);
    ClosePara(raw, c, lines, from, trim);
    hide Solid;
  }

  lemma StaysApart(cs: seq<Chunk>, at: nat)
    requires Apart(cs, at)
    ensures Apart(cs, at + 1)
  {
  }

  lemma ParasExtend(raw: seq<Chunk>, lines: seq<string>, from: nat, i: nat, trim: Trim)
    requires Paras(raw, lines, from, i, trim) && i < |lines| && trim(lines[i]) == ""
    ensures Paras(raw, lines, from, i + 1, trim)
  {
    BlankIsGap(lines, i, trim);
    TilesExtend(raw, lines, from, i, i + 1, trim);
  }

  lemma NoParas(lines: seq<string>, from: nat, trim: Trim)
    requires from <= |lines|
    ensures Paras([], lines, from, from, trim) && Apart([], from)
  {
    NoGap(lines, from, trim);
  }

  /** The paragraph loop: blank lines end paragraphs. */
  method Paragraphs(lines: seq<string>, bodyStart: nat, trim: Trim) returns (raw: seq<Chunk>)
    requires bodyStart <= |lines|
    ensures Paras(raw, lines, bodyStart, |lines|, trim)
  {
    raw := [];
    var paraLines: seq<string> := [];
    var paraStart: nat := bodyStart;
    NoParas(lines, bodyStart, trim);
    OpenNone(bodyStart, lines, trim);
    hide Paras, Joined, Open, Apart;
    for i := bodyStart to |lines|
      invariant Open(paraLines, paraStart, i, lines, trim) && (paraLines == [] ==> paraStart == i)
      invariant Paras(raw, lines, bodyStart, paraStart, trim) && Apart(raw, paraStart)
    {
      if trim(lines[i]) == "" {
        if |paraLines| > 0 {
          OpenCloses(paraLines, paraStart, i, lines, trim, raw, bodyStart);
          raw := raw + [Chunk(Joined(paraLines), paraStart, paraStart + |paraLines|, false)];
          paraLines := [];
          ApartLater(raw, i, i + 1);
        } else {
          StaysApart(raw, i);
        }
        ParasExtend(raw, lines, bodyStart, i, trim);
        OpenNone(i + 1, lines, trim);
        paraStart := i + 1;
      } else {
        if |paraLines| == 0 {
          paraStart := i;
        }
        OpenPush(paraLines, paraStart, i, lines, trim);
        paraLines := paraLines + [lines[i]];
      }
    }
    if |paraLines| > 0 {
      OpenCloses(paraLines, paraStart, |lines|, lines, trim, raw, bodyStart);
      raw := raw + [Chunk(Joined(paraLines), paraStart, paraStart + |paraLines|, false)];
    }
  }

  // ---------------------------------------------------------------- splitting large ones

  function Max(a: int, b: int): int { if a < b then b else a }

  function Longest(lines: seq<string>): (m: nat)
    ensures forall i :: 0 <= i < |lines| ==> |lines[i]| <= m
  {
    if lines == [] then 0 else Max(Longest(lines[..|lines| - 1]), |lines[|lines| - 1]|)
  }

  /** No chunk longer than `bound`. */
  predicate Within(cs: seq<Chunk>, bound: int) {
    forall k :: 0 <= k < |cs| ==> |cs[k].content| <= bound
  }

  /** Body chunks so far, none too long. */
  ghost predicate Sized(cs: seq<Chunk>, lines: seq<string>, from: nat, to: nat, bound: int, trim: Trim) {
    Tiles(cs, lines, from, to, trim) && Body(cs) && Within(cs, bound)
  }

  lemma NoSized(lines: seq<string>, from: nat, bound: int, trim: Trim)
    requires from <= |lines|
    ensures Sized([], lines, from, from, bound, trim)
  {
    NoGap(lines, from, trim);
  }

  lemma SizedExtend(cs: seq<Chunk>, lines: seq<string>, from: nat, mid: nat, to: nat, bound: int, trim: Trim)
    requires Sized(cs, lines, from, mid, bound, trim) && Gap(lines, mid, to, trim)
    ensures Sized(cs, lines, from, to, bound, trim)
  {
    hide Tiles;
    TilesExtend(cs, lines, from, mid, to, trim);
  }

  lemma SizedPush(cs: seq<Chunk>, c: Chunk, lines: seq<string>, from: nat, bound: int, trim: Trim)
    requires Sized(cs, lines, from, c.startLine, bound, trim) && Faithful(c, lines, trim)
    requires !c.isFrontmatter && |c.content| <= bound
    ensures Sized(cs + [c], lines, from, c.endLine, bound, trim)
  {
    NoGap(lines, c.endLine, trim);
    hide Tiles, Faithful, Gap;
    TilesPush(cs, c, lines, from, c.endLine, trim);
  }

  lemma SizedConcat(a: seq<Chunk>, b: seq<Chunk>, lines: seq<string>, from: nat, mid: nat, to: nat, bound: int, trim: Trim)
    requires Sized(a, lines, from, mid, bound, trim) && Sized(b, lines, mid, to, bound, trim)
    ensures Sized(a + b, lines, from, to, bound, trim)
  {
    hide Tiles;
    TilesConcat(a, b, lines, from, mid, to, trim);
  }

  /** Holding one more line for the next chunk, with the length of the joined lines. */
  method Hold(ghost result: seq<Chunk>, cur: seq<string>, ghost curStart: nat, curLen: nat, ghost end: nat, ghost from: nat,
              ghost maxChars: int, ghost bound: int, ghost lines: seq<string>, ghost trim: Trim, line: string)
      returns (cur': seq<string>, curLen': nat)
    requires Cutting(result, cur, curStart, curLen, end, from, bound, lines, trim) && bound == Max(maxChars, Longest(lines))
    requires trim("") == "" && end < |lines| && line == lines[end] && trim(line) != ""
    requires curLen > 0 ==> curLen + 1 + |line| <= maxChars
    ensures Cutting(result, cur', curStart, curLen', end + 1, from, bound, lines, trim)
    ensures cur' == cur + [line] && curLen' == if curLen > 0 then curLen + 1 + |line| else |line|
  {
    hide *;
    CutPush(result, cur, curStart, curLen, end, from, maxChars, bound, lines, trim, line);
    cur', curLen' := cur + [line], curLen;
    if curLen' > 0 {
      curLen' := curLen' + 1;
    }
    curLen' := curLen' + |line|;
  }

  /** A piece was only cut where the next line no longer fits. */
  predicate CutBefore(c: Chunk, lines: seq<string>, maxChars: int) {
    c.endLine < |lines| && |c.content| + 1 + |lines[c.endLine]| > maxChars
  }

  /** A piece keeps to the maximum, or is a single line. */
  predicate FitsOrAlone(c: Chunk, maxChars: int) {
    |c.content| <= maxChars || c.endLine == c.startLine + 1
  }

  /** Pieces as large as they can be; `open` says that the last one ended with the lines instead. */
  predicate Greedy(cs: seq<Chunk>, lines: seq<string>, maxChars: int, open: bool) {
    && (forall k :: 0 <= k < |cs| ==> FitsOrAlone(cs[k], maxChars))
    && (forall k :: 0 <= k < |cs| - (if open then 1 else 0) ==> CutBefore(cs[k], lines, maxChars))
  }

  lemma GreedyPush(cs: seq<Chunk>, c: Chunk, lines: seq<string>, maxChars: int, open: bool)
    requires Greedy(cs, lines, maxChars, false) && FitsOrAlone(c, maxChars) && (open || CutBefore(c, lines, maxChars))
    ensures Greedy(cs + [c], lines, maxChars, open)
  {
    hide FitsOrAlone, CutBefore;
  }

  lemma GreedyNone(lines: seq<string>, maxChars: int)
    ensures Greedy([], lines, maxChars, false)
  {
  }

  lemma GreedyEnds(cs: seq<Chunk>, lines: seq<string>, maxChars: int)
    requires Greedy(cs, lines, maxChars, false)
    ensures Greedy(cs, lines, maxChars, true)
  {
  }

  /** Cutting solid lines greedily; a piece exceeds the maximum only when it is one long line. */
  method SplitLargeChunk(cLines: seq<string>, absStart: nat, maxChars: int, ghost lines: seq<string>, trim: Trim)
      returns (result: seq<Chunk>)
    requires trim("") == "" && Open(cLines, absStart, absStart + |cLines|, lines, trim)
    ensures Sized(result, lines, absStart, absStart + |cLines|, Max(maxChars, Longest(lines)), trim)
    ensures Greedy(result, lines, maxChars, true)
  {
    hide *;
    result := [];
    GreedyNone(lines, maxChars);
    var cur: seq<string> := [];
    var curStart: nat, curLen: nat := absStart, 0;
    ghost var bound := Max(maxChars, Longest(lines));
    StartCutting(cLines, absStart, bound, lines, trim);
    for i := 0 to |cLines|
      invariant Cutting(result, cur, curStart, curLen, absStart + i, absStart, bound, lines, trim)
      invariant Greedy(result, lines, maxChars, false) && (curLen <= maxChars || |cur| <= 1)
    {
      LineAt(cLines, absStart, i, lines, trim);
      CuttingCur(result, cur, curStart, curLen, absStart + i, absStart, bound, lines, trim);
      if curLen > 0 && curLen + 1 + |cLines[i]| > maxChars {
        CutOpen(result, cur, curStart, curLen, absStart + i, absStart, bound, lines, trim);
        CutPiece(result, cur, curStart, curLen, absStart + i, absStart, maxChars, bound, lines, trim, false);
        result := result + [Chunk(Joined(cur), curStart, absStart + i, false)];
        cur, curLen, curStart := [], 0, absStart + i;
      }
      cur, curLen := Hold(result, cur, curStart, curLen, absStart + i, absStart, maxChars, bound, lines, trim, cLines[i]);
    }
    CuttingCur(result, cur, curStart, curLen, absStart + |cLines|, absStart, bound, lines, trim);
    if |cur| > 0 {
      CutOpen(result, cur, curStart, curLen, absStart + |cLines|, absStart, bound, lines, trim);
      CutPiece(result, cur, curStart, curLen, absStart + |cLines|, absStart, maxChars, bound, lines, trim, true);
      result := result + [Chunk(Joined(cur), curStart, absStart + |cLines|, false)];
      CuttingCur(result, [], absStart + |cLines|, 0, absStart + |cLines|, absStart, bound, lines, trim);
    } else {
      GreedyEnds(result, lines, maxChars);
    }
  }

  lemma CutPiece(result: seq<Chunk>, cur: seq<string>, curStart: nat, curLen: nat, end: nat, from: nat, maxChars: int, bound: int,
                 lines: seq<string>, trim: Trim, open: bool)
    requires Cutting(result, cur, curStart, curLen, end, from, bound, lines, trim) && cur != []
    requires Greedy(result, lines, maxChars, false) && (curLen <= maxChars || |cur| <= 1)
    requires open || (end < |lines| && curLen + 1 + |lines[end]| > maxChars)
    ensures Greedy(result + [Chunk(Joined(cur), curStart, end, false)], lines, maxChars, open)
  {
    var c := Chunk(Joined(cur), curStart, end, false);
    assert FitsOrAlone(c, maxChars) && (open || CutBefore(c, lines, maxChars));
    hide *;
    GreedyPush(result, c, lines, maxChars, open);
  }

  /** The loop's state before line `end`: chunks cut so far, and the lines held for the next one. */
  ghost predicate Cutting(result: seq<Chunk>, cur: seq<string>, curStart: nat, curLen: nat, end: nat, from: nat, bound: int,
                          lines: seq<string>, trim: Trim) {
    && Open(cur, curStart, end, lines, trim) && (cur == [] ==> curStart == end)
    && curLen == |Joined(cur)| && (curLen > 0 <==> cur != []) && (cur != [] ==> curLen <= bound)
    && Sized(result, lines, from, curStart, bound, trim)
  }

  lemma LineAt(cLines: seq<string>, from: nat, i: nat, lines: seq<string>, trim: Trim)
    requires Open(cLines, from, from + |cLines|, lines, trim) && i < |cLines|
    ensures from + i < |lines| && cLines[i] == lines[from + i] && trim(cLines[i]) != ""
  {
  }

  lemma StartCutting(cLines: seq<string>, from: nat, bound: int, lines: seq<string>, trim: Trim)
    requires Open(cLines, from, from + |cLines|, lines, trim)
    ensures Cutting([], [], from, 0, from, from, bound, lines, trim)
  {
    NoSized(lines, from, bound, trim);
    OpenNone(from, lines, trim);
  }

  lemma CuttingCur(result: seq<Chunk>, cur: seq<string>, curStart: nat, curLen: nat, end: nat, from: nat, bound: int,
                   lines: seq<string>, trim: Trim)
    requires Cutting(result, cur, curStart, curLen, end, from, bound, lines, trim)
    ensures curLen > 0 <==> cur != []
    ensures cur == [] ==> Sized(result, lines, from, end, bound, trim)
  {
  }

  /** The next line joins the held ones: it fits, or it is alone. */
  lemma CutPush(result: seq<Chunk>, cur: seq<string>, curStart: nat, curLen: nat, end: nat, from: nat, maxChars: int, bound: int,
                lines: seq<string>, trim: Trim, line: string)
    requires Cutting(result, cur, curStart, curLen, end, from, bound, lines, trim) && bound == Max(maxChars, Longest(lines))
    requires trim("") == "" && end < |lines| && line == lines[end] && trim(line) != ""
    requires curLen > 0 ==> curLen + 1 + |line| <= maxChars
    ensures Cutting(result, cur + [line], curStart, if curLen > 0 then curLen + 1 + |line| else |line|, end + 1, from,
                    bound, lines, trim)
  {
    assert |line| <= Longest(lines);
    JoinedPush(cur, line);
    OpenPush(cur, curStart, end, lines, trim);
    hide Sized, Open, Joined, Longest;
  }

  lemma CutOpen(result: seq<Chunk>, cur: seq<string>, curStart: nat, curLen: nat, end: nat, from: nat, bound: int,
                lines: seq<string>, trim: Trim)
    requires Cutting(result, cur, curStart, curLen, end, from, bound, lines, trim) && cur != []
    ensures Cutting(result + [Chunk(Joined(cur), curStart, end, false)], [], end, 0, end, from, bound, lines, trim)
  {
    var c := Chunk(Joined(cur), curStart, end, false);
    assert Joined([]) == "";
    SolidIsFaithful(c, lines, trim);
    OpenNone(end, lines, trim);
    hide Sized, Joined, Faithful;
    SizedPush(result, c, lines, from, bound, trim);
  }

  /** A paragraph's own lines and its place after the one before. */
  lemma ParaAt(raw: seq<Chunk>, lines: seq<string>, from: nat, trim: Trim, k: nat)
    requires Paras(raw, lines, from, |lines|, trim) && k < |raw|
    ensures Faithful(raw[k], lines, trim) && !raw[k].isFrontmatter
    ensures Gap(lines, EndBefore(raw, k, from), raw[k].startLine, trim)
    ensures raw[k].startLine <= raw[k].endLine <= |lines|
    ensures Open(lines[raw[k].startLine..raw[k].endLine], raw[k].startLine, raw[k].endLine, lines, trim)
  {
    TilesAt(raw, lines, from, |lines|, trim, k);
    assert Solid(raw[k], lines, trim);
  }

  lemma ParasEnd(raw: seq<Chunk>, lines: seq<string>, from: nat, trim: Trim)
    requires Paras(raw, lines, from, |lines|, trim)
    ensures Gap(lines, EndBefore(raw, |raw|, from), |lines|, trim)
  {
    TilesEnd(raw, lines, from, |lines|, trim);
  }

  lemma EndSteps(cs: seq<Chunk>, k: nat, from: nat)
    requires k <= |cs|
    ensures EndBefore(cs, 0, from) == from
    ensures k < |cs| ==> EndBefore(cs, k + 1, from) == cs[k].endLine
  {
  }

  /** One paragraph, cut when it is too large. */
  method FitChunk(c: Chunk, lines: seq<string>, maxChars: int, trim: Trim) returns (parts: seq<Chunk>)
    requires Faithful(c, lines, trim) && !c.isFrontmatter && trim("") == "" && c.startLine <= c.endLine <= |lines|
    requires Open(lines[c.startLine..c.endLine], c.startLine, c.endLine, lines, trim)
    ensures Sized(parts, lines, c.startLine, c.endLine, Max(maxChars, Longest(lines)), trim)
  {
    if |c.content| > maxChars {
      hide *;
      parts := SplitLargeChunk(lines[c.startLine..c.endLine], c.startLine, maxChars, lines, trim);
    } else {
      parts := [c];
      NoSized(lines, c.startLine, Max(maxChars, Longest(lines)), trim);
      hide Sized, Longest, Open, Faithful;
      SizedPush([], c, lines, c.startLine, Max(maxChars, Longest(lines)), trim);
      assert [] + [c] == [c];
    }
  }

  /** The sizing loop over paragraphs. */
  method SizeChunks(raw: seq<Chunk>, lines: seq<string>, from: nat, maxChars: int, trim: Trim) returns (sized: seq<Chunk>)
    requires Paras(raw, lines, from, |lines|, trim) && trim("") == "" && from <= |lines|
    ensures Sized(sized, lines, from, |lines|, Max(maxChars, Longest(lines)), trim)
  {
    hide *;
    sized := [];
    ghost var bound := Max(maxChars, Longest(lines));
    NoSized(lines, from, bound, trim);
    EndSteps(raw, 0, from);
    for k := 0 to |raw|
      invariant Sized(sized, lines, from, EndBefore(raw, k, from), bound, trim)
    {
      var c := raw[k];
      ParaAt(raw, lines, from, trim, k);
      EndSteps(raw, k, from);
      SizedExtend(sized, lines, from, EndBefore(raw, k, from), c.startLine, bound, trim);
      var parts := FitChunk(c, lines, maxChars, trim);
      SizedConcat(sized, parts, lines, from, c.startLine, c.endLine, bound, trim);
      sized := sized + parts;
    }
    ParasEnd(raw, lines, from, trim);
    SizedExtend(sized, lines, from, EndBefore(raw, |raw|, from), |lines|, bound, trim);
  }

  lemma TilesAt(cs: seq<Chunk>, lines: seq<string>, from: nat, to: nat, trim: Trim, k: nat)
    requires Tiles(cs, lines, from, to, trim) && k < |cs|
    ensures Faithful(cs[k], lines, trim) && Gap(lines, EndBefore(cs, k, from), cs[k].startLine, trim)
    ensures EndBefore(cs, k + 1, from) == cs[k].endLine <= |lines|
  {
    assert Gap(lines, EndBefore(cs, k, from), StartAt(cs, k, to), trim);
  }

  lemma TilesEnd(cs: seq<Chunk>, lines: seq<string>, from: nat, to: nat, trim: Trim)
    requires Tiles(cs, lines, from, to, trim)
    ensures Gap(lines, EndBefore(cs, |cs|, from), to, trim)
  {
    assert Gap(lines, EndBefore(cs, |cs|, from), StartAt(cs, |cs|, to), trim);
  }

  // ------------------------------------------------------------------ merging small ones

  lemma MergeTwo(c: Chunk, d: Chunk, lines: seq<string>, trim: Trim)
    requires Faithful(c, lines, trim) && Faithful(d, lines, trim) && Gap(lines, c.endLine, d.startLine, trim)
    ensures Faithful(Chunk(c.content + "\n" + d.content, c.startLine, d.endLine, c.isFrontmatter), lines, trim)
  {
    TextSplit(lines, c.startLine, c.endLine, d.startLine, trim);
    TextSplit(lines, c.startLine, d.startLine, d.endLine, trim);
    var a, b := Text(lines, c.startLine, c.endLine, trim), Text(lines, d.startLine, d.endLine, trim);
    JoinedConcat(a, b);
    assert Text(lines, c.startLine, d.endLine, trim) == a + [] + b == a + b;
  }

  /** Every chunk but the last reaches the minimum. */
  predicate BigEnough(cs: seq<Chunk>, minChars: int) {
    forall k :: 0 <= k < |cs| - 1 ==> |cs[k].content| >= minChars
  }

  predicate AllBig(cs: seq<Chunk>, minChars: int) {
    forall k :: 0 <= k < |cs| ==> |cs[k].content| >= minChars
  }

  lemma SizedAt(cs: seq<Chunk>, lines: seq<string>, from: nat, to: nat, bound: int, trim: Trim, k: nat)
    requires Sized(cs, lines, from, to, bound, trim) && k < |cs|
    ensures Faithful(cs[k], lines, trim) && Gap(lines, EndBefore(cs, k, from), cs[k].startLine, trim)
    ensures !cs[k].isFrontmatter && |cs[k].content| <= bound
  {
    TilesAt(cs, lines, from, to, trim, k);
  }

  lemma SizedGrows(cs: seq<Chunk>, lines: seq<string>, from: nat, to: nat, bound: int, more: int, trim: Trim)
    requires Sized(cs, lines, from, to, bound, trim) && bound <= more
    ensures Sized(cs, lines, from, to, more, trim) && Gap(lines, EndBefore(cs, |cs|, from), to, trim)
  {
    TilesEnd(cs, lines, from, to, trim);
  }

  /** A merged chunk took its last part only because everything before it was too small. */
  ghost predicate Needed(c: Chunk, chunks: seq<Chunk>, first: nat, last: nat, minChars: int, lines: seq<string>, trim: Trim) {
    && first <= last < |chunks| && c.startLine == chunks[first].startLine && c.endLine == chunks[last].endLine
    && (first < last ==>
          && c.startLine <= chunks[last - 1].endLine <= |lines|
          && |Joined(Text(lines, c.startLine, chunks[last - 1].endLine, trim))| < minChars)
  }

  lemma StillNeeded(c: Chunk, chunks: seq<Chunk>, first: nat, last: nat, minChars: int, lines: seq<string>, trim: Trim)
    requires first < last < |chunks| && Faithful(c, lines, trim) && |c.content| < minChars
    requires c.startLine == chunks[first].startLine && c.endLine == chunks[last - 1].endLine
    ensures Needed(Chunk(c.content + "\n" + chunks[last].content, c.startLine, chunks[last].endLine, c.isFrontmatter),
                   chunks, first, last, minChars, lines, trim)
  {
  }

  /** Each merged chunk is a needed run of the given ones. */
  ghost predicate AllNeeded(cs: seq<Chunk>, chunks: seq<Chunk>, minChars: int, lines: seq<string>, trim: Trim) {
    forall k :: 0 <= k < |cs| ==> NeededRun(cs[k], chunks, minChars, lines, trim)
  }

  ghost predicate NeededRun(c: Chunk, chunks: seq<Chunk>, minChars: int, lines: seq<string>, trim: Trim) {
    exists first: nat, last: nat :: Needed(c, chunks, first, last, minChars, lines, trim)
  }

  lemma NeededPush(cs: seq<Chunk>, c: Chunk, chunks: seq<Chunk>, first: nat, last: nat, minChars: int, lines: seq<string>, trim: Trim)
    requires AllNeeded(cs, chunks, minChars, lines, trim) && Needed(c, chunks, first, last, minChars, lines, trim)
    ensures AllNeeded(cs + [c], chunks, minChars, lines, trim)
  {
    assert NeededRun(c, chunks, minChars, lines, trim);
    hide NeededRun, Needed;
  }

  lemma UnmergedNeeded(chunks: seq<Chunk>, minChars: int, lines: seq<string>, trim: Trim)
    ensures AllNeeded(chunks, chunks, minChars, lines, trim) && AllNeeded([], chunks, minChars, lines, trim)
  {
    forall k | 0 <= k < |chunks| ensures NeededRun(chunks[k], chunks, minChars, lines, trim) {
      assert Needed(chunks[k], chunks, k, k, minChars, lines, trim);
    }
  }

  /** One merged chunk: chunk `i` with as many of the next as it takes. */
  method MergeFrom(chunks: seq<Chunk>, i: nat, minChars: int, ghost bound: int,
                   ghost lines: seq<string>, ghost from: nat, ghost to: nat, ghost trim: Trim)
      returns (c: Chunk, last: nat)
    requires Sized(chunks, lines, from, to, bound, trim) && bound >= 0 && i < |chunks|
    ensures i <= last < |chunks| && c.startLine == chunks[i].startLine && c.endLine == chunks[last].endLine
    ensures Faithful(c, lines, trim) && !c.isFrontmatter
    ensures |c.content| <= Max(minChars, 0) + bound
    ensures |c.content| >= minChars || last == |chunks| - 1
    ensures Needed(c, chunks, i, last, minChars, lines, trim)
  {
    assert Needed(chunks[i], chunks, i, i, minChars, lines, trim);
    hide Sized, Faithful, Gap, Needed;
    c, last := chunks[i], i;
    SizedAt(chunks, lines, from, to, bound, trim, i);
    while |c.content| < minChars && last + 1 < |chunks|
      invariant i <= last < |chunks| && !c.isFrontmatter
      invariant Faithful(c, lines, trim) && c.startLine == chunks[i].startLine && c.endLine == chunks[last].endLine
      invariant |c.content| <= Max(minChars, 0) + bound && Needed(c, chunks, i, last, minChars, lines, trim)
    {
      last := last + 1;
      SizedAt(chunks, lines, from, to, bound, trim, last);
      MergeTwo(c, chunks[last], lines, trim);
      StillNeeded(c, chunks, i, last, minChars, lines, trim);
      c := c.(content := c.content + "\n" + chunks[last].content, endLine := chunks[last].endLine);
    }
  }

  lemma BigPush(cs: seq<Chunk>, c: Chunk, minChars: int)
    requires AllBig(cs, minChars)
    ensures BigEnough(cs + [c], minChars)
    ensures |c.content| >= minChars ==> AllBig(cs + [c], minChars)
  {
  }

  lemma FewAreBig(cs: seq<Chunk>, minChars: int)
    requires |cs| <= 1
    ensures BigEnough(cs, minChars) && (cs == [] ==> AllBig(cs, minChars))
  {
  }

  /** Merging every small chunk forward. */
  method MergeSmallChunks(chunks: seq<Chunk>, minChars: int, ghost bound: int,
                          ghost lines: seq<string>, ghost from: nat, ghost to: nat, ghost trim: Trim)
      returns (result: seq<Chunk>)
    requires Sized(chunks, lines, from, to, bound, trim) && bound >= 0 && from <= |lines|
    ensures Sized(result, lines, from, to, Max(minChars, 0) + bound, trim)
    ensures BigEnough(result, minChars) && AllNeeded(result, chunks, minChars, lines, trim)
  {
    UnmergedNeeded(chunks, minChars, lines, trim);
    ghost var more := Max(minChars, 0) + bound;
    SizedGrows(chunks, lines, from, to, bound, more, trim);
    if |chunks| <= 1 {
      FewAreBig(chunks, minChars);
      return chunks;
    }
    result := [];
    FewAreBig(result, minChars);
    NoSized(lines, from, more, trim);
    EndSteps(chunks, 0, from);
    hide Sized, Faithful, Gap, BigEnough, AllBig, EndBefore, Needed, NeededRun, AllNeeded;
    var i := 0;
    while i < |chunks|
      invariant 0 <= i <= |chunks| && BigEnough(result, minChars) && (i < |chunks| ==> AllBig(result, minChars))
      invariant Sized(result, lines, from, EndBefore(chunks, i, from), more, trim)
      invariant AllNeeded(result, chunks, minChars, lines, trim)
    {
      var c, last := MergeFrom(chunks, i, minChars, bound, lines, from, to, trim);
      SizedAt(chunks, lines, from, to, bound, trim, i);
      EndSteps(chunks, last, from);
      BigPush(result, c, minChars);
      NeededPush(result, c, chunks, i, last, minChars, lines, trim);
      SizedExtend(result, lines, from, EndBefore(chunks, i, from), c.startLine, more, trim);
      SizedPush(result, c, lines, from, more, trim);
      result := result + [c];
      i := last + 1;
    }
    SizedExtend(result, lines, from, EndBefore(chunks, |chunks|, from), to, more, trim);
  }

  // -------------------------------------------------------------------- frontmatter

  /** Where the body starts: after the second fence when the first line is one, else at the top. */
  predicate BodyStartsAt(lines: seq<string>, trim: Trim, n: nat) {
    if n == 0 then lines == [] || trim(lines[0]) != "---" || forall i :: 1 <= i < |lines| ==> trim(lines[i]) != "---"
    else && 2 <= n <= |lines| && trim(lines[0]) == "---" && trim(lines[n - 1]) == "---"
         && forall i :: 1 <= i < n - 1 ==> trim(lines[i]) != "---"
  }

  method Frontmatter(lines: seq<string>, trim: Trim) returns (fm: Option<Chunk>, bodyStart: nat)
    ensures BodyStartsAt(lines, trim, bodyStart)
    ensures fm == if bodyStart == 0 then None else Some(Chunk(Joined(lines[..bodyStart]), 0, bodyStart, true))
  {
    fm, bodyStart := None, 0;
    if |lines| > 0 && trim(lines[0]) == "---" {
      for i := 1 to |lines|
        invariant forall j :: 1 <= j < i ==> trim(lines[j]) != "---"
      {
        if trim(lines[i]) == "---" {
          fm := Some(Chunk(Joined(lines[..i + 1]), 0, i + 1, true));
          bodyStart := i + 1;
          return;
        }
      }
    }
  }

  // ------------------------------------------------------------------------ the split

  /** Frontmatter, if any, then body chunks that carry the body's text in order, sized as asked. */
  ghost predicate IsSplit(lines: seq<string>, minChars: int, maxChars: int, trim: Trim,
                          chunks: seq<Chunk>, bodyStart: nat, body: seq<Chunk>) {
    && BodyStartsAt(lines, trim, bodyStart) && bodyStart <= |lines|
    && chunks == WithFrontmatter(if bodyStart == 0 then None else Some(Chunk(Joined(lines[..bodyStart]), 0, bodyStart, true)), body)
    && Sized(body, lines, bodyStart, |lines|, Max(minChars, 0) + Max(maxChars, Longest(lines)), trim)
    && Carried(body) == Text(lines, bodyStart, |lines|, trim)
    && BigEnough(body, minChars)
  }

  lemma BodyIsSplit(lines: seq<string>, bodyStart: nat, body: seq<Chunk>, bound: int, trim: Trim)
    requires NoNewlines(lines) && Sized(body, lines, bodyStart, |lines|, bound, trim)
    ensures bodyStart <= |lines| && Carried(body) == Text(lines, bodyStart, |lines|, trim)
  {
    TilesCarryTheText(body, lines, bodyStart, |lines|, trim);
  }

  function WithFrontmatter(fm: Option<Chunk>, body: seq<Chunk>): seq<Chunk> {
    if fm.Some? then [fm.value] + body else body
  }

  method SplitChunks(content: string, minChars: int, maxChars: int, trim: Trim)
      returns (chunks: seq<Chunk>, ghost bodyStart: nat, ghost body: seq<Chunk>)
    requires trim("") == ""
    ensures content == "" ==> chunks == []
    ensures content != "" ==> IsSplit(Lines(content), minChars, maxChars, trim, chunks, bodyStart, body)
  {
    hide *;
    chunks, bodyStart, body := [], 0, [];
    if content == "" {
      return;
    }
    var lines := Lines(content);
    var fm, start := Frontmatter(lines, trim);
    BodyFits(lines, trim, start);
    BoundIsNat(maxChars, lines);
    var raw := Paragraphs(lines, start, trim);
    var sized := SizeChunks(raw, lines, start, maxChars, trim);
    var merged := MergeSmallChunks(sized, minChars, Max(maxChars, Longest(lines)), lines, start, |lines|, trim);
    bodyStart, body := start, merged;
    BodyIsSplit(lines, start, merged, Max(minChars, 0) + Max(maxChars, Longest(lines)), trim);
    chunks := WithFrontmatter(fm, merged);
    SplitIs(lines, minChars, maxChars, trim, chunks, start, merged);
  }

  lemma SplitIs(lines: seq<string>, minChars: int, maxChars: int, trim: Trim, chunks: seq<Chunk>, bodyStart: nat, body: seq<Chunk>)
    requires BodyStartsAt(lines, trim, bodyStart) && bodyStart <= |lines|
    requires chunks == WithFrontmatter(if bodyStart == 0 then None else Some(Chunk(Joined(lines[..bodyStart]), 0, bodyStart, true)), body)
    requires Sized(body, lines, bodyStart, |lines|, Max(minChars, 0) + Max(maxChars, Longest(lines)), trim)
    requires Carried(body) == Text(lines, bodyStart, |lines|, trim) && BigEnough(body, minChars)
    ensures IsSplit(lines, minChars, maxChars, trim, chunks, bodyStart, body)
  {
    hide Sized, BigEnough, BodyStartsAt, Longest, Max, Joined, Carried, Text, WithFrontmatter;
  }

  lemma BoundIsNat(maxChars: int, lines: seq<string>)
    ensures Max(maxChars, Longest(lines)) >= 0
  {
  }

  lemma BodyFits(lines: seq<string>, trim: Trim, n: nat)
    requires BodyStartsAt(lines, trim, n)
    ensures n <= |lines|
  {
  }

  /** Ranges of tiles strictly increase and do not overlap. */
  lemma {:induction false} RangesIncrease(cs: seq<Chunk>, lines: seq<string>, from: nat, to: nat, trim: Trim, a: nat, b: nat)
    requires Tiles(cs, lines, from, to, trim) && a < b < |cs|
    ensures from <= cs[a].startLine < cs[a].endLine <= cs[b].startLine < cs[b].endLine <= to
    decreases b
  {
    RangeInside(cs, lines, from, to, trim, a);
    RangeInside(cs, lines, from, to, trim, b);
    NextAfter(cs, lines, from, to, trim, b - 1);
    hide *;
    if a < b - 1 {
      RangesIncrease(cs, lines, from, to, trim, a, b - 1);
    }
  }

  lemma NextAfter(cs: seq<Chunk>, lines: seq<string>, from: nat, to: nat, trim: Trim, k: nat)
    requires Tiles(cs, lines, from, to, trim) && k + 1 < |cs|
    ensures cs[k].endLine <= cs[k + 1].startLine
  {
    TilesAt(cs, lines, from, to, trim, k + 1);
  }

  lemma {:induction false} RangeInside(cs: seq<Chunk>, lines: seq<string>, from: nat, to: nat, trim: Trim, k: nat)
    requires Tiles(cs, lines, from, to, trim) && k < |cs|
    ensures from <= cs[k].startLine < cs[k].endLine <= to
  {
    var c, front := cs[|cs| - 1], cs[..|cs| - 1];
    TilesFront(cs, lines, from, to, trim);
    TilesEnd(cs, lines, from, to, trim);
    if k < |cs| - 1 {
      RangeInside(front, lines, from, c.startLine, trim, k);
    } else {
      StartInside(front, lines, from, c.startLine, trim);
    }
  }

  lemma {:induction false} StartInside(cs: seq<Chunk>, lines: seq<string>, from: nat, to: nat, trim: Trim)
    requires Tiles(cs, lines, from, to, trim)
    ensures from <= to
  {
    TilesEnd(cs, lines, from, to, trim);
    if cs != [] {
      TilesFront(cs, lines, from, to, trim);
      StartInside(cs[..|cs| - 1], lines, from, cs[|cs| - 1].startLine, trim);
    }
  }
}
