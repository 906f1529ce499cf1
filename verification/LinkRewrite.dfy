/**
 * Link rewriting after a move (internal/storage/linkrewrite.go): every inline link
 * that resolves to the moved file is repointed at its new place.
 */
module LinkRewrite {
  import opened Wrappers
  import opened SlashPath
  import opened LinkScan
  import opened LinkTokens
  import opened LinkSubst

  /** The parts of net/url the rewriter calls: does a reference parse with a scheme, and a path's escaped form. */
  datatype UrlLib = UrlLib(hasScheme: string -> bool, escapedPath: string -> string)

  /** A scheme ends with a colon. */
  ghost predicate UrlOk(u: UrlLib) {
    forall p: string :: ':' !in p ==> !u.hasScheme(p)
  }

  function HexValue(c: char): Option<nat> {
    if '0' <= c <= '9' then Some((c - '0') as nat)
    else if 'a' <= c <= 'f' then Some((c - 'a') as nat + 10)
    else if 'A' <= c <= 'F' then Some((c - 'A') as nat + 10)
    else None
  }

  /** url.PathUnescape; `None` is its error. */
  function PathUnescape(s: string): (r: Option<string>)
    ensures r.Some? && s != "" ==> r.value != ""
    ensures '%' !in s ==> r == Some(s)
  {
    if s == "" then Some("")
    else if s[0] == '%' then
      if |s| < 3 || HexValue(s[1]).None? || HexValue(s[2]).None? then None
      else
        var b := 16 * HexValue(s[1]).value + HexValue(s[2]).value;
        match PathUnescape(s[3..])
        case Some(rest) => Some([b as char] + rest)
        case None => None
    else
      assert [s[0]] + s[1..] == s;
      match PathUnescape(s[1..])
      case Some(rest) => Some([s[0]] + rest)
      case None => None
  }

  function HashIndex(dest: string): (h: nat)
    ensures h <= |dest| && '#' !in dest[..h] && (h < |dest| ==> dest[h] == '#')
  {
    if dest == "" || dest[0] == '#' then 0 else 1 + HashIndex(dest[1..])
  }

  function RawPath(dest: string): string {
    dest[..HashIndex(dest)]
  }

  function Anchor(dest: string): string {
    dest[HashIndex(dest)..]
  }

  function Decoded(raw: string): (r: string)
    ensures raw != "" ==> r != ""
  {
    match PathUnescape(raw)
    case Some(d) => d
    case None => raw
  }

  /** The project file a destination names, or `None` for a same-page anchor or an external URL. */
  function ResolveLinkTarget(dest: string, ref: string, u: UrlLib): Option<string> {
    var raw := RawPath(dest);
    if raw == "" then None
    else if u.hasScheme(Decoded(raw)) then None
    else if Decoded(raw)[0] == '/' then Some(Clean(Decoded(raw)[1..]))
    else Some(Clean(Join(Dir(ref), Decoded(raw))))
  }

  /** The new destination, in the form of the old one, when the old one resolves to the moved file. */
  function MakeRewrite(dest: string, ref: string, src: string, dst: string, u: UrlLib): Option<string> {
    if ResolveLinkTarget(dest, ref, u) != Some(src) then None
    else
      var raw := RawPath(dest);
      var newPath := if Decoded(raw)[0] == '/' then Some("/" + dst) else Rel(Dir(ref), dst);
      match newPath
      case None => None
      case Some(p) => Some((if raw == Decoded(raw) then p else u.escapedPath(p)) + Anchor(dest))
  }

  function Dest(s: Doc, l: Link): string {
    if l.start <= l.stop <= |s| then s[l.start..l.stop] else ""
  }

  function Rewrites(s: Doc, links: seq<Link>, ref: string, src: string, dst: string, u: UrlLib): seq<Edit> {
    if links == [] then []
    else
      var l := links[0];
      (match MakeRewrite(Dest(s, l), ref, src, dst, u)
       case Some(text) => [Edit(l.start, l.stop, text)]
       case None => [])
      + Rewrites(s, links[1..], ref, src, dst, u)
  }

  function Targets(s: Doc, links: seq<Link>, ref: string, u: UrlLib): set<string> {
    if links == [] then {}
    else
      (match ResolveLinkTarget(Dest(s, links[0]), ref, u)
       case Some(t) => {t}
       case None => {})
      + Targets(s, links[1..], ref, u)
  }

  // ------------------------------------------------------------------- the loops

  method ScanRewrites(content: Doc, ranges: seq<Span>, ref: string, src: string, dst: string, u: UrlLib)
    returns (rewrites: seq<Edit>)
    ensures rewrites == Rewrites(content, ScanLinks(content, Marks(ranges, |content|), 0, 0), ref, src, dst, u)
  {
    hide MakeRewrite, ResolveLinkTarget, ParseInlineDestination, InAnyRange;
    ghost var shut := Marks(ranges, |content|);
    var openers: seq<nat> := [];
    rewrites := [];
    var i := 0;
    while i < |content|
      invariant rewrites + Rewrites(content, ScanLinks(content, shut, i, |openers|), ref, src, dst, u)
             == Rewrites(content, ScanLinks(content, shut, 0, 0), ref, src, dst, u)
      decreases |content| - i
    {
      var c := content[i];
      if c == '\\' {
        i := i + 2;
        continue;
      }
      if c == '[' {
        if !InAnyRange(ranges, i) {
          openers := openers + [i];
        }
        i := i + 1;
        continue;
      }
      if c == ']' && |openers| > 0 && !InAnyRange(ranges, i) {
        openers := openers[..|openers| - 1];
        if i + 1 < |content| && content[i + 1] == '(' && !InAnyRange(ranges, i + 1) {
          var pStart, pStop, after, ok := ParseInlineDestinationLoop(content, i + 2);
          if ok {
            assert LinkAt(content, shut, i) == Some(Link(pStart, pStop, after));
            var rw := MakeRewrite(content[pStart..pStop], ref, src, dst, u);
            RewritesCons(content, Link(pStart, pStop, after), ScanLinks(content, shut, after, |openers|), ref, src, dst, u, rewrites);
            if rw.Some? {
              rewrites := rewrites + [Edit(pStart, pStop, rw.value)];
            }
            i := after;
            continue;
          }
        }
      }
      i := i + 1;
    }
    assert rewrites + [] == rewrites;
  }

  lemma RewritesCons(s: Doc, l: Link, links: seq<Link>, ref: string, src: string, dst: string, u: UrlLib, acc: seq<Edit>)
    requires l.start <= l.stop <= |s|
    ensures var rw := MakeRewrite(s[l.start..l.stop], ref, src, dst, u);
            acc + Rewrites(s, [l] + links, ref, src, dst, u) ==
            (if rw.Some? then acc + [Edit(l.start, l.stop, rw.value)] else acc) + Rewrites(s, links, ref, src, dst, u)
  {
    hide MakeRewrite;
    assert ([l] + links)[1..] == links;
    var rw := MakeRewrite(s[l.start..l.stop], ref, src, dst, u);
    var rest := Rewrites(s, links, ref, src, dst, u);
    assert rw.Some? ==> acc + ([Edit(l.start, l.stop, rw.value)] + rest) == acc + [Edit(l.start, l.stop, rw.value)] + rest;
    assert rw.None? ==> [] + rest == rest;
  }

  /** The reverse-link extractor: the set of files a document links to. */
  method ScanOutboundLinks(content: Doc, ranges: seq<Span>, ref: string, u: UrlLib) returns (targets: set<string>)
    ensures targets == Targets(content, ScanLinks(content, Marks(ranges, |content|), 0, 0), ref, u)
  {
    hide MakeRewrite, ResolveLinkTarget, ParseInlineDestination, InAnyRange;
    ghost var shut := Marks(ranges, |content|);
    var openers: seq<nat> := [];
    targets := {};
    var i := 0;
    while i < |content|
      invariant targets + Targets(content, ScanLinks(content, shut, i, |openers|), ref, u)
             == Targets(content, ScanLinks(content, shut, 0, 0), ref, u)
      decreases |content| - i
    {
      var c := content[i];
      if c == '\\' {
        i := i + 2;
        continue;
      }
      if c == '[' {
        if !InAnyRange(ranges, i) {
          openers := openers + [i];
        }
        i := i + 1;
        continue;
      }
      if c == ']' && |openers| > 0 && !InAnyRange(ranges, i) {
        openers := openers[..|openers| - 1];
        if i + 1 < |content| && content[i + 1] == '(' && !InAnyRange(ranges, i + 1) {
          var pStart, pStop, after, ok := ParseInlineDestinationLoop(content, i + 2);
          if ok {
            assert LinkAt(content, shut, i) == Some(Link(pStart, pStop, after));
            ghost var rest := ScanLinks(content, shut, after, |openers|);
            assert ([Link(pStart, pStop, after)] + rest)[1..] == rest;
            var target := ResolveLinkTarget(content[pStart..pStop], ref, u);
            if target.Some? {
              targets := targets + {target.value};
            }
            i := after;
            continue;
          }
        }
      }
      i := i + 1;
    }
  }

  lemma MarksLength(ranges: seq<Span>, n: nat)
    ensures |Marks(ranges, n)| == n
  {
  }

  /** The content with every matching link repointed, and how many were; unchanged bytes and 0 when none match. */
  method RewriteLinks(content: Doc, ranges: seq<Span>, ref: string, src: string, dst: string, u: UrlLib)
    returns (out: Doc, n: nat)
    ensures var rs := Rewrites(content, ScanLinks(content, Marks(ranges, |content|), 0, 0), ref, src, dst, u);
            n == |rs| && out == Splice(content, 0, rs)
  {
    hide MakeRewrite, ScanLinks, Rewrites, Marks;
    var rewrites := ScanRewrites(content, ranges, ref, src, dst, u);
    MarksLength(ranges, |content|);
    ghost var shut := Marks(ranges, |content|);
    ghost var links := ScanLinks(content, shut, 0, 0);
    ScanOrdered(content, shut, 0, 0);
    RewritesOrdered(content, links, 0, ref, src, dst, u);
    if |rewrites| == 0 {
      return content, 0;
    }
    out := "";
    var cursor: nat := 0;
    for i := 0 to |rewrites|
      invariant EditsFit(content, cursor, rewrites[i..])
      invariant out + Splice(content, cursor, rewrites[i..]) == Splice(content, 0, rewrites)
    {
      var rw := rewrites[i];
      assert rewrites[i..][0] == rw && rewrites[i..][1..] == rewrites[i + 1..];
      ghost var rest := Splice(content, rw.stop, rewrites[i + 1..]);
      assert out + (content[cursor..rw.start] + rw.text + rest) == out + content[cursor..rw.start] + rw.text + rest;
      out := out + content[cursor..rw.start] + rw.text;
      cursor := rw.stop;
    }
    assert rewrites[|rewrites|..] == [];
    out := out + content[cursor..];
    n := |rewrites|;
  }

  /** Spans in order and inside the document; the rewrites come out of the scan already sorted. */
  ghost predicate EditsFit(s: Doc, from: nat, edits: seq<Edit>)
    decreases |edits|
  {
    if edits == [] then from <= |s|
    else from <= edits[0].start <= edits[0].stop <= |s| && EditsFit(s, edits[0].stop, edits[1..])
  }

  /** Links in order, none starting before `from`. */
  ghost predicate InOrder(links: seq<Link>, from: nat, n: nat)
    decreases |links|
  {
    if links == [] then from <= n
    else from <= links[0].start <= links[0].stop < links[0].after <= n && InOrder(links[1..], links[0].after, n)
  }

  lemma {:induction false} OrderedInOrder(links: seq<Link>, from: nat, lower: nat, n: nat)
    requires Ordered(links, lower, n) && from <= n
    requires links != [] ==> from <= links[0].start
    ensures InOrder(links, from, n)
    decreases |links|
  {
    if links != [] {
      var rest := links[1..];
      forall i | 0 <= i < |rest| ensures lower + 2 <= rest[i].start <= rest[i].stop < rest[i].after <= n && links[0].after <= rest[i].start {
        assert rest[i] == links[i + 1];
      }
      forall i, j | 0 <= i < j < |rest| ensures rest[i].after <= rest[j].start {
        assert rest[i] == links[i + 1] && rest[j] == links[j + 1];
      }
      OrderedInOrder(rest, links[0].after, lower, n);
    }
  }

  lemma FitFrom(s: Doc, from: nat, to: nat, edits: seq<Edit>)
    requires EditsFit(s, to, edits) && from <= to
    ensures EditsFit(s, from, edits)
  {
  }

  lemma {:induction false} InOrderFits(s: Doc, links: seq<Link>, from: nat, ref: string, src: string, dst: string, u: UrlLib)
    requires InOrder(links, from, |s|)
    ensures EditsFit(s, from, Rewrites(s, links, ref, src, dst, u))
    decreases |links|
  {
    hide MakeRewrite;
    if links != [] {
      var l := links[0];
      InOrderFits(s, links[1..], l.after, ref, src, dst, u);
      var rest := Rewrites(s, links[1..], ref, src, dst, u);
      FitFrom(s, l.stop, l.after, rest);
      FitFrom(s, from, l.after, rest);
      match MakeRewrite(Dest(s, l), ref, src, dst, u)
      case Some(text) => assert ([Edit(l.start, l.stop, text)] + rest)[1..] == rest;
      case None => assert [] + rest == rest;
    }
  }

  lemma {:induction false} RewritesOrdered(s: Doc, links: seq<Link>, from: nat, ref: string, src: string, dst: string, u: UrlLib)
    requires Ordered(links, 0, |s|)
    ensures EditsFit(s, 0, Rewrites(s, links, ref, src, dst, u))
  {
    OrderedInOrder(links, 0, 0, |s|);
    InOrderFits(s, links, 0, ref, src, dst, u);
  }
}
