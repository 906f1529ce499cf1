/**
 * What rewriting means for the links of a document: those that named the moved
 * file name its new place, every other link is untouched, and a second rewrite
 * finds nothing. The reverse-link extractor and the rewriter agree on who links.
 */
module LinkMeaning {
  import opened Wrappers
  import opened SlashPath
  import opened LinkScan
  import opened LinkTokens
  import opened LinkSubst
  import opened LinkRewrite

  // -------------------------------------------------------- the scanners agree

  lemma {:induction false} TargetsAre(s: Doc, links: seq<Link>, ref: string, u: UrlLib, t: string)
    ensures t in Targets(s, links, ref, u) <==>
            exists k :: 0 <= k < |links| && ResolveLinkTarget(Dest(s, links[k]), ref, u) == Some(t)
  {
    hide ResolveLinkTarget;
    if links != [] {
      var rest := links[1..];
      TargetsAre(s, rest, ref, u, t);
      if k :| 0 <= k < |rest| && ResolveLinkTarget(Dest(s, rest[k]), ref, u) == Some(t) {
        assert links[k + 1] == rest[k];
      }
      if k :| 0 <= k < |links| && ResolveLinkTarget(Dest(s, links[k]), ref, u) == Some(t) {
        assert k > 0 ==> rest[k - 1] == links[k];
      }
    }
  }

  lemma {:induction false} RewritesExist(s: Doc, links: seq<Link>, ref: string, src: string, dst: string, u: UrlLib)
    ensures Rewrites(s, links, ref, src, dst, u) != [] <==>
            exists k :: 0 <= k < |links| && MakeRewrite(Dest(s, links[k]), ref, src, dst, u).Some?
  {
    hide MakeRewrite;
    if links != [] {
      var rest := links[1..];
      RewritesExist(s, rest, ref, src, dst, u);
      if k :| 0 <= k < |rest| && MakeRewrite(Dest(s, rest[k]), ref, src, dst, u).Some? {
        assert links[k + 1] == rest[k];
      }
      if k :| 0 <= k < |links| && MakeRewrite(Dest(s, links[k]), ref, src, dst, u).Some? {
        assert k > 0 ==> rest[k - 1] == links[k];
      }
    }
  }

  /** For in-project files a link is rewritten exactly when it resolves to the moved file. */
  lemma RewrittenIffResolves(dest: string, ref: string, src: string, dst: string, u: UrlLib)
    requires InProject(ref) && InProject(dst)
    ensures MakeRewrite(dest, ref, src, dst, u).Some? <==> ResolveLinkTarget(dest, ref, u) == Some(src)
  {
    hide ResolveLinkTarget;
    RelResolves(ref, dst);
  }

  /** The rewriter changes a file if and only if the extractor lists the moved file among its targets. */
  lemma ScannersAgree(s: Doc, shut: seq<bool>, ref: string, src: string, dst: string, u: UrlLib)
    requires |shut| == |s| && InProject(ref) && InProject(dst)
    ensures var links := ScanLinks(s, shut, 0, 0);
            Rewrites(s, links, ref, src, dst, u) != [] <==> src in Targets(s, links, ref, u)
  {
    hide MakeRewrite, ResolveLinkTarget, ScanLinks, Rewrites, Targets;
    var links := ScanLinks(s, shut, 0, 0);
    TargetsAre(s, links, ref, u, src);
    RewritesExist(s, links, ref, src, dst, u);
    forall k | 0 <= k < |links|
      ensures MakeRewrite(Dest(s, links[k]), ref, src, dst, u).Some? <==> ResolveLinkTarget(Dest(s, links[k]), ref, u) == Some(src)
    {
      RewrittenIffResolves(Dest(s, links[k]), ref, src, dst, u);
    }
  }

  // ------------------------------------------------------- one link's new path

  lemma NeutralIsPlain(t: string)
    requires NeutralText(t)
    ensures '#' !in t && '%' !in t && ':' !in t
  {
    forall c | c in t ensures c != '#' && c != '%' && c != ':' {
      var i :| 0 <= i < |t| && t[i] == c;
    }
  }

  /** What the resolver reads of a path with an anchor behind it. */
  lemma {:induction false} RawOf(p: string, anchor: string)
    requires anchor == "" || anchor[0] == '#'
    ensures RawPath(p + anchor) == p[..HashIndex(p)]
    ensures '#' !in p ==> HashIndex(p) == |p| && RawPath(p + anchor) == p && Anchor(p + anchor) == anchor
  {
    HashBefore(p, anchor);
    assert (p + anchor)[..HashIndex(p)] == p[..HashIndex(p)];
    if HashIndex(p) == |p| {
      assert p[..|p|] == p && (p + anchor)[|p|..] == anchor;
    }
  }

  lemma {:induction false} HashBefore(p: string, anchor: string)
    requires anchor == "" || anchor[0] == '#'
    ensures HashIndex(p + anchor) == HashIndex(p)
  {
    if p == "" {
      assert p + anchor == anchor;
    } else if p[0] != '#' {
      assert (p + anchor)[1..] == p[1..] + anchor;
      HashBefore(p[1..], anchor);
    }
  }

  lemma {:induction false} SplitNeutral(t: string)
    requires NeutralText(t)
    ensures forall i :: 0 <= i < |Split(t)| ==> NeutralText(Split(t)[i])
  {
    if t != "" {
      SplitNeutral(t[1..]);
    }
  }

  lemma {:induction false} SlashedNeutral(cs: seq<string>)
    requires forall i :: 0 <= i < |cs| ==> NeutralText(cs[i])
    ensures NeutralText(Slashed(cs))
  {
    if |cs| > 1 {
      SlashedNeutral(cs[1..]);
      NeutralConcat(cs[0], "/");
      NeutralConcat(cs[0] + "/", Slashed(cs[1..]));
    }
  }

  lemma NeutralConcat(a: string, b: string)
    requires NeutralText(a) && NeutralText(b)
    ensures NeutralText(a + b)
  {
  }

  /** The relative path to a neutral target is neutral. */
  lemma RelNeutral(ref: string, dst: string)
    requires InProject(ref) && InProject(dst) && NeutralText(dst)
    ensures Rel(Dir(ref), dst).Some?
    ensures var p := Rel(Dir(ref), dst).value; p != "" && p[0] != '/' && NeutralText(p)
  {
    hide Rel, Split, Dir, InProject, Slashed;
    var parts := RelSpelling(ref, dst);
    SplitNeutral(dst);
    forall i | 0 <= i < |parts| ensures NeutralText(parts[i]) {}
    SlashedNeutral(parts);
  }

  /** The path put into a matching link. */
  function NewPath(dest: string, ref: string, dst: string): string {
    if "/" <= Decoded(RawPath(dest)) then "/" + dst
    else match Rel(Dir(ref), dst)
      case Some(p) => p
      case None => ""
  }

  /** A neutral path resolves by its first byte alone. */
  lemma ResolvePlain(p: string, anchor: string, ref: string, u: UrlLib)
    requires UrlOk(u) && NeutralText(p) && p != "" && (anchor == "" || anchor[0] == '#')
    ensures RawPath(p + anchor) == p == Decoded(p) && Anchor(p + anchor) == anchor
    ensures ResolveLinkTarget(p + anchor, ref, u) ==
            Some(if p[0] == '/' then Clean(p[1..]) else Clean(Join(Dir(ref), p)))
  {
    hide Clean, Join, Dir;
    NeutralIsPlain(p);
    RawOf(p, anchor);
  }

  /** A matching link with a neutral path is given a neutral path that resolves to the destination. */
  lemma NewPathResolves(dest: string, ref: string, src: string, dst: string, u: UrlLib)
    requires InProject(ref) && InProject(dst) && NeutralText(dst) && UrlOk(u)
    requires ResolveLinkTarget(dest, ref, u) == Some(src) && NeutralText(RawPath(dest))
    ensures var p := NewPath(dest, ref, dst);
            && p != "" && NeutralText(p)
            && MakeRewrite(dest, ref, src, dst, u) == Some(p + Anchor(dest))
            && ResolveLinkTarget(p + Anchor(dest), ref, u) == Some(dst)
            && Anchor(p + Anchor(dest)) == Anchor(dest)
  {
    hide Clean, Join, Dir, Rel, Split, InProject;
    var raw, p := RawPath(dest), NewPath(dest, ref, dst);
    assert dest == raw + Anchor(dest);
    ResolvePlain(raw, Anchor(dest), ref, u);
    RelNeutral(ref, dst);
    RelResolves(ref, dst);
    CleanInProject(dst);
    if raw[0] == '/' {
      assert p[1..] == dst;
      NeutralConcat("/", dst);
    }
    ResolvePlain(p, Anchor(dest), ref, u);
  }

  // -------------------------------------------------- the document, path by path

  /** The rewrites seen as edits of the path parts alone; anchors stay in place. */
  function PathEdits(s: Doc, links: seq<Link>, ref: string, src: string, dst: string, u: UrlLib): seq<Edit> {
    if links == [] then []
    else
      var l := links[0];
      (if ResolveLinkTarget(Dest(s, l), ref, u) == Some(src) then [PathEdit(s, l, ref, dst)] else [])
      + PathEdits(s, links[1..], ref, src, dst, u)
  }

  function PathEdit(s: Doc, l: Link, ref: string, dst: string): Edit {
    Edit(l.start, l.start + |RawPath(Dest(s, l))|, NewPath(Dest(s, l), ref, dst))
  }

  /** Every matching link spells its path with neutral bytes only. */
  ghost predicate PlainMatches(s: Doc, links: seq<Link>, ref: string, src: string, u: UrlLib) {
    forall l :: l in links && ResolveLinkTarget(Dest(s, l), ref, u) == Some(src) ==> NeutralText(RawPath(Dest(s, l)))
  }

  lemma PathEditFits(s: Doc, l: Link, ref: string, src: string, dst: string, u: UrlLib)
    requires InProject(ref) && InProject(dst) && NeutralText(dst) && UrlOk(u)
    requires l.start <= l.stop <= |s|
    requires ResolveLinkTarget(Dest(s, l), ref, u) == Some(src) && NeutralText(RawPath(Dest(s, l)))
    ensures var e := PathEdit(s, l, ref, dst);
            && l.start == e.start < e.stop <= l.stop
            && s[e.start..e.stop] == RawPath(Dest(s, l)) && s[e.stop..l.stop] == Anchor(Dest(s, l))
            && e.text != "" && NeutralText(e.text)
            && MakeRewrite(Dest(s, l), ref, src, dst, u) == Some(e.text + s[e.stop..l.stop])
  {
    hide NewPath, Rel, Dir, InProject, NeutralText, MakeRewrite, HashIndex, Join, Clean, Decoded;
    var dest := Dest(s, l);
    NewPathResolves(dest, ref, src, dst, u);
    RawNotEmpty(dest, ref, u);
    hide ResolveLinkTarget;
    SliceOfSlice(s, l.start, l.stop, HashIndex(dest));
  }

  lemma RawNotEmpty(dest: string, ref: string, u: UrlLib)
    requires ResolveLinkTarget(dest, ref, u).Some?
    ensures 0 < HashIndex(dest) == |RawPath(dest)|
  {
  }

  lemma SliceOfSlice(s: string, a: nat, b: nat, h: nat)
    requires a <= b <= |s| && h <= b - a
    ensures s[a..b][..h] == s[a..a + h] && s[a..b][h..] == s[a + h..b]
  {
  }

  lemma EditsFrom(s: Doc, from: nat, to: nat, edits: seq<Edit>)
    requires EditsOk(s, to, edits) && from <= to
    ensures EditsOk(s, from, edits)
  {
  }

  /** Splicing may start anywhere before the first edit. */
  lemma SpliceFrom(s: Doc, from: nat, to: nat, edits: seq<Edit>)
    requires from <= to <= |s| && (edits != [] ==> to <= edits[0].start <= |s|)
    ensures Splice(s, from, edits) == s[from..to] + Splice(s, to, edits)
  {
    if edits == [] {
      assert s[from..] == s[from..to] + s[to..];
    } else {
      var e := edits[0];
      SplicedAt(s, from, edits);
      SplicedAt(s, to, edits);
      hide Splice;
      assert s[from..e.start] == s[from..to] + s[to..e.start];
    }
  }

  lemma SplicedAt(s: Doc, from: nat, edits: seq<Edit>)
    requires edits != [] && from <= edits[0].start <= |s|
    ensures Splice(s, from, edits) == s[from..edits[0].start] + (edits[0].text + Splice(s, edits[0].stop, edits[1..]))
  {
  }

  lemma OkBounds(s: Doc, from: nat, edits: seq<Edit>)
    requires EditsOk(s, from, edits)
    ensures from <= |s| && (edits != [] ==> from <= edits[0].start <= |s|)
  {
  }

  lemma FitBounds(s: Doc, from: nat, edits: seq<Edit>)
    requires EditsFit(s, from, edits)
    ensures from <= |s| && (edits != [] ==> from <= edits[0].start <= |s|)
  {
  }

  /** The path edits are well formed and make the very document the rewrites make. */
  lemma {:induction false} PathEditsOk(s: Doc, links: seq<Link>, from: nat, ref: string, src: string, dst: string, u: UrlLib)
    requires InProject(ref) && InProject(dst) && NeutralText(dst) && UrlOk(u)
    requires InOrder(links, from, |s|) && PlainMatches(s, links, ref, src, u)
    ensures EditsOk(s, from, PathEdits(s, links, ref, src, dst, u))
    ensures Splice(s, from, PathEdits(s, links, ref, src, dst, u)) == Splice(s, from, Rewrites(s, links, ref, src, dst, u))
    decreases |links|
  {
    if links != [] {
      var l, rest := links[0], links[1..];
      assert PlainMatches(s, rest, ref, src, u);
      PathEditsOk(s, rest, l.after, ref, src, dst, u);
      var es, rs := PathEdits(s, rest, ref, src, dst, u), Rewrites(s, rest, ref, src, dst, u);
      InOrderFits(s, rest, l.after, ref, src, dst, u);
      hide PathEdits, Rewrites, InOrder, PlainMatches, ResolveLinkTarget, MakeRewrite, NewPath, Dest, RawPath, InProject, NeutralText;
      if ResolveLinkTarget(Dest(s, l), ref, u) == Some(src) {
        assert l in links && NeutralText(RawPath(Dest(s, l))) by { MatchIsPlain(s, links, ref, src, u); }
        PathEditFits(s, l, ref, src, dst, u);
        var e := PathEdit(s, l, ref, dst);
        PathEditsCons(s, links, ref, src, dst, u);
        SpliceBoth(s, from, e, l, es, rs);
        EditsOkCons(s, from, e, l.after, es);
      } else {
        PathEditsSkip(s, links, ref, src, dst, u);
        EditsFrom(s, from, l.after, es);
        OkBounds(s, l.after, es);
        FitBounds(s, l.after, rs);
        SpliceFrom(s, from, l.after, es);
        SpliceFrom(s, from, l.after, rs);
      }
    }
  }

  lemma MatchIsPlain(s: Doc, links: seq<Link>, ref: string, src: string, u: UrlLib)
    requires links != [] && PlainMatches(s, links, ref, src, u)
    requires ResolveLinkTarget(Dest(s, links[0]), ref, u) == Some(src)
    ensures NeutralText(RawPath(Dest(s, links[0])))
  {
    assert links[0] in links;
  }

  lemma PathEditsCons(s: Doc, links: seq<Link>, ref: string, src: string, dst: string, u: UrlLib)
    requires links != [] && ResolveLinkTarget(Dest(s, links[0]), ref, u) == Some(src)
    requires MakeRewrite(Dest(s, links[0]), ref, src, dst, u).Some?
    ensures PathEdits(s, links, ref, src, dst, u) == [PathEdit(s, links[0], ref, dst)] + PathEdits(s, links[1..], ref, src, dst, u)
    ensures Rewrites(s, links, ref, src, dst, u) ==
            [Edit(links[0].start, links[0].stop, MakeRewrite(Dest(s, links[0]), ref, src, dst, u).value)]
            + Rewrites(s, links[1..], ref, src, dst, u)
  {
    hide ResolveLinkTarget, MakeRewrite;
  }

  lemma PathEditsSkip(s: Doc, links: seq<Link>, ref: string, src: string, dst: string, u: UrlLib)
    requires links != [] && ResolveLinkTarget(Dest(s, links[0]), ref, u) != Some(src)
    ensures PathEdits(s, links, ref, src, dst, u) == PathEdits(s, links[1..], ref, src, dst, u)
    ensures Rewrites(s, links, ref, src, dst, u) == Rewrites(s, links[1..], ref, src, dst, u)
  {
    hide ResolveLinkTarget;
    assert MakeRewrite(Dest(s, links[0]), ref, src, dst, u) == None;
    hide MakeRewrite, Dest;
    assert [] + PathEdits(s, links[1..], ref, src, dst, u) == PathEdits(s, links[1..], ref, src, dst, u);
    assert [] + Rewrites(s, links[1..], ref, src, dst, u) == Rewrites(s, links[1..], ref, src, dst, u);
  }

  lemma EditsOkCons(s: Doc, from: nat, e: Edit, to: nat, es: seq<Edit>)
    requires from <= e.start < e.stop <= to && EditsOk(s, to, es) && to <= |s|
    requires NeutralText(s[e.start..e.stop]) && e.text != "" && NeutralText(e.text)
    ensures EditsOk(s, from, [e] + es)
  {
    assert ([e] + es)[1..] == es;
    EditsFrom(s, e.stop, to, es);
  }

  /** Replacing a path part, or the whole destination with the anchor put back, comes to the same. */
  lemma SpliceBoth(s: Doc, from: nat, e: Edit, l: Link, es: seq<Edit>, rs: seq<Edit>)
    requires from <= l.start == e.start < e.stop <= l.stop < l.after <= |s|
    requires NeutralText(s[e.start..e.stop]) && e.text != "" && NeutralText(e.text)
    requires EditsOk(s, l.after, es) && EditsFit(s, l.after, rs)
    requires Splice(s, l.after, es) == Splice(s, l.after, rs)
    ensures Splice(s, from, [e] + es) == Splice(s, from, [Edit(l.start, l.stop, e.text + s[e.stop..l.stop])] + rs)
  {
    var w := Edit(l.start, l.stop, e.text + s[e.stop..l.stop]);
    assert ([e] + es)[1..] == es && ([w] + rs)[1..] == rs;
    EditsFrom(s, e.stop, l.after, es);
    OkBounds(s, l.after, es);
    FitBounds(s, l.after, rs);
    hide EditsOk, EditsFit, Splice, NeutralText;
    SpliceFrom(s, e.stop, l.after, es);
    SpliceFrom(s, l.stop, l.after, rs);
    SplicedAt(s, from, [e] + es);
    SplicedAt(s, from, [w] + rs);
    var tail := Splice(s, l.after, es);
    assert s[e.stop..l.after] == s[e.stop..l.stop] + s[l.stop..l.after];
    Regroup(s[from..e.start], e.text, s[e.stop..l.stop], s[l.stop..l.after], tail);
  }

  lemma Regroup(x: string, t: string, a: string, b: string, tail: string)
    ensures x + (t + ((a + b) + tail)) == x + ((t + a) + (b + tail))
  {
    assert t + ((a + b) + tail) == (t + a) + (b + tail);
  }

  // ----------------------------------------------------------------- main theorem

  lemma {:induction false} PathEditsMembers(s: Doc, links: seq<Link>, ref: string, src: string, dst: string, u: UrlLib, e: Edit)
    ensures e in PathEdits(s, links, ref, src, dst, u) <==>
            exists k :: 0 <= k < |links| && ResolveLinkTarget(Dest(s, links[k]), ref, u) == Some(src) && e == PathEdit(s, links[k], ref, dst)
  {
    hide ResolveLinkTarget, PathEdit;
    if links != [] {
      var rest := links[1..];
      PathEditsMembers(s, rest, ref, src, dst, u, e);
      if k :| 0 <= k < |rest| && ResolveLinkTarget(Dest(s, rest[k]), ref, u) == Some(src) && e == PathEdit(s, rest[k], ref, dst) {
        assert links[k + 1] == rest[k];
      }
      if k :| 0 <= k < |links| && ResolveLinkTarget(Dest(s, links[k]), ref, u) == Some(src) && e == PathEdit(s, links[k], ref, dst) {
        assert k > 0 ==> rest[k - 1] == links[k];
      }
    }
  }

  /** Another link's edit starts outside a link. */
  lemma EditsElsewhere(s: Doc, shut: seq<bool>, ref: string, src: string, dst: string, u: UrlLib, k: nat, f: Edit)
    requires |shut| == |s| && k < |ScanLinks(s, shut, 0, 0)|
    requires f in PathEdits(s, ScanLinks(s, shut, 0, 0), ref, src, dst, u)
    ensures var l := ScanLinks(s, shut, 0, 0)[k];
            Outside(f, l) || (f == PathEdit(s, l, ref, dst) && ResolveLinkTarget(Dest(s, l), ref, u) == Some(src))
  {
    hide ResolveLinkTarget, ScanLinks, NewPath, PathEdits, Dest;
    var links := ScanLinks(s, shut, 0, 0);
    PathEditsMembers(s, links, ref, src, dst, u, f);
    var m :| 0 <= m < |links| && ResolveLinkTarget(Dest(s, links[m]), ref, u) == Some(src) && f == PathEdit(s, links[m], ref, dst);
    ScanOrdered(s, shut, 0, 0);
    assert m < k ==> links[m].after <= links[k].start;
    assert k < m ==> links[k].after <= links[m].start;
  }

  /** The destination after rewriting, for a link before. */
  ghost predicate Repointed(before: string, after: string, ref: string, src: string, dst: string, u: UrlLib) {
    if ResolveLinkTarget(before, ref, u) == Some(src)
    then ResolveLinkTarget(after, ref, u) == Some(dst) && Anchor(after) == Anchor(before)
    else after == before
  }

  /**
   * Rewriting preserves meaning. When matching paths and the new place are spelled
   * with neutral bytes and protection shifts with the splice, the rewritten document
   * has the same links in the same order; those that resolved to the moved file now
   * resolve to its new place with their anchors, and all others are byte-identical.
   */
  lemma RewritePreservesMeaning(s: Doc, shut: seq<bool>, ref: string, src: string, dst: string, u: UrlLib, shut': seq<bool>, k: nat)
    requires InProject(ref) && InProject(dst) && NeutralText(dst) && UrlOk(u)
    requires |shut| == |s| && k < |ScanLinks(s, shut, 0, 0)|
    requires PlainMatches(s, ScanLinks(s, shut, 0, 0), ref, src, u)
    requires Shifted(shut, 0, PathEdits(s, ScanLinks(s, shut, 0, 0), ref, src, dst, u), shut')
    ensures var links := ScanLinks(s, shut, 0, 0);
            var out := Splice(s, 0, Rewrites(s, links, ref, src, dst, u));
            && |shut'| == |out|
            && var links' := ScanLinks(out, shut', 0, 0);
               && |links'| == |links|
               && Repointed(Dest(s, links[k]), Dest(out, links'[k]), ref, src, dst, u)
  {
    hide ScanLinks, PathEdits, Rewrites, Splice, EditsOk, Shifted, ResolveLinkTarget, MakeRewrite, NewPath, InProject, NeutralText;
    var links := ScanLinks(s, shut, 0, 0);
    var edits := PathEdits(s, links, ref, src, dst, u);
    SpliceIsRewrite(s, shut, ref, src, dst, u);
    var l := links[k];
    forall f | f in edits ensures Outside(f, l) || (f == PathEdit(s, l, ref, dst) && ResolveLinkTarget(Dest(s, l), ref, u) == Some(src)) {
      EditsElsewhere(s, shut, ref, src, dst, u, k, f);
    }
    ScanOrdered(s, shut, 0, 0);
    assert l in links;
    if ResolveLinkTarget(Dest(s, l), ref, u) == Some(src) {
      var e := PathEdit(s, l, ref, dst);
      PathEditsMembers(s, links, ref, src, dst, u, e);
      PathEditFits(s, l, ref, src, dst, u);
      EditedLink(s, shut, edits, shut', k, e);
      NewPathResolves(Dest(s, l), ref, src, dst, u);
    } else {
      UneditedLink(s, shut, edits, shut', k);
    }
  }

  lemma SpliceIsRewrite(s: Doc, shut: seq<bool>, ref: string, src: string, dst: string, u: UrlLib)
    requires InProject(ref) && InProject(dst) && NeutralText(dst) && UrlOk(u) && |shut| == |s|
    requires PlainMatches(s, ScanLinks(s, shut, 0, 0), ref, src, u)
    ensures var links := ScanLinks(s, shut, 0, 0);
            && EditsOk(s, 0, PathEdits(s, links, ref, src, dst, u))
            && Splice(s, 0, PathEdits(s, links, ref, src, dst, u)) == Splice(s, 0, Rewrites(s, links, ref, src, dst, u))
  {
    hide ScanLinks, PathEdits, Rewrites, Splice, EditsOk, PlainMatches, InProject, NeutralText;
    var links := ScanLinks(s, shut, 0, 0);
    ScanOrdered(s, shut, 0, 0);
    OrderedInOrder(links, 0, 0, |s|);
    PathEditsOk(s, links, 0, ref, src, dst, u);
  }

  /** A second rewrite for the same move finds nothing to change. */
  lemma SecondRewriteIsIdle(s: Doc, shut: seq<bool>, ref: string, src: string, dst: string, u: UrlLib, shut': seq<bool>)
    requires InProject(ref) && InProject(dst) && NeutralText(dst) && UrlOk(u) && src != dst
    requires |shut| == |s| && PlainMatches(s, ScanLinks(s, shut, 0, 0), ref, src, u)
    requires Shifted(shut, 0, PathEdits(s, ScanLinks(s, shut, 0, 0), ref, src, dst, u), shut')
    ensures var out := Splice(s, 0, Rewrites(s, ScanLinks(s, shut, 0, 0), ref, src, dst, u));
            |shut'| == |out| && Rewrites(out, ScanLinks(out, shut', 0, 0), ref, src, dst, u) == []
  {
    hide ScanLinks, PathEdits, Rewrites, Splice, EditsOk, Shifted, ResolveLinkTarget, MakeRewrite, InProject, NeutralText, PlainMatches;
    var links := ScanLinks(s, shut, 0, 0);
    var out := Splice(s, 0, Rewrites(s, links, ref, src, dst, u));
    SpliceIsRewrite(s, shut, ref, src, dst, u);
    LinkCount(s, shut, PathEdits(s, links, ref, src, dst, u), shut');
    var links' := ScanLinks(out, shut', 0, 0);
    RewritesExist(out, links', ref, src, dst, u);
    forall k | 0 <= k < |links'| ensures MakeRewrite(Dest(out, links'[k]), ref, src, dst, u).None? {
      RewritePreservesMeaning(s, shut, ref, src, dst, u, shut', k);
      RewrittenIffResolves(Dest(out, links'[k]), ref, src, dst, u);
    }
  }
}
