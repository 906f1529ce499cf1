/**
 * Link repair after a move (internal/storage/fixlinks.go): finding the referrers,
 * by index or by scanning the working tree, and repairing each by an if_match write.
 */
module FixLinks {
  import opened Wrappers
  import opened GitTree
  import opened SlashPath
  import opened LinkScan
  import opened LinkRewrite
  import LinkSubst
  import LinkMeaning
  import P = Protocol
  import Storage

  /** The Markdown parser's protected ranges and the URL library. */
  datatype Oracles = Oracles(ranges: Doc -> seq<Span>, url: UrlLib)

  function LinksOf(content: Doc, o: Oracles): seq<Link> {
    ScanLinks(content, Marks(o.ranges(content), |content|), 0, 0)
  }

  /** What `RewriteLinks` returns, as a function. */
  function Rewritten(content: Doc, ref: string, src: string, dst: string, o: Oracles): Doc {
    LinkSubst.Splice(content, 0, Rewrites(content, LinksOf(content, o), ref, src, dst, o.url))
  }

  function RewriteCount(content: Doc, ref: string, src: string, dst: string, o: Oracles): nat {
    |Rewrites(content, LinksOf(content, o), ref, src, dst, o.url)|
  }

  // ------------------------------------------------------------------ referrers

  predicate IsMarkdown(name: string) {
    var n := |name|;
    n >= 3 && name[n - 3] == '.' && name[n - 2] in "mM" && name[n - 1] in "dD"
  }

  /** The `.md` suffix in any letter case. */
  lemma MarkdownIsSuffix(name: string)
    ensures IsMarkdown(name) <==>
            exists stem, suffix :: name == stem + suffix && suffix in {".md", ".mD", ".Md", ".MD"}
  {
    var n := |name|;
    if IsMarkdown(name) {
      assert name == name[..n - 3] + name[n - 3..];
      assert name[n - 3..] == ['.', name[n - 2], name[n - 1]];
    }
    if stem, suffix :| name == stem + suffix && suffix in {".md", ".mD", ".Md", ".MD"} {
      assert name[n - 3] == suffix[0] && name[n - 2] == suffix[1] && name[n - 1] == suffix[2];
    }
  }

  /** The outbound links an index record holds. */
  function DerivedOutboundLinks(rel: string, content: Doc, o: Oracles): set<string> {
    if IsMarkdown(rel) then Targets(content, LinksOf(content, o), rel, o.url) else {}
  }

  /** Every indexed file carries the links of its current bytes. */
  ghost predicate IndexCurrent(files: map<Path, Doc>, records: map<Path, set<string>>, o: Oracles) {
    records.Keys == files.Keys && forall p :: p in files ==> records[p] == DerivedOutboundLinks(Slashed(p), files[p], o)
  }

  /** A Markdown file other than the moved one's two places whose links a rewrite would change. */
  predicate IsReferrer(name: string, content: Doc, src: string, dst: string, o: Oracles) {
    IsMarkdown(name) && name != src && name != dst && RewriteCount(content, name, src, dst, o) > 0
  }

  function Referrers(files: map<Path, Doc>, src: string, dst: string, o: Oracles): set<Path> {
    set p | p in files && IsReferrer(Slashed(p), files[p], src, dst, o)
  }

  /** The reverse lookup: one pass over the records. */
  method IndexReferrers(records: map<Path, set<string>>, target: string) returns (refs: set<Path>)
    ensures refs == set p | p in records && target in records[p]
  {
    refs := {};
    var todo := records.Keys;
    while todo != {}
      invariant todo <= records.Keys
      invariant refs == set p | p in records && p !in todo && target in records[p]
      decreases todo
    {
      var p :| p in todo;
      if target in records[p] {
        refs := refs + {p};
      }
      todo := todo - {p};
    }
  }

  /** The truth scan: every Markdown file but the moved ones, read and tried. */
  method DiscoverReferrers(files: map<Path, Doc>, src: string, dst: string, o: Oracles) returns (refs: set<Path>)
    ensures refs == Referrers(files, src, dst, o)
  {
    refs := {};
    var todo := files.Keys;
    while todo != {}
      invariant todo <= files.Keys
      invariant refs == set p | p in files && p !in todo && IsReferrer(Slashed(p), files[p], src, dst, o)
      decreases todo
    {
      hide IsMarkdown, Rewrites, LinksOf;
      var p :| p in todo;
      var name := Slashed(p);
      if IsMarkdown(name) && name != src && name != dst {
        var _, n := RewriteLinks(files[p], o.ranges(files[p]), name, src, dst, o.url);
        assert n == RewriteCount(files[p], name, src, dst, o) by { CountIs(files[p], name, src, dst, o); }
        if n > 0 {
          refs := refs + {p};
        }
      }
      todo := todo - {p};
    }
  }

  lemma CountIs(content: Doc, ref: string, src: string, dst: string, o: Oracles)
    ensures RewriteCount(content, ref, src, dst, o)
         == |Rewrites(content, ScanLinks(content, Marks(o.ranges(content), |content|), 0, 0), ref, src, dst, o.url)|
  {
  }

  /**
   * With current records, the index and the truth scan name the same files to repair,
   * once the moved file's own two paths are set aside.
   */
  method FindReferrersForFix(files: map<Path, Doc>, records: map<Path, set<string>>, healthy: bool,
                             src: string, dst: string, o: Oracles) returns (refs: set<Path>)
    requires healthy ==> IndexCurrent(files, records, o)
    requires InProject(dst) && forall p :: p in files ==> InProject(Slashed(p))
    ensures (set p | p in refs && Slashed(p) != src && Slashed(p) != dst) == Referrers(files, src, dst, o)
  {
    if healthy {
      refs := IndexReferrers(records, src);
      IndexNamesReferrers(files, records, src, dst, o);
    } else {
      hide IsMarkdown, Rewrites, LinksOf, RewriteCount;
      refs := DiscoverReferrers(files, src, dst, o);
    }
  }

  lemma IndexNamesReferrers(files: map<Path, Doc>, records: map<Path, set<string>>, src: string, dst: string, o: Oracles)
    requires IndexCurrent(files, records, o)
    requires InProject(dst) && forall p :: p in files ==> InProject(Slashed(p))
    ensures (set p | p in records && src in records[p] && Slashed(p) != src && Slashed(p) != dst) == Referrers(files, src, dst, o)
  {
    forall p | p in files
      ensures src in records[p] <==> IsMarkdown(Slashed(p)) && RewriteCount(files[p], Slashed(p), src, dst, o) > 0
    {
      LinkedIffRewritten(Slashed(p), files[p], src, dst, o);
    }
    hide IsMarkdown, RewriteCount, DerivedOutboundLinks;
  }

  lemma LinkedIffRewritten(name: string, content: Doc, src: string, dst: string, o: Oracles)
    requires InProject(name) && InProject(dst)
    ensures src in DerivedOutboundLinks(name, content, o) <==> IsMarkdown(name) && RewriteCount(content, name, src, dst, o) > 0
  {
    hide ScanLinks, Targets, Rewrites, InProject, IsMarkdown;
    LinkMeaning.ScannersAgree(content, Marks(o.ranges(content), |content|), name, src, dst, o.url);
  }

  // ------------------------------------------------------------- repairing one

  /** How one referrer fared. */
  datatype Repair = NothingToDo | Repaired | Conflict | Failed

  /** The transform of a repair: a pure function of the locked bytes. */
  function RewriteOf(name: string, src: string, dst: string, o: Oracles): Blob -> Option<Blob> {
    current => Some(Rewritten(current, name, src, dst, o))
  }

  /** Repairs one referrer from bytes read earlier, off the lock, by a write that insists on those very bytes. */
  method FixLinksRewriteReferrer(st: Storage.ProjectStorage, path: Path, data: Doc,
                                 src: string, dst: string, o: Oracles, fault: P.Fault) returns (r: Repair)
    requires ValidPath(path)
    modifies st
    ensures r == NothingToDo <==> RewriteCount(data, Slashed(path), src, dst, o) == 0
    ensures st.St() == if r == NothingToDo then old(st.St())
                       else P.WriteNext(old(st.St()), path, Some(P.Sha(data)), false, RewriteOf(Slashed(path), src, dst, o), fault)
    ensures r == Repaired ==>
              && path in old(st.files) && old(st.files)[path] == data
              && st.files == old(st.files)[path := Rewritten(old(st.files)[path], Slashed(path), src, dst, o)]
    ensures r == Conflict <==> r != NothingToDo && P.Current(old(st.files), path) != data
    ensures path in old(st.files) && old(st.files)[path] != data ==> st.St() == old(st.St())
  {
    hide P.Inv, P.AfterWrite, P.Clash, Rewrites, LinksOf;
    var name := Slashed(path);
    var _, n := RewriteLinks(data, o.ranges(data), name, src, dst, o.url);
    CountIs(data, name, src, dst, o);
    if n == 0 {
      return NothingToDo;
    }
    EmptyHasNoLinks(name, src, dst, o);
    var outcome := st.WriteTransformed(path, Some(P.Sha(data)), false, RewriteOf(name, src, dst, o), fault);
    if outcome.Done? {
      return Repaired;
    }
    if outcome.error.VersionConflict? {
      return Conflict;
    }
    return Failed;
  }

  /** An absent file reads as empty, and the empty document has no link to repair. */
  lemma EmptyHasNoLinks(ref: string, src: string, dst: string, o: Oracles)
    ensures RewriteCount("", ref, src, dst, o) == 0
  {
  }

  // ------------------------------------------------------------- repairing all

  /** What one undisturbed pass makes of a file; only a file that cannot be written keeps its old links. */
  function Fixed(p: Path, content: Doc, src: string, dst: string, o: Oracles, fault: P.Fault): Doc {
    if IsReferrer(Slashed(p), content, src, dst, o) && !fault.WriteFault? then Rewritten(content, Slashed(p), src, dst, o)
    else content
  }

  /** The whole repair on a project nobody else writes to meanwhile: every file is as `Fixed` says. */
  method FixLinks(st: Storage.ProjectStorage, records: map<Path, set<string>>, healthy: bool,
                  src: string, dst: string, o: Oracles, faults: Path -> P.Fault)
    requires healthy ==> IndexCurrent(st.files, records, o)
    requires P.PrefixFree(st.files)
    requires InProject(dst) && forall p :: p in st.files ==> InProject(Slashed(p))
    modifies st
    ensures st.files == map p | p in old(st.files) :: Fixed(p, old(st.files)[p], src, dst, o, faults(p))
  {
    hide IsMarkdown, Rewritten, RewriteCount, P.WriteNext, Slashed, InProject, P.PrefixFree;
    var refs := FindReferrersForFix(st.files, records, healthy, src, dst, o);
    ghost var files0 := st.files;
    ghost var found := Referrers(files0, src, dst, o);
    forall p | p in files0 && p !in refs ensures Fixed(p, files0[p], src, dst, o, faults(p)) == files0[p] {
      assert p !in found;
    }
    var todo := refs;
    while todo != {}
      invariant todo <= refs
      invariant st.files.Keys == files0.Keys && P.PrefixFree(st.files)
      invariant forall p :: p in files0 ==>
                  st.files[p] == if p in todo then files0[p] else Fixed(p, files0[p], src, dst, o, faults(p))
      decreases todo
    {
      var p :| p in todo;
      todo := todo - {p};
      if Slashed(p) != src && Slashed(p) != dst {
        assert p in found;
        ghost var before := st.St();
        FilePathsValid(st.files, p);
        var r := FixLinksRewriteReferrer(st, p, st.files[p], src, dst, o, faults(p));
        RepairFixes(before, p, src, dst, o, faults(p));
      }
    }
  }

  lemma FilePathsValid(files: map<Path, Blob>, p: Path)
    requires P.PrefixFree(files) && p in files
    ensures ValidPath(p)
  {
  }

  /** The conditional write of a repair on the bytes it names changes that file alone, to what `Fixed` says. */
  lemma RepairFixes(s: P.State, p: Path, src: string, dst: string, o: Oracles, fault: P.Fault)
    requires p in s.files && P.PrefixFree(s.files) && IsReferrer(Slashed(p), s.files[p], src, dst, o)
    ensures var t := P.WriteNext(s, p, Some(P.Sha(s.files[p])), false, RewriteOf(Slashed(p), src, dst, o), fault);
            t.files == s.files[p := Fixed(p, s.files[p], src, dst, o, fault)] && P.PrefixFree(t.files)
  {
    hide IsMarkdown, Rewritten, RewriteCount, Slashed;
    assert !P.Clash(s.files, p);
  }
}
