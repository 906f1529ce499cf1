/**
 * The lexical path operations link rewriting relies on: Go's path.Clean,
 * path.Join, path.Dir and filepath.Rel on slash paths, worked by components.
 */
module SlashPath {
  import opened Wrappers

  /** The text before and between slashes; always at least one component. */
  function Split(s: string): (r: seq<string>)
    ensures |r| > 0
  {
    if s == "" then [""]
    else if s[0] == '/' then [""] + Split(s[1..])
    else var r := Split(s[1..]); [[s[0]] + r[0]] + r[1..]
  }

  function Slashed(cs: seq<string>): string {
    if |cs| == 0 then ""
    else if |cs| == 1 then cs[0]
    else cs[0] + "/" + Slashed(cs[1..])
  }

  function CleanStep(rooted: bool, out: seq<string>, c: string): seq<string> {
    if c == "" || c == "." then out
    else if c == ".." then
      if |out| > 0 && out[|out| - 1] != ".." then out[..|out| - 1]
      else if rooted then out
      else out + [".."]
    else out + [c]
  }

  function CleanAll(rooted: bool, out: seq<string>, cs: seq<string>): seq<string>
    decreases |cs|
  {
    if cs == [] then out else CleanAll(rooted, CleanStep(rooted, out, cs[0]), cs[1..])
  }

  /** path.Clean */
  function Clean(s: string): string {
    if s == "" then "."
    else
      var rooted := s[0] == '/';
      var out := CleanAll(rooted, [], Split(s));
      if rooted then "/" + Slashed(out) else if out == [] then "." else Slashed(out)
  }

  /** path.Join of two elements */
  function Join(a: string, b: string): string {
    if a == "" && b == "" then ""
    else if a == "" then Clean(b)
    else Clean(a + "/" + b)
  }

  /** path.Dir */
  function Dir(p: string): string {
    var cs := Split(p);
    if |cs| == 1 then Clean("") else Clean(Slashed(cs[..|cs| - 1]) + "/")
  }

  function CommonPrefix(a: seq<string>, b: seq<string>): (k: nat)
    ensures k <= |a| && k <= |b| && a[..k] == b[..k]
    ensures k < |a| && k < |b| ==> a[k] != b[k]
  {
    if a != [] && b != [] && a[0] == b[0] then 1 + CommonPrefix(a[1..], b[1..]) else 0
  }

  function Ups(n: nat): seq<string> {
    if n == 0 then [] else [".."] + Ups(n - 1)
  }

  function NamesOf(p: string): seq<string> {
    if Clean(p) == "." then [] else Split(Clean(p))
  }

  /** The components `Rel` puts between a directory and a target. */
  function RelNames(d: seq<string>, t: seq<string>): seq<string> {
    var k := CommonPrefix(d, t);
    Ups(|d| - k) + t[k..]
  }

  function RelBetween(b: seq<string>, t: seq<string>): Option<string> {
    var k := CommonPrefix(b, t);
    if k < |b| && b[k] == ".." then None
    else Some(if RelNames(b, t) == [] then "." else Slashed(RelNames(b, t)))
  }

  /** filepath.Rel between two relative paths; a base that climbs out of the common part cannot be undone. */
  function Rel(base: string, targ: string): Option<string> {
    RelBetween(NamesOf(base), NamesOf(targ))
  }

  // -------------------------------------------------------------- in-project paths

  predicate PlainName(c: string) {
    c != "" && c != "." && c != ".." && '/' !in c
  }

  predicate PlainNames(cs: seq<string>) {
    forall i :: 0 <= i < |cs| ==> PlainName(cs[i])
  }

  /** A clean path below the project root. */
  predicate InProject(p: string) {
    PlainNames(Split(p))
  }

  lemma {:induction false} SlashedSplit(s: string)
    ensures Slashed(Split(s)) == s
  {
    if s != "" {
      SlashedSplit(s[1..]);
      var r := Split(s[1..]);
      if s[0] == '/' {
        assert Split(s)[1..] == r;
      } else {
        assert Split(s)[1..] == r[1..];
        assert s == [s[0]] + s[1..];
      }
    }
  }

  /** A string without slashes is one component, and prefixes the first component of what follows. */
  lemma {:induction false} SplitPrefix(c: string, s: string)
    requires '/' !in c
    ensures Split(c + s) == [c + Split(s)[0]] + Split(s)[1..]
  {
    if c == "" {
      assert c + s == s && c + Split(s)[0] == Split(s)[0];
    } else {
      SplitPrefix(c[1..], s);
      assert (c + s)[1..] == c[1..] + s && (c + s)[0] == c[0];
      assert [c[0]] + (c[1..] + Split(s)[0]) == c + Split(s)[0];
    }
  }

  lemma SplitFirst(c: string, rest: string)
    requires '/' !in c
    ensures Split(c + ("/" + rest)) == [c] + Split(rest)
  {
    SplitPrefix(c, "/" + rest);
    assert ("/" + rest)[1..] == rest;
    assert c + "" == c;
  }

  lemma {:induction false} SplitConcat(a: seq<string>, s: string)
    requires a != [] && forall i :: 0 <= i < |a| ==> '/' !in a[i]
    ensures Split(Slashed(a) + "/" + s) == a + Split(s)
    decreases |a|
  {
    hide Split;
    var rest := if |a| == 1 then s else Slashed(a[1..]) + "/" + s;
    assert Slashed(a) + "/" + s == a[0] + ("/" + rest);
    SplitFirst(a[0], rest);
    if |a| > 1 {
      SplitConcat(a[1..], s);
      assert [a[0]] + (a[1..] + Split(s)) == a + Split(s);
    }
  }

  lemma {:induction false} SplitSlashed(a: seq<string>)
    requires a != [] && forall i :: 0 <= i < |a| ==> '/' !in a[i]
    ensures Split(Slashed(a)) == a
  {
    if |a| == 1 {
      SplitPrefix(a[0], "");
      assert a[0] + "" == a[0];
    } else {
      var s := Slashed(a[|a| - 1..]);
      SplitSlashed(a[|a| - 1..]);
      SplitConcat(a[..|a| - 1], s);
      SlashedConcat(a[..|a| - 1], a[|a| - 1..]);
      assert a[..|a| - 1] + a[|a| - 1..] == a;
    }
  }

  lemma {:induction false} SlashedConcat(a: seq<string>, b: seq<string>)
    requires a != [] && b != []
    ensures Slashed(a + b) == Slashed(a) + "/" + Slashed(b)
    decreases |a|
  {
    if |a| == 1 {
      assert (a + b)[1..] == b;
    } else {
      SlashedConcat(a[1..], b);
      assert (a + b)[1..] == a[1..] + b;
    }
  }

  // -------------------------------------------------------------------- cleaning

  lemma {:induction false} CleanAllConcat(rooted: bool, out: seq<string>, a: seq<string>, b: seq<string>)
    ensures CleanAll(rooted, out, a + b) == CleanAll(rooted, CleanAll(rooted, out, a), b)
    decreases |a|
  {
    hide CleanStep;
    if a == [] {
      assert a + b == b;
    } else {
      assert (a + b)[0] == a[0];
      CleanAllConcat(rooted, CleanStep(rooted, out, a[0]), a[1..], b);
      assert (a + b)[1..] == a[1..] + b;
    }
  }

  lemma {:induction false} CleanAllNames(rooted: bool, out: seq<string>, cs: seq<string>)
    requires PlainNames(cs)
    ensures CleanAll(rooted, out, cs) == out + cs
    decreases |cs|
  {
    if cs != [] {
      assert PlainNames(cs[1..]) by { assert forall i :: 0 <= i < |cs[1..]| ==> cs[1..][i] == cs[i + 1]; }
      CleanAllNames(rooted, out + [cs[0]], cs[1..]);
      assert out + [cs[0]] + cs[1..] == out + cs;
    }
  }

  lemma {:induction false} CleanAllUps(rooted: bool, out: seq<string>, n: nat)
    requires PlainNames(out) && n <= |out|
    ensures CleanAll(rooted, out, Ups(n)) == out[..|out| - n]
    decreases n
  {
    if n > 0 {
      assert Ups(n)[0] == ".." && Ups(n)[1..] == Ups(n - 1);
      assert CleanStep(rooted, out, "..") == out[..|out| - 1];
      hide CleanStep, Ups;
      assert out[..|out| - 1][..|out| - n] == out[..|out| - n];
      CleanAllUps(rooted, out[..|out| - 1], n - 1);
    }
  }

  lemma NotRooted(cs: seq<string>)
    requires cs != [] && PlainName(cs[0])
    ensures Slashed(cs) != "" && Slashed(cs)[0] != '/'
  {
    assert cs[0][0] in cs[0];
  }

  lemma SplitDot()
    ensures Split(".") == ["."] && Clean(".") == "."
  {
    SplitPrefix(".", "");
    assert "." + "" == ".";
    assert CleanAll(false, [], ["."]) == CleanAll(false, [], []) == [];
  }

  lemma CleanInProject(p: string)
    requires InProject(p)
    ensures p != "" && p[0] != '/' && p != "." && Clean(p) == p
  {
    SplitDot();
    SlashedSplit(p);
    NotRooted(Split(p));
    CleanAllNames(false, [], Split(p));
    assert [] + Split(p) == Split(p);
  }

  /** The directory of an in-project path, by components. */
  lemma DirInProject(p: string)
    requires InProject(p)
    ensures var d := Split(p)[..|Split(p)| - 1];
            PlainNames(d) && Dir(p) == if d == [] then "." else Slashed(d)
  {
    var d := Split(p)[..|Split(p)| - 1];
    if d != [] {
      CleanTrailingSlash(d);
    }
  }

  lemma CleanTrailingSlash(d: seq<string>)
    requires d != [] && PlainNames(d)
    ensures Clean(Slashed(d) + "/") == Slashed(d)
  {
    SplitConcat(d, "");
    assert Slashed(d) + "/" + "" == Slashed(d) + "/";
    NotRooted(d);
    CleanAllConcat(false, [], d, [""]);
    CleanAllNames(false, [], d);
    assert [] + d == d;
    assert CleanAll(false, d, [""]) == CleanAll(false, d, []) == d;
  }

  lemma SlashedNames(cs: seq<string>)
    requires cs != [] && PlainNames(cs)
    ensures InProject(Slashed(cs)) && Split(Slashed(cs)) == cs
    ensures Clean(Slashed(cs)) == Slashed(cs) && Slashed(cs) != "."
  {
    SplitSlashed(cs);
    CleanInProject(Slashed(cs));
  }

  lemma UpsShape(n: nat)
    ensures |Ups(n)| == n && forall i :: 0 <= i < n ==> Ups(n)[i] == ".."
  {
  }

  /** The components of a file's directory, seen from the project root. */
  function DirNames(p: string): seq<string> {
    Split(p)[..|Split(p)| - 1]
  }

  lemma RelNamesShape(d: seq<string>, t: seq<string>)
    requires PlainNames(d) && PlainNames(t)
    ensures forall i :: 0 <= i < |RelNames(d, t)| ==> RelNames(d, t)[i] == ".." || PlainName(RelNames(d, t)[i])
  {
    UpsShape(|d| - CommonPrefix(d, t));
  }

  /** What `Rel` yields from one in-project file's directory to another in-project file. */
  lemma {:induction false} RelShape(ref: string, dst: string)
    requires InProject(ref) && InProject(dst)
    ensures var r := RelNames(DirNames(ref), Split(dst));
            Rel(Dir(ref), dst) == Some(if r == [] then "." else Slashed(r))
  {
    DirNamesOf(ref);
    CleanInProject(dst);
    hide Clean, Dir, Split, Slashed;
    assert NamesOf(dst) == Split(dst);
  }

  lemma DirNamesOf(ref: string)
    requires InProject(ref)
    ensures NamesOf(Dir(ref)) == DirNames(ref) && PlainNames(DirNames(ref))
  {
    DirInProject(ref);
    if DirNames(ref) == [] { SplitDot(); } else { SlashedNames(DirNames(ref)); }
  }

  lemma {:induction false} SplitRelNames(r: seq<string>)
    requires r != [] && forall i :: 0 <= i < |r| ==> r[i] == ".." || PlainName(r[i])
    ensures Split(Slashed(r)) == r
  {
    forall i | 0 <= i < |r| ensures '/' !in r[i] {}
    SplitSlashed(r);
  }

  /** Walking a directory and then the components `Rel` chose leads to the target. */
  lemma CleanRelNames(d: seq<string>, t: seq<string>)
    requires PlainNames(d) && PlainNames(t)
    ensures CleanAll(false, d, RelNames(d, t)) == t
  {
    hide CleanAll, Ups, CommonPrefix;
    var k := CommonPrefix(d, t);
    CleanAllConcat(false, d, Ups(|d| - k), t[k..]);
    CleanAllUps(false, d, |d| - k);
    CleanAllNames(false, d[..k], t[k..]);
    assert d[..k] + t[k..] == t;
  }

  /** Joining a directory's path with a relative one walks their components in turn. */
  lemma {:induction false} CleanJoined(lead: seq<string>, parts: seq<string>, dir: string, rel: string)
    requires lead != [] && (lead == ["."] || PlainNames(lead))
    requires dir == Slashed(lead) && Split(rel) == parts
    ensures dir != "" && (dir + "/" + rel)[0] != '/' && Split(dir + "/" + rel) == lead + parts
    ensures CleanAll(false, [], lead + parts) == CleanAll(false, if lead == ["."] then [] else lead, parts)
  {
    if lead == ["."] {
      assert CleanAll(false, [], lead) == CleanAll(false, [], []) == [];
    } else {
      NotRooted(lead);
      CleanAllNames(false, [], lead);
      assert [] + lead == lead;
    }
    SplitConcat(lead, rel);
    CleanAllConcat(false, [], lead, parts);
  }

  lemma CleanRelative(p: string, out: seq<string>)
    requires p != "" && p[0] != '/' && out != [] && CleanAll(false, [], Split(p)) == out
    ensures Clean(p) == Slashed(out)
  {
  }

  lemma CleanDot(d: seq<string>)
    ensures CleanAll(false, d, ["."]) == d && CleanAll(false, d, []) == d
  {
    assert CleanAll(false, d, ["."]) == CleanAll(false, d, []);
  }

  /** The directory and the relative path, as component lists. */
  lemma RelParts(ref: string, dst: string) returns (lead: seq<string>, parts: seq<string>)
    requires InProject(ref) && InProject(dst)
    ensures lead != [] && (lead == ["."] || PlainNames(lead)) && Dir(ref) == Slashed(lead)
    ensures Rel(Dir(ref), dst).Some? && Split(Rel(Dir(ref), dst).value) == parts
    ensures CleanAll(false, if lead == ["."] then [] else lead, parts) == Split(dst)
  {
    assert Slashed(["."]) == ".";
    hide Split, Slashed, Rel, Dir, CleanAll, RelNames;
    var d, t := DirNames(ref), Split(dst);
    var r := RelNames(d, t);
    parts := if r == [] then ["."] else r;
    lead := if d == [] then ["."] else d;
    RelShape(ref, dst);
    DirInProject(ref);
    RelNamesShape(d, t);
    if r == [] { SplitDot(); } else { SplitRelNames(r); }
    CleanRelNames(d, t);
    CleanDot(d);
    assert d != ["."];
  }

  /** Joining undoes `Rel`: the relative link resolves to the file it was made for. */
  lemma RelResolves(ref: string, dst: string)
    requires InProject(ref) && InProject(dst)
    ensures Rel(Dir(ref), dst).Some?
    ensures Clean(Join(Dir(ref), Rel(Dir(ref), dst).value)) == dst
  {
    hide Split, Slashed, Rel, Dir, CleanAll, RelNames, Clean, PlainNames;
    var lead, parts := RelParts(ref, dst);
    var rel := Rel(Dir(ref), dst).value;
    CleanJoined(lead, parts, Dir(ref), rel);
    CleanInProject(dst);
    SlashedSplit(dst);
    CleanRelative(Dir(ref) + "/" + rel, Split(dst));
  }

  /** A relative path between in-project files is spelled with dots and the target's own names, and never rooted. */
  lemma {:induction false} RelSpelling(ref: string, dst: string) returns (parts: seq<string>)
    requires InProject(ref) && InProject(dst)
    ensures Rel(Dir(ref), dst).Some? && Rel(Dir(ref), dst).value == Slashed(parts) && parts != []
    ensures forall i :: 0 <= i < |parts| ==> parts[i] == "." || parts[i] == ".." || parts[i] in Split(dst)
    ensures Rel(Dir(ref), dst).value != "" && Rel(Dir(ref), dst).value[0] != '/'
  {
    var d, t := DirNames(ref), Split(dst);
    var r := RelNames(d, t);
    RelShape(ref, dst);
    parts := if r == [] then ["."] else r;
    assert Slashed(["."]) == ".";
    RelNamesOf(ref, dst);
    if r != [] {
      SlashedStart(r);
    }
  }

  lemma RelNamesOf(ref: string, dst: string)
    requires InProject(ref) && InProject(dst)
    ensures var r := RelNames(DirNames(ref), Split(dst));
            forall i :: 0 <= i < |r| ==> r[i] == ".." || (r[i] in Split(dst) && PlainName(r[i]))
  {
    var d, t := DirNames(ref), Split(dst);
    DirNamesOf(ref);
    RelNamesShape(d, t);
    UpsShape(|d| - CommonPrefix(d, t));
  }

  lemma SlashedStart(r: seq<string>)
    requires r != [] && (r[0] == ".." || PlainName(r[0]))
    ensures Slashed(r) != "" && Slashed(r)[0] != '/'
  {
    assert r[0][0] in r[0];
  }
}
