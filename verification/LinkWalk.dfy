/**
 * Where a link leads, said as a walk: from the referrer's directory, or from the
 * project root for a rooted path, name by name and up for every "..". A link names
 * a project file exactly when that walk stays inside and ends there.
 */
module LinkWalk {
  import opened Wrappers
  import opened SlashPath
  import opened LinkRewrite

  /** The walk along components; `None` once it climbs above the root. */
  function Walk(at: seq<string>, cs: seq<string>): Option<seq<string>>
    decreases |cs|
  {
    if cs == [] then Some(at)
    else if cs[0] == "" || cs[0] == "." then Walk(at, cs[1..])
    else if cs[0] == ".." then if at == [] then None else Walk(at[..|at| - 1], cs[1..])
    else Walk(at + [cs[0]], cs[1..])
  }

  predicate NoSlashes(cs: seq<string>) {
    forall i :: 0 <= i < |cs| ==> '/' !in cs[i]
  }

  lemma {:induction false} SplitNoSlashes(s: string)
    ensures NoSlashes(Split(s))
  {
    if s != "" { SplitNoSlashes(s[1..]); }
  }

  /** Inside, cleaning is walking. */
  lemma {:induction false} CleanIsWalk(at: seq<string>, cs: seq<string>)
    requires PlainNames(at) && NoSlashes(cs)
    ensures match Walk(at, cs)
            case Some(names) => CleanAll(false, at, cs) == names && PlainNames(names)
            case None => Climbs(CleanAll(false, at, cs))
    decreases |cs|
  {
    if cs != [] {
      var c, rest := cs[0], cs[1..];
      assert NoSlashes(rest);
      if c == "" || c == "." {
        CleanIsWalk(at, rest);
      } else if c == ".." && at == [] {
        assert CleanStep(false, at, c) == [".."];
        StillClimbs([".."], rest);
      } else if c == ".." {
        assert PlainName(at[|at| - 1]);
        CleanIsWalk(at[..|at| - 1], rest);
      } else {
        CleanIsWalk(at + [c], rest);
      }
    }
  }

  predicate Climbs(out: seq<string>) {
    out != [] && out[0] == ".." && NoSlashes(out)
  }

  /** A path that has climbed above the root stays above it. */
  lemma {:induction false} StillClimbs(out: seq<string>, cs: seq<string>)
    requires Climbs(out) && NoSlashes(cs)
    ensures Climbs(CleanAll(false, out, cs))
    decreases |cs|
  {
    if cs != [] {
      var next := CleanStep(false, out, cs[0]);
      assert NoSlashes(cs[1..]) && Climbs(next);
      StillClimbs(next, cs[1..]);
      assert CleanAll(false, out, cs) == CleanAll(false, next, cs[1..]);
    }
  }

  /** A clean path by what its components came to. */
  lemma CleanByParts(s: string, at: seq<string>, cs: seq<string>)
    requires s != "" && s[0] != '/' && PlainNames(at) && NoSlashes(cs)
    requires CleanAll(false, [], Split(s)) == CleanAll(false, at, cs)
    ensures forall t :: InProject(t) ==> (Clean(s) == t <==> Walk(at, cs) == Some(Split(t)))
    ensures match Walk(at, cs)
            case Some(names) => if names == [] then Clean(s) == "." else InProject(Clean(s)) && Split(Clean(s)) == names
            case None => exists out :: Climbs(out) && Clean(s) == Slashed(out)
  {
    CleanIsWalk(at, cs);
    var out := CleanAll(false, at, cs);
    if out == [] {
      SplitDot();
    } else if Climbs(out) {
      SplitSlashed(out);
    } else {
      SlashedNames(out);
    }
    hide CleanAll, Walk, NoSlashes;
    forall t | InProject(t) ensures Clean(s) == t <==> Walk(at, cs) == Some(Split(t)) {
      SlashedSplit(t);
      CleanInProject(t);
    }
  }

  /** A climbing path stays one when cleaned again. */
  lemma ClimbingStays(out: seq<string>)
    requires Climbs(out)
    ensures !InProject(Clean(Slashed(out)))
  {
    SplitSlashed(out);
    assert Slashed(out) != "" && Slashed(out)[0] == '.' by { assert out[0] == ".."; }
    assert out == [".."] + out[1..];
    assert CleanAll(false, [], out) == CleanAll(false, [".."], out[1..]) by {
      assert CleanStep(false, [], "..") == [".."];
    }
    StillClimbs([".."], out[1..]);
    SplitSlashed(CleanAll(false, [], out));
  }

  /** A relative path leads where the walk from the referrer's directory does. */
  lemma RelativeWalks(ref: string, x: string, t: string)
    requires InProject(ref) && InProject(t) && x != "" && x[0] != '/'
    ensures Clean(Join(Dir(ref), x)) == t <==> Walk(DirNames(ref), Split(x)) == Some(Split(t))
  {
    hide Clean, Split, CleanAll, Walk, Dir, Slashed, NoSlashes;
    var d := DirNames(ref);
    DirNamesOf(ref);
    DirInProject(ref);
    SplitNoSlashes(x);
    var lead := if d == [] then ["."] else d;
    assert Slashed(["."]) == "." by { hide *; OneName("."); }
    var joined := Dir(ref) + "/" + x;
    CleanJoined(lead, Split(x), Dir(ref), x);
    assert d != [] ==> PlainName(d[0]);
    CleanByParts(joined, d, Split(x));
    SplitDot();
    CleanInProject(t);
    if Walk(d, Split(x)).None? {
      var out :| Climbs(out) && Clean(joined) == Slashed(out);
      ClimbingStays(out);
    } else if Walk(d, Split(x)).value != [] {
      CleanInProject(Clean(joined));
    }
  }

  lemma OneName(c: string)
    ensures Slashed([c]) == c
  {
  }

  /** A rooted path leads where the walk from the project root does; a second slash leads nowhere. */
  lemma RootedWalks(x: string, t: string)
    requires InProject(t)
    ensures Clean(x) == t <==> (x == "" || x[0] != '/') && Walk([], Split(x)) == Some(Split(t))
  {
    hide CleanAll, NoSlashes;
    CleanInProject(t);
    if x == "" {
      assert Walk([], [""]) == Walk([], []) == Some([]);
    } else if x[0] != '/' {
      SplitNoSlashes(x);
      CleanByParts(x, [], Split(x));
    }
  }

  /** A link names the project file `t` if and only if it is no URL and its walk ends at `t`. */
  lemma ResolvesByWalking(dest: string, ref: string, t: string, u: UrlLib)
    requires InProject(ref) && InProject(t)
    ensures ResolveLinkTarget(dest, ref, u) == Some(t) <==>
            && RawPath(dest) != ""
            && var x := Decoded(RawPath(dest));
               && !u.hasScheme(x)
               && if x[0] == '/' then (|x| == 1 || x[1] != '/') && Walk([], Split(x[1..])) == Some(Split(t))
                  else Walk(DirNames(ref), Split(x)) == Some(Split(t))
  {
    hide Clean, Split, Walk, Dir, Join, RawPath, Decoded;
    if RawPath(dest) != "" {
      var x := Decoded(RawPath(dest));
      if x[0] == '/' {
        RootedWalks(x[1..], t);
      } else {
        RelativeWalks(ref, x, t);
      }
    }
  }

  lemma {:induction false} RootedStaysPlain(out: seq<string>, cs: seq<string>)
    requires PlainNames(out) && NoSlashes(cs)
    ensures PlainNames(CleanAll(true, out, cs))
    decreases |cs|
  {
    if cs != [] {
      var next := CleanStep(true, out, cs[0]);
      assert NoSlashes(cs[1..]) && PlainNames(next);
      RootedStaysPlain(next, cs[1..]);
      assert CleanAll(true, out, cs) == CleanAll(true, next, cs[1..]);
    }
  }

  /** A rooted path never climbs above its root. */
  lemma RootedNeverClimbs(s: string)
    requires s != "" && s[0] == '/'
    ensures Clean(s) == "/" || exists t :: InProject(t) && Clean(s) == "/" + t
  {
    SplitNoSlashes(s);
    RootedStaysPlain([], Split(s));
    var out := CleanAll(true, [], Split(s));
    if out != [] {
      SlashedNames(out);
      assert InProject(Slashed(out)) && Clean(s) == "/" + Slashed(out);
    } else {
      assert "/" + Slashed(out) == "/";
    }
  }
}
