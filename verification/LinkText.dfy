/**
 * Any name at all as the new place of a file: exactly when the text put into a link
 * is read back by the scanner as that destination, and exactly when it leads to the
 * file. Neither holds for every name.
 */
module LinkText {
  import opened Wrappers
  import opened SlashPath
  import opened LinkScan
  import opened LinkGrammar
  import opened LinkRewrite
  import opened LinkMeaning

  // ------------------------------------------------------------ reading it back

  function Replaced(s: Doc, l: Link, text: string): Doc
    requires l.start <= l.stop <= |s|
  {
    s[..l.start] + text + s[l.stop..]
  }

  /** The link once its destination reads `text`: same start, same closing parenthesis. */
  function Reread(l: Link, text: string): Link
    requires l.stop <= l.after
  {
    Link(l.start, l.start + |text|, l.start + |text| + (l.after - l.stop))
  }

  /** The rewritten destination is read back, whole, if and only if its text can be one in that place. */
  lemma ReadBackIff(s: Doc, j0: nat, l: Link, text: string)
    requires ParseInlineDestination(s, j0) == Some(l) && text != ""
    ensures ParseInlineDestination(Replaced(s, l, text), j0) == Some(Reread(l, text)) <==>
            if AngleDestination(s, j0, l) then AngleText(text) else BareText(text, s[l.stop])
  {
    hide ParseInlineDestination, BareDestination, AngleDestination;
    DestinationIff(s, j0, l);
    DestinationIff(Replaced(s, l, text), j0, Reread(l, text));
    if AngleDestination(s, j0, l) {
      AngleReplaced(s, j0, l, text);
    } else {
      BareReplaced(s, j0, l, text);
    }
  }

  lemma AngleReplaced(s: Doc, j0: nat, l: Link, text: string)
    requires AngleDestination(s, j0, l)
    ensures AngleDestination(Replaced(s, l, text), j0, Reread(l, text)) <==> AngleText(text)
    ensures !BareDestination(Replaced(s, l, text), j0, Reread(l, text))
  {
    hide Closes, BareText, AngleText;
    var s', k := Replaced(s, l, text), l.start + |text|;
    assert s'[l.start..k] == text && s'[k..] == s[l.stop..];
    assert s'[k] == s'[k..][0] == s[l.stop];
    TailOf(s, l.stop + 1, l.after, s', k + 1) by { assert s[l.stop..][1..] == s'[k..][1..]; }
    assert s'[j0..l.start - 1] == s[j0..l.start - 1];
    assert s'[j0..l.start][l.start - 1 - j0] == '<';
  }

  lemma BareReplaced(s: Doc, j0: nat, l: Link, text: string)
    requires BareDestination(s, j0, l)
    ensures BareDestination(Replaced(s, l, text), j0, Reread(l, text)) <==> BareText(text, s[l.stop])
    ensures !AngleDestination(Replaced(s, l, text), j0, Reread(l, text))
  {
    hide Closes, BareText, AngleText;
    var s', k := Replaced(s, l, text), l.start + |text|;
    assert s'[l.start..k] == text && s'[k..] == s[l.stop..];
    assert s'[k] == s'[k..][0] == s[l.stop];
    TailOf(s, l.stop, l.after, s', k);
    assert s'[j0..l.start] == s[j0..l.start];
    if j0 < l.start { assert s[j0..l.start][l.start - 1 - j0] == s'[l.start - 1]; }
  }

  lemma TailOf(s: Doc, i: nat, after: nat, s': Doc, i': nat)
    requires i <= after <= |s| && i' <= |s'| && s[i..] == s'[i'..]
    ensures i' + (after - i) <= |s'| && s'[i'..i' + (after - i)] == s[i..after]
  {
    assert |s[i..]| == |s'[i'..]|;
    assert s[i..after] == s[i..][..after - i] && s'[i'..i' + (after - i)] == s'[i'..][..after - i];
  }

  // ------------------------------------------------------------ leading to the file

  const LOWER_DIGITS := "0123456789abcdef"
  const UPPER_DIGITS := "0123456789ABCDEF"

  /** `c` written as a percent sign and the two hexadecimal digits of its value, in either letter case. */
  predicate Triple(e: string, c: char) {
    && |e| == 3 && e[0] == '%' && c as int < 256
    && (e[1] == LOWER_DIGITS[c as int / 16] || e[1] == UPPER_DIGITS[c as int / 16])
    && (e[2] == LOWER_DIGITS[c as int % 16] || e[2] == UPPER_DIGITS[c as int % 16])
  }

  /** `e` is a percent-encoding of `t`: byte by byte, as itself or as a triple. */
  predicate Encodes(e: string, t: string)
    decreases |t|
  {
    if t == "" then e == ""
    else
      || (|e| >= 1 && e[0] == t[0] && t[0] != '%' && Encodes(e[1..], t[1..]))
      || (|e| >= 3 && Triple(e[..3], t[0]) && Encodes(e[3..], t[1..]))
  }

  lemma HexValueIs(c: char, n: nat)
    requires n < 16
    ensures HexValue(c) == Some(n) <==> c == LOWER_DIGITS[n] || c == UPPER_DIGITS[n]
  {
    assert LOWER_DIGITS == "0123456789abcdef" && UPPER_DIGITS == "0123456789ABCDEF";
    assert n == 0 || n == 1 || n == 2 || n == 3 || n == 4 || n == 5 || n == 6 || n == 7
        || n == 8 || n == 9 || n == 10 || n == 11 || n == 12 || n == 13 || n == 14 || n == 15;
  }

  lemma HexValueRange(c: char)
    ensures HexValue(c).Some? ==> HexValue(c).value < 16
  {
  }

  lemma TripleIs(a: char, b: char, c: char)
    ensures Triple(['%', a, b], c) <==>
            HexValue(a).Some? && HexValue(b).Some? && c as int == 16 * HexValue(a).value + HexValue(b).value
  {
    HexValueRange(a);
    HexValueRange(b);
    if c as int < 256 {
      HexValueIs(a, c as int / 16);
      HexValueIs(b, c as int % 16);
    }
    hide HexValue;
    if HexValue(a).Some? && HexValue(b).Some? && c as int == 16 * HexValue(a).value + HexValue(b).value {
      assert c as int / 16 == HexValue(a).value && c as int % 16 == HexValue(b).value;
    }
  }

  /** Decoding undoes every percent-encoding, and accepts nothing else. */
  lemma {:induction false} UnescapeIff(e: string, t: string)
    ensures PathUnescape(e) == Some(t) <==> Encodes(e, t)
    decreases |e|
  {
    hide Triple, HexValue;
    if e != "" {
      if e[0] == '%' {
        if |e| >= 3 {
          assert e[..3] == ['%', e[1], e[2]];
          if t != "" {
            TripleIs(e[1], e[2], t[0]);
            UnescapeIff(e[3..], t[1..]);
            assert t == [t[0]] + t[1..];
          }
          HexValueRange(e[1]);
          HexValueRange(e[2]);
        } else {
          assert !Encodes(e, t);
        }
      } else if t != "" {
        NotTriple(e, t[0]);
        UnescapeIff(e[1..], t[1..]);
        assert t == [t[0]] + t[1..];
      }
    }
  }

  lemma NotTriple(e: string, c: char)
    requires e != "" && e[0] != '%'
    ensures |e| >= 3 ==> !Triple(e[..3], c)
  {
  }

  /** A percent sign without two hexadecimal digits behind it. */
  predicate Broken(e: string, i: nat) {
    i < |e| && e[i] == '%' && !(i + 2 < |e| && HexValue(e[i + 1]).Some? && HexValue(e[i + 2]).Some?)
  }

  lemma BrokenLater(e: string, n: nat, i: nat)
    requires n <= |e|
    ensures Broken(e[n..], i) <==> Broken(e, n + i)
  {
    hide HexValue;
  }

  /** A path with a broken percent sign, and no other, is taken as it stands. */
  lemma {:induction false} BrokenPercent(e: string)
    ensures PathUnescape(e).None? <==> exists i :: Broken(e, i)
    ensures PathUnescape(e).None? ==> Decoded(e) == e
  {
    if e != "" && !Broken(e, 0) {
      var n := if e[0] == '%' then 3 else 1;
      BrokenPercent(e[n..]);
      assert PathUnescape(e).None? <==> PathUnescape(e[n..]).None?;
      assert n == 3 ==> !Broken(e, 1) && !Broken(e, 2);
      hide Broken, PathUnescape;
      if i: nat :| Broken(e, i) {
        assert i >= n by { assert i != 0; }
        BrokenLater(e, n, i - n);
      }
      if i: nat :| Broken(e[n..], i) {
        BrokenLater(e, n, i);
      }
    }
  }

  /** Read as a link, the path `p` means just `p`. */
  predicate Spellable(p: string, u: UrlLib) {
    '#' !in p && Decoded(p) == p && !u.hasScheme(p)
  }

  /** The library writes a path as a percent-encoding of it, without the anchor sign. */
  ghost predicate EscapeOk(u: UrlLib) {
    forall p: string :: Encodes(u.escapedPath(p), p) && '#' !in u.escapedPath(p)
  }

  /** The bytes a list of components takes, each with a slash. */
  function Weight(cs: seq<string>): nat {
    if cs == [] then 0 else |cs[0]| + 1 + Weight(cs[1..])
  }

  lemma {:induction false} WeightConcat(a: seq<string>, b: seq<string>)
    ensures Weight(a + b) == Weight(a) + Weight(b)
  {
    if a == [] {
      assert a + b == b;
    } else {
      assert (a + b)[1..] == a[1..] + b;
      WeightConcat(a[1..], b);
    }
  }

  lemma {:induction false} WeightSplit(s: string)
    ensures Weight(Split(s)) == |s| + 1
  {
    if s != "" {
      WeightSplit(s[1..]);
      var r := Split(s[1..]);
      if s[0] == '/' {
        assert Split(s)[1..] == r;
      } else {
        assert Split(s)[1..] == r[1..];
      }
    }
  }

  lemma {:induction false} WeightSlashed(cs: seq<string>)
    requires cs != []
    ensures |Slashed(cs)| + 1 == Weight(cs)
  {
    if |cs| > 1 { WeightSlashed(cs[1..]); }
  }

  /** Cleaning never adds bytes. */
  lemma {:induction false} WeightCleanAll(rooted: bool, out: seq<string>, cs: seq<string>)
    ensures Weight(CleanAll(rooted, out, cs)) <= Weight(out) + Weight(cs)
    decreases |cs|
  {
    if cs != [] {
      var c := cs[0];
      var out' := CleanStep(rooted, out, c);
      WeightConcat(out, [c]);
      assert Weight([c]) == |c| + 1;
      if out != [] {
        var last := |out| - 1;
        WeightConcat(out[..last], [out[last]]);
        assert out[..last] + [out[last]] == out;
      }
      assert Weight(out') <= Weight(out) + |c| + 1;
      hide CleanStep;
      WeightCleanAll(rooted, out', cs[1..]);
    }
  }

  /** A cleaned path with a light component list is short. */
  lemma CleanIsShort(s: string, n: nat)
    requires s != "" && s[0] != '/' && Weight(CleanAll(false, [], Split(s))) <= n + 1
    ensures Clean(s) == "." || (|Clean(s)| <= n && Clean(s) != "")
  {
    var out := CleanAll(false, [], Split(s));
    if out != [] { WeightSlashed(out); NotEmptyOut(s); }
  }

  lemma NotEmptyOut(s: string)
    requires CleanAll(false, [], Split(s)) != []
    ensures Slashed(CleanAll(false, [], Split(s))) != ""
  {
    NoEmpties(false, [], Split(s));
    var out := CleanAll(false, [], Split(s));
    assert out[0] != "";
  }

  lemma {:induction false} NoEmpties(rooted: bool, out: seq<string>, cs: seq<string>)
    requires forall i :: 0 <= i < |out| ==> out[i] != ""
    ensures var r := CleanAll(rooted, out, cs); forall i :: 0 <= i < |r| ==> r[i] != ""
    decreases |cs|
  {
    if cs != [] {
      var out' := CleanStep(rooted, out, cs[0]);
      assert forall i :: 0 <= i < |out'| ==> out'[i] != "";
      NoEmpties(rooted, out', cs[1..]);
      assert CleanAll(rooted, out, cs) == CleanAll(rooted, out', cs[1..]);
    }
  }

  /** Cleaning a path gives at most its own length, or a dot, or a rooted path. */
  lemma CleanShrinks(s: string, dst: string)
    requires InProject(dst) && |s| < |dst|
    ensures Clean(s) != dst
  {
    hide Split, CleanAll;
    CleanInProject(dst);
    if s != "" && s[0] != '/' {
      WeightSplit(s);
      WeightCleanAll(false, [], Split(s));
      CleanIsShort(s, |s|);
    }
  }

  lemma {:induction false} UnescapeShrinks(s: string)
    ensures PathUnescape(s).Some? ==> |PathUnescape(s).value| <= |s| && (|PathUnescape(s).value| == |s| ==> PathUnescape(s).value == s)
  {
    if s != "" {
      if s[0] == '%' {
        if |s| >= 3 { UnescapeShrinks(s[3..]); }
      } else {
        UnescapeShrinks(s[1..]);
      }
    }
  }

  lemma DecodedShrinks(s: string)
    ensures |Decoded(s)| <= |s| && (|Decoded(s)| == |s| ==> Decoded(s) == s)
  {
    UnescapeShrinks(s);
  }

  lemma {:induction false} DecodedBehind(a: string, s: string)
    requires '%' !in a
    ensures Decoded(a + s) == a + Decoded(s)
  {
    UnescapeBehind(a, s);
  }

  lemma {:induction false} UnescapeBehind(a: string, s: string)
    requires '%' !in a
    ensures PathUnescape(a + s) == Behind(a, PathUnescape(s))
  {
    hide PathUnescape;
    var r := PathUnescape(s);
    if a == "" {
      assert a + s == s;
      assert Behind("", r) == r by { if r.Some? { assert "" + r.value == r.value; } }
    } else {
      var rest := a[1..];
      UnescapeBehind(rest, s);
      UnescapeOne(a[0], rest + s) by { assert a[0] in a; }
      assert a + s == [a[0]] + (rest + s);
      if r.Some? { assert a + r.value == [a[0]] + (rest + r.value); }
    }
  }

  function Behind(a: string, r: Option<string>): Option<string> {
    match r
    case Some(d) => Some(a + d)
    case None => None
  }

  lemma UnescapeOne(c: char, s: string)
    requires c != '%'
    ensures PathUnescape([c] + s) == Behind([c], PathUnescape(s))
  {
    assert ([c] + s)[1..] == s;
  }

  lemma {:induction false} HashBehind(a: string, s: string)
    requires '#' !in a
    ensures HashIndex(a + s) == |a| + HashIndex(s)
  {
    if a == "" {
      assert a + s == s;
    } else {
      assert (a + s)[1..] == a[1..] + s && a[0] in a;
      HashBehind(a[1..], s);
    }
  }

  // ------------------------------------------------------------- relative paths

  lemma {:induction false} DotsAndSlashes(n: nat)
    ensures forall c :: c in Slashed(Ups(n)) ==> c == '.' || c == '/'
    ensures n > 0 ==> Slashed(Ups(n)) != "" && Slashed(Ups(n))[0] == '.'
  {
    if n > 1 {
      DotsAndSlashes(n - 1);
      assert Ups(n)[1..] == Ups(n - 1);
    }
  }

  /** A relative path is a climb, in dots and slashes, and the last names of the target. */
  lemma {:induction false} RelIsClimb(ref: string, dst: string, k: nat, n: nat) returns (head: string, tail: string)
    requires InProject(ref) && InProject(dst)
    requires k == CommonPrefix(DirNames(ref), Split(dst)) && n == |DirNames(ref)| - k
    ensures Rel(Dir(ref), dst) == Some(head + tail)
    ensures forall c :: c in head ==> c == '.' || c == '/'
    ensures head != "" ==> head[0] == '.'
    ensures tail == Slashed(Split(dst)[k..])
    ensures forall z :: tail != "" ==> Split(head + z) == Ups(n) + Split(z)
  {
    hide Split, Dir, Rel, CommonPrefix, Slashed, Ups, InProject;
    LoneNames();
    var t := Split(dst);
    var r := RelNames(DirNames(ref), t);
    RelShape(ref, dst);
    DotsAndSlashes(n);
    UpsShape(n);
    tail := Slashed(t[k..]);
    assert r == Ups(n) + t[k..];
    if t[k..] == [] {
      head := if n == 0 then "." else Slashed(Ups(n));
      assert head + "" == head;
      assert Ups(n) + [] == Ups(n);
    } else if n == 0 {
      head := "";
      assert Ups(0) == [] && [] + t[k..] == t[k..] && "" + tail == tail;
      forall z: string ensures Split(head + z) == Ups(n) + Split(z) {
        assert "" + z == z && [] + Split(z) == Split(z);
      }
    } else {
      head := Slashed(Ups(n)) + "/";
      SlashedConcat(Ups(n), t[k..]);
      assert Slashed(r) == head + tail;
      forall z ensures Split(head + z) == Ups(n) + Split(z) {
        SplitConcat(Ups(n), z);
      }
    }
  }

  /** A shorter end than the target's own leads elsewhere. */
  lemma {:induction false} ShorterEndElsewhere(ref: string, dst: string, x: string, z: string, k: nat, n: nat)
    requires InProject(ref) && InProject(dst) && x != "" && x[0] != '/'
    requires k == CommonPrefix(DirNames(ref), Split(dst)) && n == |DirNames(ref)| - k
    requires Split(x) == Ups(n) + Split(z) && |z| < |Slashed(Split(dst)[k..])|
    ensures Clean(Join(Dir(ref), x)) != dst
  {
    hide Split, CleanAll, CommonPrefix, Slashed, Clean, Ups, Dir;
    var d, t := DirNames(ref), Split(dst);
    DirNamesOf(ref);
    DirInProject(ref);
    var lead := if d == [] then ["."] else d;
    assert Slashed(["."]) == "." && Slashed([]) == "" by { hide *; LoneNames(); }
    var joined := Dir(ref) + "/" + x;
    CleanJoined(lead, Split(x), Dir(ref), x);
    CleanAllConcat(false, d, Ups(n), Split(z));
    CleanAllUps(false, d, n);
    assert d != [] ==> PlainName(d[0]);
    assert d[..|d| - n] == t[..k];
    assert CleanAll(false, [], Split(joined)) == CleanAll(false, t[..k], Split(z));
    WeightCleanAll(false, t[..k], Split(z));
    WeightSplit(z);
    WeightSlashed(t[k..]) by { assert t[k..] != []; }
    WeightConcat(t[..k], t[k..]);
    assert t[..k] + t[k..] == t;
    SlashedSplit(dst);
    WeightSlashed(t);
    CleanIsShort(joined, |dst| - 1);
    CleanInProject(dst);
    SplitDot();
    if Clean(joined) != "." { CleanShrinks(Clean(joined), dst); }
  }

  lemma LoneNames()
    ensures Slashed(["."]) == "." && Slashed([]) == ""
  {
  }

  /** Whatever part of the relative path is read, only the whole of it leads to the target. */
  lemma RelativeElsewhere(ref: string, dst: string, p: string)
    requires InProject(ref) && InProject(dst) && Rel(Dir(ref), dst) == Some(p)
    requires HashIndex(p) > 0 && Decoded(p[..HashIndex(p)]) != p
    ensures var x := Decoded(p[..HashIndex(p)]);
            dst != if x[0] == '/' then Clean(x[1..]) else Clean(Join(Dir(ref), x))
  {
    hide Split, Clean, Join, Dir, Rel, CommonPrefix, Decoded, HashIndex, Ups, Slashed;
    var k := CommonPrefix(DirNames(ref), Split(dst));
    var n := |DirNames(ref)| - k;
    var head, tail := RelIsClimb(ref, dst, k, n);
    HashBehind(head, tail);
    var y := tail[..HashIndex(tail)];
    assert p[..HashIndex(p)] == head + y;
    DecodedBehind(head, y);
    DecodedShrinks(y);
    var z := Decoded(y);
    assert |y| == |tail| ==> y == tail;
    if head == "" {
      assert head + z == z;
      TailFits(dst, k);
    }
    var x := head + z;
    if x[0] == '/' {
      CleanShrinks(x[1..], dst);
    } else {
      ShorterEndElsewhere(ref, dst, x, z, k, n);
    }
  }

  lemma TailFits(dst: string, k: nat)
    requires k <= |Split(dst)|
    ensures |Slashed(Split(dst)[k..])| <= |dst|
  {
    hide Split, Slashed;
    var t := Split(dst);
    SlashedSplit(dst);
    WeightSlashed(t);
    WeightConcat(t[..k], t[k..]);
    assert t[..k] + t[k..] == t;
    if t[k..] != [] { WeightSlashed(t[k..]); } else { LoneNames(); }
  }

  // ----------------------------------------------------------------- exact theorems

  /** A path made for the target leads there if and only if a link means by it just what it says. */
  lemma PathResolvesIff(p: string, anchor: string, ref: string, dst: string, u: UrlLib)
    requires InProject(ref) && InProject(dst) && (anchor == "" || anchor[0] == '#')
    requires p == "/" + dst || Rel(Dir(ref), dst) == Some(p)
    ensures ResolveLinkTarget(p + anchor, ref, u) == Some(dst) <==> Spellable(p, u)
  {
    hide Split, Clean, Join, Dir, Rel, CommonPrefix, Decoded, HashIndex, RawPath, InProject;
    RawOf(p, anchor);
    var raw := p[..HashIndex(p)];
    var x := Decoded(raw);
    RelResolves(ref, dst);
    CleanInProject(dst);
    ghost var parts := RelSpelling(ref, dst);
    if raw != "" {
      DecodedShrinks(raw);
      if x == p {
        assert raw == p;
        assert p == "/" + dst ==> p[1..] == dst;
      } else if p == "/" + dst {
        assert |raw| == |p| ==> raw == p;
        DecodedBehind("/", raw[1..]);
        assert raw == "/" + raw[1..];
        CleanShrinks(x[1..], dst);
      } else {
        RelativeElsewhere(ref, dst, p);
      }
    }
  }

  /**
   * Moved anywhere: a matching link leads to the new place if and only if the path
   * put in it is spellable, or, when the old one was percent-encoded, has no scheme.
   */
  lemma NewPathResolvesIff(dest: string, ref: string, src: string, dst: string, u: UrlLib)
    requires InProject(ref) && InProject(dst) && EscapeOk(u)
    requires ResolveLinkTarget(dest, ref, u) == Some(src)
    ensures var p := NewPath(dest, ref, dst);
            var encoded := RawPath(dest) != Decoded(RawPath(dest));
            && MakeRewrite(dest, ref, src, dst, u) == Some((if encoded then u.escapedPath(p) else p) + Anchor(dest))
            && (ResolveLinkTarget(MakeRewrite(dest, ref, src, dst, u).value, ref, u) == Some(dst)
                <==> if encoded then !u.hasScheme(p) else Spellable(p, u))
  {
    hide Split, Clean, Join, Dir, Rel, HashIndex, InProject;
    var p, anchor := NewPath(dest, ref, dst), Anchor(dest);
    RelResolves(ref, dst);
    CleanInProject(dst);
    ghost var parts := RelSpelling(ref, dst);
    assert p == "/" + dst || Rel(Dir(ref), dst) == Some(p);
    PathResolvesIff(p, anchor, ref, dst, u);
    var e := u.escapedPath(p);
    assert PathUnescape(e) == Some(p) by { UnescapeIff(e, p); }
    RawOf(e, anchor);
    assert p == "/" + dst ==> p[1..] == dst;
  }

  /** No bare destination with white space is ever read back, unless a backslash comes before it. */
  lemma {:induction false} SpaceNeverRead(t: string, d: nat, i: nat)
    requires i < |t| && White([t[i]]) && '\\' !in t[..i]
    ensures BareDepth(t, d).None?
    decreases |t|
  {
    WhiteByte(t[0]);
    if i > 0 {
      assert t[0] in t[..i] && t[1..][..i - 1] == t[..i][1..];
      var d' := if t[0] == '(' then d + 1 else if t[0] == ')' && d > 0 then d - 1 else d;
      if !White([t[0]]) && !(t[0] == ')' && d == 0) {
        SpaceNeverRead(t[1..], d', i - 1);
      }
    }
  }
}
