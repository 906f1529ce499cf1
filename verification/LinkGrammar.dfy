/**
 * What the link scanner accepts, said on the text: which strings close a link,
 * which are destinations, and how a document's brackets pair. The scanner finds
 * exactly that.
 */
module LinkGrammar {
  import opened Wrappers
  import opened LinkScan

  predicate White(w: string) {
    forall i :: 0 <= i < |w| ==> w[i] == ' ' || w[i] == '\t' || w[i] == '\n' || w[i] == '\r'
  }

  // ------------------------------------------------------- titles and the closing

  /** Bytes and escape pairs, none of the bytes being `closer`. */
  predicate Unbroken(t: string, closer: char)
    decreases |t|
  {
    || t == ""
    || (t[0] == '\\' && |t| > 1 && Unbroken(t[2..], closer))
    || (t[0] != '\\' && t[0] != closer && Unbroken(t[1..], closer))
  }

  /** Nothing, or a text in double quotes, single quotes or parentheses. */
  predicate IsTitle(t: string) {
    || t == ""
    || (|t| > 1 && t[0] == '"' && t[|t| - 1] == '"' && Unbroken(t[1..|t| - 1], '"'))
    || (|t| > 1 && t[0] == '\'' && t[|t| - 1] == '\'' && Unbroken(t[1..|t| - 1], '\''))
    || (|t| > 1 && t[0] == '(' && t[|t| - 1] == ')' && Unbroken(t[1..|t| - 1], ')'))
  }

  /** White space, an optional title, white space and the closing parenthesis. */
  ghost predicate Closes(x: string) {
    exists w, title, v :: White(w) && IsTitle(title) && White(v) && x == w + title + v + ")"
  }

  lemma {:induction false} SkipSpacesIs(s: Doc, i: nat, k: nat)
    requires i <= k <= |s|
    ensures SkipSpaces(s, i) == k <==> White(s[i..k]) && (k < |s| ==> !White([s[k]]))
    decreases k - i
  {
    if i < |s| { assert White([s[i]]) <==> IsMDSpace(s[i]) by { assert [s[i]][0] == s[i]; } }
    if i < k {
      assert s[i..k] == [s[i]] + s[i + 1..k];
      assert White(s[i..k]) <==> White([s[i]]) && White(s[i + 1..k]) by { WhiteCons(s[i], s[i + 1..k]); }
      if IsMDSpace(s[i]) {
        SkipSpacesIs(s, i + 1, k);
      }
    } else {
      assert s[i..k] == "";
    }
  }

  lemma WhiteCons(c: char, w: string)
    ensures White([c] + w) <==> White([c]) && White(w)
  {
    assert ([c] + w)[0] == c && [c][0] == c;
    assert forall i :: 0 <= i < |w| ==> ([c] + w)[i + 1] == w[i];
  }

  lemma {:induction false} TitleEndIs(s: Doc, i: nat, k: nat, closer: char)
    requires i <= k < |s| && closer != '\\'
    ensures TitleEnd(s, i, closer) == k <==> Unbroken(s[i..k], closer) && s[k] == closer
    decreases k - i
  {
    var t := s[i..k];
    if i < k {
      assert t[0] == s[i] && t[1..] == s[i + 1..k];
      if s[i] == '\\' {
        if i + 1 < k {
          assert t[2..] == s[i + 2..k];
          TitleEndIs(s, i + 2, k, closer);
        }
      } else if s[i] != closer {
        TitleEndIs(s, i + 1, k, closer);
      }
    }
  }

  lemma SkipTitleIs(s: Doc, m: nat, k: nat)
    requires m <= k < |s|
    ensures SkipTitle(s, m) == k <==> IsTitle(s[m..k]) && (k == m ==> s[m] !in {'"', '\'', '('})
  {
    var t := s[m..k];
    if k > m + 1 {
      assert t == [s[m]] + s[m + 1..k - 1] + [s[k - 1]];
      assert t[1..|t| - 1] == s[m + 1..k - 1];
      if OpensTitle(s[m]) {
        TitleEndIs(s, m + 1, k - 1, TitleCloser(s[m]));
      }
    }
  }

  /** A link closes at `after` if and only if the text up to there closes it. */
  lemma ClosingParenIff(s: Doc, m: nat, after: nat)
    ensures ClosingParen(s, m) == Some(after) <==> m < after <= |s| && Closes(s[m..after])
  {
    if ClosingParen(s, m) == Some(after) {
      ClosingParenCloses(s, m, after);
    }
    if m < after <= |s| && Closes(s[m..after]) {
      ClosesIsClosed(s, m, after);
    }
  }

  lemma ClosingParenCloses(s: Doc, m: nat, after: nat)
    requires ClosingParen(s, m) == Some(after)
    ensures m < after <= |s| && Closes(s[m..after])
  {
    var a := SkipSpaces(s, m);
    var b := SkipTitle(s, a);
    var e := SkipSpaces(s, b);
    SkipSpacesIs(s, m, a);
    SkipTitleIs(s, a, b);
    SkipSpacesIs(s, b, e);
    hide White, IsTitle, SkipSpaces, SkipTitle;
    assert s[m..after] == s[m..a] + s[a..b] + s[b..e] + ")";
  }

  lemma ClosesIsClosed(s: Doc, m: nat, after: nat)
    requires m < after <= |s| && Closes(s[m..after])
    ensures ClosingParen(s, m) == Some(after)
  {
    hide White, IsTitle, ClosingParen;
    var w, title, v :| White(w) && IsTitle(title) && White(v) && s[m..after] == w + title + v + ")";
    var e, a, b := after - 1, m + |w|, m + |w| + |title|;
    Cut(s, m, after, w + title + v, ")");
    Cut(s, m, e, w + title, v);
    Cut(s, m, b, w, title);
    assert s[e..after][0] == s[e] == ')';
    if title == "" {
      WhiteBoth(w, v);
      assert s[m..e] == w + v && s[e..e] == "";
      SplitClosed(s, m, e, e, e);
    } else {
      SplitClosed(s, m, a, b, e);
    }
  }

  lemma Cut(s: string, m: nat, k: nat, u: string, v: string)
    requires m <= k <= |s| && s[m..k] == u + v
    ensures m + |u| <= k && s[m..m + |u|] == u && s[m + |u|..k] == v
  {
    assert |s[m..k]| == k - m;
    forall i | 0 <= i < |u| ensures s[m + i] == u[i] {
      assert s[m..k][i] == (u + v)[i];
    }
    forall i | 0 <= i < |v| ensures s[m + |u| + i] == v[i] {
      assert s[m..k][|u| + i] == (u + v)[|u| + i];
    }
  }

  lemma WhiteBoth(w: string, v: string)
    requires White(w) && White(v)
    ensures White(w + v) && White("") && IsTitle("")
  {
  }

  lemma SplitClosed(s: Doc, m: nat, a: nat, b: nat, e: nat)
    requires m <= a <= b <= e < |s| && s[e] == ')' && (a == b ==> a == e)
    requires White(s[m..a]) && IsTitle(s[a..b]) && White(s[b..e])
    ensures ClosingParen(s, m) == Some(e + 1)
  {
    if a < b { assert s[a..b][0] == s[a]; }
    assert [s[a]][0] == s[a] && [s[e]][0] == s[e];
    SkipSpacesIs(s, m, a);
    SkipTitleIs(s, a, b);
    SkipSpacesIs(s, b, e);
    hide SkipSpaces, SkipTitle, White, Unbroken;
  }

  // ------------------------------------------------------------------ destinations

  /** Open parentheses left by a bare text read from depth `d`; `None` if the scanner stops in it or skips past its end. */
  function BareDepth(t: string, d: nat): Option<nat>
    decreases |t|
  {
    if t == "" then Some(d)
    else if t[0] == '\\' then if |t| == 1 then None else BareDepth(t[2..], d)
    else if White([t[0]]) then None
    else if t[0] == '(' then BareDepth(t[1..], d + 1)
    else if t[0] == ')' then if d == 0 then None else BareDepth(t[1..], d - 1)
    else BareDepth(t[1..], d)
  }

  /** A bare destination in front of the byte `next`: no white space, no leading angle bracket, parentheses balanced. */
  predicate BareText(t: string, next: char) {
    && (next == ')' || (White([next]) && t != ""))
    && (t != "" ==> t[0] != '<')
    && BareDepth(t, 0).Some? && (next == ')' ==> BareDepth(t, 0) == Some(0))
  }

  /** A destination between angle brackets: neither closed nor broken inside. */
  predicate AngleText(t: string)
    decreases |t|
  {
    t == "" || (t[0] != '>' && t[0] != '\n' && if t[0] == '\\' then |t| > 1 && AngleText(t[2..]) else AngleText(t[1..]))
  }

  ghost predicate BareDestination(s: Doc, j0: nat, l: Link) {
    && j0 <= l.start <= l.stop < l.after <= |s|
    && White(s[j0..l.start]) && BareText(s[l.start..l.stop], s[l.stop]) && Closes(s[l.stop..l.after])
  }

  ghost predicate AngleDestination(s: Doc, j0: nat, l: Link) {
    && j0 < l.start <= l.stop < l.stop + 1 < l.after <= |s|
    && White(s[j0..l.start - 1]) && s[l.start - 1] == '<'
    && AngleText(s[l.start..l.stop]) && s[l.stop] == '>' && Closes(s[l.stop + 1..l.after])
  }

  /** From `j0` on the text spells the destination and the closing of `l`. */
  ghost predicate Destination(s: Doc, j0: nat, l: Link) {
    BareDestination(s, j0, l) || AngleDestination(s, j0, l)
  }

  lemma {:induction false} BareStops(s: Doc, i: nat, d: nat)
    ensures BareEnd(s, i, d) < |s| ==> IsMDSpace(s[BareEnd(s, i, d)]) || s[BareEnd(s, i, d)] == ')'
    decreases |s| - i
  {
    if i < |s| {
      if s[i] == '\\' {
        BareStops(s, i + 2, d);
      } else if s[i] == '(' {
        BareStops(s, i + 1, d + 1);
      } else if s[i] == ')' && d > 0 {
        BareStops(s, i + 1, d - 1);
      } else if !IsMDSpace(s[i]) && s[i] != ')' {
        BareStops(s, i + 1, d);
      }
    }
  }

  lemma WhiteByte(c: char)
    ensures White([c]) <==> IsMDSpace(c)
  {
    assert [c][0] == c;
  }

  lemma {:induction false} BareDepthEnds(s: Doc, i: nat, k: nat, d: nat)
    requires i <= k < |s| && (IsMDSpace(s[k]) || s[k] == ')')
    ensures BareEnd(s, i, d) == k <==>
            BareDepth(s[i..k], d).Some? && (s[k] == ')' ==> BareDepth(s[i..k], d) == Some(0))
    decreases k - i
  {
    var t := s[i..k];
    if i < k {
      WhiteByte(s[i]);
      assert t[0] == s[i] && t[1..] == s[i + 1..k];
      if s[i] == '\\' {
        if i + 1 < k {
          assert t[2..] == s[i + 2..k];
          BareDepthEnds(s, i + 2, k, d);
        }
      } else if s[i] == '(' {
        BareDepthEnds(s, i + 1, k, d + 1);
      } else if s[i] == ')' && d > 0 {
        BareDepthEnds(s, i + 1, k, d - 1);
      } else if !IsMDSpace(s[i]) && s[i] != ')' {
        BareDepthEnds(s, i + 1, k, d);
      }
    }
  }

  lemma {:induction false} AngleTextEnds(s: Doc, i: nat, k: nat)
    requires i <= k < |s| && s[k] == '>'
    ensures AngleEnd(s, i) == k <==> AngleText(s[i..k])
    decreases k - i
  {
    var t := s[i..k];
    if i < k {
      assert t[0] == s[i] && t[1..] == s[i + 1..k];
      if s[i] == '\\' {
        if i + 1 < k {
          assert t[2..] == s[i + 2..k];
          AngleTextEnds(s, i + 2, k);
        }
      } else if s[i] != '>' && s[i] != '\n' {
        AngleTextEnds(s, i + 1, k);
      }
    }
  }

  /** The scanner reads a destination if and only if the text spells it. */
  lemma DestinationIff(s: Doc, j0: nat, l: Link)
    ensures ParseInlineDestination(s, j0) == Some(l) <==> Destination(s, j0, l)
  {
    hide Closes, White, BareDepth, AngleText, BareEnd, AngleEnd, SkipSpaces, ClosingParen;
    if ParseInlineDestination(s, j0) == Some(l) {
      ParsedIsDestination(s, j0, l);
    }
    if BareDestination(s, j0, l) {
      BareIsParsed(s, j0, l);
    }
    if AngleDestination(s, j0, l) {
      AngleIsParsed(s, j0, l);
    }
  }

  lemma ParsedIsDestination(s: Doc, j0: nat, l: Link)
    requires ParseInlineDestination(s, j0) == Some(l)
    ensures Destination(s, j0, l)
  {
    hide Closes, White, BareDepth, AngleText, BareEnd, AngleEnd, SkipSpaces, ClosingParen;
    var j := SkipSpaces(s, j0);
    SkipSpacesIs(s, j0, j);
    if s[j] == '<' {
      AngleTextEnds(s, l.start, l.stop);
      ClosingParenIff(s, l.stop + 1, l.after);
    } else {
      ClosingParenIff(s, l.stop, l.after);
      BareStops(s, j, 0);
      BareDepthEnds(s, j, l.stop, 0);
      WhiteByte(s[l.stop]);
    }
  }

  lemma BareIsParsed(s: Doc, j0: nat, l: Link)
    requires BareDestination(s, j0, l)
    ensures ParseInlineDestination(s, j0) == Some(l)
  {
    BareStarts(s, j0, l);
    WhiteByte(s[l.stop]);
    hide Closes, White, AngleText, BareEnd, AngleEnd, SkipSpaces, ClosingParen, BareDepth;
    SkipSpacesIs(s, j0, l.start);
    BareDepthEnds(s, l.start, l.stop, 0);
    ClosingParenIff(s, l.stop, l.after);
  }

  lemma BareStarts(s: Doc, j0: nat, l: Link)
    requires BareDestination(s, j0, l)
    ensures !White([s[l.start]]) && s[l.start] != '<'
  {
    hide Closes;
    WhiteByte(s[l.start]);
    if l.start < l.stop {
      assert s[l.start..l.stop][0] == s[l.start];
    }
  }

  lemma AngleIsParsed(s: Doc, j0: nat, l: Link)
    requires AngleDestination(s, j0, l)
    ensures ParseInlineDestination(s, j0) == Some(l)
  {
    hide Closes, White, AngleText, BareEnd, AngleEnd, SkipSpaces, ClosingParen;
    WhiteByte(s[l.start - 1]);
    SkipSpacesIs(s, j0, l.start - 1);
    AngleTextEnds(s, l.start, l.stop);
    ClosingParenIff(s, l.stop + 1, l.after);
  }

  // -------------------------------------------------------------------- documents

  /** From the bracket at `i` on the text spells `l`, with bracket and parenthesis outside protected ranges. */
  ghost predicate Spells(s: Doc, shut: seq<bool>, i: nat, l: Link)
    requires |shut| == |s|
  {
    && i + 1 < |s| && s[i] == ']' && s[i + 1] == '(' && !shut[i] && !shut[i + 1]
    && Destination(s, i + 2, l)
  }

  /** A moment of reading: how far, how many brackets are open, how many links are behind. */
  datatype Reader = Reader(pos: nat, open: nat, found: nat)

  /**
   * One step. A backslash takes the next byte with it. An unprotected bracket opens; one
   * that closes an open bracket ends a link if its destination follows, and then all of
   * that is behind.
   */
  ghost predicate StepReads(s: Doc, shut: seq<bool>, links: seq<Link>, a: Reader, b: Reader)
    requires |shut| == |s|
  {
    && a.pos < |s|
    && if s[a.pos] == '\\' then b == a.(pos := a.pos + 2)
       else if s[a.pos] == '[' && !shut[a.pos] then b == a.(pos := a.pos + 1, open := a.open + 1)
       else if s[a.pos] == ']' && !shut[a.pos] && a.open > 0 then
         || (a.found < |links| && Spells(s, shut, a.pos, links[a.found])
             && b == Reader(links[a.found].after, a.open - 1, a.found + 1))
         || ((forall l :: !Spells(s, shut, a.pos, l)) && b == a.(pos := a.pos + 1, open := a.open - 1))
       else b == a.(pos := a.pos + 1)
  }

  ghost predicate Reading(s: Doc, shut: seq<bool>, links: seq<Link>, run: seq<Reader>)
    requires |shut| == |s|
  {
    && run != [] && run[|run| - 1].pos >= |s| && run[|run| - 1].found == |links|
    && forall k :: 0 <= k < |run| - 1 ==> StepReads(s, shut, links, run[k], run[k + 1])
  }

  lemma LinkAtIff(s: Doc, shut: seq<bool>, i: nat, l: Link)
    requires |shut| == |s| && i < |s| && s[i] == ']' && !shut[i]
    ensures LinkAt(s, shut, i) == Some(l) <==> Spells(s, shut, i, l)
  {
    hide Destination, ParseInlineDestination;
    DestinationIff(s, i + 2, l);
  }

  /** Any reading from a position on finds what the scanner finds from there. */
  lemma {:induction false} ReadingFinds(s: Doc, shut: seq<bool>, links: seq<Link>, run: seq<Reader>)
    requires |shut| == |s| && Reading(s, shut, links, run)
    ensures run[0].found <= |links| && ScanLinks(s, shut, run[0].pos, run[0].open) == links[run[0].found..]
    decreases |run|
  {
    hide Spells, LinkAt;
    var a := run[0];
    if |run| > 1 {
      var b, rest := run[1], run[1..];
      assert StepReads(s, shut, links, a, b);
      assert Reading(s, shut, links, rest) by {
        forall k | 0 <= k < |rest| - 1 ensures StepReads(s, shut, links, rest[k], rest[k + 1]) {
          assert StepReads(s, shut, links, run[k + 1], run[k + 1 + 1]);
        }
      }
      ReadingFinds(s, shut, links, rest);
      if s[a.pos] == ']' && !shut[a.pos] && a.open > 0 {
        forall l ensures LinkAt(s, shut, a.pos) == Some(l) <==> Spells(s, shut, a.pos, l) {
          LinkAtIff(s, shut, a.pos, l);
        }
      }
    }
  }

  /** There is a reading of what the scanner finds. */
  lemma {:induction false} ScanIsReading(s: Doc, shut: seq<bool>, links: seq<Link>, a: Reader) returns (run: seq<Reader>)
    requires |shut| == |s| && a.found <= |links| && ScanLinks(s, shut, a.pos, a.open) == links[a.found..]
    ensures run != [] && Reading(s, shut, links, run) && run[0] == a
    decreases |s| - a.pos
  {
    hide Spells, LinkAt;
    if a.pos >= |s| {
      run := [a];
    } else {
      var b: Reader;
      if s[a.pos] == '\\' {
        b := a.(pos := a.pos + 2);
      } else if s[a.pos] == '[' && !shut[a.pos] {
        b := a.(pos := a.pos + 1, open := a.open + 1);
      } else if s[a.pos] == ']' && !shut[a.pos] && a.open > 0 {
        forall l ensures LinkAt(s, shut, a.pos) == Some(l) <==> Spells(s, shut, a.pos, l) {
          LinkAtIff(s, shut, a.pos, l);
        }
        var found := LinkAt(s, shut, a.pos);
        if found.Some? {
          b := Reader(found.value.after, a.open - 1, a.found + 1);
          assert links[a.found..][0] == found.value;
          assert links[a.found..][1..] == links[a.found + 1..];
        } else {
          b := a.(pos := a.pos + 1, open := a.open - 1);
        }
      } else {
        b := a.(pos := a.pos + 1);
      }
      assert StepReads(s, shut, links, a, b);
      var rest := ScanIsReading(s, shut, links, b);
      run := [a] + rest;
      forall k | 0 <= k < |run| - 1 ensures StepReads(s, shut, links, run[k], run[k + 1]) {
        if k > 0 { assert StepReads(s, shut, links, rest[k - 1], rest[k]); }
      }
    }
  }

  /** The links of a document are those of a reading from its start: they exist, and no others do. */
  lemma ScanIff(s: Doc, shut: seq<bool>, links: seq<Link>)
    requires |shut| == |s|
    ensures links == ScanLinks(s, shut, 0, 0) <==> exists run :: Reading(s, shut, links, run) && run != [] && run[0] == Reader(0, 0, 0)
  {
    hide Reading;
    if links == ScanLinks(s, shut, 0, 0) {
      assert links[0..] == links;
      var run := ScanIsReading(s, shut, links, Reader(0, 0, 0));
    }
    if run :| Reading(s, shut, links, run) && run != [] && run[0] == Reader(0, 0, 0) {
      ReadingFinds(s, shut, links, run);
      assert links[0..] == links;
    }
  }
}
