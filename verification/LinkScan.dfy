/**
 * The inline link scanner of internal/storage/linkrewrite.go: a cursor over the
 * document's bytes with a stack of open brackets, skipping protected (code and
 * HTML) ranges. The functions say what the loops compute.
 */
module LinkScan {
  import opened Wrappers

  type Doc = string

  /** A half-open byte range. */
  datatype Span = Span(start: nat, stop: nat)

  /** A link's destination span and the position just past its closing parenthesis. */
  datatype Link = Link(start: nat, stop: nat, after: nat)

  predicate IsMDSpace(c: char) {
    c == ' ' || c == '\t' || c == '\n' || c == '\r'
  }

  /** The loop's answer: ranges are visited in order and the first one beyond `pos` ends the search. */
  function InAnyRange(ranges: seq<Span>, pos: nat): bool {
    if ranges == [] then false
    else if pos < ranges[0].start then false
    else if pos < ranges[0].stop then true
    else InAnyRange(ranges[1..], pos)
  }

  /** On ranges sorted by start, that is membership. */
  lemma {:induction false} InAnyRangeIsMembership(ranges: seq<Span>, pos: nat)
    requires forall i, j :: 0 <= i < j < |ranges| ==> ranges[i].start <= ranges[j].start
    ensures InAnyRange(ranges, pos) <==> exists i :: 0 <= i < |ranges| && ranges[i].start <= pos < ranges[i].stop
  {
    if ranges != [] && ranges[0].stop <= pos {
      var rest := ranges[1..];
      InAnyRangeIsMembership(rest, pos);
      if i :| 0 <= i < |ranges| && ranges[i].start <= pos < ranges[i].stop {
        assert rest[i - 1] == ranges[i];
      }
      if i :| 0 <= i < |rest| && rest[i].start <= pos < rest[i].stop {
        assert ranges[i + 1] == rest[i];
      }
    }
  }

  /** The protected bytes of a document, byte by byte. */
  function Marks(ranges: seq<Span>, n: nat): seq<bool> {
    seq(n, i requires 0 <= i < n => InAnyRange(ranges, i))
  }

  // -------------------------------------------------------------- the scanners

  function SkipSpaces(s: Doc, i: nat): (r: nat)
    ensures r >= i
    decreases |s| - i
  {
    if i < |s| && IsMDSpace(s[i]) then SkipSpaces(s, i + 1) else i
  }

  /** Past an escape pair, else past one byte. */
  function Step(s: Doc, i: nat): nat
    requires i < |s|
  {
    if s[i] == '\\' then i + 2 else i + 1
  }

  /** Where a title ends: its closer, or beyond the document. */
  function TitleEnd(s: Doc, i: nat, closer: char): (r: nat)
    ensures r >= i
    decreases |s| - i
  {
    if i < |s| && s[i] != closer then TitleEnd(s, Step(s, i), closer) else i
  }

  /** Where an angle-bracket destination ends. */
  function AngleEnd(s: Doc, i: nat): (r: nat)
    ensures r >= i
    decreases |s| - i
  {
    if i < |s| && s[i] != '>' && s[i] != '\n' then AngleEnd(s, Step(s, i)) else i
  }

  /** Where a bare destination ends: white space, or a parenthesis that closes nothing. */
  function BareEnd(s: Doc, i: nat, depth: nat): (r: nat)
    ensures r >= i
    decreases |s| - i
  {
    if i >= |s| then i
    else if s[i] == '\\' then BareEnd(s, i + 2, depth)
    else if IsMDSpace(s[i]) then i
    else if s[i] == '(' then BareEnd(s, i + 1, depth + 1)
    else if s[i] == ')' then if depth == 0 then i else BareEnd(s, i + 1, depth - 1)
    else BareEnd(s, i + 1, depth)
  }

  predicate OpensTitle(c: char) {
    c == '"' || c == '\'' || c == '('
  }

  function TitleCloser(c: char): char {
    if c == '"' then '"' else if c == '\'' then '\'' else ')'
  }

  /** Past an optional title. */
  function SkipTitle(s: Doc, m: nat): (r: nat)
    ensures r >= m
  {
    if m < |s| && OpensTitle(s[m]) then
      var e := TitleEnd(s, m + 1, TitleCloser(s[m]));
      if e < |s| then e + 1 else e
    else m
  }

  /** Past an optional title and the closing parenthesis. */
  function ClosingParen(s: Doc, m: nat): (r: Option<nat>)
    ensures r.Some? ==> m < r.value <= |s|
  {
    var e := SkipSpaces(s, SkipTitle(s, SkipSpaces(s, m)));
    if e < |s| && s[e] == ')' then Some(e + 1) else None
  }

  function ParseInlineDestination(s: Doc, j0: nat): (r: Option<Link>)
    ensures r.Some? ==> j0 <= r.value.start <= r.value.stop < r.value.after <= |s|
  {
    var j := SkipSpaces(s, j0);
    if j >= |s| then None
    else if s[j] == '<' then
      var k := AngleEnd(s, j + 1);
      if k >= |s| || s[k] != '>' then None
      else match ClosingParen(s, k + 1)
        case None => None
        case Some(after) => Some(Link(j + 1, k, after))
    else
      var k := BareEnd(s, j, 0);
      match ClosingParen(s, k)
      case None => None
      case Some(after) => Some(Link(j, k, after))
  }

  /** All links from position `i` on, with `depth` brackets open. */
  function ScanLinks(s: Doc, shut: seq<bool>, i: nat, depth: nat): seq<Link>
    requires |shut| == |s|
    decreases |s| - i
  {
    if i >= |s| then []
    else if s[i] == '\\' then ScanLinks(s, shut, i + 2, depth)
    else if s[i] == '[' then ScanLinks(s, shut, i + 1, if shut[i] then depth else depth + 1)
    else if s[i] == ']' && depth > 0 && !shut[i] then
      match LinkAt(s, shut, i)
      case Some(l) => [l] + ScanLinks(s, shut, l.after, depth - 1)
      case None => ScanLinks(s, shut, i + 1, depth - 1)
    else ScanLinks(s, shut, i + 1, depth)
  }

  /** The link whose text ends with the bracket at `i`, if an inline destination follows. */
  function LinkAt(s: Doc, shut: seq<bool>, i: nat): (r: Option<Link>)
    requires |shut| == |s| && i < |s|
    ensures r.Some? ==> i + 2 <= r.value.start <= r.value.stop < r.value.after <= |s|
  {
    if i + 1 < |s| && s[i + 1] == '(' && !shut[i + 1] then ParseInlineDestination(s, i + 2) else None
  }

  // ------------------------------------------------------------------ the loops

  method ClosingParenLoop(s: Doc, m0: nat) returns (after: nat, ok: bool)
    ensures ClosingParen(s, m0) == if ok then Some(after) else None
  {
    var m := m0;
    while m < |s| && IsMDSpace(s[m])
      invariant SkipSpaces(s, m) == SkipSpaces(s, m0)
    {
      m := m + 1;
    }
    ghost var m1 := m;
    if m < |s| && (s[m] == '"' || s[m] == '\'' || s[m] == '(') {
      var closer := ')';
      if s[m] == '"' {
        closer := '"';
      } else if s[m] == '\'' {
        closer := '\'';
      }
      m := m + 1;
      while m < |s| && s[m] != closer
        invariant TitleEnd(s, m, closer) == TitleEnd(s, m1 + 1, closer)
      {
        m := if s[m] == '\\' then m + 2 else m + 1;
      }
      if m < |s| {
        m := m + 1;
      }
    }
    assert m == SkipTitle(s, m1);
    ghost var m2 := m;
    while m < |s| && IsMDSpace(s[m])
      invariant SkipSpaces(s, m) == SkipSpaces(s, m2)
    {
      m := m + 1;
    }
    if m >= |s| || s[m] != ')' {
      return 0, false;
    }
    return m + 1, true;
  }

  method ParseInlineDestinationLoop(s: Doc, j0: nat) returns (pathStart: nat, pathStop: nat, after: nat, ok: bool)
    ensures ParseInlineDestination(s, j0) == if ok then Some(Link(pathStart, pathStop, after)) else None
  {
    var j := j0;
    while j < |s| && IsMDSpace(s[j])
      invariant SkipSpaces(s, j) == SkipSpaces(s, j0)
    {
      j := j + 1;
    }
    if j >= |s| {
      return 0, 0, 0, false;
    }
    if s[j] == '<' {
      var k := j + 1;
      while k < |s| && s[k] != '>' && s[k] != '\n'
        invariant AngleEnd(s, k) == AngleEnd(s, j + 1)
      {
        k := if s[k] == '\\' then k + 2 else k + 1;
      }
      if k >= |s| || s[k] != '>' {
        return 0, 0, 0, false;
      }
      after, ok := ClosingParenLoop(s, k + 1);
      return j + 1, k, after, ok;
    }
    var depth: nat := 0;
    var k := j;
    while k < |s|
      invariant BareEnd(s, k, depth) == BareEnd(s, j, 0)
      decreases |s| - k
    {
      var ch := s[k];
      if ch == '\\' {
        k := k + 2;
        continue;
      }
      if IsMDSpace(ch) {
        break;
      }
      if ch == '(' {
        depth := depth + 1;
      } else if ch == ')' {
        if depth == 0 {
          break;
        }
        depth := depth - 1;
      }
      k := k + 1;
    }
    after, ok := ClosingParenLoop(s, k);
    return j, k, after, ok;
  }

  // -------------------------------------------------------------- shape of a scan

  /** Links come in order and do not overlap. */
  ghost predicate Ordered(links: seq<Link>, from: nat, n: nat) {
    && (forall i :: 0 <= i < |links| ==> from + 2 <= links[i].start <= links[i].stop < links[i].after <= n)
    && forall i, j :: 0 <= i < j < |links| ==> links[i].after <= links[j].start
  }

  lemma OrderedFrom(links: seq<Link>, from: nat, lower: nat, n: nat)
    requires Ordered(links, from, n) && lower <= from
    ensures Ordered(links, lower, n)
  {
  }

  lemma OrderedCons(l: Link, links: seq<Link>, from: nat, n: nat)
    requires from + 2 <= l.start <= l.stop < l.after <= n && Ordered(links, l.after, n)
    ensures Ordered([l] + links, from, n)
  {
    var all := [l] + links;
    forall i | 0 <= i < |all| ensures from + 2 <= all[i].start <= all[i].stop < all[i].after <= n {
      if i > 0 { assert all[i] == links[i - 1]; }
    }
    forall i, j | 0 <= i < j < |all| ensures all[i].after <= all[j].start {
      assert all[j] == links[j - 1];
      if i > 0 { assert all[i] == links[i - 1]; }
    }
  }

  lemma {:induction false} ScanOrdered(s: Doc, shut: seq<bool>, i: nat, depth: nat)
    requires |shut| == |s|
    ensures Ordered(ScanLinks(s, shut, i, depth), i, |s|)
    decreases |s| - i
  {
    hide Ordered, LinkAt;
    if i >= |s| {
      OrderedNil(i, |s|);
    } else if s[i] == '\\' {
      ScanOrdered(s, shut, i + 2, depth);
      OrderedFrom(ScanLinks(s, shut, i + 2, depth), i + 2, i, |s|);
    } else if s[i] == ']' && depth > 0 && !shut[i] && LinkAt(s, shut, i).Some? {
      var l := LinkAt(s, shut, i).value;
      ScanOrdered(s, shut, l.after, depth - 1);
      OrderedCons(l, ScanLinks(s, shut, l.after, depth - 1), i, |s|);
    } else {
      var d := if s[i] == '[' && !shut[i] then depth + 1
               else if s[i] == ']' && depth > 0 && !shut[i] then depth - 1
               else depth;
      ScanOrdered(s, shut, i + 1, d);
      OrderedFrom(ScanLinks(s, shut, i + 1, d), i + 1, i, |s|);
    }
  }

  lemma OrderedNil(from: nat, n: nat)
    ensures Ordered([], from, n)
  {
  }
}
