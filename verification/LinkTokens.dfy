/**
 * Documents as tokens: plain bytes, and words of bytes that mean nothing to the
 * link scanner. The scan of a document is the scan of its shape, in which every
 * word is one letter; so replacing words by words moves links but neither adds,
 * drops nor reorders any.
 */
module LinkTokens {
  import opened Wrappers
  import opened LinkScan

  /** A byte that neither Markdown link syntax nor URL syntax gives a meaning. */
  predicate Neutral(c: char) {
    && c != '\\' && c != '[' && c != ']' && c != '(' && c != ')' && c != '<' && c != '>'
    && c != '"' && c != '\'' && c != '#' && c != '%' && c != ':' && !IsMDSpace(c)
  }

  predicate NeutralText(s: string) {
    forall i :: 0 <= i < |s| ==> Neutral(s[i])
  }

  /** `shut` marks protected bytes. */
  datatype Tok = Byte(c: char, shut: bool) | Word(text: string, shuts: seq<bool>)
  {
    function Text(): string {
      if Byte? then [c] else text
    }

    function Shuts(): seq<bool> {
      if Byte? then [shut] else shuts
    }

    predicate Well() {
      Word? ==> text != "" && |shuts| == |text| && NeutralText(text)
    }
  }

  predicate Well(ts: seq<Tok>) {
    forall i :: 0 <= i < |ts| ==> ts[i].Well()
  }

  function Render(ts: seq<Tok>): Doc {
    if ts == [] then "" else ts[0].Text() + Render(ts[1..])
  }

  function Shut(ts: seq<Tok>): seq<bool> {
    if ts == [] then [] else ts[0].Shuts() + Shut(ts[1..])
  }

  /** The shape: one character a token. */
  function Shape(ts: seq<Tok>): Doc {
    seq(|ts|, i requires 0 <= i < |ts| => if ts[i].Byte? then ts[i].c else 'x')
  }

  function ShapeShut(ts: seq<Tok>): seq<bool> {
    seq(|ts|, i requires 0 <= i < |ts| => ts[i].Byte? && ts[i].shut)
  }

  /** Where token `k` begins; positions beyond the tokens lie as far beyond the document. */
  function Off(ts: seq<Tok>, k: nat): nat {
    if k == 0 then 0
    else if ts == [] then k
    else |ts[0].Text()| + Off(ts[1..], k - 1)
  }

  // ------------------------------------------------------------ bytes of tokens

  lemma {:induction false} RenderLengths(ts: seq<Tok>)
    requires Well(ts)
    ensures |Shut(ts)| == |Render(ts)|
    ensures Off(ts, |ts|) == |Render(ts)|
  {
    if ts != [] {
      assert ts[0].Well();
      RenderLengths(ts[1..]);
    }
  }

  /** The bytes and marks of token `k` stand at its offset. */
  lemma {:induction false} TokenBytes(ts: seq<Tok>, k: nat)
    requires Well(ts) && k < |ts|
    ensures |Shut(ts)| == |Render(ts)|
    ensures Off(ts, k + 1) == Off(ts, k) + |ts[k].Text()| <= |Render(ts)|
    ensures Render(ts)[Off(ts, k)..Off(ts, k + 1)] == ts[k].Text()
    ensures Shut(ts)[Off(ts, k)..Off(ts, k + 1)] == ts[k].Shuts()
    decreases |ts|
  {
    var t, rest := ts[0], ts[1..];
    assert t.Well() && Well(rest);
    RenderLengths(ts);
    RenderLengths(rest);
    if k == 0 {
      assert Off(rest, 0) == 0;
      assert (t.Text() + Render(rest))[..|t.Text()|] == t.Text();
      assert (t.Shuts() + Shut(rest))[..|t.Shuts()|] == t.Shuts();
    } else {
      TokenBytes(rest, k - 1);
      var a, b := Off(rest, k - 1), Off(rest, k);
      SliceBeyond(t.Text(), Render(rest), a, b);
      SliceBeyond(t.Shuts(), Shut(rest), a, b);
      hide Render, Shut, Well;
      assert Off(ts, k) == |t.Text()| + a && Off(ts, k + 1) == |t.Text()| + b;
    }
  }

  lemma SliceBeyond<T>(x: seq<T>, y: seq<T>, a: nat, b: nat)
    requires a <= b <= |y|
    ensures (x + y)[|x| + a..|x| + b] == y[a..b]
  {
  }

  lemma {:induction false} OffBeyond(ts: seq<Tok>, k: nat)
    requires Well(ts) && k >= |ts|
    ensures Off(ts, k) == |Render(ts)| + (k - |ts|)
    decreases |ts|
  {
    if ts != [] {
      OffBeyond(ts[1..], k - 1);
    }
  }

  /** What the scanners see at a token boundary, in the document and in its shape. */
  lemma Seen(ts: seq<Tok>, k: nat)
    requires Well(ts)
    ensures |Shut(ts)| == |Render(ts)|
    ensures k < |ts| <==> Off(ts, k) < |Render(ts)|
    ensures k < |ts| && ts[k].Byte? ==>
              && Off(ts, k + 1) == Off(ts, k) + 1
              && Render(ts)[Off(ts, k)] == ts[k].c == Shape(ts)[k]
              && Shut(ts)[Off(ts, k)] == ts[k].shut == ShapeShut(ts)[k]
    ensures k < |ts| && ts[k].Word? ==>
              && Off(ts, k) < Off(ts, k + 1)
              && Shape(ts)[k] == 'x'
              && NeutralRun(Render(ts), Off(ts, k), Off(ts, k + 1))
    ensures k >= |ts| ==> Off(ts, k + 1) == Off(ts, k) + 1
    ensures |Shape(ts)| == |ts| == |ShapeShut(ts)|
  {
    RenderLengths(ts);
    if k < |ts| {
      TokenBytes(ts, k);
      var a, b := Off(ts, k), Off(ts, k + 1);
      assert ts[k].Well();
      assert forall o :: a <= o < b ==> Render(ts)[o] == Render(ts)[a..b][o - a];
      assert forall o :: a <= o < b ==> Shut(ts)[o] == Shut(ts)[a..b][o - a];
    } else {
      OffBeyond(ts, k);
      OffBeyond(ts, k + 1);
    }
  }

  /** Every byte of a stretch is neutral. */
  ghost predicate NeutralRun(s: Doc, i: nat, j: nat) {
    i <= j && (i < j ==> j <= |s| && forall o :: i <= o < j ==> Neutral(s[o]))
  }

  /** An escape pair that ends inside a word leaves only neutral bytes up to the next token. */
  lemma EscapeLands(ts: seq<Tok>, k: nat)
    requires Well(ts) && k < |ts| && ts[k].Byte?
    ensures NeutralRun(Render(ts), Off(ts, k) + 2, Off(ts, k + 2))
  {
    Seen(ts, k);
    Seen(ts, k + 1);
  }

  // --------------------------------------------------------- passing neutral bytes

  lemma {:induction false} TitlePass(s: Doc, i: nat, j: nat, closer: char)
    requires NeutralRun(s, i, j) && !Neutral(closer)
    ensures TitleEnd(s, i, closer) == TitleEnd(s, j, closer)
    decreases j - i
  {
    if i < j {
      assert Neutral(s[i]) && s[i] != '\\';
      TitlePass(s, i + 1, j, closer);
    }
  }

  lemma {:induction false} AnglePass(s: Doc, i: nat, j: nat)
    requires NeutralRun(s, i, j)
    ensures AngleEnd(s, i) == AngleEnd(s, j)
    decreases j - i
  {
    if i < j {
      assert Neutral(s[i]) && s[i] != '\\';
      AnglePass(s, i + 1, j);
    }
  }

  lemma {:induction false} BarePass(s: Doc, i: nat, j: nat, depth: nat)
    requires NeutralRun(s, i, j)
    ensures BareEnd(s, i, depth) == BareEnd(s, j, depth)
    decreases j - i
  {
    if i < j {
      assert Neutral(s[i]) && s[i] != '\\';
      BarePass(s, i + 1, j, depth);
    }
  }

  lemma {:induction false} ScanPass(s: Doc, shut: seq<bool>, i: nat, j: nat, depth: nat)
    requires |shut| == |s| && NeutralRun(s, i, j)
    ensures ScanLinks(s, shut, i, depth) == ScanLinks(s, shut, j, depth)
    decreases j - i
  {
    if i < j {
      assert Neutral(s[i]) && s[i] != '\\';
      ScanPass(s, shut, i + 1, j, depth);
    }
  }

  // -------------------------------------------- each scanner runs on the shape

  lemma {:induction false} SkipSpacesTok(ts: seq<Tok>, k: nat)
    requires Well(ts)
    ensures SkipSpaces(Render(ts), Off(ts, k)) == Off(ts, SkipSpaces(Shape(ts), k))
    decreases |ts| - k
  {
    hide Off, Render, Shape, Shut, ShapeShut, Well, Tok.Well;
    Seen(ts, k);
    if k < |ts| && ts[k].Byte? && IsMDSpace(ts[k].c) {
      SkipSpacesTok(ts, k + 1);
    } else if k < |ts| && ts[k].Word? {
      assert Neutral(Render(ts)[Off(ts, k)]);
    }
  }

  lemma {:induction false} TitleTok(ts: seq<Tok>, k: nat, closer: char)
    requires Well(ts) && !Neutral(closer)
    ensures TitleEnd(Render(ts), Off(ts, k), closer) == Off(ts, TitleEnd(Shape(ts), k, closer))
    decreases |ts| - k
  {
    hide Off, Render, Shape, Shut, ShapeShut, Well, Tok.Well;
    Seen(ts, k);
    if k < |ts| && ts[k].Word? {
      TitlePass(Render(ts), Off(ts, k), Off(ts, k + 1), closer);
      TitleTok(ts, k + 1, closer);
    } else if k < |ts| && ts[k].c != closer {
      if ts[k].c == '\\' {
        EscapeLands(ts, k);
        TitlePass(Render(ts), Off(ts, k) + 2, Off(ts, k + 2), closer);
        TitleTok(ts, k + 2, closer);
      } else {
        TitleTok(ts, k + 1, closer);
      }
    }
  }

  lemma {:induction false} AngleTok(ts: seq<Tok>, k: nat)
    requires Well(ts)
    ensures AngleEnd(Render(ts), Off(ts, k)) == Off(ts, AngleEnd(Shape(ts), k))
    decreases |ts| - k
  {
    hide Off, Render, Shape, Shut, ShapeShut, Well, Tok.Well;
    Seen(ts, k);
    if k < |ts| && ts[k].Word? {
      AnglePass(Render(ts), Off(ts, k), Off(ts, k + 1));
      AngleTok(ts, k + 1);
    } else if k < |ts| && ts[k].c != '>' && ts[k].c != '\n' {
      if ts[k].c == '\\' {
        EscapeLands(ts, k);
        AnglePass(Render(ts), Off(ts, k) + 2, Off(ts, k + 2));
        AngleTok(ts, k + 2);
      } else {
        AngleTok(ts, k + 1);
      }
    }
  }

  lemma {:induction false} BareTok(ts: seq<Tok>, k: nat, depth: nat)
    requires Well(ts)
    ensures BareEnd(Render(ts), Off(ts, k), depth) == Off(ts, BareEnd(Shape(ts), k, depth))
    decreases |ts| - k
  {
    hide Off, Render, Shape, Shut, ShapeShut, Well, Tok.Well;
    Seen(ts, k);
    if k < |ts| && ts[k].Word? {
      BarePass(Render(ts), Off(ts, k), Off(ts, k + 1), depth);
      BareTok(ts, k + 1, depth);
    } else if k < |ts| {
      var c := ts[k].c;
      if c == '\\' {
        EscapeLands(ts, k);
        BarePass(Render(ts), Off(ts, k) + 2, Off(ts, k + 2), depth);
        BareTok(ts, k + 2, depth);
      } else if c == '(' {
        BareTok(ts, k + 1, depth + 1);
      } else if c == ')' {
        if depth > 0 { BareTok(ts, k + 1, depth - 1); }
      } else if !IsMDSpace(c) {
        BareTok(ts, k + 1, depth);
      }
    }
  }

  lemma SkipTitleTok(ts: seq<Tok>, k: nat)
    requires Well(ts)
    ensures SkipTitle(Render(ts), Off(ts, k)) == Off(ts, SkipTitle(Shape(ts), k))
  {
    hide Off, Render, Shape, Shut, ShapeShut, Well, Tok.Well;
    hide TitleEnd;
    Seen(ts, k);
    if k < |ts| && ts[k].Word? {
      assert Neutral(Render(ts)[Off(ts, k)]);
    } else if k < |ts| && OpensTitle(ts[k].c) {
      var q := TitleCloser(ts[k].c);
      TitleTok(ts, k + 1, q);
      var e := TitleEnd(Shape(ts), k + 1, q);
      TitleStops(Shape(ts), k + 1, q);
      Seen(ts, e);
    }
  }

  /** A title ends at its closer or beyond the document. */
  lemma {:induction false} TitleStops(s: Doc, i: nat, closer: char)
    ensures TitleEnd(s, i, closer) < |s| ==> s[TitleEnd(s, i, closer)] == closer
    decreases |s| - i
  {
    if i < |s| && s[i] != closer {
      TitleStops(s, Step(s, i), closer);
    }
  }

  function OffOption(ts: seq<Tok>, k: Option<nat>): Option<nat> {
    match k
    case Some(i) => Some(Off(ts, i))
    case None => None
  }

  function OffLink(ts: seq<Tok>, l: Link): Link {
    Link(Off(ts, l.start), Off(ts, l.stop), Off(ts, l.after))
  }

  function OffLinks(ts: seq<Tok>, ls: seq<Link>): seq<Link> {
    if ls == [] then [] else [OffLink(ts, ls[0])] + OffLinks(ts, ls[1..])
  }

  lemma ClosingParenTok(ts: seq<Tok>, k: nat)
    requires Well(ts)
    ensures ClosingParen(Render(ts), Off(ts, k)) == OffOption(ts, ClosingParen(Shape(ts), k))
  {
    hide Off, Render, Shape, Shut, ShapeShut, Well, Tok.Well;
    hide SkipSpaces, SkipTitle;
    var a := SkipSpaces(Shape(ts), k);
    var b := SkipTitle(Shape(ts), a);
    var e := SkipSpaces(Shape(ts), b);
    SkipSpacesTok(ts, k);
    SkipTitleTok(ts, a);
    SkipSpacesTok(ts, b);
    Seen(ts, e);
    if e < |ts| && ts[e].Word? {
      assert Neutral(Render(ts)[Off(ts, e)]);
    }
  }

  lemma ParseTok(ts: seq<Tok>, k: nat)
    requires Well(ts)
    ensures ParseInlineDestination(Render(ts), Off(ts, k)) ==
            match ParseInlineDestination(Shape(ts), k)
            case Some(l) => Some(OffLink(ts, l))
            case None => None
  {
    hide Off, Render, Shape, Shut, ShapeShut, Well, Tok.Well;
    hide AngleEnd, BareEnd, ClosingParen, SkipSpaces;
    var j := SkipSpaces(Shape(ts), k);
    SkipSpacesTok(ts, k);
    Seen(ts, j);
    if j < |ts| {
      if ts[j].Byte? && ts[j].c == '<' {
        var e := AngleEnd(Shape(ts), j + 1);
        AngleTok(ts, j + 1);
        Seen(ts, e);
        if e < |ts| && ts[e].Word? {
          assert Neutral(Render(ts)[Off(ts, e)]);
        }
        ClosingParenTok(ts, e + 1);
      } else {
        if ts[j].Word? {
          assert Neutral(Render(ts)[Off(ts, j)]);
        }
        BareTok(ts, j, 0);
        ClosingParenTok(ts, BareEnd(Shape(ts), j, 0));
      }
    }
  }

  lemma {:induction false} LinkAtTok(ts: seq<Tok>, k: nat)
    requires Well(ts) && k < |ts| && ts[k].Byte?
    ensures |Shut(ts)| == |Render(ts)| && Off(ts, k) < |Render(ts)|
    ensures LinkAt(Render(ts), Shut(ts), Off(ts, k)) ==
            match LinkAt(Shape(ts), ShapeShut(ts), k)
            case Some(l) => Some(OffLink(ts, l))
            case None => None
  {
    hide Off, Render, Shape, Shut, ShapeShut, Well, Tok.Well;
    hide ParseInlineDestination;
    Seen(ts, k);
    Seen(ts, k + 1);
    if k + 1 < |ts| {
      if ts[k + 1].Word? {
        assert Neutral(Render(ts)[Off(ts, k + 1)]);
      } else {
        ParseTok(ts, k + 2);
      }
    }
  }

  /** The scan of a document is the scan of its shape, carried to the tokens' positions. */
  lemma {:induction false} ScanTok(ts: seq<Tok>, k: nat, depth: nat)
    requires Well(ts)
    ensures |Shut(ts)| == |Render(ts)|
    ensures ScanLinks(Render(ts), Shut(ts), Off(ts, k), depth) ==
            OffLinks(ts, ScanLinks(Shape(ts), ShapeShut(ts), k, depth))
    decreases |ts| - k
  {
    hide Off, Render, Shape, Shut, ShapeShut, Well, Tok.Well;
    hide LinkAt;
    Seen(ts, k);
    if k < |ts| && ts[k].Word? {
      ScanPass(Render(ts), Shut(ts), Off(ts, k), Off(ts, k + 1), depth);
      ScanTok(ts, k + 1, depth);
    } else if k < |ts| {
      var c, shut := ts[k].c, ts[k].shut;
      if c == '\\' {
        EscapeLands(ts, k);
        ScanPass(Render(ts), Shut(ts), Off(ts, k) + 2, Off(ts, k + 2), depth);
        ScanTok(ts, k + 2, depth);
      } else if c == ']' && depth > 0 && !shut {
        LinkAtTok(ts, k);
        match LinkAt(Shape(ts), ShapeShut(ts), k)
        case Some(l) => ScanTok(ts, l.after, depth - 1);
        case None => ScanTok(ts, k + 1, depth - 1);
      } else {
        ScanTok(ts, k + 1, if c == '[' && !shut then depth + 1 else depth);
      }
    }
  }
}
