/**
 * Replacing neutral stretches of a document by neutral text: what the scan of the
 * edited document finds, link by link.
 */
module LinkSubst {
  import opened Wrappers
  import opened LinkScan
  import opened LinkTokens

  /** `text` takes the place of the bytes from `start` to `stop`. */
  datatype Edit = Edit(start: nat, stop: nat, text: string)

  /** Edits in order, each of a non-empty neutral stretch by non-empty neutral text. */
  ghost predicate EditsOk(s: Doc, from: nat, edits: seq<Edit>)
    decreases |edits|
  {
    if edits == [] then from <= |s|
    else
      && from <= edits[0].start < edits[0].stop <= |s|
      && NeutralText(s[edits[0].start..edits[0].stop])
      && edits[0].text != "" && NeutralText(edits[0].text)
      && EditsOk(s, edits[0].stop, edits[1..])
  }

  /** The edited document from position `from` on. */
  function Splice(s: Doc, from: nat, edits: seq<Edit>): Doc
    decreases |edits|
  {
    if edits == [] then (if from <= |s| then s[from..] else "")
    else if from <= edits[0].start <= |s| then s[from..edits[0].start] + edits[0].text + Splice(s, edits[0].stop, edits[1..])
    else ""
  }

  /** The edited document's protected bytes are the original's, shifted; those of inserted text are arbitrary. */
  ghost predicate Shifted(shut: seq<bool>, from: nat, edits: seq<Edit>, shut': seq<bool>)
    decreases |edits|
  {
    if edits == [] then from <= |shut| && shut' == shut[from..]
    else
      var e := edits[0];
      var n := e.start - from;
      && from <= e.start <= |shut|
      && n + |e.text| <= |shut'|
      && shut'[..n] == shut[from..e.start]
      && Shifted(shut, e.stop, edits[1..], shut'[n + |e.text|..])
  }

  function Bytes(s: Doc, shut: seq<bool>): seq<Tok>
    requires |shut| == |s|
  {
    seq(|s|, i requires 0 <= i < |s| => Byte(s[i], shut[i]))
  }

  ghost function Tokens(s: Doc, shut: seq<bool>, from: nat, edits: seq<Edit>): seq<Tok>
    requires |shut| == |s| && EditsOk(s, from, edits)
    decreases |edits|
  {
    if edits == [] then Bytes(s[from..], shut[from..])
    else
      var e := edits[0];
      Bytes(s[from..e.start], shut[from..e.start])
      + [Word(s[e.start..e.stop], shut[e.start..e.stop])]
      + Tokens(s, shut, e.stop, edits[1..])
  }

  ghost function NewTokens(s: Doc, shut: seq<bool>, from: nat, edits: seq<Edit>, shut': seq<bool>): seq<Tok>
    requires |shut| == |s| && EditsOk(s, from, edits) && Shifted(shut, from, edits, shut')
    decreases |edits|
  {
    if edits == [] then Bytes(s[from..], shut[from..])
    else
      var e := edits[0];
      var n := e.start - from;
      Bytes(s[from..e.start], shut[from..e.start])
      + [Word(e.text, shut'[n..n + |e.text|])]
      + NewTokens(s, shut, e.stop, edits[1..], shut'[n + |e.text|..])
  }

  // ------------------------------------------------------------ token arithmetic

  lemma {:induction false} BytesRender(s: Doc, shut: seq<bool>)
    requires |shut| == |s|
    ensures Render(Bytes(s, shut)) == s && Shut(Bytes(s, shut)) == shut && Well(Bytes(s, shut))
    decreases |s|
  {
    if s != "" {
      BytesRender(s[1..], shut[1..]);
      assert Bytes(s, shut)[1..] == Bytes(s[1..], shut[1..]);
    }
  }

  lemma {:induction false} RenderConcat(a: seq<Tok>, b: seq<Tok>)
    ensures Render(a + b) == Render(a) + Render(b)
    ensures Shut(a + b) == Shut(a) + Shut(b)
    decreases |a|
  {
    hide Tok.Text, Tok.Shuts;
    if a == [] {
      assert a + b == b;
    } else {
      RenderConcat(a[1..], b);
      assert (a + b)[0] == a[0] && (a + b)[1..] == a[1..] + b;
    }
  }

  lemma RenderOne(t: Tok)
    ensures Render([t]) == t.Text() && Shut([t]) == t.Shuts()
  {
    assert [t][1..] == [];
  }

  lemma RenderThree(a: seq<Tok>, t: Tok, b: seq<Tok>)
    ensures Render(a + [t] + b) == Render(a) + t.Text() + Render(b)
    ensures Shut(a + [t] + b) == Shut(a) + t.Shuts() + Shut(b)
  {
    RenderConcat(a + [t], b);
    RenderConcat(a, [t]);
    RenderOne(t);
  }

  /** Offsets are the lengths of rendered prefixes. */
  lemma {:induction false} OffIsLength(ts: seq<Tok>, k: nat)
    requires k <= |ts|
    ensures Off(ts, k) == |Render(ts[..k])|
    decreases k
  {
    if k > 0 {
      OffIsLength(ts[1..], k - 1);
      assert ts[..k][1..] == ts[1..][..k - 1];
    }
  }

  /** The bytes between two token boundaries are the tokens between them. */
  lemma RenderBetween(ts: seq<Tok>, i: nat, j: nat)
    requires i <= j <= |ts|
    ensures Off(ts, i) <= Off(ts, j) <= |Render(ts)|
    ensures Render(ts)[Off(ts, i)..Off(ts, j)] == Render(ts[i..j])
  {
    hide Off, Render, Shut;
    OffIsLength(ts, i);
    OffIsLength(ts, j);
    RenderConcat(ts[..i], ts[i..j]);
    RenderConcat(ts[..j], ts[j..]);
    assert ts[..i] + ts[i..j] == ts[..j] && ts[..j] + ts[j..] == ts;
  }

  lemma {:induction false} OffStrict(ts: seq<Tok>, i: nat, j: nat)
    requires Well(ts) && i < j <= |ts|
    ensures Off(ts, i) < Off(ts, j)
    decreases j - i
  {
    Seen(ts, j - 1);
    if i < j - 1 { OffStrict(ts, i, j - 1); }
  }

  // ------------------------------------------------------- tokens of an edited document

  lemma WellThree(a: seq<Tok>, t: Tok, b: seq<Tok>)
    requires Well(a) && t.Well() && Well(b)
    ensures Well(a + [t] + b)
  {
  }

  lemma ThreeSlices<T>(s: seq<T>, a: nat, b: nat, c: nat)
    requires a <= b <= c <= |s|
    ensures s[a..b] + s[b..c] + s[c..] == s[a..]
  {
  }

  /** The tokens render the original document. */
  lemma {:induction false} TokensRender(s: Doc, shut: seq<bool>, from: nat, edits: seq<Edit>)
    requires |shut| == |s| && EditsOk(s, from, edits)
    ensures var t := Tokens(s, shut, from, edits); Well(t) && Render(t) == s[from..] && Shut(t) == shut[from..]
    decreases |edits|
  {
    if edits == [] {
      BytesRender(s[from..], shut[from..]);
    } else {
      var e := edits[0];
      var lead := Bytes(s[from..e.start], shut[from..e.start]);
      var w := Word(s[e.start..e.stop], shut[e.start..e.stop]);
      var rest := Tokens(s, shut, e.stop, edits[1..]);
      assert w.Well();
      TokensRender(s, shut, e.stop, edits[1..]);
      hide Render, Shut, Well, NeutralText, Bytes, Tok.Well;
      BytesRender(s[from..e.start], shut[from..e.start]);
      RenderThree(lead, w, rest);
      WellThree(lead, w, rest);
      ThreeSlices(s, from, e.start, e.stop);
      ThreeSlices(shut, from, e.start, e.stop);
    }
  }

  /** The new tokens render the edited document. */
  lemma {:induction false} NewTokensRender(s: Doc, shut: seq<bool>, from: nat, edits: seq<Edit>, shut': seq<bool>)
    requires |shut| == |s| && EditsOk(s, from, edits) && Shifted(shut, from, edits, shut')
    ensures var t := NewTokens(s, shut, from, edits, shut'); Well(t) && Render(t) == Splice(s, from, edits) && Shut(t) == shut'
    decreases |edits|
  {
    if edits == [] {
      BytesRender(s[from..], shut[from..]);
    } else {
      var e := edits[0];
      var n := e.start - from;
      var lead := Bytes(s[from..e.start], shut[from..e.start]);
      var w := Word(e.text, shut'[n..n + |e.text|]);
      var shut'' := shut'[n + |e.text|..];
      var rest := NewTokens(s, shut, e.stop, edits[1..], shut'');
      assert w.Well();
      NewTokensRender(s, shut, e.stop, edits[1..], shut'');
      hide Render, Shut, Well, NeutralText, Bytes, Tok.Well;
      BytesRender(s[from..e.start], shut[from..e.start]);
      RenderThree(lead, w, rest);
      WellThree(lead, w, rest);
      ThreeSlices(shut', 0, n, n + |e.text|);
    }
  }

  /** Token by token: bytes are kept, words answer words. */
  ghost predicate Alike(t: seq<Tok>, t': seq<Tok>) {
    |t| == |t'| && forall i :: 0 <= i < |t| ==> (t[i].Byte? ==> t'[i] == t[i]) && (t[i].Word? ==> t'[i].Word?)
  }

  lemma {:induction false} TokensAlike(s: Doc, shut: seq<bool>, from: nat, edits: seq<Edit>, shut': seq<bool>)
    requires |shut| == |s| && EditsOk(s, from, edits) && Shifted(shut, from, edits, shut')
    ensures Alike(Tokens(s, shut, from, edits), NewTokens(s, shut, from, edits, shut'))
    decreases |edits|
  {
    if edits != [] {
      var e := edits[0];
      var n := e.start - from;
      var shut'' := shut'[n + |e.text|..];
      TokensAlike(s, shut, e.stop, edits[1..], shut'');
      AlikeThree(Bytes(s[from..e.start], shut[from..e.start]), Word(s[e.start..e.stop], shut[e.start..e.stop]),
                 Word(e.text, shut'[n..n + |e.text|]),
                 Tokens(s, shut, e.stop, edits[1..]), NewTokens(s, shut, e.stop, edits[1..], shut''));
    }
  }

  lemma AlikeThree(a: seq<Tok>, w: Tok, w': Tok, b: seq<Tok>, b': seq<Tok>)
    requires w.Word? && w'.Word? && Alike(b, b')
    requires forall i :: 0 <= i < |a| ==> a[i].Byte?
    ensures Alike(a + [w] + b, a + [w'] + b')
  {
    var t, t' := a + [w] + b, a + [w'] + b';
    forall i | 0 <= i < |t| ensures (t[i].Byte? ==> t'[i] == t[i]) && (t[i].Word? ==> t'[i].Word?) {
      if i > |a| {
        assert t[i] == b[i - |a| - 1] && t'[i] == b'[i - |a| - 1];
      }
    }
  }

  lemma SameShape(t: seq<Tok>, t': seq<Tok>)
    requires Alike(t, t')
    ensures Shape(t) == Shape(t') && ShapeShut(t) == ShapeShut(t')
  {
  }

  /** Token `i` carries edit `e`, the tokens starting at position `from`. */
  ghost predicate Carries(t: seq<Tok>, t': seq<Tok>, from: nat, i: nat, e: Edit)
    requires i < |t| == |t'|
  {
    t[i].Word? && t'[i].Word? && t'[i].text == e.text && e.start == from + Off(t, i) && e.stop == from + Off(t, i + 1)
  }

  lemma OffAfter(a: seq<Tok>, b: seq<Tok>, k: nat)
    requires k <= |b|
    ensures Off(a + b, |a| + k) == |Render(a)| + Off(b, k)
  {
    OffIsLength(a + b, |a| + k);
    OffIsLength(b, k);
    assert (a + b)[..|a| + k] == a + b[..k];
    RenderConcat(a, b[..k]);
  }

  ghost predicate WordHasEdit(t: seq<Tok>, t': seq<Tok>, from: nat, edits: seq<Edit>, i: nat)
    requires i < |t| == |t'|
  {
    exists e :: e in edits && Carries(t, t', from, i, e)
  }

  ghost predicate EditHasWord(t: seq<Tok>, t': seq<Tok>, from: nat, e: Edit)
    requires |t| == |t'|
  {
    exists i :: 0 <= i < |t| && Carries(t, t', from, i, e)
  }

  /** Words and edits correspond. */
  ghost predicate WordsAreEdits(t: seq<Tok>, t': seq<Tok>, from: nat, edits: seq<Edit>)
    requires |t| == |t'|
  {
    && (forall i :: 0 <= i < |t| && t[i].Word? ==> WordHasEdit(t, t', from, edits, i))
    && (forall e :: e in edits ==> EditHasWord(t, t', from, e))
  }

  lemma {:induction false} TokenWords(s: Doc, shut: seq<bool>, from: nat, edits: seq<Edit>, shut': seq<bool>)
    requires |shut| == |s| && EditsOk(s, from, edits) && Shifted(shut, from, edits, shut')
    ensures Alike(Tokens(s, shut, from, edits), NewTokens(s, shut, from, edits, shut'))
    ensures WordsAreEdits(Tokens(s, shut, from, edits), NewTokens(s, shut, from, edits, shut'), from, edits)
    decreases |edits|
  {
    TokensAlike(s, shut, from, edits, shut');
    if edits != [] {
      var e := edits[0];
      var n := e.start - from;
      var lead := Bytes(s[from..e.start], shut[from..e.start]);
      var shut'' := shut'[n + |e.text|..];
      TokenWords(s, shut, e.stop, edits[1..], shut'');
      BytesRender(s[from..e.start], shut[from..e.start]);
      hide Alike, Render, Shut, NeutralText, WordsAreEdits, Off;
      WordsOfThree(lead, Word(s[e.start..e.stop], shut[e.start..e.stop]), Tokens(s, shut, e.stop, edits[1..]),
                   Word(e.text, shut'[n..n + |e.text|]), NewTokens(s, shut, e.stop, edits[1..], shut''), from, e, edits[1..]);
      assert [e] + edits[1..] == edits;
    }
  }

  lemma CarriesShift(a: seq<Tok>, b: seq<Tok>, a': seq<Tok>, b': seq<Tok>, from: nat, mid: nat, i: nat, e: Edit)
    requires |a| == |a'| && i < |b| == |b'| && from + |Render(a)| == mid
    ensures Carries(a + b, a' + b', from, |a| + i, e) <==> Carries(b, b', mid, i, e)
  {
    OffAfter(a, b, i);
    OffAfter(a, b, i + 1);
  }

  lemma CarriesFirst(lead: seq<Tok>, w: Tok, rest: seq<Tok>, w': Tok, rest': seq<Tok>, from: nat, e: Edit)
    requires |rest| == |rest'| && w.Word? && w'.Word? && w'.text == e.text
    requires from + |Render(lead)| == e.start && e.start + |w.text| == e.stop
    ensures Carries(lead + [w] + rest, lead + [w'] + rest', from, |lead|, e)
  {
    assert lead + [w] + rest == lead + ([w] + rest);
    OffAfter(lead, [w] + rest, 0);
    OffAfter(lead, [w] + rest, 1);
    assert Off([w] + rest, 1) == |w.text| by { assert ([w] + rest)[0] == w; }
  }

  /** A prefix and its counterpart, ending in one word that carries `e`. */
  ghost predicate Carrier(a: seq<Tok>, a': seq<Tok>, from: nat, e: Edit) {
    && |a| == |a'| > 0 && from + |Render(a)| == e.stop
    && forall i :: 0 <= i < |a| - 1 ==> a[i].Byte?
  }

  lemma WordOfThree(a: seq<Tok>, rest: seq<Tok>, a': seq<Tok>, rest': seq<Tok>, from: nat, e: Edit, more: seq<Edit>, i: nat)
    requires |rest| == |rest'| && Carrier(a, a', from, e)
    requires Carries(a + rest, a' + rest', from, |a| - 1, e)
    requires forall k :: 0 <= k < |rest| && rest[k].Word? ==> WordHasEdit(rest, rest', e.stop, more, k)
    requires i < |a + rest| && (a + rest)[i].Word?
    ensures WordHasEdit(a + rest, a' + rest', from, [e] + more, i)
  {
    hide Carries, Off, Render;
    if i >= |a| {
      var k := i - |a|;
      assert WordHasEdit(rest, rest', e.stop, more, k);
      var f :| f in more && Carries(rest, rest', e.stop, k, f);
      CarriesShift(a, rest, a', rest', from, e.stop, k, f);
      assert f in [e] + more;
    } else {
      assert e in [e] + more && i == |a| - 1;
    }
  }

  lemma EditOfThree(a: seq<Tok>, rest: seq<Tok>, a': seq<Tok>, rest': seq<Tok>, from: nat, e: Edit, more: seq<Edit>, f: Edit)
    requires |rest| == |rest'| && Carrier(a, a', from, e)
    requires Carries(a + rest, a' + rest', from, |a| - 1, e)
    requires forall g :: g in more ==> EditHasWord(rest, rest', e.stop, g)
    requires f in [e] + more
    ensures EditHasWord(a + rest, a' + rest', from, f)
  {
    hide Carries, Off, Render;
    if f != e {
      assert f in more && EditHasWord(rest, rest', e.stop, f);
      var k :| 0 <= k < |rest| && Carries(rest, rest', e.stop, k, f);
      CarriesShift(a, rest, a', rest', from, e.stop, k, f);
      assert Carries(a + rest, a' + rest', from, |a| + k, f);
    }
  }

  lemma WordsOfThree(lead: seq<Tok>, w: Tok, rest: seq<Tok>, w': Tok, rest': seq<Tok>, from: nat, e: Edit, more: seq<Edit>)
    requires |rest| == |rest'| && w.Word? && w'.Word? && w'.text == e.text
    requires forall i :: 0 <= i < |lead| ==> lead[i].Byte?
    requires from + |Render(lead)| == e.start && e.start + |w.text| == e.stop
    requires WordsAreEdits(rest, rest', e.stop, more)
    ensures WordsAreEdits(lead + [w] + rest, lead + [w'] + rest', from, [e] + more)
  {
    hide Carries, Off, Render, WordHasEdit, EditHasWord;
    var a, a' := lead + [w], lead + [w'];
    CarriesFirst(lead, w, rest, w', rest', from, e);
    RenderConcat(lead, [w]);
    RenderOne(w);
    assert Carrier(a, a', from, e);
    forall i | 0 <= i < |a + rest| && (a + rest)[i].Word? ensures WordHasEdit(a + rest, a' + rest', from, [e] + more, i) {
      WordOfThree(a, rest, a', rest', from, e, more, i);
    }
    forall f | f in [e] + more ensures EditHasWord(a + rest, a' + rest', from, f) {
      EditOfThree(a, rest, a', rest', from, e, more, f);
    }
  }

  // --------------------------------------------------- scanning an edited document

  lemma {:induction false} OffLinksAt(ts: seq<Tok>, ls: seq<Link>, k: nat)
    requires k < |ls|
    ensures |OffLinks(ts, ls)| == |ls| && OffLinks(ts, ls)[k] == OffLink(ts, ls[k])
  {
    OffLinksLength(ts, ls);
    if k > 0 {
      OffLinksAt(ts, ls[1..], k - 1);
    }
  }

  lemma {:induction false} OffLinksLength(ts: seq<Tok>, ls: seq<Link>)
    ensures |OffLinks(ts, ls)| == |ls|
  {
    if ls != [] {
      OffLinksLength(ts, ls[1..]);
    }
  }

  /** The shared shape's links, found in both documents at the tokens' positions. */
  lemma {:induction false} ScanEdited(s: Doc, shut: seq<bool>, edits: seq<Edit>, shut': seq<bool>)
    returns (t: seq<Tok>, t': seq<Tok>, shape: seq<Link>)
    requires |shut| == |s| && EditsOk(s, 0, edits) && Shifted(shut, 0, edits, shut')
    ensures t == Tokens(s, shut, 0, edits) && t' == NewTokens(s, shut, 0, edits, shut')
    ensures Well(t) && Well(t') && Alike(t, t') && WordsAreEdits(t, t', 0, edits)
    ensures Render(t) == s && Render(t') == Splice(s, 0, edits) && |shut'| == |Splice(s, 0, edits)|
    ensures ScanLinks(s, shut, 0, 0) == OffLinks(t, shape)
    ensures ScanLinks(Splice(s, 0, edits), shut', 0, 0) == OffLinks(t', shape)
    ensures Ordered(shape, 0, |t|)
  {
    hide Tokens, NewTokens, EditsOk, Shifted, ScanLinks, OffLinks;
    t, t' := Tokens(s, shut, 0, edits), NewTokens(s, shut, 0, edits, shut');
    TokensRender(s, shut, 0, edits);
    NewTokensRender(s, shut, 0, edits, shut');
    TokenWords(s, shut, 0, edits, shut');
    assert s[0..] == s && shut[0..] == shut;
    RenderLengths(t');
    shape := ScanLinks(Shape(t), ShapeShut(t), 0, 0);
    ScanOrdered(Shape(t), ShapeShut(t), 0, 0);
    SameShape(t, t');
    ScanTok(t, 0, 0);
    ScanTok(t', 0, 0);
    assert Off(t, 0) == 0 && Off(t', 0) == 0;
  }

  ghost predicate Outside(e: Edit, l: Link) {
    !(l.start <= e.start < l.stop)
  }

  /** Tokens between two boundaries that no edit starts between are the same in both documents. */
  lemma {:induction false} UneditedBetween(t: seq<Tok>, t': seq<Tok>, edits: seq<Edit>, i: nat, j: nat)
    requires Well(t) && Alike(t, t') && WordsAreEdits(t, t', 0, edits) && i <= j <= |t|
    requires forall e :: e in edits ==> !(Off(t, i) <= e.start < Off(t, j))
    ensures t'[i..j] == t[i..j]
  {
    hide WordsAreEdits, Off, Well, Alike;
    AlikeLength(t, t');
    forall k | i <= k < j ensures t'[k] == t[k] {
      UneditedToken(t, t', edits, i, j, k);
    }
  }

  lemma {:induction false} UneditedToken(t: seq<Tok>, t': seq<Tok>, edits: seq<Edit>, i: nat, j: nat, k: nat)
    requires Well(t) && Alike(t, t') && WordsAreEdits(t, t', 0, edits) && i <= k < j <= |t|
    requires forall e :: e in edits ==> !(Off(t, i) <= e.start < Off(t, j))
    ensures t'[k] == t[k]
  {
    hide Off, Well;
    if t[k].Word? {
      var e := EditOfWord(t, t', edits, k);
      if i < k { OffStrict(t, i, k); }
      OffStrict(t, k, j);
    }
  }

  lemma EditOfWord(t: seq<Tok>, t': seq<Tok>, edits: seq<Edit>, k: nat) returns (e: Edit)
    requires |t| == |t'| && WordsAreEdits(t, t', 0, edits) && k < |t| && t[k].Word?
    ensures e in edits && e.start == Off(t, k)
  {
    hide EditHasWord, Off;
    assert WordHasEdit(t, t', 0, edits, k);
    e :| e in edits && Carries(t, t', 0, k, e);
  }

  /** Same number of links; a link without edits keeps its destination. */
  lemma UneditedLink(s: Doc, shut: seq<bool>, edits: seq<Edit>, shut': seq<bool>, k: nat)
    requires |shut| == |s| && EditsOk(s, 0, edits) && Shifted(shut, 0, edits, shut')
    requires k < |ScanLinks(s, shut, 0, 0)|
    requires forall e :: e in edits ==> Outside(e, ScanLinks(s, shut, 0, 0)[k])
    ensures |shut'| == |Splice(s, 0, edits)|
    ensures var out, l := Splice(s, 0, edits), ScanLinks(s, shut, 0, 0)[k];
            var links' := ScanLinks(out, shut', 0, 0);
            && |links'| == |ScanLinks(s, shut, 0, 0)|
            && links'[k].start <= links'[k].stop <= |out| && l.start <= l.stop <= |s|
            && out[links'[k].start..links'[k].stop] == s[l.start..l.stop]
  {
    hide Tokens, NewTokens, EditsOk, Shifted, ScanLinks, Splice, OffLinks, Render, Off, Alike, Well, WordsAreEdits;
    var t, t', shape := ScanEdited(s, shut, edits, shut');
    OffLinksLength(t, shape);
    OffLinksLength(t', shape);
    OffLinksAt(t, shape, k);
    OffLinksAt(t', shape, k);
    AlikeLength(t, t');
    var a, b := shape[k].start, shape[k].stop;
    assert forall e :: e in edits ==> Outside(e, ScanLinks(s, shut, 0, 0)[k]) && !(Off(t, a) <= e.start < Off(t, b));
    UneditedBetween(t, t', edits, a, b);
    RenderBetween(t, a, b);
    RenderBetween(t', a, b);
  }

  lemma AlikeLength(t: seq<Tok>, t': seq<Tok>)
    requires Alike(t, t')
    ensures |t| == |t'|
  {
  }

  lemma LinkCount(s: Doc, shut: seq<bool>, edits: seq<Edit>, shut': seq<bool>)
    requires |shut| == |s| && EditsOk(s, 0, edits) && Shifted(shut, 0, edits, shut')
    ensures |shut'| == |Splice(s, 0, edits)|
    ensures |ScanLinks(Splice(s, 0, edits), shut', 0, 0)| == |ScanLinks(s, shut, 0, 0)|
  {
    hide *;
    var t, t', shape := ScanEdited(s, shut, edits, shut');
    OffLinksLength(t, shape);
    OffLinksLength(t', shape);
  }

  lemma WordOfEdit(t: seq<Tok>, t': seq<Tok>, edits: seq<Edit>, e: Edit) returns (i: nat)
    requires |t| == |t'| && WordsAreEdits(t, t', 0, edits) && e in edits
    ensures i < |t| && Carries(t, t', 0, i, e)
  {
    hide Carries, WordHasEdit;
    assert EditHasWord(t, t', 0, e);
    i :| 0 <= i < |t| && Carries(t, t', 0, i, e);
  }

  /** The token that carries an edit, found by where the edit starts. */
  lemma EditToken(t: seq<Tok>, t': seq<Tok>, edits: seq<Edit>, e: Edit, a: nat)
    requires Well(t) && Alike(t, t') && WordsAreEdits(t, t', 0, edits) && e in edits
    requires a <= |t| && Off(t, a) == e.start
    ensures a < |t| && Carries(t, t', 0, a, e)
  {
    hide Off, Well, Tok.Well;
    var i := WordOfEdit(t, t', edits, e);
    hide WordsAreEdits, Alike;
    if i < a { OffStrict(t, i, a); }
    if a < i { OffStrict(t, a, i); }
  }

  lemma RenderFirst(t: seq<Tok>, a: nat, b: nat)
    requires a < b <= |t|
    ensures Render(t[a..b]) == t[a].Text() + Render(t[a + 1..b])
  {
    assert t[a..b][0] == t[a] && t[a..b][1..] == t[a + 1..b];
  }

  /** A link whose destination one edit begins shows the edit's text and then the destination's rest. */
  lemma EditedLink(s: Doc, shut: seq<bool>, edits: seq<Edit>, shut': seq<bool>, k: nat, e: Edit)
    requires |shut| == |s| && EditsOk(s, 0, edits) && Shifted(shut, 0, edits, shut')
    requires k < |ScanLinks(s, shut, 0, 0)| && e in edits
    requires var l := ScanLinks(s, shut, 0, 0)[k];
             l.start == e.start < e.stop <= l.stop && forall f :: f in edits && f != e ==> Outside(f, l)
    ensures |shut'| == |Splice(s, 0, edits)|
    ensures var out, l := Splice(s, 0, edits), ScanLinks(s, shut, 0, 0)[k];
            var links' := ScanLinks(out, shut', 0, 0);
            && |links'| == |ScanLinks(s, shut, 0, 0)|
            && links'[k].start <= links'[k].stop <= |out| && e.stop <= l.stop <= |s|
            && out[links'[k].start..links'[k].stop] == e.text + s[e.stop..l.stop]
  {
    hide Tokens, NewTokens, EditsOk, Shifted, ScanLinks, Splice, OffLinks, Render, Off, Alike, Well, WordsAreEdits;
    var t, t', shape := ScanEdited(s, shut, edits, shut');
    OffLinksLength(t, shape);
    OffLinksLength(t', shape);
    OffLinksAt(t, shape, k);
    OffLinksAt(t', shape, k);
    AlikeLength(t, t');
    var l := ScanLinks(s, shut, 0, 0)[k];
    var a, b := shape[k].start, shape[k].stop;
    EditToken(t, t', edits, e, a);
    RenderBetween(t, a, b);
    RenderBetween(t', a, b);
    assert a < b;
    OffStep(t, a);
    forall f | f in edits ensures !(Off(t, a + 1) <= f.start < Off(t, b)) {
      if f != e { assert Outside(f, l); }
    }
    UneditedBetween(t, t', edits, a + 1, b);
    RenderFirst(t', a, b);
    RenderBetween(t, a + 1, b);
  }

  lemma OffStep(t: seq<Tok>, a: nat)
    requires Well(t) && a < |t|
    ensures Off(t, a) < Off(t, a + 1)
  {
    Seen(t, a);
  }
}
